/**
File: names for dimensions. Dimensions of one size share a made-up name across the
variables of a file, but never inside one variable (CF Conventions, section 2.4).
*/
module FakeDims {
  import opened Lists
  import opened Outcome
  import opened UniqueNames
  import opened Numerals

  class Dimension {
    const size: nat
    var name: string
    var newname: string

    constructor (size: nat)
      ensures this.size == size && name == "" && newname == ""
    {
      this.size, name, newname := size, "", "";
    }
  }

  function FakeDimName(k: nat): string {
    "FakeDim" + Decimal(k)
  }

  ghost predicate IsFake(name: string) {
    exists k: nat :: name == FakeDimName(k)
  }

  lemma FakeDimNameInjective(j: nat, k: nat)
    requires FakeDimName(j) == FakeDimName(k)
    ensures j == k
  {
    assert FakeDimName(j) == Numbered("FakeDim", j) && FakeDimName(k) == Numbered("FakeDim", k);
    NumberedInjective("FakeDim", j, k);
  }

  /** The size and the name of each dimension. */
  ghost function Labels(dims: seq<Dimension>): (labels: seq<(nat, string)>)
    reads dims
    ensures |labels| == |dims|
  {
    seq(|dims|, i requires 0 <= i < |dims| reads dims => (dims[i].size, dims[i].name))
  }

  /**
  What naming the dimensions of one variable achieves: every name is recorded with the
  size it stands for, no two names are equal, and the first made-up name of each size
  is the one that size shares across variables.
  */
  ghost predicate Fit(labels: seq<(nat, string)>, sizeOf: map<string, nat>, sharedName: map<nat, string>) {
    && (forall i :: 0 <= i < |labels| ==> labels[i].1 in sizeOf && sizeOf[labels[i].1] == labels[i].0)
    && (forall i, j :: 0 <= i < j < |labels| ==> labels[i].1 != labels[j].1)
    && (forall i :: 0 <= i < |labels| && FirstFake(labels, i) ==>
          labels[i].0 in sharedName && sharedName[labels[i].0] == labels[i].1)
  }

  /** The first dimension of its size in the variable that got a made-up name. */
  ghost predicate FirstFake(labels: seq<(nat, string)>, i: nat)
    requires i < |labels|
  {
    IsFake(labels[i].1) && forall j :: 0 <= j < i && labels[j].0 == labels[i].0 ==> !IsFake(labels[j].1)
  }

  ghost predicate NewNamesAgree(dims: seq<Dimension>)
    reads dims
  {
    forall i :: 0 <= i < |dims| ==> dims[i].newname == dims[i].name
  }

  /** Names taken from coordinate variables: one size each, and none of them made up. */
  ghost predicate GoodCandidates(candidates: seq<(nat, string)>, sizeOf: map<string, nat>) {
    && (forall c :: 0 <= c < |candidates| ==> !IsFake(candidates[c].1))
    && (forall c, d :: 0 <= c < d < |candidates| ==> candidates[c].1 != candidates[d].1)
    && (forall c :: 0 <= c < |candidates| && candidates[c].1 in sizeOf ==> sizeOf[candidates[c].1] == candidates[c].0)
  }

  class File {
    var dimNameList: set<string>
    var dimnameToDimsize: map<string, nat>
    var dimsizeToFakeDimname: map<nat, string>
    var addedDimIndex: nat

    ghost predicate Valid()
      reads this
    {
      && dimnameToDimsize.Keys == dimNameList
      && forall s :: s in dimsizeToFakeDimname ==>
           && IsFake(dimsizeToFakeDimname[s])
           && dimsizeToFakeDimname[s] in dimnameToDimsize
           && dimnameToDimsize[dimsizeToFakeDimname[s]] == s
    }

    /** None of the names still to be made up is in use. */
    ghost predicate NoFakeAhead()
      reads this
    {
      forall k: nat :: addedDimIndex <= k ==> FakeDimName(k) !in dimNameList
    }

    constructor ()
      ensures Valid() && NoFakeAhead() && dimNameList == {} && addedDimIndex == 0
    {
      dimNameList, dimnameToDimsize, dimsizeToFakeDimname, addedDimIndex := {}, map[], map[], 0;
    }

    /** Throws when the name has a size already. */
    method InsertOneNameSizeMapElement(name: string, size: nat) returns (ok: bool)
      modifies this`dimnameToDimsize
      ensures ok <==> name !in old(dimnameToDimsize)
      ensures dimnameToDimsize == if ok then old(dimnameToDimsize)[name := size] else old(dimnameToDimsize)
    {
      ok := name !in dimnameToDimsize;
      if ok {
        dimnameToDimsize := dimnameToDimsize[name := size];
      }
    }

    /** Throws exactly when it needs a new name and that name is in use. */
    method AddOneFakeDimName(dim: Dimension) returns (ok: bool)
      requires Valid()
      modifies this, dim
      ensures ok <==>
        dim.size in old(dimsizeToFakeDimname) || "FakeDim" + Decimal(old(addedDimIndex)) !in old(dimNameList)
      ensures ok ==> Valid() && dim.newname == dim.name
      ensures ok ==> dim.size in dimsizeToFakeDimname && dimsizeToFakeDimname[dim.size] == dim.name
      ensures ok && dim.size in old(dimsizeToFakeDimname) ==>
        && dimsizeToFakeDimname == old(dimsizeToFakeDimname) && addedDimIndex == old(addedDimIndex)
        && dimNameList == old(dimNameList) && dimnameToDimsize == old(dimnameToDimsize)
      ensures ok && dim.size !in old(dimsizeToFakeDimname) ==>
        && dim.name == "FakeDim" + Decimal(old(addedDimIndex)) && addedDimIndex == old(addedDimIndex) + 1
        && dimsizeToFakeDimname == old(dimsizeToFakeDimname)[dim.size := dim.name]
        && dimNameList == old(dimNameList) + {dim.name}
        && dimnameToDimsize == old(dimnameToDimsize)[dim.name := dim.size]
    {
      var addedDimname := "FakeDim" + Decimal(addedDimIndex);
      if dim.size in dimsizeToFakeDimname {
        dim.name := dimsizeToFakeDimname[dim.size];
        dim.newname := dim.name;
        return true;
      }
      dimsizeToFakeDimname := dimsizeToFakeDimname[dim.size := addedDimname];
      if addedDimname in dimNameList {
        ok := ResolveAndInsertAgain(addedDimname, dim);
        return false;
      }
      dimNameList := dimNameList + {addedDimname};
      dim.name := addedDimname;
      dim.newname := dim.name;
      assert addedDimname == FakeDimName(addedDimIndex);
      ok := InsertOneNameSizeMapElement(dim.name, dim.size);
      addedDimIndex := addedDimIndex + 1;
    }

    /** The clash branch of both methods: the new name is inserted twice, so it always throws. */
    method ResolveAndInsertAgain(addedDimname: string, dim: Dimension) returns (ok: bool)
      modifies this`dimNameList, dim
      ensures !ok && dim.name !in old(dimNameList) && dimNameList == old(dimNameList) + {dim.name}
    {
      var unique, more, k := GenUniqueName(addedDimname + "_", dimNameList, 1);
      dimNameList := more;
      dim.name := unique;
      dim.newname := dim.name;
      ok := dim.name !in dimNameList;
    }

    /** Throws exactly when the name after the next is in use. */
    method AdjustDuplicateFakeDimName(dim: Dimension) returns (ok: bool)
      requires Valid()
      modifies this, dim
      ensures ok <==> "FakeDim" + Decimal(old(addedDimIndex) + 1) !in old(dimNameList)
      ensures ok ==>
        && Valid() && dim.newname == dim.name
        && dim.name == "FakeDim" + Decimal(old(addedDimIndex) + 1) && addedDimIndex == old(addedDimIndex) + 2
        && dimsizeToFakeDimname == old(dimsizeToFakeDimname)
        && dimNameList == old(dimNameList) + {dim.name}
        && dimnameToDimsize == old(dimnameToDimsize)[dim.name := dim.size]
    {
      addedDimIndex := addedDimIndex + 1;
      var addedDimname := "FakeDim" + Decimal(addedDimIndex);
      assert addedDimname == FakeDimName(addedDimIndex);
      if addedDimname in dimNameList {
        ok := ResolveAndInsertAgain(addedDimname, dim);
        return false;
      }
      dimNameList := dimNameList + {addedDimname};
      dim.name := addedDimname;
      dim.newname := dim.name;
      ok := InsertOneNameSizeMapElement(dim.name, dim.size);
      addedDimIndex := addedDimIndex + 1;
    }

    /** The state has only grown. */
    twostate predicate Grown()
      reads this
    {
      && Valid() && NoFakeAhead()
      && (forall n :: n in old(dimnameToDimsize) ==>
            n in dimnameToDimsize && dimnameToDimsize[n] == old(dimnameToDimsize)[n])
      && (forall s :: s in old(dimsizeToFakeDimname) ==>
            s in dimsizeToFakeDimname && dimsizeToFakeDimname[s] == old(dimsizeToFakeDimname)[s])
    }

    /** One dimension of a variable takes a made-up name. */
    method TakeFakeName(dim: Dimension, fakeDimSize: set<nat>) returns (ok: bool, fakeDimSize': set<nat>)
      requires Valid() && NoFakeAhead()
      modifies this, dim
      ensures ok && Grown() && fakeDimSize' == fakeDimSize + {dim.size}
      ensures dim.newname == dim.name && IsFake(dim.name)
      ensures dim.name in dimnameToDimsize && dimnameToDimsize[dim.name] == dim.size
      ensures forall n :: n in dimnameToDimsize ==> IsFake(n) || n in old(dimnameToDimsize)
      ensures dim.size in dimsizeToFakeDimname
      ensures dim.size !in fakeDimSize ==> dim.name == dimsizeToFakeDimname[dim.size]
      ensures dim.size in fakeDimSize ==> dim.name !in old(dimNameList)
    {
      assert forall k: nat :: FakeDimName(k) == "FakeDim" + Decimal(k);
      ok := AddOneFakeDimName(dim);
      assert NoFakeAhead() by {
        OnlyEarlierFake(old(addedDimIndex), old(dimNameList), old(addedDimIndex), addedDimIndex, dimNameList);
      }
      if dim.size in fakeDimSize {
        label Adjust:
        ok := AdjustDuplicateFakeDimName(dim);
        assert NoFakeAhead() by {
          OnlyEarlierFake(old@Adjust(addedDimIndex), old@Adjust(dimNameList), old@Adjust(addedDimIndex) + 1,
            addedDimIndex, dimNameList);
        }
      }
      fakeDimSize' := fakeDimSize + {dim.size};
    }

    /** The loop over one variable: a coordinate name of its size if one is left, else a made-up name. */
    method NameVariable(dims: seq<Dimension>, candidates: seq<(nat, string)>) returns (ok: bool)
      requires Valid() && NoFakeAhead() && GoodCandidates(candidates, dimnameToDimsize)
      requires Distinct(dims)
      modifies this, dims
      ensures ok && Grown() && GoodCandidates(candidates, dimnameToDimsize)
      ensures NewNamesAgree(dims) && Fit(Labels(dims), dimnameToDimsize, dimsizeToFakeDimname)
      ensures forall i :: 0 <= i < |dims| ==>
        dims[i].name in dimnameToDimsize && dimnameToDimsize[dims[i].name] == dims[i].size
      ensures forall i, j :: 0 <= i < j < |dims| ==> dims[i].name != dims[j].name
      ensures CandidatesFirst(Labels(dims), candidates)
    {
      hide Fit, SetsDescribe, CandidatesFirst, TookItsTurn;
      var tempDimNameList: set<string>, fakeDimSize: set<nat> := {}, {};
      ghost var labels: seq<(nat, string)> := [];
      NothingNamed(dimnameToDimsize, dimsizeToFakeDimname, candidates);
      for i := 0 to |dims|
        invariant Grown() && GoodCandidates(candidates, dimnameToDimsize)
        invariant |labels| == i
        invariant forall j :: 0 <= j < i ==>
          dims[j].newname == dims[j].name && labels[j] == (dims[j].size, dims[j].name)
        invariant Fit(labels, dimnameToDimsize, dimsizeToFakeDimname)
        invariant SetsDescribe(labels, tempDimNameList, fakeDimSize) && CandidatesFirst(labels, candidates)
      {
        ghost var before := labels;
        tempDimNameList, fakeDimSize := NameDimension(dims[i], candidates, labels, tempDimNameList, fakeDimSize);
        labels := labels + [(dims[i].size, dims[i].name)];
        CandidatesFirstSnoc(before, candidates, labels[i]);
      }
      assert Labels(dims) == labels;
      FitMeans(labels, dimnameToDimsize, dimsizeToFakeDimname);
      ok := true;
    }

    method NameDimension(dim: Dimension, candidates: seq<(nat, string)>, ghost labels: seq<(nat, string)>,
        tempDimNameList: set<string>, fakeDimSize: set<nat>)
      returns (tempDimNameList': set<string>, fakeDimSize': set<nat>)
      requires Valid() && NoFakeAhead() && GoodCandidates(candidates, dimnameToDimsize)
      requires Fit(labels, dimnameToDimsize, dimsizeToFakeDimname)
      requires SetsDescribe(labels, tempDimNameList, fakeDimSize)
      modifies this, dim
      ensures Grown() && GoodCandidates(candidates, dimnameToDimsize)
      ensures dim.newname == dim.name
      ensures var labels' := labels + [(dim.size, dim.name)];
              && Fit(labels', dimnameToDimsize, dimsizeToFakeDimname)
              && SetsDescribe(labels', tempDimNameList', fakeDimSize')
              && TookItsTurn(labels', candidates, |labels|)
    {
      hide Fit, SetsDescribe, GoodCandidates, TookItsTurn;
      tempDimNameList', fakeDimSize' := tempDimNameList, fakeDimSize;
      ghost var sizeOf, shared := dimnameToDimsize, dimsizeToFakeDimname;
      var pick := PickCandidate(dim.size, candidates, tempDimNameList);
      if pick.Some? {
        tempDimNameList' := tempDimNameList + {pick.value};
        TakeCandidate(dim, pick.value, candidates);
        FitCandidate(labels, sizeOf, shared, dimnameToDimsize, dim.size, dim.name, tempDimNameList, fakeDimSize);
      } else {
        var ok;
        ok, fakeDimSize' := TakeFakeName(dim, fakeDimSize);
        FakeIsNoCandidate(candidates, sizeOf, dimnameToDimsize);
        FitFake(labels, sizeOf, shared, dimnameToDimsize, dimsizeToFakeDimname, dim.size, dim.name,
          tempDimNameList, fakeDimSize);
      }
      TurnTaken(labels, candidates, sizeOf, tempDimNameList, fakeDimSize, dim.size, dim.name);
    }

    method TakeCandidate(dim: Dimension, name: string, ghost candidates: seq<(nat, string)>)
      requires Valid() && NoFakeAhead() && GoodCandidates(candidates, dimnameToDimsize)
      requires (dim.size, name) in candidates
      modifies this, dim
      ensures Grown() && GoodCandidates(candidates, dimnameToDimsize)
      ensures dim.name == name == dim.newname && !IsFake(name)
      ensures name in dimnameToDimsize && dimnameToDimsize[name] == dim.size
      ensures dimsizeToFakeDimname == old(dimsizeToFakeDimname)
    {
      dim.name := name;
      dim.newname := dim.name;
      if dim.name !in dimNameList {
        dimNameList := dimNameList + {dim.name};
        var ok := InsertOneNameSizeMapElement(dim.name, dim.size);
      }
    }

    /** Any number of variables. */
    method AddDimNames(vars: seq<seq<Dimension>>, candidates: seq<(nat, string)>) returns (ok: bool)
      requires Valid() && NoFakeAhead() && GoodCandidates(candidates, dimnameToDimsize)
      requires SeparateDims(vars)
      modifies this, DimsOf(vars)
      ensures ok && Grown()
      ensures forall v :: 0 <= v < |vars| ==>
        && NewNamesAgree(vars[v]) && Fit(Labels(vars[v]), dimnameToDimsize, dimsizeToFakeDimname)
        && CandidatesFirst(Labels(vars[v]), candidates)
    {
      hide Fit, GoodCandidates, DimsOf, CandidatesFirst;
      for v := 0 to |vars|
        invariant Grown() && GoodCandidates(candidates, dimnameToDimsize)
        invariant forall u :: 0 <= u < v ==>
          && NewNamesAgree(vars[u]) && Fit(Labels(vars[u]), dimnameToDimsize, dimsizeToFakeDimname)
          && CandidatesFirst(Labels(vars[u]), candidates)
      {
        DimsOfVariable(vars, v);
        label Before:
        ghost var sizeOf, shared := dimnameToDimsize, dimsizeToFakeDimname;
        ok := NameVariable(vars[v], candidates);
        forall u | 0 <= u < v
          ensures NewNamesAgree(vars[u]) && Fit(Labels(vars[u]), dimnameToDimsize, dimsizeToFakeDimname)
          ensures CandidatesFirst(Labels(vars[u]), candidates)
        {
          assert forall i :: 0 <= i < |vars[u]| ==> vars[u][i] !in vars[v];
          assert Labels(vars[u]) == old@Before(Labels(vars[u]));
          FitStays(Labels(vars[u]), sizeOf, shared, dimnameToDimsize, dimsizeToFakeDimname);
        }
      }
      ok := true;
    }
  }

  ghost function DimsOf(vars: seq<seq<Dimension>>): set<Dimension> {
    set v, i | 0 <= v < |vars| && 0 <= i < |vars[v]| :: vars[v][i]
  }

  lemma DimsOfVariable(vars: seq<seq<Dimension>>, v: nat)
    requires v < |vars|
    ensures forall d :: d in vars[v] ==> d in DimsOf(vars)
  {}

  ghost predicate SeparateDims(vars: seq<seq<Dimension>>) {
    && (forall v :: 0 <= v < |vars| ==> Distinct(vars[v]))
    && (forall u, v | 0 <= u < v < |vars| :: forall i, j | 0 <= i < |vars[u]| && 0 <= j < |vars[v]| ::
          vars[u][i] != vars[v][j])
  }

  ghost predicate AllUsed(candidates: seq<(nat, string)>, size: nat, used: set<string>) {
    forall d :: 0 <= d < |candidates| && candidates[d].0 == size ==> candidates[d].1 in used
  }

  /** The first candidate of a size whose name is not used. */
  function FirstUnused(candidates: seq<(nat, string)>, size: nat, used: set<string>): Option<string> {
    if candidates == [] then None
    else if candidates[0].0 == size && candidates[0].1 !in used then Some(candidates[0].1)
    else FirstUnused(candidates[1..], size, used)
  }

  lemma {:induction false} FirstUnusedAt(candidates: seq<(nat, string)>, size: nat, used: set<string>, c: nat)
    requires c <= |candidates| && AllUsed(candidates[..c], size, used)
    requires c < |candidates| ==> candidates[c].0 == size && candidates[c].1 !in used
    ensures FirstUnused(candidates, size, used) == if c < |candidates| then Some(candidates[c].1) else None
  {
    if c > 0 {
      assert candidates[..c][0] == candidates[0] && candidates[..c][1..] == candidates[1..][..c - 1];
      FirstUnusedAt(candidates[1..], size, used, c - 1);
    }
  }

  lemma {:induction false} FirstUnusedSame(candidates: seq<(nat, string)>, size: nat, a: set<string>, b: set<string>)
    requires forall c :: 0 <= c < |candidates| ==> (candidates[c].1 in a <==> candidates[c].1 in b)
    ensures FirstUnused(candidates, size, a) == FirstUnused(candidates, size, b)
  {
    if candidates != [] {
      FirstUnusedSame(candidates[1..], size, a, b);
    }
  }

  ghost function NamesBefore(labels: seq<(nat, string)>, i: nat): set<string>
    requires i <= |labels|
  {
    set j | 0 <= j < i :: labels[j].1
  }

  /** The i-th dimension has the first coordinate name of its size left, and a made-up one only if there is none. */
  ghost predicate TookItsTurn(labels: seq<(nat, string)>, candidates: seq<(nat, string)>, i: nat)
    requires i < |labels|
  {
    match FirstUnused(candidates, labels[i].0, NamesBefore(labels, i))
    case Some(name) => labels[i].1 == name
    case None => IsFake(labels[i].1)
  }

  ghost predicate CandidatesFirst(labels: seq<(nat, string)>, candidates: seq<(nat, string)>) {
    forall i :: 0 <= i < |labels| ==> TookItsTurn(labels, candidates, i)
  }

  /** Whose turn it was: the first coordinate name of the size not used yet, or a made-up name if all are. */
  lemma TurnIs(labels: seq<(nat, string)>, candidates: seq<(nat, string)>, i: nat)
    requires i < |labels| && TookItsTurn(labels, candidates, i)
    ensures
      || (exists c :: 0 <= c < |candidates| && candidates[c] == labels[i] &&
                      (forall j :: 0 <= j < i ==> labels[j].1 != candidates[c].1) &&
                      forall d :: 0 <= d < c && candidates[d].0 == labels[i].0 ==>
                        exists j :: 0 <= j < i && labels[j].1 == candidates[d].1)
      || ((exists k: nat :: labels[i].1 == "FakeDim" + Decimal(k)) &&
          forall d :: 0 <= d < |candidates| && candidates[d].0 == labels[i].0 ==>
            exists j :: 0 <= j < i && labels[j].1 == candidates[d].1)
  {
    var used := NamesBefore(labels, i);
    var c := FirstUnusedFound(candidates, labels[i].0, used);
    if c == |candidates| {
      var k: nat :| labels[i].1 == FakeDimName(k);
      assert labels[i].1 == "FakeDim" + Decimal(k);
    }
  }

  lemma {:induction false} FirstUnusedFound(candidates: seq<(nat, string)>, size: nat, used: set<string>)
    returns (c: nat)
    ensures c <= |candidates|
    ensures forall d :: 0 <= d < c && candidates[d].0 == size ==> candidates[d].1 in used
    ensures c < |candidates| ==> candidates[c].0 == size && candidates[c].1 !in used
    ensures FirstUnused(candidates, size, used) == if c < |candidates| then Some(candidates[c].1) else None
  {
    c := 0;
    if candidates != [] && !(candidates[0].0 == size && candidates[0].1 !in used) {
      var rest := FirstUnusedFound(candidates[1..], size, used);
      c := rest + 1;
      assert forall d :: 0 < d < |candidates| ==> candidates[d] == candidates[1..][d - 1];
    }
  }

  lemma FitMeans(labels: seq<(nat, string)>, sizeOf: map<string, nat>, sharedName: map<nat, string>)
    requires Fit(labels, sizeOf, sharedName)
    ensures forall i :: 0 <= i < |labels| ==> labels[i].1 in sizeOf && sizeOf[labels[i].1] == labels[i].0
    ensures forall i, j :: 0 <= i < j < |labels| ==> labels[i].1 != labels[j].1
  {}

  lemma CandidatesFirstSnoc(labels: seq<(nat, string)>, candidates: seq<(nat, string)>, last: (nat, string))
    requires CandidatesFirst(labels, candidates) && TookItsTurn(labels + [last], candidates, |labels|)
    ensures CandidatesFirst(labels + [last], candidates)
  {
    var after := labels + [last];
    forall i: nat | i < |labels| ensures TookItsTurn(after, candidates, i) {
      assert TookItsTurn(labels, candidates, i) && after[i] == labels[i];
      assert forall j :: 0 <= j < i ==> after[j] == labels[j];
      assert NamesBefore(after, i) == NamesBefore(labels, i);
    }
  }

  lemma NothingNamed(sizeOf: map<string, nat>, shared: map<nat, string>, candidates: seq<(nat, string)>)
    ensures Fit([], sizeOf, shared) && SetsDescribe([], {}, {}) && CandidatesFirst([], candidates)
  {}

  /** What is in the variable's set of coordinate names is what its dimensions are called. */
  lemma TurnTaken(labels: seq<(nat, string)>, candidates: seq<(nat, string)>, sizeOf: map<string, nat>,
      used: set<string>, fakeSizes: set<nat>, size: nat, name: string)
    requires SetsDescribe(labels, used, fakeSizes) && GoodCandidates(candidates, sizeOf)
    requires match FirstUnused(candidates, size, used) case Some(n) => name == n case None => IsFake(name)
    ensures TookItsTurn(labels + [(size, name)], candidates, |labels|)
  {
    hide IsFake;
    var after := labels + [(size, name)];
    forall c | 0 <= c < |candidates|
      ensures candidates[c].1 in used <==> candidates[c].1 in NamesBefore(after, |labels|)
    {
      assert !IsFake(candidates[c].1);
      assert forall j :: 0 <= j < |labels| ==> after[j] == labels[j];
    }
    FirstUnusedSame(candidates, size, used, NamesBefore(after, |labels|));
  }

  /** The search through the candidates of one size: the first whose name the variable has not used. */
  method PickCandidate(size: nat, candidates: seq<(nat, string)>, used: set<string>) returns (pick: Option<string>)
    ensures pick == FirstUnused(candidates, size, used)
    ensures pick.Some? ==> (size, pick.value) in candidates && pick.value !in used
  {
    for c := 0 to |candidates|
      invariant AllUsed(candidates[..c], size, used)
    {
      if candidates[c].0 == size && candidates[c].1 !in used {
        FirstUnusedAt(candidates, size, used, c);
        return Some(candidates[c].1);
      }
    }
    assert candidates[..|candidates|] == candidates;
    FirstUnusedAt(candidates, size, used, |candidates|);
    return None;
  }

  lemma FitStays(labels: seq<(nat, string)>, sizeOf: map<string, nat>, shared: map<nat, string>,
      sizeOf': map<string, nat>, shared': map<nat, string>)
    requires Fit(labels, sizeOf, shared)
    requires forall n :: n in sizeOf ==> n in sizeOf' && sizeOf'[n] == sizeOf[n]
    requires forall s :: s in shared ==> s in shared' && shared'[s] == shared[s]
    ensures Fit(labels, sizeOf', shared')
  {}

  /** tempdimnamelist and fakedimsize describe the dimensions named so far. */
  ghost predicate SetsDescribe(labels: seq<(nat, string)>, used: set<string>, fakeSizes: set<nat>) {
    && (forall j :: 0 <= j < |labels| ==> IsFake(labels[j].1) || labels[j].1 in used)
    && (forall n :: n in used ==> exists j :: 0 <= j < |labels| && labels[j].1 == n)
    && (forall j :: 0 <= j < |labels| && IsFake(labels[j].1) ==> labels[j].0 in fakeSizes)
    && (forall s :: s in fakeSizes ==> exists j :: 0 <= j < |labels| && labels[j].0 == s && IsFake(labels[j].1))
  }

  lemma FitCandidate(labels: seq<(nat, string)>, sizeOf: map<string, nat>, shared: map<nat, string>,
      sizeOf': map<string, nat>, size: nat, name: string, used: set<string>, fakeSizes: set<nat>)
    requires Fit(labels, sizeOf, shared) && SetsDescribe(labels, used, fakeSizes)
    requires forall n :: n in sizeOf ==> n in sizeOf' && sizeOf'[n] == sizeOf[n]
    requires name in sizeOf' && sizeOf'[name] == size
    requires !IsFake(name) && name !in used
    ensures Fit(labels + [(size, name)], sizeOf', shared)
    ensures SetsDescribe(labels + [(size, name)], used + {name}, fakeSizes)
  {
    SetsDescribeSnoc(labels, used, fakeSizes, size, name);
    FitSnoc(labels, sizeOf', shared, size, name);
  }

  lemma FitFake(labels: seq<(nat, string)>, sizeOf: map<string, nat>, shared: map<nat, string>,
      sizeOf': map<string, nat>, shared': map<nat, string>, size: nat, name: string,
      used: set<string>, fakeSizes: set<nat>)
    requires Fit(labels, sizeOf, shared) && SetsDescribe(labels, used, fakeSizes)
    requires forall n :: n in sizeOf ==> n in sizeOf' && sizeOf'[n] == sizeOf[n]
    requires forall s :: s in shared ==> s in shared' && shared'[s] == shared[s]
    requires name in sizeOf' && sizeOf'[name] == size && IsFake(name)
    requires size !in fakeSizes ==> size in shared' && shared'[size] == name
    requires size in fakeSizes ==> name !in sizeOf
    ensures Fit(labels + [(size, name)], sizeOf', shared')
    ensures SetsDescribe(labels + [(size, name)], used, fakeSizes + {size})
  {
    hide IsFake;
    SetsDescribeSnoc(labels, used, fakeSizes, size, name);
    FitStays(labels, sizeOf, shared, sizeOf', shared');
    FakeIsNew(labels, sizeOf, size, name, used, fakeSizes, sizeOf');
    FitSnoc(labels, sizeOf', shared', size, name);
  }

  lemma FakeIsNew(labels: seq<(nat, string)>, sizeOf: map<string, nat>, size: nat, name: string,
      used: set<string>, fakeSizes: set<nat>, sizeOf': map<string, nat>)
    requires SetsDescribe(labels, used, fakeSizes)
    requires forall i :: 0 <= i < |labels| ==> labels[i].1 in sizeOf && sizeOf[labels[i].1] == labels[i].0
    requires forall n :: n in sizeOf ==> n in sizeOf' && sizeOf'[n] == sizeOf[n]
    requires name in sizeOf' && sizeOf'[name] == size && IsFake(name)
    requires size in fakeSizes ==> name !in sizeOf
    ensures forall j :: 0 <= j < |labels| ==> labels[j].1 != name
    ensures FirstFake(labels + [(size, name)], |labels|) ==> size !in fakeSizes
  {
    hide IsFake;
    var after := labels + [(size, name)];
    if size in fakeSizes {
      var j :| 0 <= j < |labels| && labels[j].0 == size && IsFake(labels[j].1);
      assert after[j] == labels[j];
    }
  }

  lemma SetsDescribeSnoc(labels: seq<(nat, string)>, used: set<string>, fakeSizes: set<nat>, size: nat, name: string)
    requires SetsDescribe(labels, used, fakeSizes)
    ensures IsFake(name) ==> SetsDescribe(labels + [(size, name)], used, fakeSizes + {size})
    ensures !IsFake(name) ==> SetsDescribe(labels + [(size, name)], used + {name}, fakeSizes)
  {
    hide IsFake;
    var after := labels + [(size, name)];
    assert after[|labels|] == (size, name);
    forall n | n in used ensures exists j :: 0 <= j < |after| && after[j].1 == n {
      var j :| 0 <= j < |labels| && labels[j].1 == n;
      assert after[j] == labels[j];
    }
    forall s | s in fakeSizes ensures exists j :: 0 <= j < |after| && after[j].0 == s && IsFake(after[j].1) {
      var j :| 0 <= j < |labels| && labels[j].0 == s && IsFake(labels[j].1);
      assert after[j] == labels[j];
    }
  }

  lemma FitSnoc(labels: seq<(nat, string)>, sizeOf: map<string, nat>, shared: map<nat, string>, size: nat, name: string)
    requires forall i :: 0 <= i < |labels| ==> labels[i].1 in sizeOf && sizeOf[labels[i].1] == labels[i].0
    requires Fit(labels, sizeOf, shared)
    requires name in sizeOf && sizeOf[name] == size
    requires forall j :: 0 <= j < |labels| ==> labels[j].1 != name
    requires FirstFake(labels + [(size, name)], |labels|) ==> size in shared && shared[size] == name
    ensures Fit(labels + [(size, name)], sizeOf, shared)
  {
    hide IsFake;
    var after := labels + [(size, name)];
    forall i | 0 <= i < |after| && FirstFake(after, i)
      ensures after[i].0 in shared && shared[after[i].0] == after[i].1
    {
      if i < |labels| {
        assert forall j :: 0 <= j < i ==> after[j] == labels[j];
        assert FirstFake(labels, i);
      }
    }
  }

  lemma FakeIsNoCandidate(candidates: seq<(nat, string)>, sizeOf: map<string, nat>, sizeOf': map<string, nat>)
    requires GoodCandidates(candidates, sizeOf)
    requires forall n :: n in sizeOf' ==> IsFake(n) || (n in sizeOf && sizeOf'[n] == sizeOf[n])
    ensures GoodCandidates(candidates, sizeOf')
  {}

  /** The candidates of SMAP products, and any distinct path names, are good ones. */
  lemma PathsAreGoodCandidates(candidates: seq<(nat, string)>)
    requires forall c :: 0 <= c < |candidates| ==> candidates[c].1 != "" && candidates[c].1[0] in {'/', 'X', 'Y'}
    requires forall c, d :: 0 <= c < d < |candidates| ==> candidates[c].1 != candidates[d].1
    ensures GoodCandidates(candidates, map[])
  {}

  lemma OnlyEarlierFake(index: nat, names: set<string>, j: nat, index': nat, names': set<string>)
    requires index <= index'
    requires forall k: nat :: index <= k ==> FakeDimName(k) !in names
    requires names' == names || (j < index' && names' == names + {FakeDimName(j)})
    ensures forall k: nat :: index' <= k ==> FakeDimName(k) !in names'
  {
    forall k: nat | index' <= k ensures FakeDimName(k) !in names' {
      if j < index' && FakeDimName(k) == FakeDimName(j) {
        FakeDimNameInjective(k, j);
      }
    }
  }
}
