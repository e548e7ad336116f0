/**
EOS5File: a whole grid, swath or zonal average, from the dimension list of the metadata
to names for the dimensions of all its variables.
*/
module Eos5Group {
  import opened Eos5Apart
  import opened Eos5Condense
  import opened Eos5Lists
  import opened Eos5Metadata
  import opened Eos5Naming
  import opened Eos5Progress
  import opened Eos5VarDims
  import opened FakeDims
  import opened Lists
  import opened Numerals
  import opened Outcome
  import opened UniqueNames

  // ----- when nothing can go wrong

  /** A name with a short form, not like one that the handler makes up. */
  ghost predicate PlainEnough(name: string) {
    name != "" && name[|name| - 1] != '/' && !("FakeDim" <= name)
  }

  /** A numbered form of a listed name has its size. */
  ghost predicate NumberedAlike(dims: seq<HE5Dim>) {
    forall i, j, k: nat | 0 <= i < |dims| && 0 <= j < |dims| ::
      dims[i].name == Numbered(dims[j].name + "_", k) ==> dims[i].size == dims[j].size
  }

  /** What a dimension list has to be like for the naming of a group never to fail. */
  ghost predicate Orderly(dims: seq<HE5Dim>) {
    && Distinct(Names(dims))
    && (forall i :: 0 <= i < |dims| ==> PlainEnough(dims[i].name))
    && NumberedAlike(dims)
  }

  ghost predicate AllDeclared(vars: seq<seq<HE5Dim>>, groupDims: seq<HE5Dim>) {
    forall v, i :: 0 <= v < |vars| && 0 <= i < |vars[v]| ==> vars[v][i].name in Names(groupDims)
  }

  // ----- what the adjusted list is like

  /** An entry made from a declared one: a numbered form of the same size. */
  ghost predicate MadeFrom(d: HE5Dim, groupDims: seq<HE5Dim>, b: nat, k: nat) {
    b < |groupDims| && d.name == Numbered(groupDims[b].name + "_", k) && d.size == groupDims[b].size
  }

  lemma AddedIsMade(vars: seq<seq<HE5Dim>>, groupDims: seq<HE5Dim>, more: seq<HE5Dim>, j: nat)
    returns (b: nat, k: nat)
    requires GroupList(vars, |vars|, groupDims, more) && AllDeclared(vars, groupDims)
    requires |groupDims| <= j < |more|
    ensures MadeFrom(more[j], groupDims, b, k)
  {
    hide SizeIn, MadeUpBefore, NoneRepeated;
    assert DerivedInGroup(vars, |vars|, groupDims, more[j]);
    var u :| 0 <= u < |vars| && Derived(more[j], Names(vars[u]), groupDims);
    var i, n: nat :| 0 <= i < |Names(vars[u])| && NumberedFrom(more[j], Names(vars[u])[i], n, groupDims);
    assert vars[u][i].name in Names(groupDims);
    var d := HE5Dim(vars[u][i].name, more[j].size);
    SizeInIsThere(groupDims, d.name);
    assert d in groupDims;
    var c :| 0 <= c < |groupDims| && groupDims[c] == d;
    b, k := c, n;
  }

  lemma SameDigitsSameName(a: string, j: nat, b: string, k: nat)
    requires Numbered(a + "_", j) == Numbered(b + "_", k)
    ensures a == b
  {
    if |a| < |b| {
      UnderscoreInDigits(a, j, b, k);
      assert false;
    } else if |b| < |a| {
      UnderscoreInDigits(b, k, a, j);
      assert false;
    } else {
      assert Numbered(a + "_", j)[..|a|] == a && Numbered(b + "_", k)[..|b|] == b;
    }
  }

  lemma UnderscoreInDigits(a: string, j: nat, b: string, k: nat)
    requires |a| < |b|
    ensures Numbered(a + "_", j) != Numbered(b + "_", k)
  {
    NumberedEndsWell(a + "_", j);
    assert Numbered(b + "_", k)[|b|] == '_';
    assert |b| < |Numbered(a + "_", j)| ==> Numbered(a + "_", j)[|b|] == Decimal(j)[|b| - |a| - 1];
  }

  /** The adjusted list of an orderly group has distinct names, so recording it succeeds. */
  lemma AdjustedNamesDistinct(vars: seq<seq<HE5Dim>>, groupDims: seq<HE5Dim>, more: seq<HE5Dim>)
    requires Orderly(groupDims) && AllDeclared(vars, groupDims) && GroupList(vars, |vars|, groupDims, more)
    ensures Distinct(Names(more))
  {
    hide AllDeclared, DerivedInGroup, MadeUpBefore;
    forall i: nat, j: nat | i < j < |more| ensures Names(more)[i] != Names(more)[j] {
      if j < |groupDims| {
        assert Names(groupDims)[i] == more[i].name && Names(groupDims)[j] == more[j].name;
      } else if more[i].name == more[j].name {
        var b, k := AddedIsMade(vars, groupDims, more, j);
        SameNameSameSize(vars, groupDims, more, i, b, k);
      }
    }
  }

  /** In the adjusted list, a numbered form of a declared name has the size of that name. */
  lemma SameNameSameSize(vars: seq<seq<HE5Dim>>, groupDims: seq<HE5Dim>, more: seq<HE5Dim>, i: nat, b: nat, k: nat)
    requires Orderly(groupDims) && AllDeclared(vars, groupDims) && GroupList(vars, |vars|, groupDims, more)
    requires i < |more| && b < |groupDims| && more[i].name == Numbered(groupDims[b].name + "_", k)
    ensures more[i].size == groupDims[b].size
  {
    hide AllDeclared, DerivedInGroup, MadeUpBefore, NoneRepeated, PlainEnough;
    if i < |groupDims| {
      assert more[i] == groupDims[i];
    } else {
      var b', k' := AddedIsMade(vars, groupDims, more, i);
      SameDigitsSameName(groupDims[b].name, k, groupDims[b'].name, k');
      assert Names(groupDims)[b] == Names(groupDims)[b'];
    }
  }

  /** An added entry is never the first of its size. */
  lemma FirstIsDeclared(vars: seq<seq<HE5Dim>>, groupDims: seq<HE5Dim>, more: seq<HE5Dim>, i: nat, size: nat)
    requires AllDeclared(vars, groupDims) && GroupList(vars, |vars|, groupDims, more)
    requires i < |more| && IsFirstOfSize(more, i, size)
    ensures i < |groupDims|
  {
    hide AllDeclared, DerivedInGroup, MadeUpBefore, NoneRepeated;
    if i >= |groupDims| {
      var b, k := AddedIsMade(vars, groupDims, more, i);
    }
  }

  lemma ShortForm(dir: string, name: string)
    requires name != "" && name[|name| - 1] != '/'
    ensures AfterLastSlash(dir + "/" + name) != ""
  {
    var s := dir + "/" + name;
    assert s[|dir|] == '/';
  }

  /** Names of the adjusted list are plain enough as well, except that they may end with a digit. */
  lemma AdjustedIsPlain(vars: seq<seq<HE5Dim>>, groupDims: seq<HE5Dim>, more: seq<HE5Dim>, i: nat)
    requires Orderly(groupDims) && AllDeclared(vars, groupDims) && GroupList(vars, |vars|, groupDims, more)
    requires i < |more|
    ensures PlainEnough(more[i].name)
  {
    hide AllDeclared, DerivedInGroup, MadeUpBefore, NoneRepeated, NumberedAlike;
    if i >= |groupDims| {
      var b, k := AddedIsMade(vars, groupDims, more, i);
      NumberedIsPlain(groupDims[b].name, k);
    } else {
      assert more[i] == groupDims[i];
    }
  }

  lemma NumberedIsPlain(base: string, k: nat)
    requires PlainEnough(base)
    ensures PlainEnough(Numbered(base + "_", k))
  {
    NumberedEndsWell(base + "_", k);
    var n := Numbered(base + "_", k);
    assert n[..|base|] == base && n[|base|] == '_';
    assert forall i :: 0 <= i < |base| ==> n[i] == base[i];
  }

  /** The name of a size is that of a declared dimension of the size. */
  lemma SectionIsDeclared(vars: seq<seq<HE5Dim>>, groupDims: seq<HE5Dim>, more: seq<HE5Dim>, t: Eos5Type,
      group: string, dimNames: seq<string>, m: Maps, s: nat) returns (f: nat)
    requires AllDeclared(vars, groupDims) && GroupList(vars, |vars|, groupDims, more)
    requires HoldsList(t, group, more, |more|, dimNames, m) && s in m.nameOf
    ensures f < |groupDims| <= |more| && more[f] == groupDims[f] && more[f].size == s
    ensures m.nameOf[s] == FullName(t, group, more[f].name)
  {
    hide AllDeclared, DerivedInGroup, MadeUpBefore, NoneRepeated, FullName;
    var i :| 0 <= i < |more| && IsFirstOfSize(more, i, s) && m.nameOf[s] == dimNames[i];
    f := i;
    FirstIsDeclared(vars, groupDims, more, f, s);
  }

  lemma NameIsHarmless(vars: seq<seq<HE5Dim>>, groupDims: seq<HE5Dim>, more: seq<HE5Dim>, t: Eos5Type,
      group: string, dimNames: seq<string>, m: Maps, i: nat)
    requires Orderly(groupDims) && AllDeclared(vars, groupDims) && GroupList(vars, |vars|, groupDims, more)
    requires HoldsList(t, group, more, |more|, dimNames, m) && i < |more|
    ensures Harmless(m.nameOf, FullName(t, group, more[i].name), more[i].size, FullName(t, group, "FakeDim"))
  {
    hide AllDeclared, GroupList, Orderly, EndsWithDigit, HoldsList, PlainEnough;
    var dir, n := TypePrefix(t) + group + "/", FullName(t, group, more[i].name);
    AdjustedIsPlain(vars, groupDims, more, i);
    NoFake(dir, more[i].name);
    forall s, k: nat | s in m.nameOf && n == Numbered(m.nameOf[s] + "_", k) ensures more[i].size == s {
      var f := SectionIsDeclared(vars, groupDims, more, t, group, dimNames, m, s);
      WithoutPrefix(dir, more[i].name, more[f].name, k);
      SameNameSameSize(vars, groupDims, more, i, f, k);
    }
  }

  /** Recording the adjusted list of an orderly group gives tidy maps. */
  lemma OrderlyIsTidy(vars: seq<seq<HE5Dim>>, groupDims: seq<HE5Dim>, more: seq<HE5Dim>, t: Eos5Type, group: string,
      dimNames: seq<string>, m: Maps)
    requires Orderly(groupDims) && AllDeclared(vars, groupDims) && GroupList(vars, |vars|, groupDims, more)
    requires HoldsList(t, group, more, |more|, dimNames, m)
    ensures Tidy(m.nameOf, m.sizeOf, {}, FullName(t, group, "FakeDim"))
  {
    hide AllDeclared, GroupList, Orderly, AfterLastSlash, Harmless, Section, Distinct, FirstOfEachSize;
    forall n | n in m.sizeOf
      ensures AfterLastSlash(n) != "" && Harmless(m.nameOf, n, m.sizeOf[n], FullName(t, group, "FakeDim"))
    {
      var i :| 0 <= i < |dimNames| && dimNames[i] == n;
      NameIsHarmless(vars, groupDims, more, t, group, dimNames, m, i);
      AdjustedIsPlain(vars, groupDims, more, i);
      ShortForm(TypePrefix(t) + group, more[i].name);
    }
  }

  lemma NoFake(dir: string, name: string)
    requires PlainEnough(name)
    ensures !(dir + "FakeDim" <= dir + name)
  {
    assert forall i :: 0 <= i < |name| ==> (dir + name)[|dir| + i] == name[i];
    assert forall i :: 0 <= i < 7 ==> (dir + "FakeDim")[|dir| + i] == "FakeDim"[i];
  }

  lemma WithoutPrefix(dir: string, x: string, y: string, k: nat)
    requires dir + x == Numbered(dir + y + "_", k)
    ensures x == Numbered(y + "_", k)
  {
    assert Numbered(dir + y + "_", k) == dir + Numbered(y + "_", k);
    assert (dir + x)[|dir|..] == x && (dir + Numbered(y + "_", k))[|dir|..] == Numbered(y + "_", k);
  }

  lemma NamesRecorded(dims: seq<Dimension>, sizeOf: map<string, nat>)
    requires Done(Labels(dims), sizeOf)
    ensures forall i :: 0 <= i < |dims| ==> dims[i].name in sizeOf && sizeOf[dims[i].name] == dims[i].size
  {
    DoneMeans(Labels(dims), sizeOf);
    assert forall i :: 0 <= i < |dims| ==> Labels(dims)[i] == (dims[i].size, dims[i].name);
  }

  // ----- from the metadata to the names of all variables

  function DimLists(lists: FieldLists): (dims: seq<seq<HE5Dim>>)
    ensures |dims| == |lists.geo| + |lists.data|
  {
    var all := lists.geo + lists.data;
    seq(|all|, i requires 0 <= i < |all| => all[i].dimList)
  }

  function WithDims(entries: seq<HE5Var>, dims: seq<seq<HE5Dim>>): (r: seq<HE5Var>)
    requires |dims| == |entries|
    ensures |r| == |entries|
  {
    seq(|entries|, i requires 0 <= i < |entries| => HE5Var(entries[i].name, dims[i]))
  }

  /** The metadata lists with adjusted dimensions. */
  function AdjustedLists(lists: FieldLists, dims: seq<seq<HE5Dim>>): FieldLists
    requires |dims| == |lists.geo| + |lists.data|
  {
    FieldLists(WithDims(lists.geo, dims[..|lists.geo|]), WithDims(lists.data, dims[|lists.geo|..]))
  }

  lemma RanksUnchanged(lists: FieldLists, dims: seq<seq<HE5Dim>>, groupDims: seq<HE5Dim>, more: seq<HE5Dim>,
      v: FileVar, rank: nat)
    requires |dims| == |DimLists(lists)|
    requires forall i | 0 <= i < |dims| :: AdjustedVariable(DimLists(lists)[i], dims[i], groupDims, more)
    ensures OwnRanksAgree(v, lists, rank) <==> OwnRanksAgree(v, AdjustedLists(lists, dims), rank)
  {
    forall i | 0 <= i < |dims| ensures |dims[i]| == |DimLists(lists)[i]| {
      assert |Names(dims[i])| == |Renamed(Names(DimLists(lists)[i]))|;
    }
    SameRanks(lists.geo, dims[..|lists.geo|], v.name, rank);
    SameRanks(lists.data, dims[|lists.geo|..], v.name, rank);
  }

  lemma SameRanks(entries: seq<HE5Var>, dims: seq<seq<HE5Dim>>, name: string, rank: nat)
    requires |dims| == |entries| && forall i :: 0 <= i < |dims| ==> |dims[i]| == |entries[i].dimList|
    ensures RanksAgree(entries, name, rank) <==> RanksAgree(WithDims(entries, dims), name, rank)
  {
    var with := WithDims(entries, dims);
    assert forall i :: 0 <= i < |entries| ==> with[i].name == entries[i].name;
    assert forall i :: 0 <= i < |entries| ==> |with[i].dimList| == |entries[i].dimList|;
  }

  lemma AdjustedIsRecorded(lists: FieldLists, dims: seq<seq<HE5Dim>>, groupDims: seq<HE5Dim>, more: seq<HE5Dim>,
      t: Eos5Type, group: string, dimNames: seq<string>, m: Maps)
    requires |dims| == |DimLists(lists)|
    requires forall i | 0 <= i < |dims| :: AdjustedVariable(DimLists(lists)[i], dims[i], groupDims, more)
    requires HoldsList(t, group, more, |more|, dimNames, m)
    ensures ListsRecorded(AdjustedLists(lists, dims), group, t, m.sizeOf)
  {
    hide HoldsList, MetadataRecorded;
    forall i | 0 <= i < |dims| ensures MetadataRecorded(dims[i], group, t, m.sizeOf) {
      assert AdjustedVariable(DimLists(lists)[i], dims[i], groupDims, more);
      ListedIsRecorded(t, group, more, dimNames, m, dims[i]);
    }
  }

  lemma DeclaredIsKnown(vars: seq<seq<HE5Dim>>, groupDims: seq<HE5Dim>)
    requires AllDeclared(vars, groupDims)
    ensures forall v, i :: 0 <= v < |vars| && 0 <= i < |vars[v]| ==> KnownInGroup(vars, groupDims, v, i)
  {}

  /** Metadata with which only a wrong number of dimensions can make the naming of a group fail. */
  ghost predicate SoundLists(groupDims: seq<HE5Dim>, lists: FieldLists) {
    var condensed := Condensed(Condensed(groupDims, XAxis), YAxis);
    Orderly(condensed) && AllDeclared(DimLists(lists), condensed)
  }

  /** Sound metadata: one dimension, and a field that uses it twice. */
  lemma SoundExample()
    ensures var level := HE5Dim("nLevels", 5);
            SoundLists([level], FieldLists([], [HE5Var("matrix", [level, level])]))
  {
    hide Numbered;
    var level := HE5Dim("nLevels", 5);
    var lists := FieldLists([], [HE5Var("matrix", [level, level])]);
    NothingToCondense(level);
    forall k: nat ensures level.name != Numbered(level.name + "_", k) {
      NumberedEndsWell(level.name + "_", k);
    }
    assert Names([level]) == ["nLevels"] && DimLists(lists) == [[level, level]];
  }

  lemma NothingToCondense(d: HE5Dim)
    requires !OnAxis(d, XAxis) && !OnAxis(d, YAxis)
    ensures Condensed(Condensed([d], XAxis), YAxis) == [d]
  {
    Empty(XAxis);
    Empty(YAxis);
    Snoc([], d, XAxis);
    Snoc([], d, YAxis);
    assert [] + [d] == [d];
  }

  ghost predicate AllKnown(vars: seq<seq<HE5Dim>>, groupDims: seq<HE5Dim>) {
    forall v, i :: 0 <= v < |vars| && 0 <= i < |vars[v]| ==> KnownInGroup(vars, groupDims, v, i)
  }

  /** The same variables, each with its dimensions adjusted. */
  ghost predicate ListAdjusted(before: seq<HE5Var>, after: seq<HE5Var>, groupDims: seq<HE5Dim>, more: seq<HE5Dim>) {
    && |before| == |after|
    && forall v :: 0 <= v < |before| ==>
         after[v].name == before[v].name && AdjustedVariable(before[v].dimList, after[v].dimList, groupDims, more)
  }

  lemma ListsAreAdjusted(lists: FieldLists, dims: seq<seq<HE5Dim>>, groupDims: seq<HE5Dim>, more: seq<HE5Dim>)
    requires |dims| == |DimLists(lists)|
    requires forall i | 0 <= i < |dims| :: AdjustedVariable(DimLists(lists)[i], dims[i], groupDims, more)
    ensures ListAdjusted(lists.geo, AdjustedLists(lists, dims).geo, groupDims, more)
    ensures ListAdjusted(lists.data, AdjustedLists(lists, dims).data, groupDims, more)
  {
    hide AdjustedVariable;
    forall v | 0 <= v < |lists.geo|
      ensures AdjustedVariable(lists.geo[v].dimList, dims[..|lists.geo|][v], groupDims, more)
    {
      assert AdjustedVariable(DimLists(lists)[v], dims[v], groupDims, more);
    }
    forall v | 0 <= v < |lists.data|
      ensures AdjustedVariable(lists.data[v].dimList, dims[|lists.geo|..][v], groupDims, more)
    {
      var k := |lists.geo| + v;
      assert AdjustedVariable(DimLists(lists)[k], dims[k], groupDims, more);
    }
  }

  /**
  Adjust_EOS5Dim_Info and Add_EOS5File_Info for one group: the adjusted metadata lists, and
  maps that hold the adjusted dimension list and nothing else. It throws exactly for a
  dimension name that is not known, or for one that is listed twice.
  */
  method RecordGroup(kind: Eos5Type, name: string, groupDims: seq<HE5Dim>, lists: FieldLists)
    returns (r: Result<(EosGroup, FieldLists)>, ghost condensed: seq<HE5Dim>, ghost more: seq<HE5Dim>)
    ensures condensed == Condensed(Condensed(groupDims, XAxis), YAxis)
    ensures r.Ok? ==> AllKnown(DimLists(lists), condensed)
    ensures AllKnown(DimLists(lists), condensed) ==>
      GroupList(DimLists(lists), |DimLists(lists)|, condensed, more) && (r.Ok? <==> Distinct(Names(more)))
    ensures r.Ok? ==> fresh(r.value.0) && r.value.0.Valid() && r.value.0.name == name
    ensures r.Ok? ==> HoldsList(kind, name, more, |more|, r.value.0.dimNames, r.value.0.State({}))
    ensures r.Ok? ==> ListAdjusted(lists.geo, r.value.1.geo, condensed, more)
    ensures r.Ok? ==> ListAdjusted(lists.data, r.value.1.data, condensed, more)
    ensures r.Ok? ==> ListsRecorded(r.value.1, name, kind, r.value.0.dimnamesToDimsizes)
    ensures r.Ok? ==> forall v, rank :: OwnRanksAgree(v, lists, rank) <==> OwnRanksAgree(v, r.value.1, rank)
    ensures SoundLists(groupDims, lists) ==> r.Ok? && r.value.0.IsTidy(kind)
  {
    hide Orderly, AllDeclared, GroupList, AdjustedVariable, KnownInGroup, HoldsList, Tidy, OwnRanksAgree, ListsRecorded,
      FirstOfEachSize, Section, FullName, AdjustedLists, ListAdjusted, Distinct;
    var dimList := CondenseDimList(groupDims);
    condensed, more := dimList, dimList;
    if SoundLists(groupDims, lists) {
      DeclaredIsKnown(DimLists(lists), condensed);
    }
    var adjusted := AdjustGroup(DimLists(lists), dimList);
    if adjusted.Thrown? {
      return Thrown(adjusted.message), condensed, more;
    }
    var dims := adjusted.value.0;
    more := adjusted.value.1;
    var group := new EosGroup(kind, name);
    if SoundLists(groupDims, lists) {
      AdjustedNamesDistinct(DimLists(lists), condensed, more);
    }
    var ok := group.AddGroupDims(adjusted.value.1);
    if !ok {
      return Thrown("The dimension name is not unique"), condensed, more;
    }
    ListsAreAdjusted(lists, dims, condensed, more);
    AdjustedIsRecorded(lists, dims, condensed, more, kind, name, group.dimNames, group.State({}));
    if SoundLists(groupDims, lists) {
      OrderlyIsTidy(DimLists(lists), condensed, more, kind, name, group.dimNames, group.State({}));
    }
    forall v, rank ensures OwnRanksAgree(v, lists, rank) <==> OwnRanksAgree(v, AdjustedLists(lists, dims), rank) {
      RanksUnchanged(lists, dims, condensed, more, v, rank);
    }
    return Ok((group, AdjustedLists(lists, dims))), condensed, more;
  }

  /** Whether the names of a variable differ is decided by the maps m. */
  ghost predicate NamesApart(v: FileVar, labels: Labelling, own: FieldLists, group: string, t: Eos5Type, m: Maps) {
    DistinctNames(labels) <==> AllApart(labels, OwnNames(v, own), group, t, m.nameOf, m.sizeOf)
  }

  lemma ApartAsAtFirst(v: FileVar, labels: Labelling, own: FieldLists, group: string, t: Eos5Type, m: Maps, m': Maps)
    requires MapsGrown(m, m') && Section(m.nameOf, m.sizeOf) && "" !in m'.sizeOf
    requires ListsRecorded(own, group, t, m.sizeOf)
    ensures NamesApart(v, labels, own, group, t, m) <==> NamesApart(v, labels, own, group, t, m')
  {
    hide MapsGrown, Section, DistinctNames, AllApart, MetadataRecorded;
    OwnNamesRecorded(v, own, group, t, m.sizeOf);
    ApartStays(labels, OwnNames(v, own), group, t, m, m');
  }

  /**
  Add_Dim_Name for the variables of one group. The maps before the first of them decide
  which variables get different names.
  */
  method NameVariables(group: EosGroup, own: FieldLists, vars: seq<FileVar>, varDims: seq<seq<Dimension>>,
      numGroups: nat, t: Eos5Type)
    returns (ok: bool)
    requires group.Valid() && ListsRecorded(own, group.name, t, group.dimnamesToDimsizes)
    requires |vars| == |varDims| && SeparateDims(varDims) && numGroups >= 1
    requires forall v :: 0 <= v < |varDims| ==> AllUnnamed(Labels(varDims[v]))
    modifies group, DimsOf(varDims)
    ensures group.Valid()
    ensures ok ==> ListsRecorded(own, group.name, t, group.dimnamesToDimsizes)
    ensures ok ==> forall v :: 0 <= v < |varDims| ==>
      Done(Labels(varDims[v]), group.dimnamesToDimsizes) && group.AllShown(varDims[v], numGroups, t, group.name)
    ensures ok ==> MapsGrown(old(group.State({})), group.State({}))
    ensures ok ==> forall v :: 0 <= v < |varDims| ==>
      NamesApart(vars[v], Labels(varDims[v]), own, group.name, t, old(group.State({})))
    ensures old(group.IsTidy(t)) && t != OTHERVARS ==>
      (ok <==> forall v :: 0 <= v < |vars| ==> OwnRanksAgree(vars[v], own, |varDims[v]|))
  {
    hide Done, AllUnnamed, DimsOf, Tidy, OwnRanksAgree, ListsRecorded, AllApart, DistinctNames, Section, FullName,
      ShownAs, MapsGrown, OwnNames;
    ghost var start := group.State({});
    GrownFromItself(start);
    for v := 0 to |vars|
      invariant group.Valid() && ListsRecorded(own, group.name, t, group.dimnamesToDimsizes)
      invariant forall u :: 0 <= u < v ==>
        Done(Labels(varDims[u]), group.dimnamesToDimsizes) && group.AllShown(varDims[u], numGroups, t, group.name)
      invariant MapsGrown(start, group.State({}))
      invariant forall u :: 0 <= u < v ==> NamesApart(vars[u], Labels(varDims[u]), own, group.name, t, start)
      invariant forall u :: v <= u < |varDims| ==> AllUnnamed(Labels(varDims[u]))
      invariant old(group.IsTidy(t)) && t != OTHERVARS ==>
        group.IsTidy(t) && forall u :: 0 <= u < v ==> OwnRanksAgree(vars[u], own, |varDims[u]|)
    {
      DimsOfVariable(varDims, v);
      label Before:
      ghost var before := group.State({});
      ok := group.NameVariable(vars[v], varDims[v], own, numGroups, t);
      if !ok {
        return;
      }
      ListsStay(own, group.name, t, before.sizeOf, group.dimnamesToDimsizes);
      GrownTwice(start, before, group.State({}));
      ApartAsAtFirst(vars[v], Labels(varDims[v]), own, group.name, t, start, before);
      forall u | 0 <= u < |varDims| && u != v
        ensures Labels(varDims[u]) == old@Before(Labels(varDims[u]))
        ensures group.AllShown(varDims[u], numGroups, t, group.name)
                == old@Before(group.AllShown(varDims[u], numGroups, t, group.name))
      {
        assert forall i :: 0 <= i < |varDims[u]| ==> varDims[u][i] !in varDims[v];
      }
      forall u | 0 <= u < v ensures Done(Labels(varDims[u]), group.dimnamesToDimsizes) {
        DoneStays(Labels(varDims[u]), before.sizeOf, group.dimnamesToDimsizes);
      }
    }
    ok := true;
  }

  /**
  One group of a file: its dimension list is condensed, extended for its variables and
  recorded; then all its variables are named. Each of them ends with a recorded name of
  the right size for every dimension, and the names differ or not as the maps say. With
  sound metadata only a wrong number of dimensions can make any of the steps fail.
  */
  method NameGroup(kind: Eos5Type, name: string, groupDims: seq<HE5Dim>, lists: FieldLists, vars: seq<FileVar>,
      varDims: seq<seq<Dimension>>, numGroups: nat)
    returns (r: Result<(EosGroup, FieldLists)>, ghost condensed: seq<HE5Dim>, ghost more: seq<HE5Dim>)
    requires |vars| == |varDims| && SeparateDims(varDims) && numGroups >= 1
    requires forall v :: 0 <= v < |varDims| ==> AllUnnamed(Labels(varDims[v]))
    modifies DimsOf(varDims)
    ensures r.Ok? ==> fresh(r.value.0) && r.value.0.Valid()
    ensures r.Ok? ==> ListsRecorded(r.value.1, name, kind, r.value.0.dimnamesToDimsizes)
    ensures condensed == Condensed(Condensed(groupDims, XAxis), YAxis)
    ensures r.Ok? ==> ListAdjusted(lists.geo, r.value.1.geo, condensed, more)
    ensures r.Ok? ==> ListAdjusted(lists.data, r.value.1.data, condensed, more)
    ensures r.Ok? ==> forall v :: 0 <= v < |varDims| ==>
      Done(Labels(varDims[v]), r.value.0.dimnamesToDimsizes) && r.value.0.AllShown(varDims[v], numGroups, kind, name)
    ensures r.Ok? ==> forall v, i :: 0 <= v < |varDims| && 0 <= i < |varDims[v]| ==>
      var d := varDims[v][i];
      d.name in r.value.0.dimnamesToDimsizes && r.value.0.dimnamesToDimsizes[d.name] == d.size
    ensures r.Ok? ==> forall v :: 0 <= v < |varDims| ==>
      NamesApart(vars[v], Labels(varDims[v]), r.value.1, name, kind, r.value.0.State({}))
    ensures kind != OTHERVARS && SoundLists(groupDims, lists) ==>
      (r.Ok? <==> forall v :: 0 <= v < |vars| ==> OwnRanksAgree(vars[v], lists, |varDims[v]|))
  {
    hide Done, AllUnnamed, DimsOf, Tidy, OwnRanksAgree, ListsRecorded, SoundLists, Section, FullName, ShownAs, Labels,
      MapsGrown, NamesApart, ListAdjusted;
    var recorded;
    recorded, condensed, more := RecordGroup(kind, name, groupDims, lists);
    if recorded.Thrown? {
      return Thrown(recorded.message), condensed, more;
    }
    var group, own := recorded.value.0, recorded.value.1;
    ghost var m := group.State({});
    var ok := NameVariables(group, own, vars, varDims, numGroups, kind);
    if !ok {
      return Thrown("The dimensions of a variable cannot be named"), condensed, more;
    }
    forall v | 0 <= v < |varDims|
      ensures NamesApart(vars[v], Labels(varDims[v]), own, name, kind, group.State({}))
    {
      ApartAsAtFirst(vars[v], Labels(varDims[v]), own, name, kind, m, group.State({}));
    }
    forall v, i | 0 <= v < |varDims| && 0 <= i < |varDims[v]|
      ensures var d := varDims[v][i]; d.name in group.dimnamesToDimsizes && group.dimnamesToDimsizes[d.name] == d.size
    {
      NamesRecorded(varDims[v], group.dimnamesToDimsizes);
    }
    return Ok((group, own)), condensed, more;
  }
}
