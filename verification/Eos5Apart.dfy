/**
EOS5File: when the dimensions of a variable end up with different names. Metadata names
go first, each to one dimension; the dimensions left are named by size.
*/
module Eos5Apart {
  import opened Eos5Lists
  import opened Eos5Metadata
  import opened Eos5Naming
  import opened KeyOrder
  import opened UniqueNames

  // ----- the condition, in terms of what is known before the variable is named

  /** The distinct metadata names of a size. */
  ghost function MetaNames(dimList: seq<HE5Dim>, group: string, t: Eos5Type, size: nat): set<string> {
    set j | 0 <= j < |dimList| && dimList[j].size == size :: FullName(t, group, dimList[j].name)
  }

  ghost function DimsOfSize(labels: Labelling, size: nat): set<nat> {
    set i | 0 <= i < |labels| && labels[i].0 == size
  }

  /** How many dimensions of a size the metadata leaves without a name. */
  ghost function Left(labels: Labelling, dimList: seq<HE5Dim>, group: string, t: Eos5Type, size: nat): nat {
    var dims, names := |DimsOfSize(labels, size)|, |MetaNames(dimList, group, t, size)|;
    if dims > names then dims - names else 0
  }

  /** The name of the size, if it has one. */
  function NameOfSize(nameOf: map<nat, string>, size: nat): string {
    if size in nameOf then nameOf[size] else ""
  }

  /** The name of the size is not a metadata name of the variable; a name yet to be made up is not. */
  ghost predicate SectionFree(nameOf: map<nat, string>, names: set<string>, size: nat) {
    size in nameOf ==> nameOf[size] !in names
  }

  /** Nor is the first other name recorded for the size. */
  ghost predicate AlternativeFree(nameOf: map<nat, string>, sizeOf: map<string, nat>, names: set<string>, size: nat) {
    var c := NameOfSize(nameOf, size);
    HasAlternative(sizeOf, c, size) ==> FirstAlternative(sizeOf, c, size) !in names
  }

  /** The dimensions of one size get different names. */
  ghost predicate Apart(labels: Labelling, dimList: seq<HE5Dim>, group: string, t: Eos5Type,
      nameOf: map<nat, string>, sizeOf: map<string, nat>, size: nat)
  {
    var left, names := Left(labels, dimList, group, t, size), MetaNames(dimList, group, t, size);
    var sectionFree, alternativeFree := SectionFree(nameOf, names, size), AlternativeFree(nameOf, sizeOf, names, size);
    left == 0 || (left == 1 && (sectionFree || alternativeFree)) || (left == 2 && sectionFree && alternativeFree)
  }

  ghost predicate AllApart(labels: Labelling, dimList: seq<HE5Dim>, group: string, t: Eos5Type,
      nameOf: map<nat, string>, sizeOf: map<string, nat>)
  {
    forall i :: 0 <= i < |labels| ==> Apart(labels, dimList, group, t, nameOf, sizeOf, labels[i].0)
  }

  // ----- naming the dimensions that are left

  ghost predicate IsLeft(start: Labelling, i: int) {
    0 <= i < |start| && start[i].1 == ""
  }

  ghost predicate FirstLeft(start: Labelling, i: int) {
    IsLeft(start, i) && forall j :: 0 <= j < i && IsLeft(start, j) ==> start[j].0 != start[i].0
  }

  /** None of the first n dimensions that are left has the size. */
  ghost predicate Untouched(start: Labelling, n: nat, size: nat) {
    forall i :: 0 <= i < n && IsLeft(start, i) ==> start[i].0 != size
  }

  ghost predicate Taken(m: Maps, size: nat) {
    size in m.nameOf && m.nameOf[size] in m.used
  }

  /** What the maps of a group can have become. */
  ghost predicate MapsGrown(m: Maps, m': Maps) {
    && (forall n :: n in m.sizeOf ==> n in m'.sizeOf && m'.sizeOf[n] == m.sizeOf[n])
    && (forall s :: s in m.nameOf ==> s in m'.nameOf && m'.nameOf[s] == m.nameOf[s])
    && (forall s :: s in m'.nameOf && s !in m.nameOf ==> m'.nameOf[s] !in m.sizeOf)
    && (forall n :: n in m'.sizeOf && n !in m.sizeOf ==> NewName(m, m', n, m'.sizeOf[n]))
  }

  /** A new name is the name of its size, or the size had no other name. */
  ghost predicate NewName(m: Maps, m': Maps, n: string, size: nat) {
    size in m'.nameOf && (m'.nameOf[size] == n || !HasAlternative(m.sizeOf, NameOfSize(m.nameOf, size), size))
  }

  ghost predicate SameForSize(m: Maps, m': Maps, size: nat) {
    && (size in m'.nameOf <==> size in m.nameOf)
    && (Taken(m', size) <==> Taken(m, size))
  }

  /** The first dimension left gets the name of its size unless that is taken; all others the first other name. */
  ghost predicate RightName(start: Labelling, m: Maps, m': Maps, i: nat, name: string)
    requires i < |start|
  {
    var s := start[i].0;
    Taken(m', s) &&
    if FirstLeft(start, i) && !Taken(m, s) then name == m'.nameOf[s]
    else IsFirstAlternative(m'.sizeOf, m'.nameOf[s], s, name)
  }

  /** After n dimensions: from `start` and m to labels and m'. */
  ghost predicate RestNamed(start: Labelling, m: Maps, labels: Labelling, m': Maps, n: nat) {
    && n <= |start| && Kept(start, labels)
    && (forall i :: n <= i < |start| ==> labels[i] == start[i])
    && Section(m'.nameOf, m'.sizeOf) && MapsGrown(m, m')
    && (forall s :: Untouched(start, n, s) ==> SameForSize(m, m', s))
    && (forall i :: 0 <= i < n && IsLeft(start, i) ==> RightName(start, m, m', i, labels[i].1))
  }

  lemma NoneOfTheRest(start: Labelling, m: Maps)
    requires Section(m.nameOf, m.sizeOf)
    ensures RestNamed(start, m, start, m, 0)
  {}

  lemma RestSkip(start: Labelling, m: Maps, labels: Labelling, m': Maps, n: nat)
    requires RestNamed(start, m, labels, m', n) && n < |start| && labels[n].1 != ""
    ensures RestNamed(start, m, labels, m', n + 1)
  {
    hide MapsGrown, SameForSize, RightName, Section;
    forall s | Untouched(start, n + 1, s) ensures SameForSize(m, m', s) {
      assert Untouched(start, n, s);
    }
  }

  /** One call of Create_Unique_DimName on a dimension that is left. */
  lemma RestStep(start: Labelling, m: Maps, labels: Labelling, m': Maps, n: nat, name: string, m'': Maps)
    requires RestNamed(start, m, labels, m', n) && n < |start| && labels[n].1 == ""
    requires Created(m', labels[n].0, name, m'')
    ensures RestNamed(start, m, labels[n := (labels[n].0, name)], m'', n + 1)
  {
    hide MapsGrown, SameForSize, RightName, Section, Created;
    var size, after := start[n].0, labels[n := (labels[n].0, name)];
    CreatedIsRecorded(m', size, name, m'');
    MapsGrownStep(m, m', size, name, m'');
    forall s | Untouched(start, n + 1, s) ensures SameForSize(m, m'', s) {
      assert Untouched(start, n, s) && IsLeft(start, n);
      OtherSize(m', size, name, m'', s);
      SameStays(m, m', m'', s);
    }
    forall i | 0 <= i <= n && IsLeft(start, i) ensures RightName(start, m, m'', i, after[i].1) {
      if i < n {
        EarlierStays(start, m, m', i, labels[i].1, size, name, m'');
      } else {
        if !FirstLeft(start, n) {
          var j :| 0 <= j < n && IsLeft(start, j) && start[j].0 == size;
          RightNameIsTaken(start, m, m', j, labels[j].1);
        } else {
          assert Untouched(start, n, size);
        }
        NewIsRight(start, m, m', n, name, m'');
      }
    }
  }

  lemma RightNameIsTaken(start: Labelling, m: Maps, m': Maps, i: nat, name: string)
    requires i < |start| && RightName(start, m, m', i, name)
    ensures Taken(m', start[i].0)
  {}

  lemma MapsGrownStep(m: Maps, m': Maps, size: nat, name: string, m'': Maps)
    requires MapsGrown(m, m') && Section(m'.nameOf, m'.sizeOf) && Created(m', size, name, m'')
    ensures MapsGrown(m, m'')
  {
    hide HasAlternative, IsFirstAlternative;
    if size in m'.nameOf && name !in m'.sizeOf {
      NoAlternativeBefore(m, m', size);
    }
  }

  lemma NoAlternativeBefore(m: Maps, m': Maps, size: nat)
    requires MapsGrown(m, m') && size in m'.nameOf
    ensures HasAlternative(m.sizeOf, NameOfSize(m.nameOf, size), size) ==>
            HasAlternative(m'.sizeOf, m'.nameOf[size], size)
  {
    if x :| IsAlternative(m.sizeOf, NameOfSize(m.nameOf, size), size, x) {
      assert IsAlternative(m'.sizeOf, m'.nameOf[size], size, x);
    }
  }

  /** Naming a dimension does nothing to other sizes. */
  lemma OtherSize(m: Maps, size: nat, name: string, m': Maps, s: nat)
    requires Section(m.nameOf, m.sizeOf) && Created(m, size, name, m') && s != size
    ensures SameForSize(m, m', s) && (s in m.nameOf ==> m'.nameOf[s] == m.nameOf[s])
    ensures forall x :: s in m.nameOf && IsFirstAlternative(m.sizeOf, m.nameOf[s], s, x) ==>
              IsFirstAlternative(m'.sizeOf, m'.nameOf[s], s, x)
  {
    hide HasAlternative, IsFirstAlternative;
    if m'.sizeOf != m.sizeOf {
      forall x | s in m.nameOf && IsFirstAlternative(m.sizeOf, m.nameOf[s], s, x)
        ensures IsFirstAlternative(m'.sizeOf, m'.nameOf[s], s, x)
      {
        AlternativeStays(m.sizeOf, m.nameOf[s], s, x, name, size);
      }
    }
  }

  lemma SameStays(m: Maps, m': Maps, m'': Maps, s: nat)
    requires SameForSize(m, m', s) && SameForSize(m', m'', s)
    ensures SameForSize(m, m'', s)
  {}

  lemma EarlierStays(start: Labelling, m: Maps, m': Maps, i: nat, given: string, size: nat, name: string, m'': Maps)
    requires i < |start| && RightName(start, m, m', i, given)
    requires Section(m'.nameOf, m'.sizeOf) && Created(m', size, name, m'')
    ensures RightName(start, m, m'', i, given)
  {
    hide HasAlternative, IsFirstAlternative, FirstLeft;
    var s := start[i].0;
    if s != size {
      OtherSize(m', size, name, m'', s);
    } else if !(FirstLeft(start, i) && !Taken(m, s)) {
      AlternativeIsOne(m'.sizeOf, m'.nameOf[s], s, given);
    }
  }

  lemma NewIsRight(start: Labelling, m: Maps, m': Maps, n: nat, name: string, m'': Maps)
    requires n < |start| && Created(m', start[n].0, name, m'') && Section(m'.nameOf, m'.sizeOf)
    requires FirstLeft(start, n) ==> SameForSize(m, m', start[n].0)
    requires !FirstLeft(start, n) ==> Taken(m', start[n].0)
    ensures RightName(start, m, m'', n, name)
  {
    hide HasAlternative, IsFirstAlternative, FirstLeft;
    var s := start[n].0;
    if Taken(m', s) && !HasAlternative(m'.sizeOf, m'.nameOf[s], s) {
      OnlyAlternative(m'.sizeOf, m'.nameOf[s], s, name);
    }
  }

  // ----- counting what is left

  ghost function LeftOfSize(start: Labelling, size: nat): set<nat> {
    set i | 0 <= i < |start| && IsLeft(start, i) && start[i].0 == size
  }

  ghost function NamedOfSize(start: Labelling, size: nat): set<nat> {
    set i | 0 <= i < |start| && IsNamed(start, i) && start[i].0 == size
  }

  /** Different dimensions with different names from a set: no more than the set has. */
  lemma {:induction false} NamesCount(labels: Labelling, dims: set<nat>, names: set<string>)
    requires forall i :: i in dims ==> i < |labels| && labels[i].1 in names
    requires forall i, j :: i in dims && j in dims && i != j ==> labels[i].1 != labels[j].1
    ensures |dims| <= |names|
    ensures (forall x :: x in names ==> exists i :: i in dims && labels[i].1 == x) ==> |dims| == |names|
  {
    if dims == {} {
      if names != {} {
        var x :| x in names;
      }
    } else {
      var i :| i in dims;
      NamesCount(labels, dims - {i}, names - {labels[i].1});
    }
  }

  lemma NamedByMetadata(start: Labelling, used: set<string>, dimList: seq<HE5Dim>, group: string, t: Eos5Type,
      size: nat, i: nat)
    requires FromMetadata(start, used, dimList, group, t) && i in NamedOfSize(start, size)
    ensures start[i].1 in MetaNames(dimList, group, t, size)
  {
    hide FullName;
    assert IsNamed(start, i) && GivenBy(start, i, dimList, group, t);
  }

  /** Once a dimension of the size is left, all metadata names of the size are in use. */
  lemma AllMetaNamesUsed(start: Labelling, used: set<string>, dimList: seq<HE5Dim>, group: string, t: Eos5Type,
      size: nat, l: nat, x: string)
    requires FromMetadata(start, used, dimList, group, t) && UsedUp(start, used, dimList, group, t)
    requires OneSizeEach(dimList, group, t)
    requires l in LeftOfSize(start, size) && x in MetaNames(dimList, group, t, size)
    ensures x in used && exists i :: i in NamedOfSize(start, size) && start[i].1 == x
  {
    hide FullName, DistinctNames;
    var j :| 0 <= j < |dimList| && dimList[j].size == size && FullName(t, group, dimList[j].name) == x;
    var i :| IsNamed(start, i) && start[i].1 == x;
    assert GivenBy(start, i, dimList, group, t);
    assert i in NamedOfSize(start, size);
  }

  /** The number before is the number of dimensions that are in fact left. */
  lemma LeftCounts(start: Labelling, used: set<string>, dimList: seq<HE5Dim>, group: string, t: Eos5Type, size: nat)
    requires FromMetadata(start, used, dimList, group, t) && UsedUp(start, used, dimList, group, t)
    requires OneSizeEach(dimList, group, t)
    ensures |LeftOfSize(start, size)| == Left(start, dimList, group, t, size)
  {
    hide FromMetadata, UsedUp, OneSizeEach, MetaNames;
    var named, left, names := NamedOfSize(start, size), LeftOfSize(start, size), MetaNames(dimList, group, t, size);
    assert DimsOfSize(start, size) == named + left && named !! left;
    forall i | i in named ensures start[i].1 in names {
      NamedByMetadata(start, used, dimList, group, t, size, i);
    }
    forall x | x in names && left != {} ensures exists i :: i in named && start[i].1 == x {
      var l :| l in left;
      AllMetaNamesUsed(start, used, dimList, group, t, size, l, x);
    }
    StartIsDistinct(start, used, dimList, group, t);
    NamesCount(start, named, names);
  }

  lemma StartIsDistinct(start: Labelling, used: set<string>, dimList: seq<HE5Dim>, group: string, t: Eos5Type)
    requires FromMetadata(start, used, dimList, group, t)
    ensures forall i, j :: IsNamed(start, i) && IsNamed(start, j) && i != j ==> start[i].1 != start[j].1
  {}

  /** A metadata name stands for one size. */
  ghost predicate OneSizeEach(dimList: seq<HE5Dim>, group: string, t: Eos5Type) {
    forall i, j | 0 <= i < |dimList| && 0 <= j < |dimList| ::
      FullName(t, group, dimList[i].name) == FullName(t, group, dimList[j].name) ==> dimList[i].size == dimList[j].size
  }

  // ----- which names coincide

  ghost predicate DistinctForSize(labels: Labelling, size: nat) {
    forall i, j :: 0 <= i < j < |labels| && labels[i].0 == size && labels[j].0 == size ==> labels[i].1 != labels[j].1
  }

  /** A variable whose dimensions have all been named: by metadata first, then by size. */
  ghost predicate Run(start: Labelling, m: Maps, labels: Labelling, m': Maps, dimList: seq<HE5Dim>, group: string,
      t: Eos5Type)
  {
    && FromMetadata(start, m.used, dimList, group, t) && UsedUp(start, m.used, dimList, group, t)
    && MetadataRecorded(dimList, group, t, m.sizeOf)
    && Section(m.nameOf, m.sizeOf) && "" !in m.sizeOf
    && RestNamed(start, m, labels, m', |start|)
    && AllNamed(labels) && Recorded(labels, m'.sizeOf)
  }

  lemma RecordedOnce(dimList: seq<HE5Dim>, group: string, t: Eos5Type, sizeOf: map<string, nat>)
    requires MetadataRecorded(dimList, group, t, sizeOf)
    ensures OneSizeEach(dimList, group, t)
    ensures forall s, x :: x in MetaNames(dimList, group, t, s) ==> x in sizeOf && sizeOf[x] == s
  {
    hide FullName;
  }

  /** When a dimension of a size is left, the name of the size is taken exactly when it is a metadata name. */
  lemma SectionTaken(start: Labelling, m: Maps, dimList: seq<HE5Dim>, group: string, t: Eos5Type, size: nat, l: nat)
    requires FromMetadata(start, m.used, dimList, group, t) && UsedUp(start, m.used, dimList, group, t)
    requires MetadataRecorded(dimList, group, t, m.sizeOf) && Section(m.nameOf, m.sizeOf)
    requires l in LeftOfSize(start, size)
    ensures Taken(m, size) <==> !SectionFree(m.nameOf, MetaNames(dimList, group, t, size), size)
  {
    hide FullName, DistinctNames;
    RecordedOnce(dimList, group, t, m.sizeOf);
    if size in m.nameOf {
      var c := m.nameOf[size];
      if c in MetaNames(dimList, group, t, size) {
        AllMetaNamesUsed(start, m.used, dimList, group, t, size, l, c);
      }
    }
  }

  /** The first other name of a size is a metadata name exactly when it was one before. */
  lemma AlternativeTaken(m: Maps, m': Maps, names: set<string>, size: nat, a: string)
    requires MapsGrown(m, m') && Section(m.nameOf, m.sizeOf) && "" !in m.sizeOf && size in m'.nameOf
    requires forall x :: x in names ==> x in m.sizeOf
    requires IsFirstAlternative(m'.sizeOf, m'.nameOf[size], size, a)
    ensures a in names <==> !AlternativeFree(m.nameOf, m.sizeOf, names, size)
  {
    hide LexLe;
    var c, c' := NameOfSize(m.nameOf, size), m'.nameOf[size];
    forall x ensures IsAlternative(m.sizeOf, c, size, x) <==> IsAlternative(m'.sizeOf, c', size, x) && x in m.sizeOf {
    }
    if HasAlternative(m.sizeOf, c, size) {
      forall x | IsAlternative(m'.sizeOf, c', size, x) ensures x in m.sizeOf {
        assert x !in m.sizeOf ==> NewName(m, m', x, size);
      }
      assert IsFirstAlternative(m.sizeOf, c, size, a);
      FirstAlternativeUnique(m.sizeOf, c, size, a, FirstAlternative(m.sizeOf, c, size));
    } else if a in m.sizeOf {
      AlternativeExists(m.sizeOf, c, size, a);
    }
  }

  /** The dimensions have different names from a set. */
  ghost predicate NamedFrom(labels: Labelling, dims: set<nat>, names: set<string>) {
    && (forall i :: i in dims ==> i < |labels| && labels[i].1 in names)
    && (forall i, j :: i in dims && j in dims && i != j ==> labels[i].1 != labels[j].1)
  }

  /** Together they have all names of the set. */
  ghost predicate AllNamesGiven(labels: Labelling, dims: set<nat>, names: set<string>) {
    forall x :: x in names ==> exists i :: i in dims && i < |labels| && labels[i].1 == x
  }

  ghost predicate AllCalled(labels: Labelling, dims: set<nat>, name: string) {
    forall i :: i in dims ==> i < |labels| && labels[i].1 == name
  }

  /** Metadata names, at most one name of the size, and one other name for the rest. */
  lemma Combine(labels: Labelling, size: nat, named: set<nat>, first: set<nat>, others: set<nat>,
      names: set<string>, c: string, a: string)
    requires DimsOfSize(labels, size) == named + first + others
    requires NamedFrom(labels, named, names) && (others != {} ==> AllNamesGiven(labels, named, names))
    requires |first| <= 1 && c !in names && AllCalled(labels, first, c) && AllCalled(labels, others, a)
    requires first != {} && others != {} ==> c != a
    requires named !! others
    ensures DistinctForSize(labels, size) <==> |others| == 0 || (|others| == 1 && a !in names)
  {
    hide NamedFrom, AllNamesGiven, AllCalled, DistinctForSize;
    if |others| >= 2 {
      var i, j := TwoElements(others);
      CalledAlike(labels, size, others, a, i, j);
    } else if |others| == 1 && a in names {
      var o :| o in others;
      ClashWithMetadata(labels, size, named, others, names, a, o);
    } else {
      NoClash(labels, size, named, first, others, names, c, a);
    }
  }

  lemma CalledAlike(labels: Labelling, size: nat, others: set<nat>, a: string, i: nat, j: nat)
    requires AllCalled(labels, others, a) && others <= DimsOfSize(labels, size)
    requires i in others && j in others && i != j
    ensures !DistinctForSize(labels, size)
  {
    SameNames(labels, size, i, j);
  }

  lemma ClashWithMetadata(labels: Labelling, size: nat, named: set<nat>, others: set<nat>, names: set<string>,
      a: string, o: nat)
    requires named <= DimsOfSize(labels, size) && others <= DimsOfSize(labels, size) && named !! others
    requires AllNamesGiven(labels, named, names) && AllCalled(labels, others, a) && a in names && o in others
    ensures !DistinctForSize(labels, size)
  {
    var i :| i in named && i < |labels| && labels[i].1 == a;
    SameNames(labels, size, i, o);
  }

  lemma NoClash(labels: Labelling, size: nat, named: set<nat>, first: set<nat>, others: set<nat>,
      names: set<string>, c: string, a: string)
    requires DimsOfSize(labels, size) == named + first + others
    requires NamedFrom(labels, named, names) && AllCalled(labels, first, c) && AllCalled(labels, others, a)
    requires |first| <= 1 && |others| <= 1 && c !in names && (others != {} ==> a !in names)
    requires first != {} && others != {} ==> c != a
    ensures DistinctForSize(labels, size)
  {
    AtMostOne(first);
    AtMostOne(others);
    forall i: nat, j: nat | i < j < |labels| && labels[i].0 == size && labels[j].0 == size
      ensures labels[i].1 != labels[j].1
    {
      assert i in DimsOfSize(labels, size) && j in DimsOfSize(labels, size);
    }
  }

  lemma TwoElements(s: set<nat>) returns (i: nat, j: nat)
    requires |s| >= 2
    ensures i in s && j in s && i != j
  {
    i :| i in s;
    assert |s - {i}| >= 1;
    j :| j in s - {i};
  }

  lemma AtMostOne(s: set<nat>)
    requires |s| <= 1
    ensures forall i, j :: i in s && j in s ==> i == j
  {
    if s != {} {
      var x :| x in s;
      assert |s - {x}| == 0;
    }
  }

  lemma SameNames(labels: Labelling, size: nat, i: nat, j: nat)
    requires i < |labels| && j < |labels| && i != j && labels[i].0 == labels[j].0 == size
    requires labels[i].1 == labels[j].1
    ensures !DistinctForSize(labels, size)
  {
    var lo, hi := (if i < j then i else j), (if i < j then j else i);
    assert 0 <= lo < hi < |labels| && labels[lo].1 == labels[hi].1;
  }

  lemma {:induction false} FirstLeftExists(start: Labelling, size: nat, l: nat) returns (f: nat)
    requires l in LeftOfSize(start, size)
    ensures f in LeftOfSize(start, size) && FirstLeft(start, f)
    decreases l
  {
    if FirstLeft(start, l) {
      f := l;
    } else {
      var j :| 0 <= j < l && IsLeft(start, j) && start[j].0 == size;
      f := FirstLeftExists(start, size, j);
    }
  }

  lemma OneFirstLeft(start: Labelling, size: nat, f: nat, i: nat)
    requires f in LeftOfSize(start, size) && i in LeftOfSize(start, size) && FirstLeft(start, f)
    ensures FirstLeft(start, i) <==> i == f
  {}

  /** The names that the dimensions left of a size end up with. */
  lemma NamesOfTheRest(start: Labelling, m: Maps, labels: Labelling, m': Maps, dimList: seq<HE5Dim>, group: string,
      t: Eos5Type, size: nat, f: nat, i: nat)
    requires Run(start, m, labels, m', dimList, group, t)
    requires f in LeftOfSize(start, size) && FirstLeft(start, f) && i in LeftOfSize(start, size)
    ensures size in m'.nameOf
    ensures if i == f && SectionFree(m.nameOf, MetaNames(dimList, group, t, size), size)
            then labels[i].1 == m'.nameOf[size]
            else IsFirstAlternative(m'.sizeOf, m'.nameOf[size], size, labels[i].1)
  {
    hide FromMetadata, UsedUp, MetadataRecorded, MetaNames, SectionFree, Section, MapsGrown, SameForSize, FirstLeft,
      IsFirstAlternative, Recorded, AllNamed;
    SectionTaken(start, m, dimList, group, t, size, f);
    OneFirstLeft(start, size, f, i);
    assert RightName(start, m, m', i, labels[i].1);
  }

  lemma KeptNames(start: Labelling, labels: Labelling, size: nat)
    requires Kept(start, labels)
    ensures |labels| == |start|
    ensures DimsOfSize(labels, size) == NamedOfSize(start, size) + LeftOfSize(start, size)
    ensures NamedOfSize(start, size) !! LeftOfSize(start, size)
    ensures forall i :: i in NamedOfSize(start, size) ==> i < |start| && labels[i] == start[i]
    ensures forall i :: i in LeftOfSize(start, size) ==> i < |start|
  {}

  /** What a run says of the dimensions of one size. */
  lemma RunFacts(start: Labelling, m: Maps, labels: Labelling, m': Maps, dimList: seq<HE5Dim>, group: string,
      t: Eos5Type, size: nat)
    requires Run(start, m, labels, m', dimList, group, t)
    ensures Kept(start, labels) && OneSizeEach(dimList, group, t)
    ensures |LeftOfSize(start, size)| == Left(start, dimList, group, t, size)
    ensures DimsOfSize(labels, size) == NamedOfSize(start, size) + LeftOfSize(start, size)
    ensures NamedOfSize(start, size) !! LeftOfSize(start, size)
    ensures NamedFrom(labels, NamedOfSize(start, size), MetaNames(dimList, group, t, size))
    ensures forall x :: x in MetaNames(dimList, group, t, size) ==> x in m.sizeOf
  {
    hide FromMetadata, UsedUp, MetadataRecorded, MetaNames, Section, MapsGrown, SameForSize, RightName, FirstLeft,
      Recorded, AllNamed, Kept, LeftOfSize, NamedOfSize, DimsOfSize, Left, NamedFrom;
    var named, names := NamedOfSize(start, size), MetaNames(dimList, group, t, size);
    RecordedOnce(dimList, group, t, m.sizeOf);
    LeftCounts(start, m.used, dimList, group, t, size);
    KeptNames(start, labels, size);
    StartIsDistinct(start, m.used, dimList, group, t);
    NamedAreNamed(start, size);
    forall i | i in named ensures labels[i].1 in names {
      NamedByMetadata(start, m.used, dimList, group, t, size, i);
    }
    NamedFromMetadata(start, labels, named, names);
  }

  /** For one size: the names are different exactly when the condition holds. */
  lemma SizeApart(start: Labelling, m: Maps, labels: Labelling, m': Maps, dimList: seq<HE5Dim>, group: string,
      t: Eos5Type, size: nat)
    requires Run(start, m, labels, m', dimList, group, t)
    ensures DistinctForSize(labels, size) <==> Apart(start, dimList, group, t, m.nameOf, m.sizeOf, size)
  {
    hide Run, MetaNames, SectionFree, Kept, DistinctForSize, LeftOfSize, NamedOfSize, DimsOfSize, AlternativeFree, Left,
      NamedFrom, OneSizeEach, AllCalled, AllNamesGiven;
    var named, left, names := NamedOfSize(start, size), LeftOfSize(start, size), MetaNames(dimList, group, t, size);
    RunFacts(start, m, labels, m', dimList, group, t, size);
    if left == {} {
      NobodyCalled(labels);
      var c := UnusedName(names);
      Combine(labels, size, named, {}, {}, names, c, c);
    } else {
      var l :| l in left;
      SomeLeft(start, m, labels, m', dimList, group, t, size, l);
    }
  }

  lemma SomeLeft(start: Labelling, m: Maps, labels: Labelling, m': Maps, dimList: seq<HE5Dim>, group: string,
      t: Eos5Type, size: nat, l: nat)
    requires Run(start, m, labels, m', dimList, group, t) && l in LeftOfSize(start, size)
    ensures DistinctForSize(labels, size) <==>
            var left := |LeftOfSize(start, size)|;
            var free := SectionFree(m.nameOf, MetaNames(dimList, group, t, size), size);
            var others := if free then left - 1 else left;
            others == 0 ||
            (others == 1 && AlternativeFree(m.nameOf, m.sizeOf, MetaNames(dimList, group, t, size), size))
  {
    hide MetaNames, SectionFree, Kept, DistinctForSize, LeftOfSize, NamedOfSize, DimsOfSize, AlternativeFree,
      NamedFrom, OneSizeEach, AllCalled, AllNamesGiven, FromMetadata, UsedUp, RestNamed, IsFirstAlternative, RestCalled,
      MapsGrown, MetadataRecorded, Section, AllNamed, Recorded;
    var names := MetaNames(dimList, group, t, size);
    RunFacts(start, m, labels, m', dimList, group, t, size);
    AllUsedByNow(start, m.used, dimList, group, t, size, l, labels);
    var f := FirstLeftExists(start, size, l);
    RestIsCalled(start, m, labels, m', dimList, group, t, size, f);
    MapsHaveGrown(start, m, labels, m');
    CombineLeft(labels, m, m', size, NamedOfSize(start, size), LeftOfSize(start, size), names, f,
      SectionFree(m.nameOf, names, size));
  }

  lemma MapsHaveGrown(start: Labelling, m: Maps, labels: Labelling, m': Maps)
    requires RestNamed(start, m, labels, m', |start|)
    ensures MapsGrown(m, m')
  {}

  /** The first of them has the name of the size if that is free; the others the first other name. */
  ghost predicate RestCalled(labels: Labelling, left: set<nat>, f: nat, free: bool, m': Maps, size: nat) {
    && size in m'.nameOf
    && (forall i :: i in left ==> i < |labels|)
    && (f in left && free ==> labels[f].1 == m'.nameOf[size])
    && forall i :: i in left && !(i == f && free) ==>
         IsFirstAlternative(m'.sizeOf, m'.nameOf[size], size, labels[i].1)
  }

  lemma RestIsCalled(start: Labelling, m: Maps, labels: Labelling, m': Maps, dimList: seq<HE5Dim>, group: string,
      t: Eos5Type, size: nat, f: nat)
    requires Run(start, m, labels, m', dimList, group, t)
    requires f in LeftOfSize(start, size) && FirstLeft(start, f)
    ensures RestCalled(labels, LeftOfSize(start, size), f,
              SectionFree(m.nameOf, MetaNames(dimList, group, t, size), size), m', size)
  {
    hide Run, FirstLeft, SectionFree, MetaNames, IsFirstAlternative;
    LeftIsInside(start, m, labels, m', dimList, group, t, size);
    NamesOfTheRest(start, m, labels, m', dimList, group, t, size, f, f);
    forall i | i in LeftOfSize(start, size)
      ensures if i == f && SectionFree(m.nameOf, MetaNames(dimList, group, t, size), size)
              then labels[i].1 == m'.nameOf[size]
              else IsFirstAlternative(m'.sizeOf, m'.nameOf[size], size, labels[i].1)
    {
      NamesOfTheRest(start, m, labels, m', dimList, group, t, size, f, i);
    }
  }

  lemma LeftIsInside(start: Labelling, m: Maps, labels: Labelling, m': Maps, dimList: seq<HE5Dim>, group: string,
      t: Eos5Type, size: nat)
    requires Run(start, m, labels, m', dimList, group, t)
    ensures forall i :: i in LeftOfSize(start, size) ==> i < |labels|
  {}

  lemma NamedFromMetadata(start: Labelling, labels: Labelling, named: set<nat>, names: set<string>)
    requires forall i :: i in named ==> i < |labels| && IsNamed(start, i) && labels[i] == start[i]
    requires forall i :: i in named ==> labels[i].1 in names
    requires forall i, j :: IsNamed(start, i) && IsNamed(start, j) && i != j ==> start[i].1 != start[j].1
    ensures NamedFrom(labels, named, names)
  {}

  lemma NobodyCalled(labels: Labelling)
    ensures forall c: string :: AllCalled(labels, {}, c)
  {}

  lemma UnusedName(names: set<string>) returns (c: string)
    ensures c !in names
  {
    c := UniqueName("", names);
  }

  lemma AllUsedByNow(start: Labelling, used: set<string>, dimList: seq<HE5Dim>, group: string, t: Eos5Type,
      size: nat, l: nat, labels: Labelling)
    requires FromMetadata(start, used, dimList, group, t) && UsedUp(start, used, dimList, group, t)
    requires OneSizeEach(dimList, group, t) && l in LeftOfSize(start, size) && Kept(start, labels)
    ensures AllNamesGiven(labels, NamedOfSize(start, size), MetaNames(dimList, group, t, size))
  {
    hide FromMetadata, UsedUp, OneSizeEach, MetaNames, LeftOfSize;
    forall x | x in MetaNames(dimList, group, t, size)
      ensures exists i :: i in NamedOfSize(start, size) && i < |labels| && labels[i].1 == x
    {
      AllMetaNamesUsed(start, used, dimList, group, t, size, l, x);
      var i :| i in NamedOfSize(start, size) && start[i].1 == x;
      assert labels[i] == start[i];
    }
  }

  lemma NamedAreNamed(start: Labelling, size: nat)
    ensures forall i :: i in NamedOfSize(start, size) ==> IsNamed(start, i)
  {}

  lemma SectionNameFree(m: Maps, m': Maps, names: set<string>, size: nat)
    requires MapsGrown(m, m') && size in m'.nameOf && (forall x :: x in names ==> x in m.sizeOf)
    ensures SectionFree(m.nameOf, names, size) ==> m'.nameOf[size] !in names
  {}

  lemma AlternativeDiffersFrom(sizeOf: map<string, nat>, c: string, size: nat, a: string)
    requires IsFirstAlternative(sizeOf, c, size, a)
    ensures a != c && a in sizeOf
  {}

  lemma CombineLeft(labels: Labelling, m: Maps, m': Maps, size: nat, named: set<nat>, left: set<nat>,
      names: set<string>, f: nat, free: bool)
    requires DimsOfSize(labels, size) == named + left && named !! left && f in left
    requires NamedFrom(labels, named, names) && AllNamesGiven(labels, named, names)
    requires MapsGrown(m, m') && Section(m.nameOf, m.sizeOf) && "" !in m.sizeOf
    requires forall x :: x in names ==> x in m.sizeOf
    requires free == SectionFree(m.nameOf, names, size)
    requires RestCalled(labels, left, f, free, m', size)
    ensures DistinctForSize(labels, size) <==>
            var others := if free then |left| - 1 else |left|;
            others == 0 || (others == 1 && AlternativeFree(m.nameOf, m.sizeOf, names, size))
  {
    hide DistinctForSize, AlternativeFree, DimsOfSize, SectionFree, Section, MapsGrown, IsFirstAlternative, NamedFrom,
      AllNamesGiven, AllCalled, RestCalled;
    var first := if free then {f} else {};
    var others := left - first;
    assert named + first + others == named + left && |others| == if free then |left| - 1 else |left|;
    var c, a := CallOthers(labels, m, m', size, left, names, f, free, first, others);
    Combine(labels, size, named, first, others, names, c, a);
  }

  /** The two names: that of the size, and the one all others share. */
  lemma CallOthers(labels: Labelling, m: Maps, m': Maps, size: nat, left: set<nat>, names: set<string>, f: nat,
      free: bool, first: set<nat>, others: set<nat>) returns (c: string, a: string)
    requires MapsGrown(m, m') && Section(m.nameOf, m.sizeOf) && "" !in m.sizeOf
    requires forall x :: x in names ==> x in m.sizeOf
    requires free == SectionFree(m.nameOf, names, size) && f in left
    requires RestCalled(labels, left, f, free, m', size)
    requires first == (if free then {f} else {}) && others == left - first
    ensures c !in names && AllCalled(labels, first, c) && AllCalled(labels, others, a)
    ensures first != {} && others != {} ==> c != a
    ensures others != {} ==> (a in names <==> !AlternativeFree(m.nameOf, m.sizeOf, names, size))
  {
    hide AlternativeFree, SectionFree, Section, MapsGrown, IsFirstAlternative;
    c, a := if free then m'.nameOf[size] else "", "";
    SectionNameFree(m, m', names, size);
    if others != {} {
      var o :| o in others;
      a := labels[o].1;
      forall i | i in others ensures labels[i].1 == a {
        FirstAlternativeUnique(m'.sizeOf, m'.nameOf[size], size, labels[i].1, a);
      }
      AlternativeTaken(m, m', names, size, a);
      AlternativeDiffersFrom(m'.sizeOf, m'.nameOf[size], size, a);
    }
  }

  /** The names of all dimensions are different exactly when they are for each size. */
  lemma DistinctBySize(labels: Labelling, sizeOf: map<string, nat>)
    requires AllNamed(labels) && Recorded(labels, sizeOf)
    ensures DistinctNames(labels) <==> forall i :: 0 <= i < |labels| ==> DistinctForSize(labels, labels[i].0)
  {
    if forall i :: 0 <= i < |labels| ==> DistinctForSize(labels, labels[i].0) {
      forall i, j | IsNamed(labels, i) && IsNamed(labels, j) && i < j ensures labels[i].1 != labels[j].1 {
        assert DistinctForSize(labels, labels[i].0);
      }
    }
    if DistinctNames(labels) {
      forall i, j | 0 <= i < j < |labels| && labels[i].0 == labels[j].0 ensures labels[i].1 != labels[j].1
      {
        assert IsNamed(labels, i) && IsNamed(labels, j);
      }
    }
  }

  /** All dimensions of a variable get different names exactly when the condition holds for every size. */
  lemma ApartExactly(start: Labelling, m: Maps, labels: Labelling, m': Maps, dimList: seq<HE5Dim>, group: string,
      t: Eos5Type)
    requires Run(start, m, labels, m', dimList, group, t)
    ensures DistinctNames(labels) <==> AllApart(start, dimList, group, t, m.nameOf, m.sizeOf)
  {
    hide Apart, DistinctForSize, DistinctNames, FromMetadata, UsedUp, MetadataRecorded, MapsGrown, Section, Recorded,
      RightName, SameForSize;
    DistinctBySize(labels, m'.sizeOf);
    forall i | 0 <= i < |labels|
      ensures DistinctForSize(labels, labels[i].0) <==>
              Apart(start, dimList, group, t, m.nameOf, m.sizeOf, start[i].0)
    {
      SizeApart(start, m, labels, m', dimList, group, t, labels[i].0);
    }
  }

  /** The condition looks at sizes only. */
  lemma ApartBySizes(a: Labelling, b: Labelling, dimList: seq<HE5Dim>, group: string, t: Eos5Type,
      nameOf: map<nat, string>, sizeOf: map<string, nat>)
    requires |a| == |b| && forall i :: 0 <= i < |a| ==> a[i].0 == b[i].0
    ensures AllApart(a, dimList, group, t, nameOf, sizeOf) <==> AllApart(b, dimList, group, t, nameOf, sizeOf)
  {
    hide SectionFree, AlternativeFree, MetaNames;
    forall s ensures DimsOfSize(a, s) == DimsOfSize(b, s) {
    }
  }

  // ----- the condition is the same before and after other variables are named

  lemma GrownFromItself(m: Maps)
    ensures MapsGrown(m, m)
  {}

  /** The names in use by a variable do not matter. */
  lemma GrownAnyway(m: Maps, m': Maps, used: set<string>, used': set<string>)
    requires MapsGrown(m, m')
    ensures MapsGrown(m.(used := used), m'.(used := used'))
  {}

  lemma GrownTwice(m: Maps, m': Maps, m'': Maps)
    requires MapsGrown(m, m') && MapsGrown(m', m'') && "" !in m'.sizeOf
    ensures MapsGrown(m, m'')
  {
    hide HasAlternative;
    forall n | n in m''.sizeOf && n !in m.sizeOf ensures NewName(m, m'', n, m''.sizeOf[n]) {
      var size := m''.sizeOf[n];
      if n !in m'.sizeOf {
        AlternativesStay(m, m', size);
      }
    }
  }

  /** A size with two names keeps having two. */
  lemma AlternativesStay(m: Maps, m': Maps, size: nat)
    requires MapsGrown(m, m') && "" !in m'.sizeOf
    ensures HasAlternative(m.sizeOf, NameOfSize(m.nameOf, size), size) ==>
            HasAlternative(m'.sizeOf, NameOfSize(m'.nameOf, size), size)
  {
    if x :| IsAlternative(m.sizeOf, NameOfSize(m.nameOf, size), size, x) {
      assert IsAlternative(m'.sizeOf, NameOfSize(m'.nameOf, size), size, x);
    }
  }

  lemma MetaNamesRecorded(dimList: seq<HE5Dim>, group: string, t: Eos5Type, sizeOf: map<string, nat>, size: nat)
    requires MetadataRecorded(dimList, group, t, sizeOf)
    ensures forall x :: x in MetaNames(dimList, group, t, size) ==> x in sizeOf
  {
    hide FullName;
  }

  lemma SectionFreeStays(m: Maps, m': Maps, names: set<string>, size: nat)
    requires MapsGrown(m, m') && Section(m.nameOf, m.sizeOf)
    requires forall x :: x in names ==> x in m.sizeOf
    ensures SectionFree(m.nameOf, names, size) <==> SectionFree(m'.nameOf, names, size)
  {}

  lemma AlternativeFreeStays(m: Maps, m': Maps, names: set<string>, size: nat)
    requires MapsGrown(m, m') && Section(m.nameOf, m.sizeOf) && "" !in m'.sizeOf
    requires forall x :: x in names ==> x in m.sizeOf
    ensures AlternativeFree(m.nameOf, m.sizeOf, names, size) <==> AlternativeFree(m'.nameOf, m'.sizeOf, names, size)
  {
    hide LexLe, HasAlternative;
    var c, c' := NameOfSize(m.nameOf, size), NameOfSize(m'.nameOf, size);
    AlternativesStay(m, m', size);
    if HasAlternative(m'.sizeOf, c', size) {
      var a := FirstAlternative(m'.sizeOf, c', size);
      if size in m'.nameOf {
        AlternativeTaken(m, m', names, size, a);
      } else {
        assert forall x :: IsAlternative(m'.sizeOf, c', size, x) ==> x in m.sizeOf || NewName(m, m', x, size);
        assert IsFirstAlternative(m.sizeOf, c, size, a);
        AlternativeIsOne(m.sizeOf, c, size, a);
        FirstAlternativeUnique(m.sizeOf, c, size, a, FirstAlternative(m.sizeOf, c, size));
      }
    }
  }

  /** Naming other variables in between does not change whether the names of a variable will differ. */
  lemma ApartStays(labels: Labelling, dimList: seq<HE5Dim>, group: string, t: Eos5Type, m: Maps, m': Maps)
    requires MapsGrown(m, m') && Section(m.nameOf, m.sizeOf) && "" !in m'.sizeOf
    requires MetadataRecorded(dimList, group, t, m.sizeOf)
    ensures AllApart(labels, dimList, group, t, m.nameOf, m.sizeOf) <==>
            AllApart(labels, dimList, group, t, m'.nameOf, m'.sizeOf)
  {
    hide MapsGrown, Section, MetadataRecorded, MetaNames, SectionFree, AlternativeFree, Left;
    forall i | 0 <= i < |labels|
      ensures Apart(labels, dimList, group, t, m.nameOf, m.sizeOf, labels[i].0) <==>
              Apart(labels, dimList, group, t, m'.nameOf, m'.sizeOf, labels[i].0)
    {
      var size, names := labels[i].0, MetaNames(dimList, group, t, labels[i].0);
      MetaNamesRecorded(dimList, group, t, m.sizeOf, size);
      SectionFreeStays(m, m', names, size);
      AlternativeFreeStays(m, m', names, size);
    }
  }

  /** What naming by metadata achieves for a variable, in terms of the maps before it. */
  ghost predicate NamedBy(labels: Labelling, dimList: seq<HE5Dim>, group: string, t: Eos5Type,
      nameOf: map<nat, string>, sizeOf: map<string, nat>)
  {
    && MetadataFirst(labels, dimList, group, t)
    && (DistinctNames(labels) <==> AllApart(labels, dimList, group, t, nameOf, sizeOf))
  }

  lemma RunIsNamedBy(start: Labelling, m: Maps, labels: Labelling, m': Maps, dimList: seq<HE5Dim>, group: string,
      t: Eos5Type)
    requires Run(start, m, labels, m', dimList, group, t)
    ensures NamedBy(labels, dimList, group, t, m.nameOf, m.sizeOf)
  {
    hide FromMetadata, UsedUp, MetadataRecorded, Section, AllNamed, Recorded, MapsGrown, SameForSize, RightName, Apart,
      MetadataFirst, DistinctNames, AllApart;
    RestComesSecond(start, m.used, labels, dimList, group, t);
    ApartExactly(start, m, labels, m', dimList, group, t);
    ApartBySizes(start, labels, dimList, group, t, m.nameOf, m.sizeOf);
  }

  /** Without metadata the condition is that no three dimensions have one size. */
  lemma WithoutMetadata(labels: Labelling, group: string, t: Eos5Type, nameOf: map<nat, string>,
      sizeOf: map<string, nat>)
    ensures AllApart(labels, [], group, t, nameOf, sizeOf) <==> NoThreeAlike(labels)
  {
    hide Apart, DimsOfSize;
    forall i | 0 <= i < |labels|
      ensures Apart(labels, [], group, t, nameOf, sizeOf, labels[i].0) <==> |DimsOfSize(labels, labels[i].0)| <= 2
    {
      SizeWithoutMetadata(labels, group, t, nameOf, sizeOf, labels[i].0);
    }
    if NoThreeAlike(labels) {
      forall i: nat | i < |labels| ensures |DimsOfSize(labels, labels[i].0)| <= 2 {
        AtMostTwo(labels, labels[i].0);
      }
    } else {
      var i: nat, j: nat, k: nat :| i < j < k < |labels| && Alike(labels, i, j, k);
      AtLeastThree(labels, i, j, k);
    }
  }

  lemma SizeWithoutMetadata(labels: Labelling, group: string, t: Eos5Type, nameOf: map<nat, string>,
      sizeOf: map<string, nat>, size: nat)
    ensures Apart(labels, [], group, t, nameOf, sizeOf, size) <==> |DimsOfSize(labels, size)| <= 2
  {
    hide FirstAlternative, HasAlternative, FullName, DimsOfSize;
    assert MetaNames([], group, t, size) == {};
  }

  lemma AtMostTwo(labels: Labelling, size: nat)
    requires NoThreeAlike(labels)
    ensures |DimsOfSize(labels, size)| <= 2
  {
    hide NoThreeAlike;
    if |DimsOfSize(labels, size)| > 2 {
      var a, b, c := ThreeElements(DimsOfSize(labels, size));
      ThreeAlike(labels, a, b, c);
    }
  }

  lemma AtLeastThree(labels: Labelling, i: nat, j: nat, k: nat)
    requires i < j < k < |labels| && Alike(labels, i, j, k)
    ensures |DimsOfSize(labels, labels[i].0)| > 2
  {
    SmallerSet({i, j, k}, DimsOfSize(labels, labels[i].0));
    assert |{i, j, k}| == 3;
  }

  lemma ThreeElements(s: set<nat>) returns (i: nat, j: nat, k: nat)
    requires |s| > 2
    ensures i in s && j in s && k in s && i != j && i != k && j != k
  {
    i :| i in s;
    assert |s - {i}| >= 2;
    j, k := TwoElements(s - {i});
  }

  lemma {:induction false} SmallerSet(small: set<nat>, large: set<nat>)
    requires small <= large
    ensures |small| <= |large|
  {
    if small != {} {
      var x :| x in small;
      SmallerSet(small - {x}, large - {x});
    }
  }

  /**
  Three dimensions of size 5 in a grid with the names a, b and d for that size, and
  metadata that names d: with b recorded they become d, a and b; without it, d, a and d.
  */
  lemma ThreeOfOneSize()
    ensures var a, b, d := FullName(GRID, "g", "a"), FullName(GRID, "g", "b"), FullName(GRID, "g", "d");
            var labels, dimList: seq<HE5Dim> := [(5, ""), (5, ""), (5, "")], [HE5Dim("d", 5)];
            && AllApart(labels, dimList, "g", GRID, map[5 := a], map[a := 5, b := 5, d := 5])
            && !AllApart(labels, dimList, "g", GRID, map[5 := a], map[a := 5, d := 5])
  {
    var a, b, d := FullName(GRID, "g", "a"), FullName(GRID, "g", "b"), FullName(GRID, "g", "d");
    var labels: Labelling, dimList := [(5, ""), (5, ""), (5, "")], [HE5Dim("d", 5)];
    hide LexLe, FullName, Left, MetaNames, AllApart;
    NamesInOrder();
    TwoOfThreeLeft(labels, dimList, d);
    FirstIsFree(labels, dimList, a, b, d);
    FirstIsTaken(labels, dimList, a, d);
  }

  lemma NamesInOrder()
    ensures var a, b, d := FullName(GRID, "g", "a"), FullName(GRID, "g", "b"), FullName(GRID, "g", "d");
            a != b && a != d && b != d && LexLe(b, b) && LexLe(b, d) && LexLe(d, d)
  {
    DifferentNames("a", "b");
    DifferentNames("a", "d");
    DifferentNames("b", "d");
    BeforeInGroup("b", "d");
    BeforeInGroup("d", "d");
  }

  lemma FirstIsFree(labels: Labelling, dimList: seq<HE5Dim>, a: string, b: string, d: string)
    requires |labels| == 3 && (forall i :: 0 <= i < 3 ==> labels[i].0 == 5) && a != b && a != d && b != d
    requires Left(labels, dimList, "g", GRID, 5) == 2 && MetaNames(dimList, "g", GRID, 5) == {d}
    requires LexLe(b, b) && LexLe(b, d)
    ensures AllApart(labels, dimList, "g", GRID, map[5 := a], map[a := 5, b := 5, d := 5])
  {
    hide LexLe, Left, MetaNames, Apart;
    assert IsFirstAlternative(map[a := 5, b := 5, d := 5], a, 5, b);
    TwoLeft(labels, dimList, "g", GRID, map[5 := a], map[a := 5, b := 5, d := 5], 5, b);
  }

  lemma FirstIsTaken(labels: Labelling, dimList: seq<HE5Dim>, a: string, d: string)
    requires |labels| == 3 && (forall i :: 0 <= i < 3 ==> labels[i].0 == 5) && a != d && LexLe(d, d)
    requires Left(labels, dimList, "g", GRID, 5) == 2 && MetaNames(dimList, "g", GRID, 5) == {d}
    ensures !AllApart(labels, dimList, "g", GRID, map[5 := a], map[a := 5, d := 5])
  {
    hide LexLe, Left, MetaNames, Apart;
    assert IsFirstAlternative(map[a := 5, d := 5], a, 5, d);
    TwoLeft(labels, dimList, "g", GRID, map[5 := a], map[a := 5, d := 5], 5, d);
    assert labels[0].0 == 5;
  }

  lemma TwoOfThreeLeft(labels: Labelling, dimList: seq<HE5Dim>, d: string)
    requires labels == [(5, ""), (5, ""), (5, "")] && dimList == [HE5Dim("d", 5)] && d == FullName(GRID, "g", "d")
    ensures Left(labels, dimList, "g", GRID, 5) == 2 && MetaNames(dimList, "g", GRID, 5) == {d}
  {
    hide FullName;
    assert DimsOfSize(labels, 5) == {0, 1, 2} && |{0, 1, 2}| == 3;
    assert dimList[0] == HE5Dim("d", 5) && MetaNames(dimList, "g", GRID, 5) == {d};
  }

  /** With two dimensions left and a free name of the size, the first other name decides. */
  lemma TwoLeft(labels: Labelling, dimList: seq<HE5Dim>, group: string, t: Eos5Type, nameOf: map<nat, string>,
      sizeOf: map<string, nat>, size: nat, a: string)
    requires Left(labels, dimList, group, t, size) == 2 && size in nameOf
    requires nameOf[size] !in MetaNames(dimList, group, t, size)
    requires IsFirstAlternative(sizeOf, nameOf[size], size, a)
    ensures Apart(labels, dimList, group, t, nameOf, sizeOf, size) <==> a !in MetaNames(dimList, group, t, size)
  {
    hide IsFirstAlternative, HasAlternative, Left, MetaNames;
    AlternativeIsOne(sizeOf, nameOf[size], size, a);
    FirstAlternativeUnique(sizeOf, nameOf[size], size, a, FirstAlternative(sizeOf, nameOf[size], size));
  }

  lemma DifferentNames(x: string, y: string)
    requires x != y
    ensures FullName(GRID, "g", x) != FullName(GRID, "g", y)
  {
    if FullName(GRID, "g", x) == FullName(GRID, "g", y) {
      FullNameInjective(GRID, "g", x, y);
    }
  }

  lemma BeforeInGroup(x: string, y: string)
    requires LexLe(x, y)
    ensures LexLe(FullName(GRID, "g", x), FullName(GRID, "g", y))
    ensures LexLe(FullName(GRID, "g", x), FullName(GRID, "g", x))
  {
    LexOrder(FullName(GRID, "g", x), FullName(GRID, "g", x));
    LexJoin(TypePrefix(GRID) + "g" + "/", x, y);
  }

  lemma {:induction false} LexJoin(dir: string, x: string, y: string)
    requires LexLe(x, y)
    ensures LexLe(dir + x, dir + y)
  {
    if dir == "" {
      assert dir + x == x && dir + y == y;
    } else {
      LexJoin(dir[1..], x, y);
      assert (dir + x)[1..] == dir[1..] + x && (dir + y)[1..] == dir[1..] + y;
    }
  }
}
