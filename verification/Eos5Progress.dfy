/** EOS5File: how far the naming of one variable has come, and what each step of it keeps. */
module Eos5Progress {
  import opened Eos5Apart
  import opened Eos5Lists
  import opened Eos5Metadata
  import opened Eos5Naming
  import opened Outcome

  datatype HE5Var = HE5Var(name: string, dimList: seq<HE5Dim>)

  // ----- the double loop over metadata names and dimensions

  /** Before metadata name j meets dimension k. */
  ghost predicate AssignState(start: Labelling, labels: Labelling, m: Maps, dimList: seq<HE5Dim>, j: nat, k: nat,
      group: string, t: Eos5Type)
  {
    && |labels| == |start|
    && (AllNamed(start) ==> labels == start)
    && (AllUnnamed(start) ==> VarInvariant(labels, m) && FromMetadata(labels, m.used, dimList, group, t))
    && (forall l, i :: Offered(labels, dimList, j, k, l, i) ==> FullName(t, group, dimList[l].name) in m.used)
  }

  /** Metadata name l has been offered to dimension i of its size, which is still unnamed. */
  ghost predicate Offered(labels: Labelling, dimList: seq<HE5Dim>, j: nat, k: nat, l: int, i: int) {
    && 0 <= l < |dimList| && 0 <= i < |labels| && (l < j || (l == j && i < k))
    && labels[i].0 == dimList[l].size && labels[i].1 == ""
  }

  lemma NothingAssigned(start: Labelling, nameOf: map<nat, string>, sizeOf: map<string, nat>, dimList: seq<HE5Dim>,
      group: string, t: Eos5Type)
    requires Section(nameOf, sizeOf) && "" !in sizeOf
    ensures AssignState(start, start, Maps(nameOf, sizeOf, {}), dimList, 0, 0, group, t)
  {
    hide VarInvariant, FromMetadata, Section, FullName;
    if AllUnnamed(start) {
      NothingFromMetadata(start, dimList, group, t);
      NoNamesYet(start, nameOf, sizeOf);
    }
  }

  lemma AssignRow(start: Labelling, labels: Labelling, m: Maps, dimList: seq<HE5Dim>, j: nat, group: string,
      t: Eos5Type)
    requires AssignState(start, labels, m, dimList, j, |labels|, group, t)
    ensures AssignState(start, labels, m, dimList, j + 1, 0, group, t)
  {
    hide VarInvariant, FromMetadata, FullName;
    var next := j + 1;
    forall l, i | Offered(labels, dimList, next, 0, l, i) ensures FullName(t, group, dimList[l].name) in m.used {
      assert Offered(labels, dimList, j, |labels|, l, i);
    }
  }

  lemma AssignSkip(start: Labelling, labels: Labelling, m: Maps, dimList: seq<HE5Dim>, j: nat, k: nat, group: string,
      t: Eos5Type)
    requires AssignState(start, labels, m, dimList, j, k, group, t) && j < |dimList| && k < |labels|
    requires labels[k].0 != dimList[j].size || labels[k].1 != ""
    ensures AssignState(start, labels, m, dimList, j, k + 1, group, t)
  {
    hide VarInvariant, FromMetadata, FullName;
    var next := k + 1;
    forall l, i | Offered(labels, dimList, j, next, l, i) ensures FullName(t, group, dimList[l].name) in m.used {
      assert Offered(labels, dimList, j, k, l, i);
    }
  }

  /** Metadata name j is given to dimension k, or was in use. */
  lemma AssignTry(start: Labelling, labels: Labelling, m: Maps, dimList: seq<HE5Dim>, j: nat, k: nat, group: string,
      t: Eos5Type, labels': Labelling)
    requires AssignState(start, labels, m, dimList, j, k, group, t) && j < |dimList| && k < |labels|
    requires labels[k].0 == dimList[j].size && labels[k].1 == ""
    requires MetadataRecorded(dimList, group, t, m.sizeOf)
    requires var full := FullName(t, group, dimList[j].name);
             if full in m.used then labels' == labels else labels' == labels[k := (labels[k].0, full)]
    ensures AssignState(start, labels', m.(used := m.used + {FullName(t, group, dimList[j].name)}), dimList, j, k + 1,
              group, t)
  {
    hide VarInvariant, FromMetadata, FullName;
    var full := FullName(t, group, dimList[j].name);
    if AllUnnamed(start) {
      OneFromMetadata(labels, m.used, k, dimList, j, group, t, labels');
      if full in m.used {
        assert m.used + {full} == m.used;
      } else {
        AssignKeeps(labels, k, m, full);
      }
    }
    var next := k + 1;
    forall l, i | Offered(labels', dimList, j, next, l, i)
      ensures FullName(t, group, dimList[l].name) in m.used + {full}
    {
      if !(l == j && i == k) {
        assert Offered(labels, dimList, j, k, l, i);
      }
    }
  }

  lemma AllAssigned(start: Labelling, labels: Labelling, m: Maps, dimList: seq<HE5Dim>, group: string, t: Eos5Type)
    requires AssignState(start, labels, m, dimList, |dimList|, 0, group, t)
    ensures AllNamed(start) ==> labels == start
    ensures AllUnnamed(start) ==> VarInvariant(labels, m) && FromMetadata(labels, m.used, dimList, group, t)
    ensures UsedUp(labels, m.used, dimList, group, t)
  {
    hide VarInvariant, FromMetadata, FullName;
    forall i, j |
      0 <= i < |labels| && 0 <= j < |dimList| && labels[i].0 == dimList[j].size && labels[i].1 == ""
      ensures FullName(t, group, dimList[j].name) in m.used
    {
      assert Offered(labels, dimList, |dimList|, 0, j, i);
    }
  }

  // ----- the loop over the dimensions that are left

  ghost predicate RestState(start: Labelling, m: Maps, labels: Labelling, m': Maps, k: nat) {
    && RestNamed(start, m, labels, m', k)
    && (Done(start, m.sizeOf) ==> labels == start && m' == m)
    && (VarInvariant(start, m) ==> VarInvariant(labels, m'))
    && (forall i :: 0 <= i < k && i < |labels| ==> labels[i].1 != "")
  }

  lemma NothingRested(start: Labelling, m: Maps)
    requires Section(m.nameOf, m.sizeOf)
    ensures RestState(start, m, start, m, 0)
  {
    hide RestNamed;
    NoneOfTheRest(start, m);
  }

  lemma RestStateSkip(start: Labelling, m: Maps, labels: Labelling, m': Maps, k: nat)
    requires RestState(start, m, labels, m', k) && k < |start| == |labels| && labels[k].1 != ""
    ensures RestState(start, m, labels, m', k + 1)
  {
    hide RestNamed, VarInvariant, Done;
    RestSkip(start, m, labels, m', k);
  }

  lemma RestStateStep(start: Labelling, m: Maps, labels: Labelling, m': Maps, k: nat, name: string, m'': Maps)
    requires RestState(start, m, labels, m', k) && k < |start| == |labels| && labels[k].1 == "" && name != ""
    requires Created(m', labels[k].0, name, m'')
    ensures RestState(start, m, labels[k := (labels[k].0, name)], m'', k + 1)
  {
    hide RestNamed, VarInvariant, Recorded, NoThreeAlike, DistinctNames, Created;
    RestStep(start, m, labels, m', k, name, m'');
    if VarInvariant(start, m) {
      StepKeeps(labels, k, m', name, m'');
    }
  }

  lemma RestDone(start: Labelling, m: Maps, labels: Labelling, m': Maps)
    requires RestState(start, m, labels, m', |start|) && |labels| == |start|
    requires Done(start, m.sizeOf) || VarInvariant(start, m)
    ensures Done(labels, m'.sizeOf) && RestNamed(start, m, labels, m', |start|)
    ensures Done(start, m.sizeOf) ==> labels == start
  {
    hide RestNamed, VarInvariant, Recorded, NoThreeAlike, DistinctNames;
    if !Done(start, m.sizeOf) {
      InvariantIsDone(labels, m');
    }
  }

  // ----- the loop over the metadata entries

  /** The first entry of the metadata for a variable. */
  function EntryFor(he5vars: seq<HE5Var>, varName: string): (dimList: Option<seq<HE5Dim>>)
    ensures dimList.Some? <==> exists v :: 0 <= v < |he5vars| && he5vars[v].name == varName
  {
    if he5vars == [] then None
    else if he5vars[0].name == varName then Some(he5vars[0].dimList)
    else
      assert forall v :: 0 < v < |he5vars| ==> he5vars[v] == he5vars[1..][v - 1];
      EntryFor(he5vars[1..], varName)
  }

  lemma {:induction false} EntryForSnoc(he5vars: seq<HE5Var>, v: HE5Var, varName: string)
    ensures EntryFor(he5vars + [v], varName) ==
            if EntryFor(he5vars, varName).Some? then EntryFor(he5vars, varName)
            else if v.name == varName then Some(v.dimList) else None
  {
    if he5vars == [] {
      assert [v][1..] == [];
    } else {
      assert (he5vars + [v])[1..] == he5vars[1..] + [v];
      EntryForSnoc(he5vars[1..], v, varName);
    }
  }

  lemma {:induction false} EntryIsListed(he5vars: seq<HE5Var>, varName: string) returns (v: nat)
    ensures EntryFor(he5vars, varName).Some? ==>
              && v < |he5vars| && he5vars[v] == HE5Var(varName, EntryFor(he5vars, varName).value)
              && forall u :: 0 <= u < v ==> he5vars[u].name != varName
  {
    v := 0;
    if he5vars != [] && he5vars[0].name != varName {
      var rest := EntryIsListed(he5vars[1..], varName);
      v := rest + 1;
    }
  }

  ghost predicate RanksAgree(he5vars: seq<HE5Var>, varName: string, rank: nat) {
    forall v :: 0 <= v < |he5vars| && he5vars[v].name == varName ==> |he5vars[v].dimList| == rank
  }

  lemma RanksDiffer(he5vars: seq<HE5Var>, varName: string, rank: nat, v: nat)
    requires v < |he5vars| && he5vars[v].name == varName && |he5vars[v].dimList| != rank
    ensures !RanksAgree(he5vars, varName, rank)
  {}

  /** After some metadata entries: named by the first one for the variable, or not named, from m to m'. */
  ghost predicate EntryState(he5vars: seq<HE5Var>, varName: string, labels: Labelling, m: Maps, m': Maps,
      group: string, t: Eos5Type, isParsed: bool)
  {
    && (isParsed <==> EntryFor(he5vars, varName).Some?)
    && RanksAgree(he5vars, varName, |labels|)
    && MapsGrown(m, m')
    && (!isParsed ==> AllUnnamed(labels) && m' == m)
    && (isParsed ==>
         && Done(labels, m'.sizeOf)
         && NamedBy(labels, EntryFor(he5vars, varName).value, group, t, m.nameOf, m.sizeOf))
  }

  lemma NoEntryYet(varName: string, labels: Labelling, m: Maps, group: string, t: Eos5Type)
    requires AllUnnamed(labels)
    ensures EntryState([], varName, labels, m, m, group, t, false)
  {
    GrownFromItself(m);
  }

  lemma EntrySkip(he5vars: seq<HE5Var>, v: nat, varName: string, labels: Labelling, m: Maps, m': Maps,
      group: string, t: Eos5Type, isParsed: bool)
    requires v < |he5vars| && EntryState(he5vars[..v], varName, labels, m, m', group, t, isParsed)
    requires he5vars[v].name != varName
    ensures EntryState(he5vars[..v + 1], varName, labels, m, m', group, t, isParsed)
  {
    hide EntryFor, Done, NamedBy, AllUnnamed, MapsGrown;
    assert he5vars[..v + 1] == he5vars[..v] + [he5vars[v]];
    EntryForSnoc(he5vars[..v], he5vars[v], varName);
  }

  lemma EntryStep(he5vars: seq<HE5Var>, v: nat, varName: string, labels: Labelling, m: Maps, m': Maps,
      group: string, t: Eos5Type, isParsed: bool, labels': Labelling, m'': Maps)
    requires v < |he5vars| && EntryState(he5vars[..v], varName, labels, m, m', group, t, isParsed)
    requires he5vars[v].name == varName && |he5vars[v].dimList| == |labels| == |labels'|
    requires Done(labels', m''.sizeOf) && MapsGrown(m', m'') && "" !in m'.sizeOf
    requires isParsed ==> labels' == labels
    requires !isParsed ==> NamedBy(labels', he5vars[v].dimList, group, t, m'.nameOf, m'.sizeOf)
    ensures EntryState(he5vars[..v + 1], varName, labels', m, m'', group, t, true)
  {
    hide EntryFor, Done, NamedBy, AllUnnamed, MapsGrown;
    assert he5vars[..v + 1] == he5vars[..v] + [he5vars[v]];
    EntryForSnoc(he5vars[..v], he5vars[v], varName);
    GrownTwice(m, m', m'');
  }

  lemma EntriesDone(he5vars: seq<HE5Var>, varName: string, labels: Labelling, m: Maps, m': Maps,
      group: string, t: Eos5Type, isParsed: bool)
    requires EntryState(he5vars, varName, labels, m, m', group, t, isParsed)
    ensures isParsed <==> EntryFor(he5vars, varName).Some?
    ensures RanksAgree(he5vars, varName, |labels|) && MapsGrown(m, m')
    ensures if isParsed
            then
              && Done(labels, m'.sizeOf)
              && NamedBy(labels, EntryFor(he5vars, varName).value, group, t, m.nameOf, m.sizeOf)
            else AllUnnamed(labels) && m' == m
  {}

  // ----- the variables of a file and the metadata lists of their group

  datatype FieldKind = GeoField | DataField | NoField

  /** A variable of the file; a swath has geolocation and data fields, other groups only data fields. */
  datatype FileVar = FileVar(name: string, kind: FieldKind)

  datatype FieldLists = FieldLists(geo: seq<HE5Var>, data: seq<HE5Var>) {
    function OfKind(kind: FieldKind): seq<HE5Var> {
      match kind case GeoField => geo case DataField => data case NoField => []
    }
  }

  ghost predicate ListsRecorded(lists: FieldLists, group: string, t: Eos5Type, sizeOf: map<string, nat>) {
    && (forall v :: 0 <= v < |lists.geo| ==> MetadataRecorded(lists.geo[v].dimList, group, t, sizeOf))
    && (forall v :: 0 <= v < |lists.data| ==> MetadataRecorded(lists.data[v].dimList, group, t, sizeOf))
  }

  lemma EmptyListAgrees(varName: string, rank: nat)
    ensures RanksAgree([], varName, rank) && EntryFor([], varName) == None
  {}

  lemma RecordedInList(v: FileVar, lists: FieldLists, group: string, t: Eos5Type, sizeOf: map<string, nat>)
    requires ListsRecorded(lists, group, t, sizeOf)
    ensures forall i :: 0 <= i < |lists.OfKind(v.kind)| ==>
      MetadataRecorded(lists.OfKind(v.kind)[i].dimList, group, t, sizeOf)
  {}

  lemma ListsStay(lists: FieldLists, group: string, t: Eos5Type, sizeOf: map<string, nat>, sizeOf': map<string, nat>)
    requires ListsRecorded(lists, group, t, sizeOf)
    requires forall n :: n in sizeOf ==> n in sizeOf' && sizeOf'[n] == sizeOf[n]
    ensures ListsRecorded(lists, group, t, sizeOf')
  {
    hide MetadataRecorded;
    forall v | 0 <= v < |lists.geo| ensures MetadataRecorded(lists.geo[v].dimList, group, t, sizeOf') {
      MetadataStays(lists.geo[v].dimList, group, t, sizeOf, sizeOf');
    }
    forall v | 0 <= v < |lists.data| ensures MetadataRecorded(lists.data[v].dimList, group, t, sizeOf') {
      MetadataStays(lists.data[v].dimList, group, t, sizeOf, sizeOf');
    }
  }

  /** The metadata names of a variable; none if its list does not have it. */
  function OwnNames(v: FileVar, lists: FieldLists): seq<HE5Dim> {
    match EntryFor(lists.OfKind(v.kind), v.name) case None => [] case Some(dimList) => dimList
  }

  /** A geolocation field is looked for among the geolocation fields, a data field among the data fields. */
  lemma OwnListIs(name: string, lists: FieldLists)
    ensures OwnNames(FileVar(name, GeoField), lists) ==
            if EntryFor(lists.geo, name).Some? then EntryFor(lists.geo, name).value else []
    ensures OwnNames(FileVar(name, DataField), lists) ==
            if EntryFor(lists.data, name).Some? then EntryFor(lists.data, name).value else []
    ensures OwnNames(FileVar(name, NoField), lists) == []
    ensures forall rank: nat ::
              && (OwnRanksAgree(FileVar(name, GeoField), lists, rank) <==>
                   forall v :: 0 <= v < |lists.geo| && lists.geo[v].name == name ==> |lists.geo[v].dimList| == rank)
              && (OwnRanksAgree(FileVar(name, DataField), lists, rank) <==>
                   forall v :: 0 <= v < |lists.data| && lists.data[v].name == name ==> |lists.data[v].dimList| == rank)
              && OwnRanksAgree(FileVar(name, NoField), lists, rank)
  {
    EmptyListAgrees(name, 0);
  }

  lemma OwnNamesRecorded(v: FileVar, lists: FieldLists, group: string, t: Eos5Type, sizeOf: map<string, nat>)
    requires ListsRecorded(lists, group, t, sizeOf)
    ensures MetadataRecorded(OwnNames(v, lists), group, t, sizeOf)
  {
    var i := EntryIsListed(lists.OfKind(v.kind), v.name);
  }

  ghost predicate OwnRanksAgree(v: FileVar, lists: FieldLists, rank: nat) {
    RanksAgree(lists.OfKind(v.kind), v.name, rank)
  }
}
