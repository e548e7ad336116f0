/** EOS5File: what the metadata of a variable gives its dimensions. */
module Eos5Metadata {
  import opened Eos5Lists
  import opened Eos5Naming

  /** The maps of the group have every name that the metadata gives the variable. */
  ghost predicate MetadataRecorded(dimList: seq<HE5Dim>, groupName: string, t: Eos5Type, sizeOf: map<string, nat>) {
    forall j :: 0 <= j < |dimList| ==>
      var full := FullName(t, groupName, dimList[j].name);
      full in sizeOf && sizeOf[full] == dimList[j].size
  }

  lemma MetadataStays(dimList: seq<HE5Dim>, groupName: string, t: Eos5Type,
      sizeOf: map<string, nat>, sizeOf': map<string, nat>)
    requires MetadataRecorded(dimList, groupName, t, sizeOf)
    requires forall n :: n in sizeOf ==> n in sizeOf' && sizeOf'[n] == sizeOf[n]
    ensures MetadataRecorded(dimList, groupName, t, sizeOf')
  {
    hide FullName;
  }

  /**
  Every name given so far is a metadata name with the size of its dimension, no two are
  equal, and the names in use are exactly these.
  */
  ghost predicate FromMetadata(labels: Labelling, used: set<string>, dimList: seq<HE5Dim>, group: string, t: Eos5Type) {
    && (forall i :: IsNamed(labels, i) ==> GivenBy(labels, i, dimList, group, t))
    && (forall n :: n in used <==> exists i :: IsNamed(labels, i) && labels[i].1 == n)
    && DistinctNames(labels)
  }

  ghost predicate GivenBy(labels: Labelling, i: nat, dimList: seq<HE5Dim>, group: string, t: Eos5Type)
    requires i < |labels|
  {
    exists j :: 0 <= j < |dimList| && dimList[j].size == labels[i].0 &&
                FullName(t, group, dimList[j].name) == labels[i].1
  }

  /** All metadata names for the size of the i-th dimension are in use in the variable. */
  ghost predicate Exhausted(labels: Labelling, i: nat, dimList: seq<HE5Dim>, group: string, t: Eos5Type)
    requires i < |labels|
  {
    forall j :: 0 <= j < |dimList| && dimList[j].size == labels[i].0 ==>
      exists k :: IsNamed(labels, k) && labels[k].1 == FullName(t, group, dimList[j].name)
  }

  /** Other names come second: a dimension without a metadata name had none left. */
  ghost predicate MetadataFirst(labels: Labelling, dimList: seq<HE5Dim>, group: string, t: Eos5Type) {
    forall i :: 0 <= i < |labels| ==> GivenBy(labels, i, dimList, group, t) || Exhausted(labels, i, dimList, group, t)
  }

  /** Sizes and names given earlier stay. */
  ghost predicate Kept(labels: Labelling, labels': Labelling) {
    && |labels| == |labels'|
    && forall i :: 0 <= i < |labels| ==> labels'[i].0 == labels[i].0 && (labels[i].1 != "" ==> labels'[i] == labels[i])
  }

  /** A dimension is left unnamed only if the metadata names of its size are used up. */
  ghost predicate UsedUp(labels: Labelling, used: set<string>, dimList: seq<HE5Dim>, group: string, t: Eos5Type) {
    forall i, j ::
      0 <= i < |labels| && 0 <= j < |dimList| && labels[i].0 == dimList[j].size && labels[i].1 == "" ==>
      FullName(t, group, dimList[j].name) in used
  }

  lemma NothingFromMetadata(labels: Labelling, dimList: seq<HE5Dim>, group: string, t: Eos5Type)
    requires AllUnnamed(labels)
    ensures FromMetadata(labels, {}, dimList, group, t)
  {}

  lemma OneFromMetadata(labels: Labelling, used: set<string>, k: nat, dimList: seq<HE5Dim>, j: nat, group: string,
      t: Eos5Type, labels': Labelling)
    requires k < |labels| && labels[k].1 == "" && j < |dimList| && dimList[j].size == labels[k].0
    requires var full := FullName(t, group, dimList[j].name);
             if full in used then labels' == labels else labels' == labels[k := (labels[k].0, full)]
    requires FromMetadata(labels, used, dimList, group, t)
    ensures FromMetadata(labels', used + {FullName(t, group, dimList[j].name)}, dimList, group, t)
  {
    hide FullName;
    var full := FullName(t, group, dimList[j].name);
    if full in used {
      assert used + {full} == used;
    } else {
      forall i | IsNamed(labels', i) ensures GivenBy(labels', i, dimList, group, t) {
        if i != k {
          assert IsNamed(labels, i) && GivenBy(labels, i, dimList, group, t);
        }
      }
      forall n ensures n in used + {full} <==> exists i :: IsNamed(labels', i) && labels'[i].1 == n {
        if n == full {
          assert IsNamed(labels', k) && labels'[k].1 == n;
        } else if n in used {
          var i :| IsNamed(labels, i) && labels[i].1 == n;
          assert IsNamed(labels', i) && labels'[i].1 == n;
        } else {
          assert forall i :: IsNamed(labels', i) && i != k ==> IsNamed(labels, i) && labels'[i] == labels[i];
        }
      }
      forall a, b | IsNamed(labels', a) && IsNamed(labels', b) && a < b ensures labels'[a].1 != labels'[b].1 {
        assert a != k ==> IsNamed(labels, a);
        assert b != k ==> IsNamed(labels, b);
      }
    }
  }

  lemma RestComesSecond(labels: Labelling, used: set<string>, labels': Labelling, dimList: seq<HE5Dim>,
      group: string, t: Eos5Type)
    requires FromMetadata(labels, used, dimList, group, t) && Kept(labels, labels')
    requires UsedUp(labels, used, dimList, group, t)
    ensures MetadataFirst(labels', dimList, group, t)
  {
    hide FullName, DistinctNames;
    forall i: nat | i < |labels|
      ensures GivenBy(labels', i, dimList, group, t) || Exhausted(labels', i, dimList, group, t)
    {
      if IsNamed(labels, i) {
        assert GivenBy(labels, i, dimList, group, t);
      } else {
        forall j | 0 <= j < |dimList| && dimList[j].size == labels[i].0
          ensures exists k :: IsNamed(labels', k) && labels'[k].1 == FullName(t, group, dimList[j].name)
        {
          var k :| IsNamed(labels, k) && labels[k].1 == FullName(t, group, dimList[j].name);
          assert IsNamed(labels', k) && labels'[k] == labels[k];
        }
      }
    }
  }
}
