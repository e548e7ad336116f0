/** EOS5File: the maps of one grid, swath or zonal average, and the naming of its variables. */
module Eos5VarDims {
  import opened Eos5Apart
  import opened Eos5Lists
  import opened Eos5Metadata
  import opened Eos5Naming
  import opened Eos5Progress
  import opened FakeDims
  import opened KeyOrder
  import opened Lists
  import opened Numerals
  import opened Outcome
  import opened UniqueNames

  class EosGroup {
    const kind: Eos5Type
    const name: string
    var varDimNames: set<string>
    var dimNames: seq<string>
    var dimnamesToDimsizes: map<string, nat>
    var dimsizesToDimnames: map<nat, string>
    var addedDimIndex: nat

    ghost predicate Valid()
      reads this
    {
      Section(dimsizesToDimnames, dimnamesToDimsizes) && "" !in dimnamesToDimsizes
    }

    ghost function State(used: set<string>): Maps
      reads this
    {
      Maps(dimsizesToDimnames, dimnamesToDimsizes, used)
    }

    /** The name that is made up for a dimension of this size when no recorded one serves. */
    ghost function MadeUp(size: nat, t: Eos5Type): string
      reads this
    {
      if size in dimsizesToDimnames then UniqueName(dimsizesToDimnames[size] + "_", varDimNames)
      else FakeName(t, name, addedDimIndex, varDimNames)
    }

    ghost predicate IsTidy(t: Eos5Type)
      reads this
    {
      Tidy(dimsizesToDimnames, dimnamesToDimsizes, varDimNames, FullName(t, name, "FakeDim"))
    }

    twostate predicate Grown()
      reads this
    {
      && Valid()
      && forall n :: n in old(dimnamesToDimsizes) ==>
           n in dimnamesToDimsizes && dimnamesToDimsizes[n] == old(dimnamesToDimsizes)[n]
    }

    constructor (kind: Eos5Type, name: string)
      ensures this.kind == kind && this.name == name && Valid()
      ensures varDimNames == {} && dimNames == [] && addedDimIndex == 0
      ensures dimnamesToDimsizes == map[] && dimsizesToDimnames == map[]
    {
      this.kind, this.name := kind, name;
      varDimNames, dimNames, addedDimIndex := {}, [], 0;
      dimnamesToDimsizes, dimsizesToDimnames := map[], map[];
    }

    /** Add_EOS5File_Info: the two maps; it throws exactly when a name is listed twice. */
    method AddGroupDims(dims: seq<HE5Dim>) returns (ok: bool)
      requires Valid() && dimnamesToDimsizes == map[] && dimNames == []
      modifies this`dimNames, this`dimnamesToDimsizes, this`dimsizesToDimnames
      ensures ok ==> Valid()
      ensures ok <==> Distinct(Names(dims))
      ensures ok ==> forall i :: 0 <= i < |dims| ==>
        var full := FullName(kind, name, dims[i].name);
        full in dimnamesToDimsizes && dimnamesToDimsizes[full] == dims[i].size
      ensures ok ==> |dimNames| == |dims| && forall i :: 0 <= i < |dims| ==>
        dimNames[i] == FullName(kind, name, dims[i].name)
      ensures ok ==> forall full :: full in dimnamesToDimsizes ==> full in dimNames
      ensures ok ==> FirstOfEachSize(dims, |dims|, dimNames, dimsizesToDimnames)
      ensures ok ==> forall i ::
        0 <= i < |dims| && (forall j :: 0 <= j < i ==> dims[j].size != dims[i].size) ==>
        dims[i].size in dimsizesToDimnames && dimsizesToDimnames[dims[i].size] == dimNames[i]
      ensures ok ==> HoldsList(kind, name, dims, |dims|, dimNames, State({}))
    {
      hide FullName, HoldsList, Section, Distinct, FirstOfEachSize;
      NothingListed(kind, name, dims, dimsizesToDimnames);
      for j := 0 to |dims|
        invariant HoldsList(kind, name, dims, j, dimNames, State({}))
      {
        var unique := FullName(kind, name, dims[j].name);
        ListOne(kind, name, dims, j, dimNames, State({}));
        dimNames := dimNames + [unique];
        if dims[j].size !in dimsizesToDimnames {
          dimsizesToDimnames := dimsizesToDimnames[dims[j].size := unique];
        }
        if unique in dimnamesToDimsizes {
          return false;
        }
        dimnamesToDimsizes := dimnamesToDimsizes[unique := dims[j].size];
      }
      AllListed(kind, name, dims, dimNames, State({}));
      FirstNames(kind, name, dims, dimNames, State({}));
      ok := true;
    }

    /** Check_All_DimNames: the keys are visited in order. */
    method CheckAllDimNames(dimname: string, size: nat) returns (found: bool, name: string)
      ensures found <==> HasAlternative(dimnamesToDimsizes, dimname, size)
      ensures found ==> IsFirstAlternative(dimnamesToDimsizes, dimname, size, name)
      ensures found <==> exists n :: n in dimnamesToDimsizes && dimnamesToDimsizes[n] == size && n != dimname
      ensures found ==>
        && name in dimnamesToDimsizes && dimnamesToDimsizes[name] == size && name != dimname
        && forall n :: n in dimnamesToDimsizes && dimnamesToDimsizes[n] == size && n != dimname ==> LexLe(name, n)
      ensures !found ==> name == dimname
    {
      var keys := dimnamesToDimsizes.Keys;
      while keys != {}
        invariant keys <= dimnamesToDimsizes.Keys
        invariant forall n :: IsAlternative(dimnamesToDimsizes, dimname, size, n) ==> n in keys
      {
        LeastExists(keys);
        var first :| first in keys && forall m :: m in keys ==> LexLe(first, m);
        if dimnamesToDimsizes[first] == size && dimname != first {
          assert IsAlternative(dimnamesToDimsizes, dimname, size, first);
          assert forall n :: n in dimnamesToDimsizes && dimnamesToDimsizes[n] == size && n != dimname ==>
            IsAlternative(dimnamesToDimsizes, dimname, size, n);
          return true, first;
        }
        keys := keys - {first};
      }
      assert forall n :: n in dimnamesToDimsizes && dimnamesToDimsizes[n] == size && n != dimname ==>
        IsAlternative(dimnamesToDimsizes, dimname, size, n);
      return false, dimname;
    }

    method GetUniqueName(candidate: string) returns (unique: string)
      modifies this`varDimNames
      ensures unique == UniqueName(candidate + "_", old(varDimNames)) && unique != ""
      ensures varDimNames == old(varDimNames) + {unique}
      ensures exists k: nat ::
        k >= 1 && unique == candidate + "_" + Decimal(k) && unique !in old(varDimNames) &&
        forall j: nat | 1 <= j < k :: candidate + "_" + Decimal(j) in old(varDimNames)
    {
      var more, k;
      unique, more, k := GenUniqueName(candidate + "_", varDimNames, 1);
      varDimNames := more;
    }

    method CreateUniqueFakeDimName(t: Eos5Type) returns (fake: Result<string>)
      modifies this`varDimNames, this`addedDimIndex
      ensures fake.Thrown? <==> t == OTHERVARS
      ensures fake.Ok? ==>
        && fake.value == FakeName(t, name, old(addedDimIndex), old(varDimNames))
        && fake.value != "" && fake.value !in old(varDimNames)
        && TypePrefix(t) + name + "/FakeDim" + Decimal(old(addedDimIndex)) <= fake.value
        && (TypePrefix(t) + name + "/FakeDim" + Decimal(old(addedDimIndex)) !in old(varDimNames) ==>
             fake.value == TypePrefix(t) + name + "/FakeDim" + Decimal(old(addedDimIndex)))
        && varDimNames == old(varDimNames) + {fake.value} && addedDimIndex == old(addedDimIndex) + 1
    {
      if t == OTHERVARS {
        return Thrown("Unsupported HDF-EOS5 type, this type is not swath, grid or zonal average");
      }
      var added := TypePrefix(t) + name + "/" + "FakeDim" + Decimal(addedDimIndex);
      assert added == FullName(t, name, FakeDimName(addedDimIndex));
      assert added == TypePrefix(t) + name + "/FakeDim" + Decimal(addedDimIndex);
      if added in varDimNames {
        added := GetUniqueName(added);
      } else {
        varDimNames := varDimNames + {added};
      }
      addedDimIndex := addedDimIndex + 1;
      return Ok(added);
    }

    /** Insert_One_NameSizeMap_Element2, with the two updates that follow it. */
    method RecordDim(added: string, size: nat) returns (ok: bool)
      requires Valid() && added != ""
      modifies this`dimnamesToDimsizes, this`dimsizesToDimnames, this`dimNames
      ensures ok <==> added !in old(dimnamesToDimsizes)
      ensures Valid()
      ensures dimnamesToDimsizes == if ok then old(dimnamesToDimsizes)[added := size] else old(dimnamesToDimsizes)
      ensures dimsizesToDimnames ==
        if ok && size !in old(dimsizesToDimnames) then old(dimsizesToDimnames)[size := added]
        else old(dimsizesToDimnames)
      ensures dimNames == if ok then old(dimNames) + [added] else old(dimNames)
    {
      if added in dimnamesToDimsizes {
        return false;
      }
      dimnamesToDimsizes := dimnamesToDimsizes[added := size];
      if size !in dimsizesToDimnames {
        dimsizesToDimnames := dimsizesToDimnames[size := added];
      }
      dimNames := dimNames + [added];
      return true;
    }

    /** Create_Unique_DimName on a dimension without a name. */
    method CreateUniqueDimName(used: set<string>, dim: Dimension, numGroups: nat, t: Eos5Type)
      returns (ok: bool, used': set<string>)
      requires Valid()
      modifies this, dim
      ensures Valid() && Grown()
      ensures ok <==> CanCreate(old(State(used)), dim.size, old(MadeUp(dim.size, t)), numGroups, t)
      ensures ok ==> dim.name == Chosen(old(State(used)), dim.size, old(MadeUp(dim.size, t)))
      ensures ok ==> dim.name != "" && ShownAs(dim.name, dim.newname, numGroups)
      ensures ok && numGroups <= 1 ==>
        && dim.newname != "" && '/' !in dim.newname
        && exists dir: string :: dim.name == dir + "/" + dim.newname
      ensures ok ==> Created(old(State(used)), dim.size, dim.name, State(used'))
      ensures old(IsTidy(t)) && t != OTHERVARS ==> ok && IsTidy(t)
    {
      hide HasAlternative, IsFirstAlternative, FirstAlternative, IsLastPart, EndsWithDigit,
        AfterLastSlash, Tidy, UniqueName, FakeName, FullName, Section, ShownAs, Created, Chosen, NeedsNewName;
      ghost var m, madeUp, handedOut := State(used), MadeUp(dim.size, t), varDimNames;
      ghost var tidy := IsTidy(t) && t != OTHERVARS;
      if tidy {
        MadeUpEndsWell(m, dim.size, t, name, addedDimIndex, handedOut);
        TidyCanCreate(m, dim.size, madeUp, handedOut, FullName(t, name, "FakeDim"), numGroups, t);
      }
      var candidate;
      ok, used', candidate := ChooseName(used, dim.size, t);
      if !ok {
        return;
      }
      dim.name := candidate;
      ok := ShowName(dim, numGroups);
      if tidy {
        TidyAfter(m, dim.size, t, madeUp, handedOut, FullName(t, name, "FakeDim"), candidate, State(used'));
      }
    }

    /** Which name the dimension gets: a recorded one, or one made up and recorded now. */
    method ChooseName(used: set<string>, size: nat, t: Eos5Type)
      returns (ok: bool, used': set<string>, candidate: string)
      requires Valid()
      modifies this
      ensures Valid() && Grown()
      ensures ok <==>
        !NeedsNewName(old(State(used)), size) ||
        (old(MadeUp(size, t)) !in old(dimnamesToDimsizes) && (size in old(dimsizesToDimnames) || t != OTHERVARS))
      ensures ok ==> candidate != "" && candidate == Chosen(old(State(used)), size, old(MadeUp(size, t)))
      ensures ok ==> Created(old(State(used)), size, candidate, State(used'))
      ensures ok ==>
        varDimNames ==
        old(varDimNames) + (if NeedsNewName(old(State(used)), size) then {old(MadeUp(size, t))} else {})
    {
      hide HasAlternative, IsFirstAlternative, IsAlternative, FirstAlternative, UniqueName, FakeName, FullName;
      used' := used;
      ghost var m := State(used);
      if size in dimsizesToDimnames {
        candidate := dimsizesToDimnames[size];
        if candidate !in used {
          used' := used + {candidate};
        } else {
          var found, other := CheckAllDimNames(candidate, size);
          candidate := other;
          if !found {
            candidate := GetUniqueName(candidate);
            used' := used + {candidate};
            ok := RecordDim(candidate, size);
            return;
          }
          AlternativeIsRecorded(m.sizeOf, m.nameOf[size], size, other);
          FirstAlternativeUnique(m.sizeOf, m.nameOf[size], size, other,
            FirstAlternative(m.sizeOf, m.nameOf[size], size));
        }
        ok := true;
      } else {
        var fake := CreateUniqueFakeDimName(t);
        if fake.Thrown? {
          return false, used', "";
        }
        candidate := fake.value;
        used' := used + {candidate};
        ok := RecordDim(candidate, size);
      }
    }

    /** The last step: newname, which must not be empty. */
    method ShowName(dim: Dimension, numGroups: nat) returns (ok: bool)
      modifies dim`newname
      ensures ok <==> numGroups > 1 || AfterLastSlash(dim.name) != ""
      ensures ok <==> numGroups > 1 || ('/' in dim.name && dim.name[|dim.name| - 1] != '/')
      ensures ok ==> ShownAs(dim.name, dim.newname, numGroups)
      ensures ok && numGroups <= 1 ==>
        && dim.newname != "" && '/' !in dim.newname
        && exists dir: string :: dim.name == dir + "/" + dim.newname
    {
      if numGroups > 1 {
        dim.newname := dim.name;
        return true;
      }
      var short := AfterLastSlash(dim.name);
      NoLastPart(dim.name);
      if short == "" {
        return false;
      }
      dim.newname := short;
      LastPartIs(dim.name, short);
      return true;
    }

    /** Every name is shown in full or by its last part; a metadata name as the metadata has it. */
    ghost predicate AllShown(dims: seq<Dimension>, numGroups: nat, t: Eos5Type, groupName: string)
      reads dims
    {
      forall i :: 0 <= i < |dims| && dims[i].name != "" ==>
        ShownIn(dims[i].name, dims[i].newname, numGroups, t, groupName)
    }

    /** Set_NonParse_Var_Dims: the names come out distinct exactly when no three sizes are alike. */
    method SetNonParseVarDims(dims: seq<Dimension>, numGroups: nat, t: Eos5Type) returns (ok: bool)
      requires Valid() && Distinct(dims)
      modifies this, dims
      ensures Valid() && Grown()
      ensures ok ==> old(AllUnnamed(Labels(dims))) && Done(Labels(dims), dimnamesToDimsizes)
      ensures ok ==> forall i :: 0 <= i < |dims| ==>
        dims[i].name in dimnamesToDimsizes && dimnamesToDimsizes[dims[i].name] == dims[i].size
      ensures ok ==> (DistinctNames(Labels(dims)) <==> NoThreeAlike(Labels(dims)))
      ensures ok ==> forall i :: 0 <= i < |dims| ==> ShownAs(dims[i].name, dims[i].newname, numGroups)
      ensures ok ==> MapsGrown(old(State({})), State({}))
      ensures old(IsTidy(t)) && t != OTHERVARS ==> (ok <==> old(AllUnnamed(Labels(dims)))) && (ok ==> IsTidy(t))
    {
      hide VarInvariant, Forced, Created, Done, ShownAs, CanCreate, Chosen, Tidy, Section, MapsGrown, NoThreeAlike,
        DistinctNames, FullName, UniqueName, FakeName;
      ghost var tidy := IsTidy(t) && t != OTHERVARS;
      ghost var before, start := Labels(dims), State({});
      GrownFromItself(start);
      ghost var labels: Labelling := seq(|dims|, i requires 0 <= i < |dims| => (dims[i].size, ""));
      var used: set<string> := {};
      NoNamesYet(labels, dimsizesToDimnames, dimnamesToDimsizes);
      NothingForced(labels, State(used));
      for k := 0 to |dims|
        invariant Valid() && Grown()
        invariant |labels| == |dims| && forall i :: k <= i < |dims| ==> labels[i] == (dims[i].size, "")
        invariant forall i :: 0 <= i < k ==> labels[i] == (dims[i].size, dims[i].name) && labels[i].1 != ""
        invariant forall i :: 0 <= i < k ==> before[i].1 == "" && ShownAs(dims[i].name, dims[i].newname, numGroups)
        invariant forall i :: k <= i < |dims| ==> before[i].1 == dims[i].name
        invariant VarInvariant(labels, State(used)) && Forced(labels, State(used), k)
        invariant MapsGrown(start, State(used))
        invariant tidy ==> IsTidy(t)
      {
        if dims[k].name != "" {
          return false;
        }
        ghost var m := State(used);
        ok, used := CreateUniqueDimName(used, dims[k], numGroups, t);
        if !ok {
          return;
        }
        StepKeeps(labels, k, m, dims[k].name, State(used));
        ForcedStep(labels, k, m, dims[k].name, State(used));
        MapsGrownStep(start, m, dims[k].size, dims[k].name, State(used));
        labels := labels[k := (dims[k].size, dims[k].name)];
      }
      ok := true;
      assert labels == Labels(dims);
      GrownAnyway(start, State(used), {}, {});
      InvariantIsDone(labels, State(used));
      DoneMeans(labels, dimnamesToDimsizes);
      assert forall i :: 0 <= i < |dims| ==> labels[i] == (dims[i].size, dims[i].name);
      if DistinctNames(labels) {
        ForcedRepeats(labels, State(used));
      }
      DoneIsDistinct(labels, dimnamesToDimsizes);
    }

    /** The double loop of Set_Var_Dims: metadata names go to dimensions of their size. */
    method AssignByMetadata(dims: seq<Dimension>, dimList: seq<HE5Dim>, groupName: string, numGroups: nat, t: Eos5Type)
      returns (used: set<string>)
      requires Valid() && Distinct(dims) && numGroups >= 1
      requires MetadataRecorded(dimList, groupName, t, dimnamesToDimsizes)
      modifies this`varDimNames, dims
      ensures old(AllNamed(Labels(dims))) ==> Labels(dims) == old(Labels(dims))
      ensures old(AllUnnamed(Labels(dims))) ==>
        VarInvariant(Labels(dims), State(used)) && FromMetadata(Labels(dims), used, dimList, groupName, t)
      ensures UsedUp(Labels(dims), used, dimList, groupName, t)
      ensures old(AllShown(dims, numGroups, t, groupName)) ==> AllShown(dims, numGroups, t, groupName)
      ensures old(varDimNames) <= varDimNames
    {
      hide AllShown, AssignState, FullName, ShownIn, Section, VarInvariant, FromMetadata, UsedUp, AllNamed, AllUnnamed,
        MetadataRecorded;
      used := {};
      ghost var start := Labels(dims);
      NothingAssigned(start, dimsizesToDimnames, dimnamesToDimsizes, dimList, groupName, t);
      for j := 0 to |dimList|
        invariant AssignState(start, Labels(dims), State(used), dimList, j, 0, groupName, t)
        invariant old(AllShown(dims, numGroups, t, groupName)) ==> AllShown(dims, numGroups, t, groupName)
        invariant old(varDimNames) <= varDimNames
      {
        for k := 0 to |dims|
          invariant AssignState(start, Labels(dims), State(used), dimList, j, k, groupName, t)
          invariant old(AllShown(dims, numGroups, t, groupName)) ==> AllShown(dims, numGroups, t, groupName)
          invariant old(varDimNames) <= varDimNames
        {
          ghost var labels, m := Labels(dims), State(used);
          assert labels[k] == (dims[k].size, dims[k].name);
          if dimList[j].size == dims[k].size && dims[k].name == "" {
            used := TryCandidate(dims, k, dimList[j], groupName, numGroups, t, used);
            AssignTry(start, labels, m, dimList, j, k, groupName, t, Labels(dims));
          } else {
            AssignSkip(start, labels, m, dimList, j, k, groupName, t);
          }
        }
        AssignRow(start, Labels(dims), State(used), dimList, j, groupName, t);
      }
      AllAssigned(start, Labels(dims), State(used), dimList, groupName, t);
    }

    method TryCandidate(dims: seq<Dimension>, k: nat, d: HE5Dim, groupName: string, numGroups: nat, t: Eos5Type,
        used: set<string>)
      returns (used': set<string>)
      requires Distinct(dims) && k < |dims| && numGroups >= 1
      requires dims[k].name == "" && dims[k].size == d.size
      modifies this`varDimNames, dims[k]
      ensures var full := FullName(t, groupName, d.name);
              && used' == used + {full}
              && dims[k].name == (if full in used then "" else full)
              && Labels(dims) == (if full in used then old(Labels(dims)) else old(Labels(dims))[k := (d.size, full)])
              && varDimNames == (if full in used then old(varDimNames) else old(varDimNames) + {full})
      ensures dims[k].name != "" ==> dims[k].newname == if numGroups == 1 then d.name else dims[k].name
      ensures old(AllShown(dims, numGroups, t, groupName)) ==> AllShown(dims, numGroups, t, groupName)
    {
      hide FullName;
      used' := used;
      var candidate := FullName(t, groupName, d.name);
      if candidate !in used {
        used' := used + {candidate};
        dims[k].name := candidate;
        dims[k].newname := if numGroups == 1 then d.name else candidate;
        varDimNames := varDimNames + {candidate};
      } else {
        assert used + {candidate} == used;
      }
      assert Labels(dims) == old(Labels(dims))[k := (d.size, dims[k].name)];
    }

    /** The second loop of Set_Var_Dims: a name for every dimension that still has none. */
    method NameTheRest(dims: seq<Dimension>, used: set<string>, numGroups: nat, t: Eos5Type, ghost groupName: string)
      returns (ok: bool, ghost m': Maps)
      requires Valid() && Distinct(dims) && AllShown(dims, numGroups, t, groupName)
      requires Done(Labels(dims), dimnamesToDimsizes) || VarInvariant(Labels(dims), State(used))
      modifies this, dims
      ensures Valid() && Grown()
      ensures ok ==> m' == State(m'.used) && Done(Labels(dims), m'.sizeOf) && AllShown(dims, numGroups, t, groupName)
      ensures ok ==> RestNamed(old(Labels(dims)), old(State(used)), Labels(dims), m', |dims|)
      ensures ok && old(Done(Labels(dims), dimnamesToDimsizes)) ==> Labels(dims) == old(Labels(dims))
      ensures old(IsTidy(t)) && t != OTHERVARS ==> ok && IsTidy(t)
    {
      hide RestState, Created, ShownAs, CanCreate, Chosen, Tidy, RestNamed, VarInvariant, Done, Section;
      ghost var start, m := Labels(dims), State(used);
      ghost var tidy := IsTidy(t) && t != OTHERVARS;
      NothingRested(start, m);
      var used' := used;
      m' := m;
      for k := 0 to |dims|
        invariant Grown() && AllShown(dims, numGroups, t, groupName)
        invariant RestState(start, m, Labels(dims), State(used'), k)
        invariant tidy ==> IsTidy(t)
      {
        ghost var labels, before := Labels(dims), State(used');
        assert labels[k] == (dims[k].size, dims[k].name);
        if dims[k].name == "" {
          ok, used' := CreateUniqueDimName(used', dims[k], numGroups, t);
          if !ok {
            return;
          }
          assert Labels(dims) == labels[k := (labels[k].0, dims[k].name)];
          RestStateStep(start, m, labels, before, k, dims[k].name, State(used'));
        } else {
          RestStateSkip(start, m, labels, before, k);
        }
      }
      ok, m' := true, State(used');
      RestDone(start, m, Labels(dims), m');
    }

    /** The body of Set_Var_Dims for an entry of the metadata with the variable's name. */
    method NameByMetadata(dims: seq<Dimension>, dimList: seq<HE5Dim>, groupName: string, numGroups: nat, t: Eos5Type)
      returns (ok: bool)
      requires Valid() && Distinct(dims) && numGroups >= 1
      requires
        AllUnnamed(Labels(dims)) ||
        (Done(Labels(dims), dimnamesToDimsizes) && AllShown(dims, numGroups, t, groupName))
      requires MetadataRecorded(dimList, groupName, t, dimnamesToDimsizes)
      modifies this, dims
      ensures Valid() && Grown()
      ensures ok ==> Done(Labels(dims), dimnamesToDimsizes) && AllShown(dims, numGroups, t, groupName)
      ensures ok ==> MapsGrown(old(State({})), State({}))
      ensures ok && old(Done(Labels(dims), dimnamesToDimsizes)) ==> Labels(dims) == old(Labels(dims))
      ensures ok && old(AllUnnamed(Labels(dims))) ==>
        NamedBy(Labels(dims), dimList, groupName, t, old(dimsizesToDimnames), old(dimnamesToDimsizes))
      ensures old(IsTidy(t)) && t != OTHERVARS ==> ok && IsTidy(t)
    {
      hide FromMetadata, UsedUp, VarInvariant, FullName, Recorded, NoThreeAlike, DistinctNames, ShownAs, Tidy,
        RestNamed, NamedBy, Section, MetadataRecorded, MapsGrown;
      TidyStays(dimsizesToDimnames, dimnamesToDimsizes, varDimNames, FullName(t, name, "FakeDim"));
      assert forall i :: 0 <= i < |dims| ==> Labels(dims)[i] == (dims[i].size, dims[i].name);
      var used := AssignByMetadata(dims, dimList, groupName, numGroups, t);
      ghost var labels, m := Labels(dims), State(used);
      ghost var m';
      ok, m' := NameTheRest(dims, used, numGroups, t, groupName);
      if ok {
        MapsHaveGrown(labels, m, Labels(dims), m');
        GrownAnyway(m, m', {}, {});
      }
      if ok && old(AllUnnamed(Labels(dims))) {
        RunIsNamedBy(labels, m, Labels(dims), m', dimList, groupName, t);
      }
    }

    /**
    Set_Var_Dims. Ok(true): every dimension has a recorded name of its size, and whether
    the names differ was decided by the maps before. Ok(false): the metadata does not
    list the variable, and nothing has been named.
    */
    method SetVarDims(varName: string, dims: seq<Dimension>, he5vars: seq<HE5Var>, groupName: string, numGroups: nat,
        t: Eos5Type)
      returns (parsed: Result<bool>)
      requires Valid() && Distinct(dims) && numGroups >= 1
      requires AllUnnamed(Labels(dims))
      requires forall v :: 0 <= v < |he5vars| ==> MetadataRecorded(he5vars[v].dimList, groupName, t, dimnamesToDimsizes)
      modifies this, dims
      ensures Valid() && Grown()
      ensures t == OTHERVARS ==> parsed.Thrown?
      ensures parsed.Ok? ==> RanksAgree(he5vars, varName, |dims|) && parsed.value == EntryFor(he5vars, varName).Some?
      ensures parsed.Ok? ==> MapsGrown(old(State({})), State({}))
      ensures parsed == Ok(true) ==>
        && Done(Labels(dims), dimnamesToDimsizes) && AllShown(dims, numGroups, t, groupName)
        && NamedBy(Labels(dims), EntryFor(he5vars, varName).value, groupName, t,
             old(dimsizesToDimnames), old(dimnamesToDimsizes))
      ensures parsed == Ok(false) ==>
        && AllUnnamed(Labels(dims))
        && dimnamesToDimsizes == old(dimnamesToDimsizes) && dimsizesToDimnames == old(dimsizesToDimnames)
      ensures old(IsTidy(t)) && t != OTHERVARS ==> (parsed.Ok? <==> RanksAgree(he5vars, varName, |dims|)) && IsTidy(t)
    {
      hide Done, AllUnnamed, MetadataRecorded, Tidy, RanksAgree, NamedBy, Section, Labels, EntryState, ShownAs,
        EntryFor, Distinct, TypePrefix, FullName, MapsGrown;
      if t == OTHERVARS {
        return Thrown("Unsupported HDF-EOS5 type, this type is not swath, grid or zonal average");
      }
      ghost var m := State({});
      var isParsed := false;
      NoEntryYet(varName, Labels(dims), m, groupName, t);
      NamesAreShown(dims, numGroups, t, groupName);
      for v := 0 to |he5vars|
        invariant Grown() && AllShown(dims, numGroups, t, groupName)
        invariant EntryState(he5vars[..v], varName, Labels(dims), m, State({}), groupName, t, isParsed)
        invariant old(IsTidy(t)) ==> IsTidy(t)
      {
        ghost var labels, before := Labels(dims), State({});
        EntriesDone(he5vars[..v], varName, labels, m, before, groupName, t, isParsed);
        if he5vars[v].name == varName {
          if |he5vars[v].dimList| != |dims| {
            RanksDiffer(he5vars, varName, |dims|, v);
            return Thrown("Number of dimensions don't match with the structmetadata for variable");
          }
          MetadataStays(he5vars[v].dimList, groupName, t, m.sizeOf, dimnamesToDimsizes);
          var ok := NameByMetadata(dims, he5vars[v].dimList, groupName, numGroups, t);
          if !ok {
            return Thrown("The dimension name of the variable is not right");
          }
          EntryStep(he5vars, v, varName, labels, m, before, groupName, t, isParsed, Labels(dims), State({}));
          isParsed := true;
        } else {
          EntrySkip(he5vars, v, varName, labels, m, before, groupName, t, isParsed);
        }
      }
      assert he5vars[..|he5vars|] == he5vars;
      EntriesDone(he5vars, varName, Labels(dims), m, State({}), groupName, t, isParsed);
      return Ok(isParsed);
    }

    /**
    Obtain_Var_Dims for a variable of this group: by the metadata list of its kind, and
    by size alone if it is not listed.
    */
    method NameVariable(v: FileVar, dims: seq<Dimension>, lists: FieldLists, numGroups: nat, t: Eos5Type)
      returns (ok: bool)
      requires Valid() && Distinct(dims) && numGroups >= 1 && AllUnnamed(Labels(dims))
      requires ListsRecorded(lists, name, t, dimnamesToDimsizes)
      modifies this, dims
      ensures Valid() && Grown()
      ensures ok ==> Done(Labels(dims), dimnamesToDimsizes) && AllShown(dims, numGroups, t, name)
      ensures ok ==> MapsGrown(old(State({})), State({}))
      ensures ok ==>
        (DistinctNames(Labels(dims)) <==>
         AllApart(Labels(dims), OwnNames(v, lists), name, t, old(dimsizesToDimnames), old(dimnamesToDimsizes)))
      ensures old(IsTidy(t)) && t != OTHERVARS ==> (ok <==> OwnRanksAgree(v, lists, |dims|)) && (ok ==> IsTidy(t))
    {
      hide Done, AllUnnamed, ListsRecorded, Tidy, RanksAgree, Section, Labels, ShownAs, EntryFor, Distinct, FullName,
        MetadataFirst, DistinctNames, AllApart, MapsGrown;
      var parsed := false;
      EmptyListAgrees(v.name, |dims|);
      if !v.kind.NoField? {
        RecordedInList(v, lists, name, t, dimnamesToDimsizes);
        var r := SetVarDims(v.name, dims, lists.OfKind(v.kind), name, numGroups, t);
        if r.Thrown? {
          return false;
        }
        parsed := r.value;
      }
      ok := true;
      if !parsed {
        ok := SetNonParseVarDims(dims, numGroups, t);
        WithoutMetadata(Labels(dims), name, t, old(dimsizesToDimnames), old(dimnamesToDimsizes));
      }
    }

    /** A dimension without a name has nothing to show. */
    lemma NamesAreShown(dims: seq<Dimension>, numGroups: nat, t: Eos5Type, groupName: string)
      requires AllUnnamed(Labels(dims))
      ensures AllShown(dims, numGroups, t, groupName)
    {
      assert forall i :: 0 <= i < |dims| ==> Labels(dims)[i] == (dims[i].size, dims[i].name);
    }
  }

  /** The first n dimensions of a group are in its maps, and nothing else. */
  ghost predicate HoldsList(t: Eos5Type, group: string, dims: seq<HE5Dim>, n: nat, dimNames: seq<string>, m: Maps)
    requires n <= |dims|
  {
    && Section(m.nameOf, m.sizeOf) && "" !in m.sizeOf
    && |dimNames| == n && Distinct(dimNames)
    && (forall i :: 0 <= i < n ==> dimNames[i] == FullName(t, group, dims[i].name))
    && (forall i :: 0 <= i < n ==> dimNames[i] in m.sizeOf && m.sizeOf[dimNames[i]] == dims[i].size)
    && (forall full :: full in m.sizeOf ==> full in dimNames)
    && FirstOfEachSize(dims, n, dimNames, m.nameOf)
  }

  /** Each size among the first n dimensions maps to the first name that has it. */
  ghost predicate FirstOfEachSize(dims: seq<HE5Dim>, n: nat, dimNames: seq<string>, nameOf: map<nat, string>)
    requires n <= |dims| && n <= |dimNames|
  {
    && (forall i :: 0 <= i < n ==> dims[i].size in nameOf)
    && (forall s :: s in nameOf ==> exists i :: 0 <= i < n && IsFirstOfSize(dims, i, s) && nameOf[s] == dimNames[i])
  }

  ghost predicate IsFirstOfSize(dims: seq<HE5Dim>, i: nat, size: nat)
    requires i < |dims|
  {
    dims[i].size == size && forall j :: 0 <= j < i ==> dims[j].size != size
  }

  lemma FirstOfEachSizeSnoc(dims: seq<HE5Dim>, n: nat, dimNames: seq<string>, nameOf: map<nat, string>, full: string)
    requires n < |dims| && n == |dimNames| && FirstOfEachSize(dims, n, dimNames, nameOf)
    ensures FirstOfEachSize(dims, n + 1, dimNames + [full],
              if dims[n].size in nameOf then nameOf else nameOf[dims[n].size := full])
  {
    var nameOf' := if dims[n].size in nameOf then nameOf else nameOf[dims[n].size := full];
    forall s | s in nameOf'
      ensures exists i :: 0 <= i < n + 1 && IsFirstOfSize(dims, i, s) && nameOf'[s] == (dimNames + [full])[i]
    {
      if s in nameOf {
        var i :| 0 <= i < n && IsFirstOfSize(dims, i, s) && nameOf[s] == dimNames[i];
        assert (dimNames + [full])[i] == dimNames[i];
      } else {
        assert IsFirstOfSize(dims, n, s);
      }
    }
  }

  /** Recorded metadata names have their sizes. */
  lemma ListedIsRecorded(t: Eos5Type, group: string, dims: seq<HE5Dim>, dimNames: seq<string>, m: Maps,
      dimList: seq<HE5Dim>)
    requires HoldsList(t, group, dims, |dims|, dimNames, m) && forall i :: 0 <= i < |dimList| ==> dimList[i] in dims
    ensures MetadataRecorded(dimList, group, t, m.sizeOf)
  {
    hide FullName, FirstOfEachSize, Section, Distinct;
    forall j | 0 <= j < |dimList|
      ensures var full := FullName(t, group, dimList[j].name); full in m.sizeOf && m.sizeOf[full] == dimList[j].size
    {
      var i :| 0 <= i < |dims| && dims[i] == dimList[j];
      assert dimNames[i] == FullName(t, group, dims[i].name);
    }
  }

  lemma NothingListed(t: Eos5Type, group: string, dims: seq<HE5Dim>, nameOf: map<nat, string>)
    requires Section(nameOf, map[])
    ensures HoldsList(t, group, dims, 0, [], Maps(nameOf, map[], {}))
  {}

  lemma ListOne(t: Eos5Type, group: string, dims: seq<HE5Dim>, n: nat, dimNames: seq<string>, m: Maps)
    requires n < |dims| && HoldsList(t, group, dims, n, dimNames, m)
    ensures var full, size := FullName(t, group, dims[n].name), dims[n].size;
            if full in m.sizeOf then !Distinct(Names(dims))
            else
              var nameOf := if size in m.nameOf then m.nameOf else m.nameOf[size := full];
              HoldsList(t, group, dims, n + 1, dimNames + [full], Maps(nameOf, m.sizeOf[full := size], m.used))
  {
    hide FullName, FirstOfEachSize;
    var full := FullName(t, group, dims[n].name);
    FirstOfEachSizeSnoc(dims, n, dimNames, m.nameOf, full);
    if full in m.sizeOf {
      var i :| 0 <= i < n && dimNames[i] == full;
      FullNameInjective(t, group, dims[i].name, dims[n].name);
      assert Names(dims)[i] == Names(dims)[n];
    } else {
      assert forall i :: 0 <= i < n ==> dimNames[i] != full;
    }
  }

  lemma AllListed(t: Eos5Type, group: string, dims: seq<HE5Dim>, dimNames: seq<string>, m: Maps)
    requires HoldsList(t, group, dims, |dims|, dimNames, m)
    ensures Distinct(Names(dims)) && Section(m.nameOf, m.sizeOf) && "" !in m.sizeOf
    ensures |dimNames| == |dims|
    ensures forall i :: 0 <= i < |dims| ==> dimNames[i] == FullName(t, group, dims[i].name)
    ensures forall i :: 0 <= i < |dims| ==>
      var full := FullName(t, group, dims[i].name);
      full in m.sizeOf && m.sizeOf[full] == dims[i].size
    ensures FirstOfEachSize(dims, |dims|, dimNames, m.nameOf)
  {
    hide FullName, FirstOfEachSize;
    forall i, j | 0 <= i < j < |dims| ensures Names(dims)[i] != Names(dims)[j] {
      assert dimNames[i] != dimNames[j];
    }
  }

  /** Create_Unique_FakeDimName: "FakeDim" and the index, numbered once more if that name is taken. */
  ghost function FakeName(t: Eos5Type, group: string, index: nat, names: set<string>): (fake: string)
    ensures fake !in names
  {
    var added := FullName(t, group, FakeDimName(index));
    if added in names then UniqueName(added + "_", names) else added
  }

  lemma UniqueEndsWell(str: string, names: set<string>)
    requires AfterLastSlash(str) != ""
    ensures EndsWithDigit(UniqueName(str + "_", names)) && AfterLastSlash(UniqueName(str + "_", names)) != ""
    ensures exists k: nat :: UniqueName(str + "_", names) == Numbered(str + "_", k)
  {
    hide AfterLastSlash, EndsWithDigit;
    var k := FreeIndex(str + "_", names, 1);
    NumberedEndsWell(str + "_", k);
    AfterLastSlashExtends(str, "_" + Decimal(k));
    assert str + ("_" + Decimal(k)) == Numbered(str + "_", k);
  }

  lemma FakeEndsWell(t: Eos5Type, group: string, index: nat, names: set<string>)
    ensures var fake := FakeName(t, group, index, names);
            EndsWithDigit(fake) && AfterLastSlash(fake) != "" && FullName(t, group, "FakeDim") <= fake
  {
    hide AfterLastSlash, EndsWithDigit;
    var prefix := TypePrefix(t) + group + "/" + "FakeDim";
    var added := FullName(t, group, FakeDimName(index));
    NumberedEndsWell(prefix, index);
    assert added == Numbered(prefix, index) && added[..|prefix|] == prefix;
    AfterLastSlashJoin(TypePrefix(t) + group, FakeDimName(index));
    if added in names {
      UniqueEndsWell(added, names);
      var k: nat :| UniqueName(added + "_", names) == Numbered(added + "_", k);
      StillAFake(prefix, added, UniqueName(added + "_", names), k);
    }
  }

  lemma MadeUpEndsWell(m: Maps, size: nat, t: Eos5Type, group: string, index: nat, names: set<string>)
    requires Section(m.nameOf, m.sizeOf) && Tidy(m.nameOf, m.sizeOf, names, FullName(t, group, "FakeDim"))
    ensures var madeUp := if size in m.nameOf then UniqueName(m.nameOf[size] + "_", names)
                          else FakeName(t, group, index, names);
            madeUp !in names && MadeUpFor(m.nameOf, size, madeUp, FullName(t, group, "FakeDim"))
  {
    hide AfterLastSlash, EndsWithDigit, FakeName, UniqueName, FullName, Harmless;
    if size in m.nameOf {
      UniqueEndsWell(m.nameOf[size], names);
    } else {
      FakeEndsWell(t, group, index, names);
    }
  }

  /** Metadata names without slashes that do not end with a digit are tidy from the start. */
  lemma PlainNamesAreTidy(dims: seq<HE5Dim>, t: Eos5Type, group: string, nameOf: map<nat, string>,
      sizeOf: map<string, nat>, fakes: string)
    requires forall i :: 0 <= i < |dims| ==>
      dims[i].name != "" && '/' !in dims[i].name && !EndsWithDigit(dims[i].name)
    requires forall n :: n in sizeOf ==> exists i :: 0 <= i < |dims| && n == FullName(t, group, dims[i].name)
    ensures Tidy(nameOf, sizeOf, {}, fakes)
  {
    hide AfterLastSlash, EndsWithDigit;
    forall n | n in sizeOf ensures AfterLastSlash(n) != "" && Harmless(nameOf, n, sizeOf[n], fakes) {
      var i :| 0 <= i < |dims| && n == FullName(t, group, dims[i].name);
      AfterLastSlashJoin(TypePrefix(t) + group, dims[i].name);
      SameEnd(TypePrefix(t) + group + "/", dims[i].name);
      forall s, k: nat | s in nameOf ensures n != Numbered(nameOf[s] + "_", k) {
        NumberedEndsWell(nameOf[s] + "_", k);
      }
    }
  }

  lemma SameEnd(dir: string, name: string)
    requires name != ""
    ensures EndsWithDigit(dir + name) <==> EndsWithDigit(name)
  {}
  lemma TidyStays(nameOf: map<nat, string>, sizeOf: map<string, nat>, names: set<string>, fakes: string)
    ensures Tidy(nameOf, sizeOf, names, fakes) ==>
            forall more: set<string> :: names <= more ==> Tidy(nameOf, sizeOf, more, fakes)
  {}

  /** A step from tidy maps leads to tidy maps. */
  lemma TidyAfter(m: Maps, size: nat, t: Eos5Type, madeUp: string, handedOut: set<string>, fakes: string,
      name: string, m': Maps)
    requires Tidy(m.nameOf, m.sizeOf, handedOut, fakes) && MadeUpFor(m.nameOf, size, madeUp, fakes)
    requires name == Chosen(m, size, madeUp) && Created(m, size, name, m')
    ensures Tidy(m'.nameOf, m'.sizeOf, handedOut + (if NeedsNewName(m, size) then {madeUp} else {}), fakes)
  {
    hide Tidy, MadeUpFor, HasAlternative, IsFirstAlternative, FirstAlternative;
    if NeedsNewName(m, size) {
      MadeUpIsTidy(m, handedOut, fakes, madeUp, size);
    } else {
      assert handedOut + {} == handedOut;
    }
  }

  lemma NothingForced(labels: Labelling, m: Maps)
    ensures Forced(labels, m, 0)
  {}

  lemma DoneMeans(labels: Labelling, sizeOf: map<string, nat>)
    requires Done(labels, sizeOf)
    ensures forall i :: 0 <= i < |labels| ==>
      labels[i].1 != "" && labels[i].1 in sizeOf && sizeOf[labels[i].1] == labels[i].0
  {
    forall i | 0 <= i < |labels| ensures labels[i].1 in sizeOf && sizeOf[labels[i].1] == labels[i].0 {
      assert IsNamed(labels, i);
    }
  }

  /** The first dimension of a size gives the size its name. */
  lemma FirstNames(t: Eos5Type, group: string, dims: seq<HE5Dim>, dimNames: seq<string>, m: Maps)
    requires HoldsList(t, group, dims, |dims|, dimNames, m)
    ensures forall full :: full in m.sizeOf ==> full in dimNames
    ensures forall i :: 0 <= i < |dims| && (forall j :: 0 <= j < i ==> dims[j].size != dims[i].size) ==>
      dims[i].size in m.nameOf && m.nameOf[dims[i].size] == dimNames[i]
  {
    forall i | 0 <= i < |dims| && (forall j :: 0 <= j < i ==> dims[j].size != dims[i].size)
      ensures dims[i].size in m.nameOf && m.nameOf[dims[i].size] == dimNames[i]
    {
      var s := dims[i].size;
      var k :| 0 <= k < |dims| && IsFirstOfSize(dims, k, s) && m.nameOf[s] == dimNames[k];
    }
  }

  lemma DoneIsDistinct(labels: Labelling, sizeOf: map<string, nat>)
    requires Done(labels, sizeOf)
    ensures NoThreeAlike(labels) ==> DistinctNames(labels)
  {}

  lemma AlternativeIsRecorded(sizeOf: map<string, nat>, c: string, size: nat, name: string)
    requires IsFirstAlternative(sizeOf, c, size, name)
    ensures IsAlternative(sizeOf, c, size, name)
  {}
}
