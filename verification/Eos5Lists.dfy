/**
EOS5File: the dimension lists of the structure metadata, made consistent before the
dimensions of the variables are named after them.
*/
module Eos5Lists {
  import opened Lists
  import opened Numerals
  import opened Outcome
  import opened UniqueNames

  datatype HE5Dim = HE5Dim(name: string, size: nat)

  function Names(dims: seq<HE5Dim>): (names: seq<string>)
    ensures |names| == |dims|
  {
    seq(|dims|, i requires 0 <= i < |dims| => dims[i].name)
  }

  /** The size that the first entry of a name gives it. */
  function SizeIn(dims: seq<HE5Dim>, name: string): (size: Option<nat>)
    ensures size.Some? <==> name in Names(dims)
    ensures size.Some? ==> HE5Dim(name, size.value) in dims
  {
    if dims == [] then None
    else if dims[0].name == name then
      assert Names(dims)[0] == name;
      Some(dims[0].size)
    else
      assert Names(dims)[1..] == Names(dims[1..]);
      assert name in Names(dims) <==> name in Names(dims)[1..];
      SizeIn(dims[1..], name)
  }

  lemma {:induction false} SizeInPrefix(dims: seq<HE5Dim>, more: seq<HE5Dim>, name: string)
    requires dims <= more && name in Names(dims)
    ensures SizeIn(more, name) == SizeIn(dims, name)
  {
    assert more[0] == dims[0];
    if dims[0].name != name {
      assert Names(dims)[1..] == Names(dims[1..]);
      SizeInPrefix(dims[1..], more[1..], name);
    }
  }

  /** The first entry with the name is the one that counts. */
  lemma {:induction false} SizeInIs(dims: seq<HE5Dim>, name: string, i: nat)
    requires i < |dims| && dims[i].name == name && forall j :: 0 <= j < i ==> dims[j].name != name
    ensures SizeIn(dims, name) == Some(dims[i].size)
  {
    if i > 0 {
      SizeInIs(dims[1..], name, i - 1);
    }
  }

  // ----- Adjust_EOS5VarDim_Info

  /** The names a variable ends up with: a name used before in the variable gets a number. */
  ghost function Renamed(names: seq<string>): (finals: seq<string>)
    ensures |finals| == |names|
  {
    if names == [] then []
    else
      var n := |names| - 1;
      var before := Renamed(names[..n]);
      before + [if names[n] !in before then names[n] else UniqueName(names[n] + "_", Elements(before))]
  }

  lemma {:induction false} RenamedDistinct(names: seq<string>)
    ensures Distinct(Renamed(names))
  {
    if names != [] {
      var n := |names| - 1;
      RenamedDistinct(names[..n]);
      var before := Renamed(names[..n]);
      assert forall i :: 0 <= i < n ==> before[i] in Elements(before);
    }
  }

  lemma {:induction false} RenamedPrefix(names: seq<string>, k: nat)
    requires k <= |names|
    ensures Renamed(names)[..k] == Renamed(names[..k])
    decreases |names| - k
  {
    if k < |names| {
      RenamedPrefix(names, k + 1);
      assert names[..k + 1][..k] == names[..k];
      assert Renamed(names)[..k] == Renamed(names)[..k + 1][..k];
    } else {
      assert names[..k] == names;
    }
  }

  /** A name that the variable has already gets an underscore and the first number that is free in it. */
  lemma RenamedIs(names: seq<string>, i: nat) returns (k: nat)
    requires i < |names|
    ensures names[i] !in Renamed(names)[..i] ==> Renamed(names)[i] == names[i]
    ensures names[i] in Renamed(names)[..i] ==>
      && k >= 1 && Renamed(names)[i] == names[i] + "_" + Decimal(k)
      && names[i] + "_" + Decimal(k) !in Renamed(names)[..i]
      && forall j: nat | 1 <= j < k :: names[i] + "_" + Decimal(j) in Renamed(names)[..i]
  {
    RenamedPrefix(names, i);
    RenamedPrefix(names, i + 1);
    assert names[..i + 1][..i] == names[..i];
    assert Renamed(names)[i] == Renamed(names)[..i + 1][i];
    k := UniqueNameIs(names[i] + "_", Elements(Renamed(names[..i])));
  }

  /** The i-th name can be looked up when its turn comes. */
  ghost predicate Known(names: seq<string>, groupDims: seq<HE5Dim>, i: nat)
    requires i < |names|
  {
    names[i] in Names(groupDims) || names[i] in Renamed(names)[..i]
  }

  /** The lists after the first dimensions of a variable have been adjusted. */
  ghost predicate Adjusted(names: seq<string>, groupDims: seq<HE5Dim>, dims: seq<HE5Dim>, more: seq<HE5Dim>) {
    && Names(dims) == Renamed(names)
    && groupDims <= more
    && (forall i :: 0 <= i < |dims| ==> dims[i] in more)
    && (forall d :: d in more[|groupDims|..] ==> d in dims)
    && (forall i :: 0 <= i < |dims| ==> Known(names, groupDims, i))
    && (forall i :: 0 <= i < |dims| && names[i] in Names(groupDims) ==>
          SizeIn(groupDims, names[i]) == Some(dims[i].size))
    && (forall i, j :: 0 <= j < i < |dims| && names[i] !in Names(groupDims) && dims[j].name == names[i] ==>
          dims[i].size == dims[j].size)
  }

  /** Where an entry comes from that was added for a variable: a numbered form of one of its names, of the same size. */
  ghost predicate Derived(d: HE5Dim, names: seq<string>, groupDims: seq<HE5Dim>) {
    exists i, k: nat :: 0 <= i < |names| && NumberedFrom(d, names[i], k, groupDims)
  }

  ghost predicate NumberedFrom(d: HE5Dim, base: string, k: nat, groupDims: seq<HE5Dim>) {
    && d.name == Numbered(base + "_", k)
    && (base in Names(groupDims) ==> SizeIn(groupDims, base) == Some(d.size))
  }

  /** No entry added repeats one that was there. */
  ghost predicate NoneRepeated(groupDims: seq<HE5Dim>, more: seq<HE5Dim>) {
    forall i, j :: 0 <= i < j && |groupDims| <= j < |more| ==> more[i] != more[j]
  }

  ghost predicate Appended(names: seq<string>, groupDims: seq<HE5Dim>, more: seq<HE5Dim>) {
    && groupDims <= more
    && NoneRepeated(groupDims, more)
    && forall j :: |groupDims| <= j < |more| ==> Derived(more[j], names, groupDims)
  }

  lemma NothingAppended(names: seq<string>, groupDims: seq<HE5Dim>)
    ensures Appended(names, groupDims, groupDims)
  {}

  lemma AppendedStays(names: seq<string>, name: string, groupDims: seq<HE5Dim>, more: seq<HE5Dim>)
    requires Appended(names, groupDims, more)
    ensures Appended(names + [name], groupDims, more)
  {
    hide NumberedFrom;
    forall j | |groupDims| <= j < |more| ensures Derived(more[j], names + [name], groupDims) {
      assert Derived(more[j], names, groupDims);
      var i, k: nat :| 0 <= i < |names| && NumberedFrom(more[j], names[i], k, groupDims);
      assert (names + [name])[i] == names[i];
    }
  }

  lemma AppendOne(names: seq<string>, name: string, groupDims: seq<HE5Dim>, more: seq<HE5Dim>, used: set<string>,
      d: HE5Dim)
    requires Appended(names, groupDims, more) && d !in more
    requires d.name == UniqueName(name + "_", used) && SizeIn(more, name) == Some(d.size)
    ensures Appended(names + [name], groupDims, more + [d])
  {
    AppendedStays(names, name, groupDims, more);
    if name in Names(groupDims) {
      SizeInPrefix(groupDims, more, name);
    }
    var k := FreeIndex(name + "_", used, 1);
    assert (names + [name])[|names|] == name && NumberedFrom(d, name, k, groupDims);
    assert Derived(d, names + [name], groupDims);
  }

  /**
  Gives the dimensions of one variable their sizes and distinct names, and adds the new
  names to the list of the group. It throws exactly when a name is neither in the list
  nor one that an earlier dimension of the variable has just been given.
  */
  method AdjustVarDimInfo(varDims: seq<HE5Dim>, groupDims: seq<HE5Dim>) returns (r: Result<(seq<HE5Dim>, seq<HE5Dim>)>)
    ensures r.Ok? <==> forall i :: 0 <= i < |varDims| ==> Known(Names(varDims), groupDims, i)
    ensures r.Ok? ==> Adjusted(Names(varDims), groupDims, r.value.0, r.value.1)
    ensures r.Ok? ==> Distinct(Names(r.value.0)) && Appended(Names(varDims), groupDims, r.value.1)
  {
    hide Adjusted, Known, Renamed, Appended, UniqueName;
    var dims, more := [], groupDims;
    var dimnamelist: set<string> := {};
    ghost var names := Names(varDims);
    StartAdjusting(groupDims);
    NothingAppended([], groupDims);
    for i := 0 to |varDims|
      invariant |dims| == i && Adjusted(names[..i], groupDims, dims, more)
      invariant Appended(names[..i], groupDims, more)
      invariant dimnamelist == Elements(Names(dims))
    {
      assert names[..i + 1] == names[..i] + [names[i]] && names[..i + 1][..i] == names[..i];
      var size := SizeIn(more, varDims[i].name);
      LookupIsKnown(names[..i + 1], groupDims, dims, more);
      if size.None? {
        KnownInPrefix(names, groupDims, i);
        return Thrown("The EOS5 group dimension name list doesn't include the dimension");
      }
      var name := varDims[i].name;
      ghost var more0, used := more, dimnamelist;
      AppendedStays(names[..i], names[i], groupDims, more);
      if name in dimnamelist {
        var unique, list, k := GenUniqueName(name + "_", dimnamelist, 1);
        name, dimnamelist := unique, list;
        if HE5Dim(name, size.value) !in more {
          AppendOne(names[..i], names[i], groupDims, more, used, HE5Dim(name, size.value));
          more := more + [HE5Dim(name, size.value)];
        }
      } else {
        dimnamelist := dimnamelist + {name};
      }
      NamesSnoc(dims, HE5Dim(name, size.value));
      AdjustOne(names[..i + 1], groupDims, dims, more0, HE5Dim(name, size.value), more);
      dims := dims + [HE5Dim(name, size.value)];
    }
    assert names[..|varDims|] == names;
    AdjustedIsDistinct(names, groupDims, dims, more);
    return Ok((dims, more));
  }

  lemma StartAdjusting(groupDims: seq<HE5Dim>)
    ensures Adjusted([], groupDims, [], groupDims)
  {}

  lemma GroupNames(groupDims: seq<HE5Dim>, more: seq<HE5Dim>)
    requires groupDims <= more
    ensures forall k :: 0 <= k < |groupDims| ==> more[k].name in Names(groupDims)
  {
    assert forall k :: 0 <= k < |groupDims| ==> Names(groupDims)[k] == more[k].name;
  }

  lemma NamesSnoc(dims: seq<HE5Dim>, d: HE5Dim)
    ensures Names(dims + [d]) == Names(dims) + [d.name]
    ensures Elements(Names(dims + [d])) == Elements(Names(dims)) + {d.name}
  {}

  lemma RenamedSnoc(names: seq<string>, name: string)
    ensures Renamed(names + [name]) ==
            Renamed(names) +
            [if name !in Renamed(names) then name else UniqueName(name + "_", Elements(Renamed(names)))]
  {}

  lemma AdjustedIsDistinct(names: seq<string>, groupDims: seq<HE5Dim>, dims: seq<HE5Dim>, more: seq<HE5Dim>)
    requires |dims| == |names| && Adjusted(names, groupDims, dims, more)
    ensures Distinct(Names(dims))
    ensures forall i :: 0 <= i < |names| ==> Known(names, groupDims, i)
  {
    RenamedDistinct(names);
  }

  lemma KnownInPrefix(names: seq<string>, groupDims: seq<HE5Dim>, i: nat)
    requires i < |names|
    ensures Known(names[..i + 1], groupDims, i) <==> Known(names, groupDims, i)
  {
    RenamedPrefix(names, i);
    RenamedPrefix(names[..i + 1], i);
    assert names[..i + 1][..i] == names[..i];
  }

  /** The lookup in the grown list finds exactly the known names. */
  lemma LookupIsKnown(names: seq<string>, groupDims: seq<HE5Dim>, dims: seq<HE5Dim>, more: seq<HE5Dim>)
    requires |names| == |dims| + 1
    requires Adjusted(names[..|dims|], groupDims, dims, more)
    ensures SizeIn(more, names[|dims|]).Some? <==> Known(names, groupDims, |dims|)
  {
    var n := |dims|;
    RenamedPrefix(names, n);
    if names[n] in Names(groupDims) {
      SizeInPrefix(groupDims, more, names[n]);
    }
    if names[n] in Renamed(names[..n]) {
      var j :| 0 <= j < n && Names(dims)[j] == names[n];
      var k :| 0 <= k < |more| && more[k] == dims[j];
      assert Names(more)[k] == names[n];
    }
    if names[n] in Names(more) && names[n] !in Names(groupDims) {
      var k :| 0 <= k < |more| && Names(more)[k] == names[n];
      GroupNames(groupDims, more);
      assert more[k] in more[|groupDims|..];
      var j :| 0 <= j < n && dims[j] == more[k];
      assert Names(dims)[j] == names[n];
    }
  }

  lemma AdjustOne(names: seq<string>, groupDims: seq<HE5Dim>, dims: seq<HE5Dim>, more: seq<HE5Dim>,
      d: HE5Dim, more': seq<HE5Dim>)
    requires |names| == |dims| + 1
    requires Adjusted(names[..|dims|], groupDims, dims, more)
    requires Known(names, groupDims, |dims|)
    requires SizeIn(more, names[|dims|]) == Some(d.size)
    requires d.name == if names[|dims|] in Names(dims) then UniqueName(names[|dims|] + "_", Elements(Names(dims)))
                       else names[|dims|]
    requires names[|dims|] !in Names(dims) || d in more ==> more' == more
    requires names[|dims|] in Names(dims) && d !in more ==> more' == more + [d]
    ensures Adjusted(names, groupDims, dims + [d], more')
  {
    hide Renamed, Known, SizeIn;
    var n, dims' := |dims|, dims + [d];
    NamesSnoc(dims, d);
    assert names == names[..n] + [names[n]];
    RenamedSnoc(names[..n], names[n]);
    forall i: nat | i <= n ensures Known(names, groupDims, i) {
      if i < n {
        KnownStays(names, groupDims, n, i);
      }
    }
    if names[n] !in Names(dims) {
      SizeInIsThere(more, names[n]);
    }
    MoreIsOld(groupDims, dims, more, d, more');
    if names[n] in Names(groupDims) {
      SizeInPrefix(groupDims, more, names[n]);
    } else {
      SameSizeAsNamesake(names, groupDims, dims, more, d);
    }
    forall i | 0 <= i <= n && names[i] in Names(groupDims)
      ensures SizeIn(groupDims, names[i]) == Some(dims'[i].size)
    {
      if i < n {
        assert names[..n][i] == names[i];
      }
    }
    forall i, j | 0 <= j < i <= n && names[i] !in Names(groupDims) && dims'[j].name == names[i]
      ensures dims'[i].size == dims'[j].size
    {
      if i < n {
        assert names[..n][i] == names[i];
      }
    }
  }

  lemma SizeInIsThere(dims: seq<HE5Dim>, name: string)
    requires name in Names(dims)
    ensures SizeIn(dims, name).Some? && HE5Dim(name, SizeIn(dims, name).value) in dims
  {}

  lemma MoreIsOld(groupDims: seq<HE5Dim>, dims: seq<HE5Dim>, more: seq<HE5Dim>, d: HE5Dim, more': seq<HE5Dim>)
    requires groupDims <= more && (forall x :: x in more[|groupDims|..] ==> x in dims)
    requires more' == more || more' == more + [d]
    ensures forall x :: x in more'[|groupDims|..] ==> x in dims + [d]
  {}

  lemma KnownStays(names: seq<string>, groupDims: seq<HE5Dim>, n: nat, i: nat)
    requires i < n <= |names| && Known(names[..n], groupDims, i)
    ensures Known(names, groupDims, i)
  {
    RenamedPrefix(names, n);
    assert Renamed(names)[..n][..i] == Renamed(names)[..i];
  }

  // A name that only an earlier dimension has brought in stands for that dimension's size.
  lemma SameSizeAsNamesake(names: seq<string>, groupDims: seq<HE5Dim>, dims: seq<HE5Dim>, more: seq<HE5Dim>, d: HE5Dim)
    requires |names| == |dims| + 1
    requires Adjusted(names[..|dims|], groupDims, dims, more)
    requires names[|dims|] !in Names(groupDims) && SizeIn(more, names[|dims|]) == Some(d.size)
    ensures forall j :: 0 <= j < |dims| && dims[j].name == names[|dims|] ==> dims[j].size == d.size
  {
    hide Renamed, Known, SizeIn;
    var n := |dims|;
    var e := HE5Dim(names[n], d.size);
    BroughtIn(groupDims, dims, more, e);
    var m :| 0 <= m < n && dims[m] == e;
    AdjustedIsDistinct(names[..n], groupDims, dims, more);
    assert forall j :: 0 <= j < n ==> Names(dims)[j] == dims[j].name;
  }

  lemma BroughtIn(groupDims: seq<HE5Dim>, dims: seq<HE5Dim>, more: seq<HE5Dim>, e: HE5Dim)
    requires groupDims <= more && (forall d :: d in more[|groupDims|..] ==> d in dims)
    requires e in more && e.name !in Names(groupDims)
    ensures e in dims
  {
    var k :| 0 <= k < |more| && more[k] == e;
    GroupNames(groupDims, more);
    assert e in more[|groupDims|..];
  }

  /** A name the group list does not have is accepted when it happens to be one just made up. */
  lemma UndeclaredNameAccepted()
    ensures var names := ["a", "a", "a_1"];
            var groupDims := [HE5Dim("a", 5)];
            "a_1" !in Names(groupDims) && forall i :: 0 <= i < 3 ==> Known(names, groupDims, i)
  {
    var names := ["a", "a", "a_1"];
    assert names == ["a"] + ["a"] + ["a_1"] && ["a"] == [] + ["a"];
    RenamedSnoc([], "a");
    RenamedSnoc(["a"], "a");
    RenamedSnoc(["a"] + ["a"], "a_1");
    assert Elements(["a"]) == {"a"};
    assert Numbered("a_", 1) == "a_1";
    LeastFreeUnique("a_", {"a"}, 1, 1, FreeIndex("a_", {"a"}, 1));
    assert Names([HE5Dim("a", 5)]) == ["a"];
    assert Renamed(names)[1] == "a_1" && Renamed(names)[..2][1] == "a_1";
  }

  // ----- all variables of a group

  /** A name made up for one of the first n variables. */
  ghost predicate MadeUpBefore(vars: seq<seq<HE5Dim>>, n: nat, name: string)
    requires n <= |vars|
  {
    exists u :: 0 <= u < n && name in Renamed(Names(vars[u]))
  }

  /** The name of the i-th dimension of the v-th variable can be looked up when its turn comes. */
  ghost predicate KnownInGroup(vars: seq<seq<HE5Dim>>, groupDims: seq<HE5Dim>, v: nat, i: nat)
    requires v < |vars| && i < |vars[v]|
  {
    Known(Names(vars[v]), groupDims, i) || MadeUpBefore(vars, v, vars[v][i].name)
  }

  /** The list after n variables: what it holds, and where the entries come from. */
  ghost predicate GroupList(vars: seq<seq<HE5Dim>>, n: nat, groupDims: seq<HE5Dim>, more: seq<HE5Dim>)
    requires n <= |vars|
  {
    && groupDims <= more
    && NoneRepeated(groupDims, more)
    && (forall name :: name in Names(more) <==> name in Names(groupDims) || MadeUpBefore(vars, n, name))
    && (forall j :: |groupDims| <= j < |more| ==> DerivedInGroup(vars, n, groupDims, more[j]))
  }

  ghost predicate DerivedInGroup(vars: seq<seq<HE5Dim>>, n: nat, groupDims: seq<HE5Dim>, d: HE5Dim)
    requires n <= |vars|
  {
    exists u :: 0 <= u < n && Derived(d, Names(vars[u]), groupDims)
  }

  /** One variable with its sizes and distinct names. */
  ghost predicate AdjustedVariable(before: seq<HE5Dim>, after: seq<HE5Dim>, groupDims: seq<HE5Dim>, more: seq<HE5Dim>) {
    && Names(after) == Renamed(Names(before))
    && (forall i :: 0 <= i < |after| ==> after[i] in more)
    && (forall i :: 0 <= i < |after| && before[i].name in Names(groupDims) ==>
          SizeIn(groupDims, before[i].name) == Some(after[i].size))
  }

  /**
  Adjust_EOS5Dim_Info for one group: all its variables share the growing list. It throws
  exactly when a name is neither declared nor made up before.
  */
  method AdjustGroup(vars: seq<seq<HE5Dim>>, groupDims: seq<HE5Dim>)
    returns (r: Result<(seq<seq<HE5Dim>>, seq<HE5Dim>)>)
    ensures r.Ok? <==> forall v, i :: 0 <= v < |vars| && 0 <= i < |vars[v]| ==> KnownInGroup(vars, groupDims, v, i)
    ensures r.Ok? ==> |r.value.0| == |vars| && GroupList(vars, |vars|, groupDims, r.value.1)
    ensures r.Ok? ==> forall v | 0 <= v < |vars| :: AdjustedVariable(vars[v], r.value.0[v], groupDims, r.value.1)
  {
    hide GroupList, KnownInGroup, Known, Adjusted, Appended, AdjustedVariable;
    var done, more: seq<HE5Dim> := [], groupDims;
    NoneGrown(vars, groupDims);
    for v := 0 to |vars|
      invariant |done| == v && GroupList(vars, v, groupDims, more)
      invariant forall u | 0 <= u < v :: AdjustedVariable(vars[u], done[u], groupDims, more)
      invariant forall u, i :: 0 <= u < v && 0 <= i < |vars[u]| ==> KnownInGroup(vars, groupDims, u, i)
    {
      var one := AdjustVarDimInfo(vars[v], more);
      KnownByNow(vars, groupDims, v, more);
      if one.Thrown? {
        return Thrown(one.message);
      }
      OneMoreVariable(vars, groupDims, v, more, one.value.0, one.value.1);
      forall u | 0 <= u < v ensures AdjustedVariable(vars[u], done[u], groupDims, one.value.1) {
        AdjustedVariableStays(vars[u], done[u], groupDims, more, one.value.1);
      }
      done, more := done + [one.value.0], one.value.1;
    }
    return Ok((done, more));
  }

  lemma NoneGrown(vars: seq<seq<HE5Dim>>, groupDims: seq<HE5Dim>)
    ensures GroupList(vars, 0, groupDims, groupDims)
  {}

  /** For the v-th variable, what is in the list by then is what is known in the group. */
  lemma KnownByNow(vars: seq<seq<HE5Dim>>, groupDims: seq<HE5Dim>, v: nat, more: seq<HE5Dim>)
    requires v < |vars| && GroupList(vars, v, groupDims, more)
    ensures forall i :: 0 <= i < |vars[v]| ==> (Known(Names(vars[v]), more, i) <==> KnownInGroup(vars, groupDims, v, i))
  {
    hide Renamed, MadeUpBefore;
  }

  lemma AdjustedVariableStays(before: seq<HE5Dim>, after: seq<HE5Dim>, groupDims: seq<HE5Dim>, more: seq<HE5Dim>,
      more': seq<HE5Dim>)
    requires AdjustedVariable(before, after, groupDims, more) && more <= more'
    ensures AdjustedVariable(before, after, groupDims, more')
  {}

  lemma OneMoreVariable(vars: seq<seq<HE5Dim>>, groupDims: seq<HE5Dim>, v: nat, more: seq<HE5Dim>,
      dims: seq<HE5Dim>, more': seq<HE5Dim>)
    requires v < |vars| && GroupList(vars, v, groupDims, more)
    requires Adjusted(Names(vars[v]), more, dims, more') && Appended(Names(vars[v]), more, more')
    ensures GroupList(vars, v + 1, groupDims, more') && more <= more'
    ensures AdjustedVariable(vars[v], dims, groupDims, more')
  {
    hide Renamed, Known, Derived;
    forall name ensures name in Names(more') <==> name in Names(groupDims) || MadeUpBefore(vars, v + 1, name) {
      NamesOfMore(Names(vars[v]), more, dims, more', name);
      assert MadeUpBefore(vars, v + 1, name) <==> MadeUpBefore(vars, v, name) || name in Renamed(Names(vars[v]));
    }
    forall j | |groupDims| <= j < |more'| ensures DerivedInGroup(vars, v + 1, groupDims, more'[j]) {
      if j >= |more| {
        DerivedFromOriginal(more'[j], Names(vars[v]), groupDims, more);
      } else {
        assert DerivedInGroup(vars, v, groupDims, more[j]);
      }
    }
    forall i | 0 <= i < |dims| && vars[v][i].name in Names(groupDims)
      ensures SizeIn(groupDims, vars[v][i].name) == Some(dims[i].size)
    {
      SizeInPrefix(groupDims, more, vars[v][i].name);
      assert Names(vars[v])[i] == vars[v][i].name;
    }
  }

  lemma NamesOfMore(names: seq<string>, more: seq<HE5Dim>, dims: seq<HE5Dim>, more': seq<HE5Dim>, name: string)
    requires Adjusted(names, more, dims, more')
    ensures name in Names(more') <==> name in Names(more) || name in Renamed(names)
  {
    hide Renamed, Known, SizeIn;
    if name in Names(more') {
      var k :| 0 <= k < |more'| && Names(more')[k] == name;
      if k < |more| {
        assert Names(more)[k] == name;
      } else {
        assert more'[k] in more'[|more|..];
        var i :| 0 <= i < |dims| && dims[i] == more'[k];
        assert Names(dims)[i] == name;
      }
    }
    if name in Names(more) {
      var k :| 0 <= k < |more| && Names(more)[k] == name;
      assert Names(more')[k] == name;
    }
    if name in Renamed(names) {
      var i :| 0 <= i < |dims| && Names(dims)[i] == name;
      var k :| 0 <= k < |more'| && more'[k] == dims[i];
      assert Names(more')[k] == name;
    }
  }

  lemma DerivedFromOriginal(d: HE5Dim, names: seq<string>, groupDims: seq<HE5Dim>, more: seq<HE5Dim>)
    requires Derived(d, names, more) && groupDims <= more
    ensures Derived(d, names, groupDims)
  {
    var i, k: nat :| 0 <= i < |names| && NumberedFrom(d, names[i], k, more);
    if names[i] in Names(groupDims) {
      SizeInPrefix(groupDims, more, names[i]);
    }
    assert NumberedFrom(d, names[i], k, groupDims);
  }
}
