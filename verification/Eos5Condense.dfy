/**
EOS5File::Condense_EOS5Dim_List: the axes of a grid may be listed several times, under
two spellings; one entry for each size stays.
*/
module Eos5Condense {
  import opened Eos5Lists
  import opened Lists

  /** An axis, and the other spelling under which it may be listed. */
  datatype GridAxis = GridAxis(name: string, variant: string)

  const XAxis := GridAxis("XDim", "Xdim")
  const YAxis := GridAxis("YDim", "Ydim")

  predicate OnAxis(d: HE5Dim, a: GridAxis) {
    d.name == a.name || d.name == a.variant
  }

  /** The sizes listed for an axis. */
  function AxisSizes(dims: seq<HE5Dim>, a: GridAxis): set<nat> {
    if dims == [] then {}
    else
      var n := |dims| - 1;
      if OnAxis(dims[n], a) then AxisSizes(dims[..n], a) + {dims[n].size} else AxisSizes(dims[..n], a)
  }

  /** The entries that have nothing to do with the axis. */
  function OffAxis(dims: seq<HE5Dim>, a: GridAxis): seq<HE5Dim> {
    if dims == [] then []
    else
      var n := |dims| - 1;
      if OnAxis(dims[n], a) then OffAxis(dims[..n], a) else OffAxis(dims[..n], a) + [dims[n]]
  }

  /** The list with one entry more, given the sizes of the axis seen before it. */
  function Keep(kept: seq<HE5Dim>, d: HE5Dim, a: GridAxis, sizes: set<nat>): seq<HE5Dim> {
    if !OnAxis(d, a) then kept + [d] else if d.size in sizes then kept else kept + [HE5Dim(a.name, d.size)]
  }

  function Condensed(dims: seq<HE5Dim>, a: GridAxis): seq<HE5Dim> {
    if dims == [] then []
    else
      var n := |dims| - 1;
      Keep(Condensed(dims[..n], a), dims[n], a, AxisSizes(dims[..n], a))
  }

  lemma Snoc(dims: seq<HE5Dim>, d: HE5Dim, a: GridAxis)
    ensures AxisSizes(dims + [d], a) == if OnAxis(d, a) then AxisSizes(dims, a) + {d.size} else AxisSizes(dims, a)
    ensures OffAxis(dims + [d], a) == if OnAxis(d, a) then OffAxis(dims, a) else OffAxis(dims, a) + [d]
    ensures Condensed(dims + [d], a) == Keep(Condensed(dims, a), d, a, AxisSizes(dims, a))
  {}

  lemma Empty(a: GridAxis)
    ensures AxisSizes([], a) == {} && OffAxis([], a) == [] && Condensed([], a) == []
  {}

  /** One of the two loops, erasing entries while walking over the list. */
  method CondenseAxis(groupDims: seq<HE5Dim>, a: GridAxis) returns (dims: seq<HE5Dim>)
    ensures dims == Condensed(groupDims, a)
  {
    hide Condensed, AxisSizes, OffAxis;
    dims := groupDims;
    var sizes: set<nat> := {};
    ghost var done := 0;
    var id := 0;
    Empty(a);
    while id < |dims|
      invariant 0 <= done <= |groupDims| && 0 <= id <= |dims|
      invariant dims[id..] == groupDims[done..]
      invariant dims[..id] == Condensed(groupDims[..done], a)
      invariant sizes == AxisSizes(groupDims[..done], a)
      decreases |dims| - id
    {
      ghost var d := groupDims[done];
      assert dims[id] == dims[id..][0] == d;
      assert groupDims[..done + 1] == groupDims[..done] + [d];
      assert groupDims[done + 1..] == dims[id..][1..];
      Snoc(groupDims[..done], d, a);
      if a.name == dims[id].name || a.variant == dims[id].name {
        if dims[id].size in sizes {
          dims := dims[..id] + dims[id + 1..];
        } else {
          sizes := sizes + {dims[id].size};
          if a.variant == dims[id].name {
            dims := dims[id := HE5Dim(a.name, dims[id].size)];
          }
          id := id + 1;
        }
      } else {
        id := id + 1;
      }
      done := done + 1;
    }
    assert groupDims[..done] == groupDims;
  }

  method CondenseDimList(groupDims: seq<HE5Dim>) returns (dims: seq<HE5Dim>)
    ensures dims == Condensed(Condensed(groupDims, XAxis), YAxis)
    ensures Distinct(Names(dims)) <==>
      && Distinct(Names(OffAxis(OffAxis(groupDims, YAxis), XAxis)))
      && |AxisSizes(groupDims, XAxis)| <= 1 && |AxisSizes(groupDims, YAxis)| <= 1
    ensures forall d :: d in dims ==> d.name != "Xdim" && d.name != "Ydim"
    ensures forall d: HE5Dim :: d.name !in {"XDim", "Xdim", "YDim", "Ydim"} ==> (d in dims <==> d in groupDims)
    ensures forall s: nat :: HE5Dim("XDim", s) in dims <==>
      HE5Dim("XDim", s) in groupDims || HE5Dim("Xdim", s) in groupDims
    ensures forall s: nat :: HE5Dim("YDim", s) in dims <==>
      HE5Dim("YDim", s) in groupDims || HE5Dim("Ydim", s) in groupDims
  {
    hide Condensed, AxisSizes, OffAxis;
    dims := CondenseAxis(groupDims, XAxis);
    CondensedMembers(groupDims, XAxis);
    CondensedMembers(dims, YAxis);
    dims := CondenseAxis(dims, YAxis);
    DistinctExactly(groupDims);
  }

  /** What is left: all other entries, and the sizes of the axis under its one name. */
  lemma {:induction false} CondensedMembers(dims: seq<HE5Dim>, a: GridAxis)
    ensures forall d :: !OnAxis(d, a) ==> (d in Condensed(dims, a) <==> d in dims)
    ensures forall d :: OnAxis(d, a) ==> (d in Condensed(dims, a) <==> d.name == a.name && d.size in AxisSizes(dims, a))
    ensures forall s :: s in AxisSizes(dims, a) <==> HE5Dim(a.name, s) in dims || HE5Dim(a.variant, s) in dims
  {
    if dims != [] {
      var n := |dims| - 1;
      hide Condensed, AxisSizes, OffAxis;
      assert dims == dims[..n] + [dims[n]];
      CondensedMembers(dims[..n], a);
      Snoc(dims[..n], dims[n], a);
    } else {
      Empty(a);
    }
  }

  ghost predicate Unrelated(a: GridAxis, b: GridAxis) {
    a.name != b.name && a.name != b.variant && a.variant != b.name && a.variant != b.variant
  }

  /** Condensing one axis keeps its sizes, and everything else as it is. */
  lemma {:induction false} CondensedKeeps(dims: seq<HE5Dim>, a: GridAxis)
    ensures OffAxis(Condensed(dims, a), a) == OffAxis(dims, a)
    ensures AxisSizes(Condensed(dims, a), a) == AxisSizes(dims, a)
  {
    if dims != [] {
      var n := |dims| - 1;
      var before, d := dims[..n], dims[n];
      hide Condensed, AxisSizes, OffAxis;
      assert dims == before + [d];
      CondensedKeeps(before, a);
      Snoc(before, d, a);
      Snoc(Condensed(before, a), d, a);
      Snoc(Condensed(before, a), HE5Dim(a.name, d.size), a);
      AlreadyThere(AxisSizes(before, a), d.size);
    }
  }

  lemma AlreadyThere(s: set<nat>, x: nat)
    ensures x in s ==> s + {x} == s
  {}

  /** Two axes do not get into each other's way. */
  lemma {:induction false} CondensedKeepsSizes(dims: seq<HE5Dim>, a: GridAxis, b: GridAxis)
    requires Unrelated(a, b)
    ensures AxisSizes(Condensed(dims, a), b) == AxisSizes(dims, b)
  {
    if dims != [] {
      var n := |dims| - 1;
      var before, d := dims[..n], dims[n];
      hide Condensed, AxisSizes, OffAxis;
      assert dims == before + [d];
      CondensedKeepsSizes(before, a, b);
      Snoc(before, d, a);
      Snoc(before, d, b);
      Snoc(Condensed(before, a), d, b);
      Snoc(Condensed(before, a), HE5Dim(a.name, d.size), b);
    }
  }

  lemma {:induction false} OffAxisKeepsSizes(dims: seq<HE5Dim>, a: GridAxis, b: GridAxis)
    requires Unrelated(a, b)
    ensures AxisSizes(OffAxis(dims, b), a) == AxisSizes(dims, a)
  {
    if dims != [] {
      var n := |dims| - 1;
      var before, d := dims[..n], dims[n];
      hide Condensed, AxisSizes, OffAxis;
      assert dims == before + [d];
      OffAxisKeepsSizes(before, a, b);
      Snoc(before, d, a);
      Snoc(before, d, b);
      Snoc(OffAxis(before, b), d, a);
    }
  }

  lemma {:induction false} AxesCommute(dims: seq<HE5Dim>, a: GridAxis, b: GridAxis)
    requires Unrelated(a, b)
    ensures OffAxis(Condensed(dims, a), b) == Condensed(OffAxis(dims, b), a)
  {
    if dims != [] {
      var n := |dims| - 1;
      var before, d := dims[..n], dims[n];
      hide Condensed, AxisSizes, OffAxis;
      assert dims == before + [d];
      AxesCommute(before, a, b);
      OffAxisKeepsSizes(before, a, b);
      Snoc(before, d, a);
      Snoc(before, d, b);
      if OnAxis(d, a) {
        if d.size !in AxisSizes(before, a) {
          Snoc(Condensed(before, a), HE5Dim(a.name, d.size), b);
        }
      } else {
        Snoc(Condensed(before, a), d, b);
      }
      if !OnAxis(d, b) {
        Snoc(OffAxis(before, b), d, a);
      }
    }
  }

  lemma {:induction false} NamesOfCondensed(dims: seq<HE5Dim>, a: GridAxis, name: string)
    ensures name in Names(Condensed(dims, a)) <==>
            name in Names(OffAxis(dims, a)) || (name == a.name && AxisSizes(dims, a) != {})
  {
    if dims != [] {
      var n := |dims| - 1;
      hide Condensed, AxisSizes, OffAxis;
      assert dims == dims[..n] + [dims[n]];
      NamesOfCondensed(dims[..n], a, name);
      Snoc(dims[..n], dims[n], a);
      NamesSnoc(Condensed(dims[..n], a), dims[n]);
      NamesSnoc(Condensed(dims[..n], a), HE5Dim(a.name, dims[n].size));
      NamesSnoc(OffAxis(dims[..n], a), dims[n]);
    }
  }

  lemma DistinctLast(s: seq<string>, x: string)
    ensures Distinct(s + [x]) <==> Distinct(s) && x !in s
  {
    assert forall i :: 0 <= i < |s| ==> (s + [x])[i] == s[i];
    if Distinct(s + [x]) {
      assert (s + [x])[|s|] == x;
    }
  }

  lemma {:induction false} NoneOffAxis(dims: seq<HE5Dim>, a: GridAxis)
    ensures forall d :: d in OffAxis(dims, a) ==> !OnAxis(d, a)
  {
    if dims != [] {
      NoneOffAxis(dims[..|dims| - 1], a);
    }
  }

  lemma SmallSet(s: set<nat>, x: nat)
    requires x !in s
    ensures |s + {x}| <= 1 <==> s == {}
  {}

  /** Condensing one axis leaves distinct names exactly when the other names are and the axis has one size. */
  lemma {:induction false} DistinctForAxis(dims: seq<HE5Dim>, a: GridAxis)
    ensures Distinct(Names(Condensed(dims, a))) <==>
            Distinct(Names(OffAxis(dims, a))) && |AxisSizes(dims, a)| <= 1
  {
    if dims != [] {
      var n := |dims| - 1;
      var before, d := dims[..n], dims[n];
      hide Condensed, AxisSizes, OffAxis, Distinct, Names;
      assert dims == before + [d];
      DistinctForAxis(before, a);
      Snoc(before, d, a);
      var kept, sizes := Condensed(before, a), AxisSizes(before, a);
      NoneOffAxis(before, a);
      AxisNameIsOff(OffAxis(before, a), a);
      if !OnAxis(d, a) {
        NamesSnoc(kept, d);
        NamesSnoc(OffAxis(before, a), d);
        DistinctLast(Names(kept), d.name);
        DistinctLast(Names(OffAxis(before, a)), d.name);
        NamesOfCondensed(before, a, d.name);
      } else {
        AlreadyThere(sizes, d.size);
        if d.size !in sizes {
          NamesSnoc(kept, HE5Dim(a.name, d.size));
          DistinctLast(Names(kept), a.name);
          NamesOfCondensed(before, a, a.name);
          SmallSet(sizes, d.size);
        }
      }
    }
  }

  lemma AxisNameIsOff(dims: seq<HE5Dim>, a: GridAxis)
    requires forall d :: d in dims ==> !OnAxis(d, a)
    ensures a.name !in Names(dims)
  {
    forall i | 0 <= i < |dims| ensures Names(dims)[i] != a.name {
      assert dims[i] in dims;
    }
  }

  /**
  The condensed list has distinct names, as recording it demands, exactly when the other
  names are distinct and neither axis is listed with two sizes.
  */
  lemma DistinctExactly(dims: seq<HE5Dim>)
    ensures Distinct(Names(Condensed(Condensed(dims, XAxis), YAxis))) <==>
            && Distinct(Names(OffAxis(OffAxis(dims, YAxis), XAxis)))
            && |AxisSizes(dims, XAxis)| <= 1 && |AxisSizes(dims, YAxis)| <= 1
  {
    hide Condensed, AxisSizes, OffAxis;
    DistinctForAxis(Condensed(dims, XAxis), YAxis);
    AxesCommute(dims, XAxis, YAxis);
    CondensedKeepsSizes(dims, XAxis, YAxis);
    OffAxisKeepsSizes(dims, XAxis, YAxis);
    DistinctForAxis(OffAxis(dims, YAxis), XAxis);
  }
}
