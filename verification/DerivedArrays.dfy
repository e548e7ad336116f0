/**
HDF5BaseArray and HDFEOS5CFMissLLArray: arrays that the handler computes instead of
reading them, restricted by a DAP constraint.
*/
module DerivedArrays {
  import opened Hyperslab
  import opened MixedRadix

  /** Zero in all three places stands for "no constraint". */
  predicate Unconstrained(s: Slice) {
    s.start == 0 && s.stop == 0 && s.stride == 0
  }

  /** The slice in force: the whole dimension when there is no constraint. */
  function Effective(s: Slice, whole: Slice): Slice {
    if Unconstrained(s) then whole else s
  }

  predicate Rejected(s: Slice) {
    s.stride < 0 || s.start < 0 || s.stop < 0 || s.start > s.stop
  }

  /** Passes the check, but the count of its elements divides by a stride of zero. */
  predicate Faulty(s: Slice) {
    !Rejected(s) && s.stride == 0 && !Unconstrained(s)
  }

  predicate Good(s: Slice) {
    !Rejected(s) && !Faulty(s)
  }

  /** How a computation ends: with a value, an exception, or an integer division by zero. */
  datatype Fate<+T> = Done(value: T) | Throws(message: string) | DividesByZero

  ghost predicate AllGood(slices: seq<Slice>) {
    forall i :: 0 <= i < |slices| ==> Good(slices[i])
  }

  /** A rejected slice comes before any faulty one. */
  ghost predicate RejectedFirst(slices: seq<Slice>) {
    exists i :: 0 <= i < |slices| && Rejected(slices[i]) && forall j :: 0 <= j < i ==> !Faulty(slices[j])
  }

  ghost predicate FaultyFirst(slices: seq<Slice>) {
    exists i :: 0 <= i < |slices| && Faulty(slices[i]) && forall j :: 0 <= j < i ==> !Rejected(slices[j])
  }

  function InForce(slices: seq<Slice>, whole: seq<Slice>): (r: seq<Slice>)
    requires |slices| == |whole|
    ensures |r| == |slices|
  {
    seq(|slices|, i requires 0 <= i < |slices| => Effective(slices[i], whole[i]))
  }

  /** HDF5BaseArray::format_constraint, shared by all computed arrays. */
  method FormatBaseConstraint(slices: seq<Slice>, whole: seq<Slice>,
      offset: array<nat>, step: array<nat>, count: array<nat>)
    returns (nelms: Fate<nat>)
    requires |slices| == |whole| && WellFormed(whole)
    requires offset.Length == step.Length == count.Length == |slices|
    requires offset != step && offset != count && step != count
    modifies offset, step, count
    ensures nelms.Done? <==> AllGood(slices)
    ensures nelms.Throws? <==> RejectedFirst(slices)
    ensures nelms.DividesByZero? <==> FaultyFirst(slices)
    ensures nelms.Done? ==> var e := InForce(slices, whole);
      && WellFormed(e) && nelms.value == Product(Counts(e))
      && offset[..] == Starts(e) && step[..] == Strides(e) && count[..] == Counts(e)
    ensures nelms.Done? <==> forall i :: 0 <= i < |slices| ==>
      0 <= slices[i].start <= slices[i].stop && (slices[i].stride > 0 || slices[i] == Slice(0, 0, 0))
    ensures nelms.DividesByZero? ==> exists i ::
      0 <= i < |slices| && 0 <= slices[i].start <= slices[i].stop && slices[i].stop > 0 && slices[i].stride == 0
    ensures nelms.Throws? ==> exists i ::
      0 <= i < |slices| && (slices[i].stride < 0 || slices[i].start < 0 || slices[i].stop < slices[i].start)
    ensures nelms.Done? ==> forall i :: 0 <= i < |slices| ==>
      var s := if slices[i] == Slice(0, 0, 0) then whole[i] else slices[i];
      offset[i] == s.start && step[i] == s.stride && !s.Malformed() && count[i] == s.Count()
  {
    hide Product;
    var nels: nat := 1;
    ghost var e := InForce(slices, whole);
    assert Counts(e[..0]) == [];
    EmptyProduct();
    for id := 0 to |slices|
      invariant WellFormed(e[..id])
      invariant AllGood(slices[..id])
      invariant forall j :: 0 <= j < id ==>
        offset[j] == e[j].start && step[j] == e[j].stride && count[j] == e[j].Count()
      invariant nels == Product(Counts(e[..id]))
    {
      var s := slices[id];
      FirstBad(slices, id);
      if s.stride < 0 || s.start < 0 || s.stop < 0 || s.start > s.stop {
        return Throws("Array/Grid hyperslab indices are bad");
      }
      if s.start == 0 && s.stop == 0 && s.stride == 0 {
        s := whole[id];
      }
      if s.stride == 0 {
        return DividesByZero;
      }
      assert s == e[id];
      CountPositive(s);
      offset[id] := s.start;
      step[id] := s.stride;
      count[id] := (s.stop - s.start) / s.stride + 1;
      CountsSnoc(e, id);
      nels := nels * count[id];
    }
    assert e[..|slices|] == e && slices[..|slices|] == slices;
    return Done(nels);
  }

  /** The first slice that is not good decides. */
  lemma FirstBad(slices: seq<Slice>, id: nat)
    requires id < |slices| && AllGood(slices[..id])
    ensures Rejected(slices[id]) ==> !AllGood(slices) && RejectedFirst(slices) && !FaultyFirst(slices)
    ensures Faulty(slices[id]) ==> !AllGood(slices) && FaultyFirst(slices) && !RejectedFirst(slices)
    ensures Good(slices[id]) ==> AllGood(slices[..id + 1])
  {
    assert forall j :: 0 <= j < id ==> slices[..id][j] == slices[j];
  }

  lemma EmptyProduct()
    ensures Product([]) == 1
  {}

  /** The elements of a one-dimensional array that a slice selects. */
  function Selected<T>(all: seq<T>, s: Slice): (r: seq<T>)
    requires !s.Malformed() && s.stop < |all|
    ensures |r| == s.Count()
  {
    seq(s.Count(), i requires 0 <= i < s.Count() => CountIsExact(s, i); all[s.start + i * s.stride])
  }

  function Naturals(n: nat): seq<int> {
    seq(n, i => i)
  }

  /** A slice as long as its dimension selects each element once, in place. */
  lemma WholeSlice(s: Slice, n: nat, i: nat)
    requires !s.Malformed() && s.stop < n && s.Count() == n && i < n
    ensures s.start + i * s.stride == i
  {
    CountIsExact(s, n - 1);
    MulLe(n - 1, 1, s.stride);
    assert (n - 1) * s.stride <= n - 1;
    if n > 1 && s.stride > 1 {
      MulLe(n - 1, 2, s.stride);
    }
  }

  /** As many elements as there are: that is all of them, in their order. */
  lemma AllSelected<T>(all: seq<T>, s: Slice)
    requires !s.Malformed() && s.stop < |all| && s.Count() == |all|
    ensures Selected(all, s) == all
  {
    forall i: nat | i < |all| ensures s.start + i * s.stride == i {
      WholeSlice(s, |all|, i);
    }
  }

  /** write_nature_number_buffer: the selected part of 0, 1, 2, ..., with a short cut. */
  method WriteNatureNumberBuffer(rank: nat, tnumelm: nat, slices: seq<Slice>, whole: seq<Slice>)
    returns (r: Fate<seq<int>>)
    requires |slices| == |whole| == rank && WellFormed(whole)
    requires forall i :: 0 <= i < rank ==> Effective(slices[i], whole[i]).stop < tnumelm
    ensures r.Throws? <==> rank != 1 || Rejected(slices[0])
    ensures r.DividesByZero? <==> rank == 1 && Faulty(slices[0])
    ensures r.Done? ==> var s := Effective(slices[0], whole[0]);
      !s.Malformed() && s.stop < tnumelm && r.value == Selected(Naturals(tnumelm), s)
  {
    if rank != 1 {
      return Throws("Currently the rank of the missing field should be 1");
    }
    var offset, count, step := new nat[1], new nat[1], new nat[1];
    var nelms := FormatBaseConstraint(slices, whole, offset, step, count);
    match nelms {
      case Throws(message) => return Throws(message);
      case DividesByZero => return DividesByZero;
      case Done(_) =>
    }
    ghost var s := Effective(slices[0], whole[0]);
    assert InForce(slices, whole) == [s];
    assert offset[..][0] == s.start && step[..][0] == s.stride && count[..][0] == s.Count();
    ProductOfOne(count[..]);
    var val: seq<int> := [];
    if nelms.value == tnumelm {
      for i := 0 to nelms.value
        invariant |val| == i && forall j :: 0 <= j < i ==> val[j] == j
      {
        val := val + [i];
      }
      AllSelected(Naturals(tnumelm), s);
    } else {
      for i := 0 to count[0]
        invariant |val| == i && forall j :: 0 <= j < i ==> val[j] == offset[0] + step[0] * j
      {
        val := val + [offset[0] + step[0] * i];
      }
      forall i: nat | i < s.Count() ensures val[i] == Selected(Naturals(tnumelm), s)[i] {
        CountIsExact(s, i);
        Commute(s.stride, i);
      }
    }
    assert val == Selected(Naturals(tnumelm), s);
    return Done(val);
  }

  /** What is selected of 0, 1, 2, ...: every stride-th number from start to stop. */
  lemma SelectedNaturals(n: nat, s: Slice, i: nat)
    requires !s.Malformed() && s.stop < n
    ensures i < |Selected(Naturals(n), s)| <==> s.start + i * s.stride <= s.stop
    ensures i < |Selected(Naturals(n), s)| ==> Selected(Naturals(n), s)[i] == s.start + i * s.stride
  {
    CountIsExact(s, i);
  }

  lemma ProductOfOne(radix: seq<nat>)
    requires |radix| == 1
    ensures Product(radix) == radix[0]
  {}

  lemma Commute(a: int, b: int)
    ensures a * b == b * a
  {}

  // ----- latitude and longitude of a geographic grid

  datatype Axis = CV_LAT_MISS | CV_LON_MISS

  datatype Origin = UpperLeft | UpperRight | LowerLeft | LowerRight

  datatype Registration = CENTER | CORNER

  /** The edges of a grid, in the packed units of the metadata, and its numbers of cells. */
  datatype Grid = Grid(upper: real, lower: real, left: real, right: real, xdim: int, ydim: int, origin: Origin)

  function StartEdge(g: Grid, axis: Axis): real {
    match axis
    case CV_LAT_MISS => if g.origin.UpperLeft? || g.origin.UpperRight? then g.upper else g.lower
    case CV_LON_MISS => if g.origin.UpperLeft? || g.origin.LowerLeft? then g.left else g.right
  }

  function EndEdge(g: Grid, axis: Axis): real {
    match axis
    case CV_LAT_MISS => if g.origin.UpperLeft? || g.origin.UpperRight? then g.lower else g.upper
    case CV_LON_MISS => if g.origin.UpperLeft? || g.origin.LowerLeft? then g.right else g.left
  }

  function Cells(g: Grid, axis: Axis): int {
    match axis case CV_LAT_MISS => g.ydim case CV_LON_MISS => g.xdim
  }

  /** The coordinate of cell i when n cells run from one edge to the other. */
  function Coordinate(start: real, end: real, n: int, reg: Registration, i: int): real
    requires n > 0
  {
    var step := (end - start) / n as real;
    ((i as real + (if reg.CENTER? then 0.5 else 0.0)) * step + start) / 1000000.0
  }

  /** All coordinates along an axis. */
  function Coordinates(g: Grid, axis: Axis, reg: Registration): (r: seq<real>)
    requires Cells(g, axis) > 0
    ensures |r| == Cells(g, axis)
  {
    seq(Cells(g, axis), i => Coordinate(StartEdge(g, axis), EndEdge(g, axis), Cells(g, axis), reg, i))
  }

  /**
  HDFEOS5CFMissLLArray::read. Only the first dimension counts; for a one-dimensional
  axis, as the handler makes them, the result is the selected part of all coordinates.
  */
  method ReadMissLL(g: Grid, axis: Axis, reg: Registration, geographic: bool, slices: seq<Slice>, whole: seq<Slice>)
    returns (r: Fate<seq<real>>)
    requires |slices| == |whole| && WellFormed(whole)
    ensures r.Throws? <==>
      || !geographic || slices == [] || RejectedFirst(slices)
      || (AllGood(slices) && (if axis == CV_LAT_MISS then g.ydim else g.xdim) <= 0)
    ensures r.DividesByZero? <==> geographic && FaultyFirst(slices)
    ensures r.Done? ==> var e := InForce(slices, whole);
      slices != [] && WellFormed(e) && Cells(g, axis) > 0 && |r.value| == Product(Counts(e))
    ensures r.Done? ==> Cells(g, axis) == if axis == CV_LAT_MISS then g.ydim else g.xdim
    ensures r.Done? ==> var e := Effective(slices[0], whole[0]);
      forall i :: 0 <= i < |r.value| ==>
        r.value[i] == Coordinate(StartEdge(g, axis), EndEdge(g, axis), Cells(g, axis), reg, e.start + i * e.stride)
    ensures r.Done? && |slices| == 1 && Effective(slices[0], whole[0]).stop < Cells(g, axis) ==>
      var e := Effective(slices[0], whole[0]);
      !e.Malformed() && r.value == Selected(Coordinates(g, axis, reg), e)
  {
    hide Coordinate, Product;
    if !geographic {
      return Throws("The projection is not supported.");
    }
    if |slices| <= 0 {
      return Throws("The number of dimension of this variable should be greater than 0");
    }
    var n := |slices|;
    var offset, count, step := new nat[n], new nat[n], new nat[n];
    var nelms := FormatBaseConstraint(slices, whole, offset, step, count);
    match nelms {
      case Throws(message) => return Throws(message);
      case DividesByZero => return DividesByZero;
      case Done(_) =>
    }
    ghost var e := InForce(slices, whole);
    assert offset[0] == offset[..][0] == e[0].start && step[0] == step[..][0] == e[0].stride;
    if nelms.value <= 0 {
      ProductPositive(Counts(e));
      return Throws("The number of elments is negative.");
    }
    var start, end, cells;
    match axis {
      case CV_LAT_MISS =>
        if g.origin.UpperLeft? || g.origin.UpperRight? {
          start, end := g.upper, g.lower;
        } else {
          start, end := g.lower, g.upper;
        }
        cells := g.ydim;
      case CV_LON_MISS =>
        if g.origin.UpperLeft? || g.origin.LowerLeft? {
          start, end := g.left, g.right;
        } else {
          start, end := g.right, g.left;
        }
        cells := g.xdim;
    }
    if cells <= 0 {
      return Throws("The number of elments should be greater than 0.");
    }
    var val := FillCoordinates(start, end, cells, reg, nelms.value, offset[0], step[0]);
    if n == 1 && e[0].stop < cells {
      assert e == [e[0]];
      OneDimension(g, axis, reg, e[0], val);
    }
    return Done(val);
  }

  /** The coordinates of the cells that a slice of the axis names. */
  lemma OneDimension(g: Grid, axis: Axis, reg: Registration, s: Slice, val: seq<real>)
    requires !s.Malformed() && s.stop < Cells(g, axis) && |val| == Product(Counts([s]))
    requires forall i :: 0 <= i < |val| ==>
      val[i] == Coordinate(StartEdge(g, axis), EndEdge(g, axis), Cells(g, axis), reg, s.start + i * s.stride)
    ensures val == Selected(Coordinates(g, axis, reg), s)
  {
    hide Coordinate;
    ProductOfOne(Counts([s]));
    forall i: nat | i < s.Count() ensures val[i] == Selected(Coordinates(g, axis, reg), s)[i] {
      CountIsExact(s, i);
    }
  }

  /** The loops that fill the buffer, one for each registration. */
  method FillCoordinates(start: real, end: real, cells: int, reg: Registration, nelms: nat, offset: nat, step: nat)
    returns (val: seq<real>)
    requires cells > 0
    ensures |val| == nelms
    ensures forall i :: 0 <= i < nelms ==> val[i] == Coordinate(start, end, cells, reg, offset + i * step)
  {
    hide Coordinate;
    var cellStep := (end - start) / cells as real;
    val := [];
    for i := 0 to nelms
      invariant |val| == i
      invariant forall j :: 0 <= j < i ==> val[j] == Coordinate(start, end, cells, reg, offset + j * step)
    {
      var x: real;
      if reg == CENTER {
        x := (((offset + i * step) as real + 0.5) * cellStep + start) / 1000000.0;
      } else {
        x := ((offset + i * step) as real * cellStep + start) / 1000000.0;
      }
      CoordinateOf(start, end, cells, reg, offset + i * step, cellStep, x);
      val := val + [x];
    }
  }

  lemma CoordinateOf(start: real, end: real, cells: int, reg: Registration, k: int, cellStep: real, x: real)
    requires cells > 0 && cellStep == (end - start) / cells as real
    requires reg == CENTER ==> x == ((k as real + 0.5) * cellStep + start) / 1000000.0
    requires reg == CORNER ==> x == (k as real * cellStep + start) / 1000000.0
    ensures x == Coordinate(start, end, cells, reg, k)
  {}

  /** Latitudes count down from the upper edge for an upper origin, and up from the lower edge for a lower one. */
  lemma LatitudeIs(g: Grid, reg: Registration, i: int)
    requires g.ydim > 0
    ensures var x := i as real + (if reg.CENTER? then 0.5 else 0.0);
            Coordinate(StartEdge(g, CV_LAT_MISS), EndEdge(g, CV_LAT_MISS), g.ydim, reg, i) * 1000000.0 ==
            if g.origin.UpperLeft? || g.origin.UpperRight?
            then g.upper - x * ((g.upper - g.lower) / g.ydim as real)
            else g.lower + x * ((g.upper - g.lower) / g.ydim as real)
  {
    hide Coordinate;
    FromEitherEdge(g.lower, g.upper, g.ydim, reg, i, i as real + (if reg.CENTER? then 0.5 else 0.0));
  }

  /** Longitudes count up from the left edge for a left origin, and down from the right edge for a right one. */
  lemma LongitudeIs(g: Grid, reg: Registration, i: int)
    requires g.xdim > 0
    ensures var x := i as real + (if reg.CENTER? then 0.5 else 0.0);
            Coordinate(StartEdge(g, CV_LON_MISS), EndEdge(g, CV_LON_MISS), g.xdim, reg, i) * 1000000.0 ==
            if g.origin.UpperLeft? || g.origin.LowerLeft?
            then g.left + x * ((g.right - g.left) / g.xdim as real)
            else g.right - x * ((g.right - g.left) / g.xdim as real)
  {
    hide Coordinate;
    FromEitherEdge(g.left, g.right, g.xdim, reg, i, i as real + (if reg.CENTER? then 0.5 else 0.0));
  }

  lemma FromEitherEdge(low: real, high: real, n: int, reg: Registration, i: int, x: real)
    requires n > 0 && x == i as real + (if reg.CENTER? then 0.5 else 0.0)
    ensures Coordinate(low, high, n, reg, i) * 1000000.0 == low + x * ((high - low) / n as real)
    ensures Coordinate(high, low, n, reg, i) * 1000000.0 == high - x * ((high - low) / n as real)
  {
    OppositeStep(high - low, n as real);
    Negate(x, (high - low) / n as real, (low - high) / n as real);
  }

  /** Every coordinate lies between the two edges of the grid, scaled to degrees. */
  lemma BetweenEdges(start: real, end: real, n: int, reg: Registration, i: int)
    requires 0 <= i < n
    ensures var c := Coordinate(start, end, n, reg, i) * 1000000.0;
            if start <= end then start <= c <= end else end <= c <= start
  {
    Between(start, end, n as real, i as real + (if reg.CENTER? then 0.5 else 0.0));
  }

  lemma Between(start: real, end: real, n: real, x: real)
    requires 0.0 <= x <= n && n > 0.0
    ensures var c := x * ((end - start) / n) + start;
            if start <= end then start <= c <= end else end <= c <= start
  {
    OppositeStep(end - start, n);
    if start <= end {
      Scale(x, n, (end - start) / n);
    } else {
      Scale(x, n, (start - end) / n);
      Negate(x, (start - end) / n, (end - start) / n);
    }
  }

  lemma OppositeStep(span: real, n: real)
    requires n > 0.0
    ensures span / n * n == span
    ensures -span / n == -(span / n)
    ensures if span >= 0.0 then span / n >= 0.0 else -span / n >= 0.0
  {
    CancelFactor(-span / n, -(span / n), n);
  }

  lemma CancelFactor(a: real, b: real, n: real)
    requires n > 0.0 && a * n == b * n
    ensures a == b
  {}

  lemma Scale(x: real, n: real, step: real)
    requires 0.0 <= x <= n && 0.0 <= step
    ensures 0.0 <= x * step <= n * step
  {}

  lemma Negate(x: real, a: real, b: real)
    requires b == -a
    ensures x * b == -(x * a)
  {}

  /** With centre registration, starting from the other edge gives the same cells in reverse. */
  lemma OppositeOriginReverses(start: real, end: real, n: int, i: int)
    requires 0 <= i < n
    ensures Coordinate(start, end, n, CENTER, i) == Coordinate(end, start, n, CENTER, n - 1 - i)
  {
    assert (n - 1 - i) as real + 0.5 == n as real - (i as real + 0.5);
    Mirror(start, end, n as real, i as real + 0.5);
  }

  lemma Mirror(start: real, end: real, n: real, x: real)
    requires n > 0.0
    ensures x * ((end - start) / n) + start == (n - x) * ((start - end) / n) + end
  {
    var step := (end - start) / n;
    OppositeStep(end - start, n);
    assert start - end == -(end - start);
    Negate(n - x, step, (start - end) / n);
    assert (n - x) * step == n * step - x * step;
  }

  function Flipped(g: Grid, axis: Axis): Grid {
    match (axis, g.origin)
    case (CV_LAT_MISS, UpperLeft) => g.(origin := LowerLeft)
    case (CV_LAT_MISS, LowerLeft) => g.(origin := UpperLeft)
    case (CV_LAT_MISS, UpperRight) => g.(origin := LowerRight)
    case (CV_LAT_MISS, LowerRight) => g.(origin := UpperRight)
    case (CV_LON_MISS, UpperLeft) => g.(origin := UpperRight)
    case (CV_LON_MISS, UpperRight) => g.(origin := UpperLeft)
    case (CV_LON_MISS, LowerLeft) => g.(origin := LowerRight)
    case (CV_LON_MISS, LowerRight) => g.(origin := LowerLeft)
  }

  /** An upper origin lists the latitudes of a lower one backwards, and left the longitudes of right. */
  lemma FlippedAxisReverses(g: Grid, axis: Axis, i: int)
    requires 0 <= i < Cells(g, axis)
    ensures Cells(Flipped(g, axis), axis) == Cells(g, axis)
    ensures Coordinates(g, axis, CENTER)[i] == Coordinates(Flipped(g, axis), axis, CENTER)[Cells(g, axis) - 1 - i]
  {
    hide Coordinate;
    assert StartEdge(Flipped(g, axis), axis) == EndEdge(g, axis);
    assert EndEdge(Flipped(g, axis), axis) == StartEdge(g, axis);
    OppositeOriginReverses(StartEdge(g, axis), EndEdge(g, axis), Cells(g, axis), i);
  }
}
