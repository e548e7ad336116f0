/**
HDF5Array: turning a DAP constraint into a hyperslab, and reading it.
A file holds its elements in row-major order, so a dataset of sizes `dims` is a
sequence of Product(dims) elements.
*/
module Hyperslab {
  import opened Outcome
  import opened MixedRadix

  /** The constraint on one dimension, [start:stride:stop], as the client sent it. */
  datatype Slice = Slice(start: int, stride: int, stop: int) {
    predicate Malformed() {
      stride <= 0 || start < 0 || stop < 0 || start > stop
    }

    function Count(): nat
      requires !Malformed()
    {
      (stop - start) / stride + 1
    }
  }

  ghost predicate WellFormed(slices: seq<Slice>) {
    forall i :: 0 <= i < |slices| ==> !slices[i].Malformed()
  }

  function Starts(slices: seq<Slice>): (starts: seq<nat>)
    requires WellFormed(slices)
    ensures |starts| == |slices|
  {
    seq(|slices|, i requires 0 <= i < |slices| => slices[i].start)
  }

  function Strides(slices: seq<Slice>): (strides: seq<nat>)
    requires WellFormed(slices)
    ensures |strides| == |slices|
  {
    seq(|slices|, i requires 0 <= i < |slices| => slices[i].stride)
  }

  function Counts(slices: seq<Slice>): (counts: seq<nat>)
    requires WellFormed(slices)
    ensures |counts| == |slices| && AllPositive(counts)
  {
    seq(|slices|, i requires 0 <= i < |slices| => CountPositive(slices[i]); slices[i].Count())
  }

  /** Count() is exactly how many of start, start + stride, ... do not pass stop. */
  lemma CountIsExact(s: Slice, k: nat)
    requires !s.Malformed()
    ensures k < s.Count() <==> s.start + k * s.stride <= s.stop
  {
    var span := s.stop - s.start;
    DivMod(span, s.stride);
    if k < s.Count() {
      MulLe(s.stride, k, span / s.stride);
    } else {
      MulLe(s.stride, span / s.stride + 1, k);
      assert s.stride * (span / s.stride + 1) == s.stride * (span / s.stride) + s.stride;
    }
  }

  lemma CountPositive(s: Slice)
    requires !s.Malformed()
    ensures s.Count() > 0
  {}

  /** HDF5Array::format_constraint: fills the three buffers, returns the number of values. */
  method FormatConstraint(slices: seq<Slice>, offset: array<nat>, step: array<nat>, count: array<nat>)
    returns (nelms: Result<nat>)
    requires offset.Length == step.Length == count.Length == |slices|
    requires offset != step && offset != count && step != count
    modifies offset, step, count
    ensures nelms.Ok? <==> WellFormed(slices)
    ensures nelms.Ok? ==> nelms.value == Product(Counts(slices))
    ensures nelms.Ok? ==> offset[..] == Starts(slices) && step[..] == Strides(slices) && count[..] == Counts(slices)
    ensures nelms.Ok? <==> forall i :: 0 <= i < |slices| ==>
      slices[i].stride > 0 && 0 <= slices[i].start <= slices[i].stop
    ensures nelms.Ok? ==> forall i :: 0 <= i < |slices| ==>
      offset[i] == slices[i].start && step[i] == slices[i].stride && count[i] == slices[i].Count()
  {
    var nels: nat := 1;
    var id := 0;
    while id < |slices|
      invariant 0 <= id <= |slices|
      invariant WellFormed(slices[..id])
      invariant forall j :: 0 <= j < id ==>
        offset[j] == slices[j].start && step[j] == slices[j].stride && count[j] == slices[j].Count()
      invariant nels == Product(Counts(slices[..id]))
    {
      var s := slices[id];
      if s.stride <= 0 || s.start < 0 || s.stop < 0 || s.start > s.stop {
        return Thrown("Array/Grid hyperslab indices are bad");
      }
      CountPositive(s);
      offset[id] := s.start;
      step[id] := s.stride;
      count[id] := (s.stop - s.start) / s.stride + 1;
      CountsSnoc(slices, id);
      nels := nels * count[id];
      id := id + 1;
    }
    assert slices[..id] == slices;
    return Ok(nels);
  }

  lemma CountsSnoc(slices: seq<Slice>, id: nat)
    requires id < |slices| && WellFormed(slices[..id]) && !slices[id].Malformed()
    ensures WellFormed(slices[..id + 1])
    ensures Product(Counts(slices[..id + 1])) == Product(Counts(slices[..id])) * slices[id].Count()
  {
    assert slices[..id + 1] == slices[..id] + [slices[id]];
    CountPositive(slices[id]);
    ProductSnoc(Counts(slices[..id]), slices[id].Count());
    assert Counts(slices[..id + 1]) == Counts(slices[..id]) + [slices[id].Count()];
  }

  lemma {:induction false} ProductSnoc(radix: seq<nat>, last: nat)
    ensures Product(radix + [last]) == Product(radix) * last
  {
    if radix == [] {
      assert [last][1..] == [];
    } else {
      assert (radix + [last])[1..] == radix[1..] + [last];
      ProductSnoc(radix[1..], last);
      MulAssociative(radix[0], Product(radix[1..]), last);
    }
  }

  lemma MulAssociative(a: nat, b: nat, c: nat)
    ensures a * (b * c) == (a * b) * c
  {}

  // ----- the selected points

  /** The point of the array that the hyperslab coordinates `digits` stand for. */
  function PointAt(start: seq<nat>, stride: seq<nat>, digits: seq<nat>): (point: seq<nat>)
    requires |start| == |stride| == |digits|
    ensures |point| == |digits|
  {
    seq(|digits|, i requires 0 <= i < |digits| => start[i] + digits[i] * stride[i])
  }

  /** Every selected coordinate lies inside its dimension. */
  ghost predicate Fits(start: seq<nat>, stride: seq<nat>, count: seq<nat>, dims: seq<nat>) {
    && |start| == |stride| == |count| == |dims|
    && AllPositive(count)
    && forall i :: 0 <= i < |dims| ==> stride[i] > 0 && start[i] + (count[i] - 1) * stride[i] < dims[i]
  }

  /** The k-th index that linearize_multi_dimensions writes: odometer order. */
  function PickAt(k: nat, start: seq<nat>, stride: seq<nat>, count: seq<nat>, dims: seq<nat>): nat
    requires |start| == |stride| == |count| == |dims| && AllPositive(count)
  {
    RowMajorIndex(PointAt(start, stride, OdometerDigits(k, count)), dims)
  }

  /** The k-th index of an HDF5 hyperslab selection: row-major order. */
  function SlabAt(k: nat, start: seq<nat>, stride: seq<nat>, count: seq<nat>, dims: seq<nat>): nat
    requires |start| == |stride| == |count| == |dims| && AllPositive(count) && k < Product(count)
  {
    RowMajorIndex(PointAt(start, stride, RowMajorDigits(k, count)), dims)
  }

  lemma PointFits(start: seq<nat>, stride: seq<nat>, count: seq<nat>, dims: seq<nat>, digits: seq<nat>)
    requires Fits(start, stride, count, dims) && InBox(digits, count)
    ensures InBox(PointAt(start, stride, digits), dims)
  {}

  lemma PointInjective(start: seq<nat>, stride: seq<nat>, d: seq<nat>, e: seq<nat>)
    requires |start| == |stride| == |d| == |e|
    requires forall i :: 0 <= i < |stride| ==> stride[i] > 0
    requires PointAt(start, stride, d) == PointAt(start, stride, e)
    ensures d == e
  {
    forall i | 0 <= i < |d| ensures d[i] == e[i] {
      assert PointAt(start, stride, d)[i] == PointAt(start, stride, e)[i];
      MulCancel(stride[i], d[i], e[i]);
    }
  }

  lemma MulCancel(r: nat, a: nat, b: nat)
    requires r > 0 && a * r == b * r
    ensures a == b
  {}

  lemma PointIs(start: seq<nat>, stride: seq<nat>, d: seq<nat>, p: seq<nat>)
    requires |start| == |stride| == |d| == |p|
    requires forall i :: 0 <= i < |p| ==> p[i] == start[i] + d[i] * stride[i]
    ensures PointAt(start, stride, d) == p
  {}

  /** The point with coordinates d is picked once, at the step that the odometer spells as d. */
  lemma PickOfPoint(start: seq<nat>, stride: seq<nat>, count: seq<nat>, dims: seq<nat>, d: seq<nat>, p: seq<nat>)
    requires |start| == |stride| == |count| == |dims| == |d| == |p|
    requires forall i :: 0 <= i < |dims| ==> d[i] < count[i] && p[i] == start[i] + d[i] * stride[i]
    ensures AllPositive(count) && OdometerValue(d, count) < Product(count)
    ensures PickAt(OdometerValue(d, count), start, stride, count, dims) == RowMajorIndex(p, dims)
  {
    hide OdometerValue, OdometerDigits, Product, RowMajorIndex, PointAt;
    assert InBox(d, count);
    OdometerDigitsOfValue(d, count);
    PointIs(start, stride, d, p);
  }

  /** In a hyperslab it comes in the row-major order of the coordinates. */
  lemma SlabOfPoint(start: seq<nat>, stride: seq<nat>, count: seq<nat>, dims: seq<nat>, d: seq<nat>, p: seq<nat>)
    requires |start| == |stride| == |count| == |dims| == |d| == |p|
    requires forall i :: 0 <= i < |dims| ==> d[i] < count[i] && p[i] == start[i] + d[i] * stride[i]
    ensures AllPositive(count) && RowMajorIndex(d, count) < Product(count)
    ensures SlabAt(RowMajorIndex(d, count), start, stride, count, dims) == RowMajorIndex(p, dims)
  {
    hide RowMajorDigits, Product, RowMajorIndex, PointAt;
    assert InBox(d, count);
    RowMajorDigitsOfIndex(d, count);
    PointIs(start, stride, d, p);
  }

  // ----- linearize_multi_dimensions

  /** The inner loop: the linear index of the point the counters (from 1) describe. */
  method LinearIndex(dims: seq<nat>, start: array<nat>, stride: array<nat>, tempCount: array<nat>,
      ghost digits: seq<nat>)
    returns (arrayIndex: nat)
    requires start.Length == stride.Length == tempCount.Length == |dims| == |digits|
    requires forall i :: 0 <= i < |dims| ==> tempCount[i] == digits[i] + 1
    ensures arrayIndex == RowMajorIndex(PointAt(start[..], stride[..], digits), dims)
    ensures forall p: seq<nat> ::
      |p| == |dims| && (forall i :: 0 <= i < |dims| ==> p[i] == start[i] + (tempCount[i] - 1) * stride[i]) ==>
      arrayIndex == RowMajorIndex(p, dims)
  {
    var n := |dims|;
    ghost var p := PointAt(start[..], stride[..], digits);
    arrayIndex := 0;
    var tempDim: nat := 1;
    var t := 0;
    while t < n
      invariant 0 <= t <= n
      invariant tempDim == Product(dims[n - t..])
      invariant arrayIndex == RowMajorIndex(p[n - t..], dims[n - t..])
    {
      var j := n - 1 - t;
      var tempIndex := (start[j] + (tempCount[j] - 1) * stride[j]) * tempDim;
      assert tempIndex == p[j] * tempDim;
      arrayIndex := arrayIndex + tempIndex;
      tempDim := tempDim * dims[j];
      assert dims[j..][1..] == dims[j + 1..] && p[j..][1..] == p[j + 1..];
      t := t + 1;
    }
    assert dims[0..] == dims && p[0..] == p;
    forall q: seq<nat> |
      |q| == |dims| && forall i :: 0 <= i < |dims| ==> q[i] == start[i] + (tempCount[i] - 1) * stride[i]
      ensures q == p
    {
    }
  }

  /** The carry loop: advances the counters by one element. */
  method Advance(tempCount: array<nat>, count: array<nat>, ghost digits: seq<nat>)
    requires tempCount != count && tempCount.Length == count.Length == |digits|
    requires InBox(digits, count[..])
    requires forall i :: 0 <= i < |digits| ==> tempCount[i] == digits[i] + 1
    modifies tempCount
    ensures forall i :: 0 <= i < |digits| ==> tempCount[i] == Tick(digits, count[..])[i] + 1
  {
    ghost var stop := |digits|;
    var i := 0;
    while i < count.Length
      invariant 0 <= i <= count.Length
      invariant forall j :: 0 <= j < i ==> tempCount[j] == 1 && digits[j] + 1 == count[j]
      invariant forall j :: i <= j < |digits| ==> tempCount[j] == digits[j] + 1
      invariant stop == |digits|
    {
      if tempCount[i] < count[i] {
        tempCount[i] := tempCount[i] + 1;
        stop := i;
        break;
      } else {
        assert digits[i] < count[..][i];
        tempCount[i] := 1;
      }
      i := i + 1;
    }
    TickCarries(digits, count[..], stop);
  }

  /** The two loops that multiply up the sizes. */
  method TotalSize(sizes: seq<nat>) returns (total: nat)
    ensures total == Product(sizes)
  {
    total := 1;
    for id := 0 to |sizes|
      invariant total == Product(sizes[..id])
    {
      ProductSnoc(sizes[..id], sizes[id]);
      assert sizes[..id + 1] == sizes[..id] + [sizes[id]];
      total := total * sizes[id];
    }
    assert sizes[..|sizes|] == sizes;
  }

  /**
  Fills picks with the linear index of every selected point: the one with coordinates d
  at the step that the odometer spells as d.
  */
  method LinearizeMultiDimensions(dims: seq<nat>, start: array<nat>, stride: array<nat>, count: array<nat>,
      picks: array<nat>)
    returns (total: nat)
    requires start.Length == stride.Length == count.Length == |dims|
    requires picks != start && picks != stride && picks != count
    requires AllPositive(count[..]) && picks.Length == Product(count[..])
    modifies picks
    ensures total == Product(dims)
    ensures forall k :: 0 <= k < picks.Length ==> picks[k] == PickAt(k, start[..], stride[..], count[..], dims)
    ensures forall d: seq<nat>, p: seq<nat> {:trigger OdometerValue(d, count[..]), RowMajorIndex(p, dims)} ::
      |d| == |p| == |dims| &&
      (forall i :: 0 <= i < |dims| ==> d[i] < count[i] && p[i] == start[i] + d[i] * stride[i]) ==>
      OdometerValue(d, count[..]) < picks.Length && picks[OdometerValue(d, count[..])] == RowMajorIndex(p, dims)
    ensures Fits(start[..], stride[..], count[..], dims) ==>
      forall j, k :: 0 <= j < k < picks.Length ==> picks[j] != picks[k]
  {
    hide PickAt, RowMajorIndex, OdometerValue, Product, Fits;
    total := TotalSize(dims);
    var totalEle := TotalSize(count[..]);
    WritePicks(dims, start, stride, count, picks, totalEle);
    PicksArePoints(start[..], stride[..], count[..], dims, picks[..]);
    forall d: seq<nat>, p: seq<nat> |
      |d| == |p| == |dims| &&
      forall i :: 0 <= i < |dims| ==> d[i] < count[i] && p[i] == start[i] + d[i] * stride[i]
      ensures OdometerValue(d, count[..]) < picks.Length
      ensures picks[OdometerValue(d, count[..])] == RowMajorIndex(p, dims)
    {
      PickOfPoint(start[..], stride[..], count[..], dims, d, p);
    }
  }

  /** The loop over the selected elements. */
  method WritePicks(dims: seq<nat>, start: array<nat>, stride: array<nat>, count: array<nat>, picks: array<nat>,
      totalEle: nat)
    requires start.Length == stride.Length == count.Length == |dims|
    requires picks != start && picks != stride && picks != count
    requires AllPositive(count[..]) && picks.Length == totalEle == Product(count[..])
    modifies picks
    ensures forall k :: 0 <= k < picks.Length ==> picks[k] == PickAt(k, start[..], stride[..], count[..], dims)
  {
    hide PointAt, RowMajorIndex, OdometerDigits, Tick, Product;
    var tempCount := new nat[|dims|](_ => 1);
    ghost var radix := count[..];
    ghost var digits := OdometerDigits(0, radix);
    OdometerStartsAtZero(radix);
    var soFar: nat := 0;
    while soFar < totalEle
      invariant soFar <= totalEle
      invariant InBox(digits, radix)
      invariant soFar < totalEle ==> digits == OdometerDigits(soFar, radix)
      invariant forall i :: 0 <= i < |dims| ==> tempCount[i] == digits[i] + 1
      invariant forall k :: 0 <= k < soFar ==> picks[k] == PickAt(k, start[..], stride[..], radix, dims)
    {
      var arrayIndex := LinearIndex(dims, start, stride, tempCount, digits);
      picks[soFar] := arrayIndex;
      Advance(tempCount, count, digits);
      TickInBox(digits, radix);
      if soFar + 1 < totalEle {
        TickIsSuccessor(soFar, radix);
      }
      digits := Tick(digits, radix);
      soFar := soFar + 1;
    }
  }

  /** Every selected point is picked at its step, and nothing twice. */
  lemma PicksArePoints(start: seq<nat>, stride: seq<nat>, count: seq<nat>, dims: seq<nat>, picks: seq<nat>)
    requires |start| == |stride| == |count| == |dims| && AllPositive(count) && |picks| == Product(count)
    requires forall k :: 0 <= k < |picks| ==> picks[k] == PickAt(k, start, stride, count, dims)
    ensures forall d: seq<nat>, p: seq<nat> {:trigger OdometerValue(d, count), RowMajorIndex(p, dims)} ::
      |d| == |p| == |dims| &&
      (forall i :: 0 <= i < |dims| ==> d[i] < count[i] && p[i] == start[i] + d[i] * stride[i]) ==>
      OdometerValue(d, count) < |picks| && picks[OdometerValue(d, count)] == RowMajorIndex(p, dims)
    ensures Fits(start, stride, count, dims) ==> forall j, k :: 0 <= j < k < |picks| ==> picks[j] != picks[k]
  {
    hide PickAt, OdometerValue, Product, RowMajorIndex;
    forall d: seq<nat>, p: seq<nat> |
      |d| == |p| == |dims| &&
      forall i :: 0 <= i < |dims| ==> d[i] < count[i] && p[i] == start[i] + d[i] * stride[i]
      ensures OdometerValue(d, count) < |picks| && picks[OdometerValue(d, count)] == RowMajorIndex(p, dims)
    {
      PickOfPoint(start, stride, count, dims, d, p);
    }
    if Fits(start, stride, count, dims) {
      PicksBijection(start, stride, count, dims);
    }
  }

  lemma {:induction false} OdometerStartsAtZero(radix: seq<nat>)
    requires AllPositive(radix)
    ensures forall i :: 0 <= i < |radix| ==> OdometerDigits(0, radix)[i] == 0
  {
    if radix != [] {
      OdometerStartsAtZero(radix[1..]);
    }
  }

  lemma {:induction false} TickInBox(digits: seq<nat>, radix: seq<nat>)
    requires InBox(digits, radix)
    ensures InBox(Tick(digits, radix), radix)
  {
    if digits != [] {
      assert digits[0] < radix[0];
      TickInBox(digits[1..], radix[1..]);
    }
  }

  /** The picks are a bijection onto the selected points, all inside [0, total). */
  lemma PicksBijection(start: seq<nat>, stride: seq<nat>, count: seq<nat>, dims: seq<nat>)
    requires Fits(start, stride, count, dims)
    ensures forall k :: 0 <= k < Product(count) ==> PickAt(k, start, stride, count, dims) < Product(dims)
    ensures forall j, k :: 0 <= j < k < Product(count) ==>
      PickAt(j, start, stride, count, dims) != PickAt(k, start, stride, count, dims)
    ensures forall digits :: InBox(digits, count) ==>
      && OdometerValue(digits, count) < Product(count)
      && PickAt(OdometerValue(digits, count), start, stride, count, dims)
         == RowMajorIndex(PointAt(start, stride, digits), dims)
  {
    PicksInRange(start, stride, count, dims);
    forall j: nat, k: nat | j < k < Product(count)
      ensures PickAt(j, start, stride, count, dims) != PickAt(k, start, stride, count, dims)
    {
      PicksDistinct(start, stride, count, dims, j, k);
    }
    forall digits | InBox(digits, count)
      ensures OdometerValue(digits, count) < Product(count)
      ensures OdometerDigits(OdometerValue(digits, count), count) == digits
    {
      OdometerDigitsOfValue(digits, count);
    }
  }

  lemma PicksInRange(start: seq<nat>, stride: seq<nat>, count: seq<nat>, dims: seq<nat>)
    requires Fits(start, stride, count, dims)
    ensures forall k :: 0 <= k < Product(count) ==> PickAt(k, start, stride, count, dims) < Product(dims)
  {
    forall k: nat | k < Product(count) ensures PickAt(k, start, stride, count, dims) < Product(dims) {
      PointFits(start, stride, count, dims, OdometerDigits(k, count));
      RowMajorDigitsOfIndex(PointAt(start, stride, OdometerDigits(k, count)), dims);
    }
  }

  lemma PicksDistinct(start: seq<nat>, stride: seq<nat>, count: seq<nat>, dims: seq<nat>, j: nat, k: nat)
    requires Fits(start, stride, count, dims) && j < k < Product(count)
    ensures PickAt(j, start, stride, count, dims) != PickAt(k, start, stride, count, dims)
  {
    var d, e := OdometerDigits(j, count), OdometerDigits(k, count);
    var p, q := PointAt(start, stride, d), PointAt(start, stride, e);
    if RowMajorIndex(p, dims) == RowMajorIndex(q, dims) {
      PointFits(start, stride, count, dims, d);
      PointFits(start, stride, count, dims, e);
      RowMajorDigitsOfIndex(p, dims);
      RowMajorDigitsOfIndex(q, dims);
      PointInjective(start, stride, d, e);
      OdometerValueOfDigits(j, count);
      OdometerValueOfDigits(k, count);
      assert false;
    }
  }

  // ----- in which order the picks come

  /** At most one dimension of the selection holds more than one element. */
  ghost predicate AtMostOneLong(count: seq<nat>) {
    forall i, j :: 0 <= i < j < |count| ==> count[i] <= 1 || count[j] <= 1
  }

  /**
  The elements of an array of structures are placed in pick order; a DAP array is
  row-major. The two agree exactly when at most one dimension is longer than one.
  */
  lemma PicksRowMajorExactly(start: seq<nat>, stride: seq<nat>, count: seq<nat>, dims: seq<nat>)
    requires Fits(start, stride, count, dims)
    ensures (forall k :: 0 <= k < Product(count) ==>
              PickAt(k, start, stride, count, dims) == SlabAt(k, start, stride, count, dims))
            <==> AtMostOneLong(count)
  {
    if AtMostOneLong(count) {
      forall k: nat | k < Product(count)
        ensures PickAt(k, start, stride, count, dims) == SlabAt(k, start, stride, count, dims)
      {
        OrdersAgree(k, count);
      }
    } else {
      var k := OrdersDiffer(count);
      var d, e := OdometerDigits(k, count), RowMajorDigits(k, count);
      var p, q := PointAt(start, stride, d), PointAt(start, stride, e);
      if RowMajorIndex(p, dims) == RowMajorIndex(q, dims) {
        PointFits(start, stride, count, dims, d);
        PointFits(start, stride, count, dims, e);
        RowMajorDigitsOfIndex(p, dims);
        RowMajorDigitsOfIndex(q, dims);
        PointInjective(start, stride, d, e);
        assert false;
      }
      assert PickAt(k, start, stride, count, dims) != SlabAt(k, start, stride, count, dims);
    }
  }

  ghost predicate AllOnes(count: seq<nat>) {
    forall i :: 0 <= i < |count| ==> count[i] == 1
  }

  lemma {:induction false} ProductOfOnes(count: seq<nat>)
    requires AllOnes(count)
    ensures Product(count) == 1
  {
    if count != [] {
      ProductOfOnes(count[1..]);
    }
  }

  lemma UnitHead(k: nat, count: seq<nat>)
    requires AllPositive(count) && count != [] && count[0] == 1 && k < Product(count)
    ensures k < Product(count[1..])
    ensures OdometerDigits(k, count) == [0] + OdometerDigits(k, count[1..])
    ensures RowMajorDigits(k, count) == [0] + RowMajorDigits(k, count[1..])
  {
    QuotientRemainder(1, k, 0);
    ProductPositive(count[1..]);
    QuotientRemainder(Product(count[1..]), 0, k);
  }

  lemma LastLong(k: nat, count: seq<nat>)
    requires AllPositive(count) && count != [] && AllOnes(count[1..]) && k < Product(count)
    ensures Product(count[1..]) == 1
    ensures OdometerDigits(k, count) == [k] + OdometerDigits(0, count[1..])
    ensures RowMajorDigits(k, count) == [k] + RowMajorDigits(0, count[1..])
  {
    ProductOfOnes(count[1..]);
    assert k < count[0];
    DivSmall(k, count[0]);
    DivOne(k);
  }

  lemma DivSmall(k: nat, r: nat)
    requires k < r
    ensures k / r == 0 && k % r == k
  {}

  lemma DivOne(k: nat)
    ensures k / 1 == k && k % 1 == 0
  {}

  lemma {:induction false} OrdersAgree(k: nat, count: seq<nat>)
    requires AllPositive(count) && AtMostOneLong(count) && k < Product(count)
    ensures OdometerDigits(k, count) == RowMajorDigits(k, count)
    decreases count
  {
    if count != [] {
      if count[0] == 1 {
        UnitHead(k, count);
        OrdersAgree(k, count[1..]);
      } else {
        LastLong(k, count);
        OrdersAgree(0, count[1..]);
      }
    }
  }

  lemma TailOfUnitHead(count: seq<nat>)
    requires AllPositive(count) && !AtMostOneLong(count) && count[0] == 1
    ensures AllPositive(count[1..]) && !AtMostOneLong(count[1..])
    ensures Product(count) == Product(count[1..])
  {}

  lemma ConsDiffers<T>(x: T, s: seq<T>, t: seq<T>)
    requires s != t
    ensures [x] + s != [x] + t
  {
    assert ([x] + s)[1..] == s && ([x] + t)[1..] == t;
  }

  // The first long dimension turns at k == 1 on the odometer, but not in row-major order.
  lemma {:induction false} OrdersDiffer(count: seq<nat>) returns (k: nat)
    requires AllPositive(count) && !AtMostOneLong(count)
    ensures k < Product(count) && OdometerDigits(k, count) != RowMajorDigits(k, count)
    decreases count
  {
    hide OdometerDigits, RowMajorDigits, Product;
    var rest := count[1..];
    if count[0] == 1 {
      TailOfUnitHead(count);
      k := OrdersDiffer(rest);
      UnitHead(k, count);
      ConsDiffers(0, OdometerDigits(k, rest), RowMajorDigits(k, rest));
    } else {
      k := 1;
      var j :| 0 <= j < |rest| && rest[j] > 1;
      LongerThanOne(rest, j);
      FirstTurn(count);
    }
  }

  lemma FirstTurn(count: seq<nat>)
    requires AllPositive(count) && count != [] && count[0] > 1 && Product(count[1..]) > 1
    ensures 1 < Product(count)
    ensures OdometerDigits(1, count)[0] == 1 && RowMajorDigits(1, count)[0] == 0
  {
    MulMonotone(1, count[0], 2, Product(count[1..]));
    QuotientRemainder(count[0], 0, 1);
    QuotientRemainder(Product(count[1..]), 0, 1);
  }

  lemma {:induction false} LongerThanOne(count: seq<nat>, j: nat)
    requires AllPositive(count) && j < |count| && count[j] > 1
    ensures Product(count) > 1
  {
    ProductPositive(count[1..]);
    if j == 0 {
      MulMonotone(2, count[0], 1, Product(count[1..]));
    } else {
      LongerThanOne(count[1..], j - 1);
      MulMonotone(1, count[0], 2, Product(count[1..]));
    }
  }

  // ----- HDF5Array::read

  /** What the HDF5 library returns for a hyperslab selection of a dataset. */
  function SlabRead<T>(data: seq<T>, start: seq<nat>, stride: seq<nat>, count: seq<nat>, dims: seq<nat>): (r: seq<T>)
    requires Fits(start, stride, count, dims) && |data| == Product(dims)
    ensures |r| == Product(count)
  {
    seq(Product(count), k requires 0 <= k < Product(count) =>
      PointFits(start, stride, count, dims, RowMajorDigits(k, count));
      RowMajorDigitsOfIndex(PointAt(start, stride, RowMajorDigits(k, count)), dims);
      data[SlabAt(k, start, stride, count, dims)])
  }

  /** libdap has checked every constraint against the size of its dimension. */
  ghost predicate InBounds(slices: seq<Slice>, dims: seq<nat>) {
    |slices| == |dims| && forall i :: 0 <= i < |dims| ==> slices[i].stop < dims[i]
  }

  lemma SlicesFit(slices: seq<Slice>, dims: seq<nat>)
    requires WellFormed(slices) && InBounds(slices, dims)
    ensures Fits(Starts(slices), Strides(slices), Counts(slices), dims)
  {}

  /** The point p with coordinates d in the selection: no dimension passes stop. */
  ghost predicate Selects(slices: seq<Slice>, d: seq<nat>, p: seq<nat>) {
    && |d| == |p| == |slices|
    && forall i :: 0 <= i < |slices| ==> p[i] == slices[i].start + d[i] * slices[i].stride <= slices[i].stop
  }

  /** A point of the constraint: where it is in a hyperslab, and at which step it is picked. */
  lemma PointOfSlices(slices: seq<Slice>, dims: seq<nat>, d: seq<nat>, p: seq<nat>)
    requires WellFormed(slices) && InBounds(slices, dims) && Selects(slices, d, p)
    ensures RowMajorIndex(p, dims) < Product(dims)
    ensures RowMajorIndex(d, Counts(slices)) < Product(Counts(slices))
    ensures SlabAt(RowMajorIndex(d, Counts(slices)), Starts(slices), Strides(slices), Counts(slices), dims)
            == RowMajorIndex(p, dims)
    ensures OdometerValue(d, Counts(slices)) < Product(Counts(slices))
    ensures PickAt(OdometerValue(d, Counts(slices)), Starts(slices), Strides(slices), Counts(slices), dims)
            == RowMajorIndex(p, dims)
  {
    hide Product, RowMajorIndex, OdometerValue, SlabAt, PickAt;
    forall i | 0 <= i < |dims| ensures d[i] < Counts(slices)[i] {
      CountIsExact(slices[i], d[i]);
    }
    assert InBox(p, dims);
    RowMajorDigitsOfIndex(p, dims);
    SlabOfPoint(Starts(slices), Strides(slices), Counts(slices), dims, d, p);
    PickOfPoint(Starts(slices), Strides(slices), Counts(slices), dims, d, p);
  }

  /** Every dimension starts at 0 and has its full count, without gaps. */
  ghost predicate SelectsAll(start: seq<nat>, stride: seq<nat>, count: seq<nat>, dims: seq<nat>)
    requires |start| == |stride| == |count| == |dims|
  {
    forall i :: 0 <= i < |dims| ==> start[i] == 0 && count[i] == dims[i] && (dims[i] > 1 ==> stride[i] == 1)
  }

  /** A selection as large as the array selects every element, in place. */
  lemma FullSelection(start: seq<nat>, stride: seq<nat>, count: seq<nat>, dims: seq<nat>)
    requires Fits(start, stride, count, dims)
    ensures Product(count) == Product(dims) <==> SelectsAll(start, stride, count, dims)
  {
    forall i | 0 <= i < |dims| ensures count[i] <= dims[i] {
      MulLe(count[i] - 1, 1, stride[i]);
    }
    if Product(count) == Product(dims) {
      ProductMonotone(count, dims);
      forall i | 0 <= i < |dims|
        ensures start[i] == 0 && (dims[i] > 1 ==> stride[i] == 1)
      {
        MulLe(count[i] - 1, 1, stride[i]);
        if stride[i] > 1 {
          MulLe(count[i] - 1, 2, stride[i]);
        }
      }
    } else {
      assert count != dims;
    }
  }

  lemma FullSlabIsIdentity(start: seq<nat>, stride: seq<nat>, count: seq<nat>, dims: seq<nat>, k: nat)
    requires Fits(start, stride, count, dims) && Product(count) == Product(dims) && k < Product(count)
    ensures SlabAt(k, start, stride, count, dims) == k
  {
    FullSelection(start, stride, count, dims);
    assert count == dims;
    var d := RowMajorDigits(k, count);
    forall i | 0 <= i < |dims| ensures start[i] + d[i] * stride[i] == d[i] {
      assert d[i] < dims[i];
      if dims[i] == 1 {
        assert d[i] == 0;
      }
    }
    assert PointAt(start, stride, d) == d;
    RowMajorIndexOfDigits(k, count);
  }

  /** The numeric branch of HDF5Array::read, with its short cut for the whole dataset. */
  method Read<T>(data: seq<T>, dims: seq<nat>, slices: seq<Slice>) returns (r: Result<seq<T>>)
    requires |data| == Product(dims) && InBounds(slices, dims)
    ensures r.Ok? <==> WellFormed(slices)
    ensures r.Ok? ==>
      && Fits(Starts(slices), Strides(slices), Counts(slices), dims)
      && r.value == SlabRead(data, Starts(slices), Strides(slices), Counts(slices), dims)
    ensures r.Ok? ==> forall d, p :: Selects(slices, d, p) ==>
      RowMajorIndex(d, Counts(slices)) < |r.value| && RowMajorIndex(p, dims) < |data|
      && r.value[RowMajorIndex(d, Counts(slices))] == data[RowMajorIndex(p, dims)]
  {
    hide Product, RowMajorIndex, SlabAt, RowMajorDigits, SlabRead, Fits;
    var n := |dims|;
    var offset, count, step := new nat[n], new nat[n], new nat[n];
    var nelms := FormatConstraint(slices, offset, step, count);
    if nelms.Thrown? {
      return Thrown(nelms.message);
    }
    SlicesFit(slices, dims);
    ghost var slab := SlabRead(data, Starts(slices), Strides(slices), Counts(slices), dims);
    forall d, p | Selects(slices, d, p)
      ensures RowMajorIndex(d, Counts(slices)) < |slab| && RowMajorIndex(p, dims) < |data|
      ensures slab[RowMajorIndex(d, Counts(slices))] == data[RowMajorIndex(p, dims)]
    {
      SlabElement(data, dims, slices, d, p);
    }
    if nelms.value == |data| {
      WholeSlab(data, offset[..], step[..], count[..], dims);
      return Ok(data);
    }
    return Ok(SlabRead(data, offset[..], step[..], count[..], dims));
  }

  lemma SlabElement<T>(data: seq<T>, dims: seq<nat>, slices: seq<Slice>, d: seq<nat>, p: seq<nat>)
    requires |data| == Product(dims) && InBounds(slices, dims) && WellFormed(slices)
    requires Fits(Starts(slices), Strides(slices), Counts(slices), dims) && Selects(slices, d, p)
    ensures var slab := SlabRead(data, Starts(slices), Strides(slices), Counts(slices), dims);
            RowMajorIndex(d, Counts(slices)) < |slab| && RowMajorIndex(p, dims) < |data|
            && slab[RowMajorIndex(d, Counts(slices))] == data[RowMajorIndex(p, dims)]
  {
    hide Product, RowMajorIndex, SlabAt, RowMajorDigits, PointAt;
    PointOfSlices(slices, dims, d, p);
  }

  // ----- signed bytes, which DAP has to hold in 16 bits

  /** get_dap_type for the integer types; signed bytes are given the name of 16-bit integers. */
  function DapType(size: nat, signed: bool): string {
    if size == 1 then (if signed then "Int16" else "Byte")
    else if size == 2 then (if signed then "Int16" else "UInt16")
    else if size == 4 then (if signed then "Int32" else "UInt32")
    else "Int_else"
  }

  /** The value of a byte that is read as a signed one. */
  function SignedByte(b: nat): int {
    if b < 128 then b else b - 256
  }

  function SignedBytes(bytes: seq<nat>): seq<int> {
    seq(|bytes|, i requires 0 <= i < |bytes| => SignedByte(bytes[i]))
  }

  /** What is handed on: 16-bit integers, or the elements as they were read. */
  datatype Interned = Widened(values: seq<int>) | AsRead(elements: seq<nat>)

  function Meant(size: nat, signed: bool, elements: seq<nat>): Interned {
    if size == 1 && signed then Widened(SignedBytes(elements)) else AsRead(elements)
  }

  /** The loops that convert signed bytes. */
  method Widen(bytes: seq<nat>) returns (values: seq<int>)
    ensures values == SignedBytes(bytes)
  {
    values := [];
    for i := 0 to |bytes|
      invariant values == SignedBytes(bytes[..i])
    {
      values := values + [SignedByte(bytes[i])];
    }
    assert bytes[..|bytes|] == bytes;
  }

  /**
  The same branch for an integer type. The whole-dataset read looks at size and sign of
  the type, the hyperslab read at a type name that get_dap_type never gives: so signed
  bytes are handed on as 16-bit integers exactly when the selection is the whole array.
  */
  method ReadInteger(size: nat, signed: bool, data: seq<nat>, dims: seq<nat>, slices: seq<Slice>)
    returns (r: Result<Interned>)
    requires |data| == Product(dims) && InBounds(slices, dims)
    ensures r.Ok? <==> WellFormed(slices)
    ensures r.Ok? ==>
      && Fits(Starts(slices), Strides(slices), Counts(slices), dims)
      && var slab := SlabRead(data, Starts(slices), Strides(slices), Counts(slices), dims);
      && (r.value == Meant(size, signed, slab) || r.value == AsRead(slab))
      && (r.value == Meant(size, signed, slab) <==>
           (size == 1 && signed ==> SelectsAll(Starts(slices), Strides(slices), Counts(slices), dims)))
      && (if size == 1 && signed && Product(Counts(slices)) == Product(dims) then
            && r.value.Widened? && |r.value.values| == |data|
            && forall i :: 0 <= i < |data| ==>
                 r.value.values[i] + (if data[i] < 128 then 0 else 256) == data[i]
          else r.value == AsRead(slab))
  {
    var n := |dims|;
    var offset, count, step := new nat[n], new nat[n], new nat[n];
    var nelms := FormatConstraint(slices, offset, step, count);
    if nelms.Thrown? {
      return Thrown(nelms.message);
    }
    SlicesFit(slices, dims);
    FullSelection(offset[..], step[..], count[..], dims);
    if nelms.value == |data| {
      WholeSlab(data, offset[..], step[..], count[..], dims);
      if size == 1 && signed {
        var values := Widen(data);
        return Ok(Widened(values));
      }
      return Ok(AsRead(data));
    }
    var convbuf := SlabRead(data, offset[..], step[..], count[..], dims);
    if DapType(size, signed) == "Int8" {
      var values := Widen(convbuf);
      return Ok(Widened(values));
    }
    return Ok(AsRead(convbuf));
  }

  lemma WholeSlab<T>(data: seq<T>, start: seq<nat>, stride: seq<nat>, count: seq<nat>, dims: seq<nat>)
    requires Fits(start, stride, count, dims) && |data| == Product(dims) == Product(count)
    ensures SlabRead(data, start, stride, count, dims) == data
  {
    forall k: nat | k < |data| ensures SlabAt(k, start, stride, count, dims) == k {
      FullSlabIsIdentity(start, stride, count, dims, k);
    }
  }

  /** The first of the signed bytes -56 and 0: it is handed on as the byte 200. */
  lemma SignedBytesFail()
    ensures var slices := [Slice(0, 1, 0)];
            && InBounds(slices, [2]) && WellFormed(slices)
            && !SelectsAll(Starts(slices), Strides(slices), Counts(slices), [2])
            && Fits(Starts(slices), Strides(slices), Counts(slices), [2])
            && SlabRead([200, 0], Starts(slices), Strides(slices), Counts(slices), [2]) == [200]
            && Meant(1, true, [200]) == Widened([-56])
  {
    var slices := [Slice(0, 1, 0)];
    var starts, strides, counts := Starts(slices), Strides(slices), Counts(slices);
    assert starts == [0] && strides == [1] && counts == [1];
    SlicesFit(slices, [2]);
    assert Product(counts) == 1;
    assert RowMajorDigits(0, counts) == [0] && PointAt(starts, strides, [0]) == [0];
    assert SlabAt(0, starts, strides, counts, [2]) == RowMajorIndex([0], [2]) == 0;
    assert SignedBytes([200]) == [-56];
  }

  /** HDF5Array::m_array_of_structure: element i of the result is structure picks[i]. */
  method ReadArrayOfStructure<T>(data: seq<T>, dims: seq<nat>, slices: seq<Slice>) returns (r: Result<seq<T>>)
    requires |data| == Product(dims) && InBounds(slices, dims)
    ensures r.Ok? <==> WellFormed(slices)
    ensures r.Ok? ==> |r.value| == Product(Counts(slices)) && forall k :: 0 <= k < |r.value| ==>
      && PickAt(k, Starts(slices), Strides(slices), Counts(slices), dims) < |data|
      && r.value[k] == data[PickAt(k, Starts(slices), Strides(slices), Counts(slices), dims)]
    ensures r.Ok? && AtMostOneLong(Counts(slices)) ==>
      && Fits(Starts(slices), Strides(slices), Counts(slices), dims)
      && r.value == SlabRead(data, Starts(slices), Strides(slices), Counts(slices), dims)
    ensures r.Ok? ==> forall d, p :: Selects(slices, d, p) ==>
      OdometerValue(d, Counts(slices)) < |r.value| && RowMajorIndex(p, dims) < |data|
      && r.value[OdometerValue(d, Counts(slices))] == data[RowMajorIndex(p, dims)]
  {
    hide Product, RowMajorIndex, OdometerValue, PickAt, SlabRead, AtMostOneLong, Fits, Starts, Strides, Counts;
    var picks := AllPicks(dims, slices);
    if picks.Thrown? {
      return Thrown(picks.message);
    }
    PicksOfSlices(slices, dims);
    var out := SetVec(data, picks.value);
    StructuresInOrder(data, dims, slices, out);
    StructuresOfPoints(data, dims, slices, out);
    return Ok(out);
  }

  lemma PicksOfSlices(slices: seq<Slice>, dims: seq<nat>)
    requires WellFormed(slices) && InBounds(slices, dims)
    ensures forall k :: 0 <= k < Product(Counts(slices)) ==>
      PickAt(k, Starts(slices), Strides(slices), Counts(slices), dims) < Product(dims)
  {
    hide PickAt, Product;
    SlicesFit(slices, dims);
    PicksInRange(Starts(slices), Strides(slices), Counts(slices), dims);
  }

  lemma StructuresInOrder<T>(data: seq<T>, dims: seq<nat>, slices: seq<Slice>, out: seq<T>)
    requires |data| == Product(dims) && InBounds(slices, dims) && WellFormed(slices)
    requires |out| == Product(Counts(slices)) && forall k :: 0 <= k < |out| ==>
      && PickAt(k, Starts(slices), Strides(slices), Counts(slices), dims) < |data|
      && out[k] == data[PickAt(k, Starts(slices), Strides(slices), Counts(slices), dims)]
    ensures AtMostOneLong(Counts(slices)) ==>
      && Fits(Starts(slices), Strides(slices), Counts(slices), dims)
      && out == SlabRead(data, Starts(slices), Strides(slices), Counts(slices), dims)
  {
    hide PickAt, Product, SlabRead, AtMostOneLong;
    SlicesFit(slices, dims);
    if AtMostOneLong(Counts(slices)) {
      PicksReadTheSlab(data, Starts(slices), Strides(slices), Counts(slices), dims, out);
    }
  }

  lemma StructuresOfPoints<T>(data: seq<T>, dims: seq<nat>, slices: seq<Slice>, out: seq<T>)
    requires |data| == Product(dims) && InBounds(slices, dims) && WellFormed(slices)
    requires |out| == Product(Counts(slices)) && forall k :: 0 <= k < |out| ==>
      && PickAt(k, Starts(slices), Strides(slices), Counts(slices), dims) < |data|
      && out[k] == data[PickAt(k, Starts(slices), Strides(slices), Counts(slices), dims)]
    ensures forall d, p :: Selects(slices, d, p) ==>
      OdometerValue(d, Counts(slices)) < |out| && RowMajorIndex(p, dims) < |data|
      && out[OdometerValue(d, Counts(slices))] == data[RowMajorIndex(p, dims)]
  {
    hide Product, RowMajorIndex, OdometerValue, PickAt, Starts, Strides, Counts;
    forall d, p | Selects(slices, d, p)
      ensures OdometerValue(d, Counts(slices)) < |out| && RowMajorIndex(p, dims) < |data|
      ensures out[OdometerValue(d, Counts(slices))] == data[RowMajorIndex(p, dims)]
    {
      StructureElement(data, dims, slices, out, d, p);
    }
  }

  lemma StructureElement<T>(data: seq<T>, dims: seq<nat>, slices: seq<Slice>, out: seq<T>, d: seq<nat>, p: seq<nat>)
    requires |data| == Product(dims) && InBounds(slices, dims) && WellFormed(slices) && Selects(slices, d, p)
    requires |out| == Product(Counts(slices)) && forall k :: 0 <= k < |out| ==>
      && PickAt(k, Starts(slices), Strides(slices), Counts(slices), dims) < |data|
      && out[k] == data[PickAt(k, Starts(slices), Strides(slices), Counts(slices), dims)]
    ensures OdometerValue(d, Counts(slices)) < |out| && RowMajorIndex(p, dims) < |data|
    ensures out[OdometerValue(d, Counts(slices))] == data[RowMajorIndex(p, dims)]
  {
    hide Product, RowMajorIndex, OdometerValue, PickAt;
    PointOfSlices(slices, dims, d, p);
  }

  /** The vector of picks. */
  method AllPicks(dims: seq<nat>, slices: seq<Slice>) returns (picks: Result<seq<nat>>)
    requires |slices| == |dims|
    ensures picks.Ok? <==> WellFormed(slices)
    ensures picks.Ok? ==> |picks.value| == Product(Counts(slices)) && forall k :: 0 <= k < |picks.value| ==>
      picks.value[k] == PickAt(k, Starts(slices), Strides(slices), Counts(slices), dims)
  {
    hide PickAt, Product, Fits;
    var n := |dims|;
    var offset, count, step := new nat[n], new nat[n], new nat[n];
    var nelms := FormatConstraint(slices, offset, step, count);
    if nelms.Thrown? {
      return Thrown(nelms.message);
    }
    var buffer := new nat[nelms.value];
    var total := LinearizeMultiDimensions(dims, offset, step, count, buffer);
    return Ok(buffer[..]);
  }

  /** The set_vec loop: one structure per pick. */
  method SetVec<T>(data: seq<T>, picks: seq<nat>) returns (out: seq<T>)
    requires forall k :: 0 <= k < |picks| ==> picks[k] < |data|
    ensures |out| == |picks| && forall k :: 0 <= k < |picks| ==> out[k] == data[picks[k]]
  {
    out := [];
    for i := 0 to |picks|
      invariant |out| == i
      invariant forall k :: 0 <= k < i ==> out[k] == data[picks[k]]
    {
      out := out + [data[picks[i]]];
    }
  }

  lemma PicksReadTheSlab<T>(data: seq<T>, start: seq<nat>, stride: seq<nat>, count: seq<nat>, dims: seq<nat>,
      out: seq<T>)
    requires Fits(start, stride, count, dims) && |data| == Product(dims) && AtMostOneLong(count)
    requires |out| == Product(count)
    requires forall k :: 0 <= k < |out| ==>
      PickAt(k, start, stride, count, dims) < |data| && out[k] == data[PickAt(k, start, stride, count, dims)]
    ensures out == SlabRead(data, start, stride, count, dims)
  {
    PicksRowMajorExactly(start, stride, count, dims);
  }
}
