/**
Mixed-radix positional numbers over a list of dimension sizes, in the two digit
orders that the handler mixes: the odometer order, where dimension 0 turns fastest,
and the row-major order of HDF5 and DAP arrays, where the last dimension turns fastest.
*/
module MixedRadix {

  function Product(radix: seq<nat>): nat {
    if radix == [] then 1 else radix[0] * Product(radix[1..])
  }

  ghost predicate AllPositive(radix: seq<nat>) {
    forall i :: 0 <= i < |radix| ==> radix[i] > 0
  }

  /** The coordinates of a point inside the box with the given side lengths. */
  ghost predicate InBox(point: seq<nat>, box: seq<nat>) {
    |point| == |box| && forall i :: 0 <= i < |box| ==> point[i] < box[i]
  }

  lemma {:induction false} ProductPositive(radix: seq<nat>)
    ensures Product(radix) > 0 <==> AllPositive(radix)
  {
    if radix != [] {
      ProductPositive(radix[1..]);
      if radix[0] > 0 && Product(radix[1..]) > 0 {
        MulPositive(radix[0], Product(radix[1..]));
      }
    }
  }

  lemma {:induction false} ProductMonotone(small: seq<nat>, large: seq<nat>)
    requires |small| == |large| && AllPositive(small)
    requires forall i :: 0 <= i < |small| ==> small[i] <= large[i]
    ensures Product(small) <= Product(large)
    ensures Product(small) == Product(large) ==> small == large
  {
    if small != [] {
      var s, l := Product(small[1..]), Product(large[1..]);
      ProductMonotone(small[1..], large[1..]);
      ProductPositive(small[1..]);
      MulMonotone(small[0], large[0], s, l);
      if Product(small) == Product(large) {
        assert small == [small[0]] + small[1..] && large == [large[0]] + large[1..];
      }
    }
  }

  // ----- odometer order: dimension 0 is the least significant digit

  function OdometerDigits(k: nat, radix: seq<nat>): (digits: seq<nat>)
    requires AllPositive(radix)
    ensures InBox(digits, radix)
    decreases radix
  {
    if radix == [] then [] else [k % radix[0]] + OdometerDigits(k / radix[0], radix[1..])
  }

  function OdometerValue(digits: seq<nat>, radix: seq<nat>): nat
    requires |digits| == |radix|
  {
    if digits == [] then 0 else digits[0] + radix[0] * OdometerValue(digits[1..], radix[1..])
  }

  /** One click of the odometer; it wraps to all zeros after the last value. */
  function Tick(digits: seq<nat>, radix: seq<nat>): (next: seq<nat>)
    requires |digits| == |radix|
    ensures |next| == |digits|
  {
    if digits == [] then []
    else if digits[0] + 1 < radix[0] then [digits[0] + 1] + digits[1..]
    else [0] + Tick(digits[1..], radix[1..])
  }

  lemma {:induction false} OdometerValueOfDigits(k: nat, radix: seq<nat>)
    requires AllPositive(radix) && k < Product(radix)
    ensures OdometerValue(OdometerDigits(k, radix), radix) == k
    decreases radix
  {
    if radix != [] {
      var d := OdometerDigits(k, radix);
      DivBelow(k, radix[0], Product(radix[1..]));
      OdometerValueOfDigits(k / radix[0], radix[1..]);
      assert d[1..] == OdometerDigits(k / radix[0], radix[1..]);
      DivMod(k, radix[0]);
    }
  }

  lemma {:induction false} OdometerDigitsOfValue(digits: seq<nat>, radix: seq<nat>)
    requires InBox(digits, radix)
    ensures AllPositive(radix)
    ensures OdometerValue(digits, radix) < Product(radix)
    ensures OdometerDigits(OdometerValue(digits, radix), radix) == digits
  {
    if radix != [] {
      var rest := OdometerValue(digits[1..], radix[1..]);
      OdometerDigitsOfValue(digits[1..], radix[1..]);
      assert AllPositive(radix) by {
        forall i | 0 <= i < |radix| ensures radix[i] > 0 { assert digits[i] < radix[i]; }
      }
      QuotientRemainder(radix[0], rest, digits[0]);
      BelowProduct(radix[0], Product(radix[1..]), rest, digits[0]);
      assert digits == [digits[0]] + digits[1..];
    }
  }

  lemma {:induction false} TickIsSuccessor(k: nat, radix: seq<nat>)
    requires AllPositive(radix) && k + 1 < Product(radix)
    ensures Tick(OdometerDigits(k, radix), radix) == OdometerDigits(k + 1, radix)
    decreases radix
  {
    if radix != [] {
      var r, d := radix[0], OdometerDigits(k, radix);
      assert d[1..] == OdometerDigits(k / r, radix[1..]);
      DivMod(k, r);
      DivMod(k, r);
      SuccessorDivMod(k, r, k / r, k % r);
      if k % r + 1 == r {
        DivBelow(k + 1, r, Product(radix[1..]));
        TickIsSuccessor(k / r, radix[1..]);
      }
    }
  }

  // The carry runs through the saturated dimensions and stops at the first other one.
  lemma {:induction false} TickCarries(digits: seq<nat>, radix: seq<nat>, stop: nat)
    requires InBox(digits, radix) && stop <= |digits|
    requires forall j :: 0 <= j < stop ==> digits[j] + 1 == radix[j]
    requires stop < |digits| ==> digits[stop] + 1 < radix[stop]
    ensures forall j :: 0 <= j < |digits| ==>
      Tick(digits, radix)[j] == (if j < stop then 0 else if j == stop then digits[j] + 1 else digits[j])
  {
    if stop > 0 {
      TickCarries(digits[1..], radix[1..], stop - 1);
    }
  }

  // ----- row-major order: the last dimension is the least significant digit

  function RowMajorIndex(point: seq<nat>, dims: seq<nat>): nat
    requires |point| == |dims|
  {
    if point == [] then 0 else point[0] * Product(dims[1..]) + RowMajorIndex(point[1..], dims[1..])
  }

  function RowMajorDigits(k: nat, dims: seq<nat>): (digits: seq<nat>)
    requires AllPositive(dims) && k < Product(dims)
    ensures InBox(digits, dims)
    decreases dims
  {
    if dims == [] then []
    else
      ProductPositive(dims[1..]);
      var block := Product(dims[1..]);
      DivBelow(k, block, dims[0]);
      [k / block] + RowMajorDigits(k % block, dims[1..])
  }

  lemma {:induction false} RowMajorIndexOfDigits(k: nat, dims: seq<nat>)
    requires AllPositive(dims) && k < Product(dims)
    ensures RowMajorIndex(RowMajorDigits(k, dims), dims) == k
    decreases dims
  {
    if dims != [] {
      ProductPositive(dims[1..]);
      var block := Product(dims[1..]);
      var d := RowMajorDigits(k, dims);
      assert d[1..] == RowMajorDigits(k % block, dims[1..]);
      RowMajorIndexOfDigits(k % block, dims[1..]);
      DivMod(k, block);
    }
  }

  lemma {:induction false} RowMajorDigitsOfIndex(point: seq<nat>, dims: seq<nat>)
    requires InBox(point, dims)
    ensures AllPositive(dims)
    ensures RowMajorIndex(point, dims) < Product(dims)
    ensures RowMajorDigits(RowMajorIndex(point, dims), dims) == point
  {
    if dims != [] {
      var block, rest := Product(dims[1..]), RowMajorIndex(point[1..], dims[1..]);
      RowMajorDigitsOfIndex(point[1..], dims[1..]);
      assert AllPositive(dims) by {
        forall i | 0 <= i < |dims| ensures dims[i] > 0 { assert point[i] < dims[i]; }
      }
      QuotientRemainder(block, point[0], rest);
      BelowProduct(block, dims[0], point[0], rest);
      assert point == [point[0]] + point[1..];
    }
  }

  // ----- the two orders: which digit decides

  /** Row-major order: the first dimension in which two points differ decides. */
  lemma {:induction false} RowMajorFirstDecides(p: seq<nat>, q: seq<nat>, dims: seq<nat>, k: nat)
    requires InBox(p, dims) && InBox(q, dims) && k < |dims|
    requires p[..k] == q[..k] && p[k] < q[k]
    ensures RowMajorIndex(p, dims) < RowMajorIndex(q, dims)
  {
    var block := Product(dims[1..]);
    if k == 0 {
      RowMajorDigitsOfIndex(p[1..], dims[1..]);
      BelowProduct(block, q[0], p[0], RowMajorIndex(p[1..], dims[1..]));
    } else {
      assert p[0] == p[..k][0] && q[0] == q[..k][0];
      assert p[1..][..k - 1] == p[..k][1..] && q[1..][..k - 1] == q[..k][1..];
      RowMajorFirstDecides(p[1..], q[1..], dims[1..], k - 1);
    }
  }

  /** Odometer order: the last dimension in which two points differ decides. */
  lemma {:induction false} OdometerLastDecides(p: seq<nat>, q: seq<nat>, radix: seq<nat>, k: nat)
    requires InBox(p, radix) && InBox(q, radix) && k < |radix|
    requires p[k + 1..] == q[k + 1..] && p[k] < q[k]
    ensures OdometerValue(p, radix) < OdometerValue(q, radix)
  {
    var small, large := OdometerValue(p[1..], radix[1..]), OdometerValue(q[1..], radix[1..]);
    if k > 0 {
      assert p[1..][k..] == p[k + 1..] && q[1..][k..] == q[k + 1..];
      OdometerLastDecides(p[1..], q[1..], radix[1..], k - 1);
      BelowProduct(radix[0], large, small, p[0]);
    }
  }

  // ----- arithmetic

  lemma MulPositive(a: nat, b: nat)
    requires a > 0 && b > 0
    ensures a * b > 0
  {}

  lemma MulMonotone(a: nat, a': nat, b: nat, b': nat)
    requires 0 < a <= a' && 0 < b <= b'
    ensures a * b <= a' * b'
    ensures a * b == a' * b' ==> a == a' && b == b'
  {
    assert a' * b' == a * b + a * (b' - b) + (a' - a) * b';
    if a < a' {
      MulPositive(a' - a, b');
    }
    if b < b' {
      MulPositive(a, b' - b);
    }
  }

  lemma DivMod(k: nat, r: nat)
    requires r > 0
    ensures k == r * (k / r) + k % r && k % r < r
  {}

  lemma DivBelow(k: nat, r: nat, q: nat)
    requires r > 0 && k < r * q
    ensures k / r < q
  {}

  lemma MulLe(r: nat, a: nat, b: nat)
    requires a <= b
    ensures r * a <= r * b
  {}

  lemma QuotientRemainder(r: nat, q: nat, m: nat)
    requires m < r
    ensures (r * q + m) / r == q && (r * q + m) % r == m
    ensures (q * r + m) / r == q && (q * r + m) % r == m
    ensures (m + r * q) / r == q && (m + r * q) % r == m
  {
    var k := r * q + m;
    assert k == q * r + m && k == m + r * q;
    DivMod(k, r);
    SameQuotient(r, q, m, k / r, k % r);
  }

  lemma SameQuotient(r: nat, q: nat, m: nat, q': nat, m': nat)
    requires m < r && m' < r && r * q + m == r * q' + m'
    ensures q == q' && m == m'
  {
    if q' < q {
      MulLe(r, q' + 1, q);
    } else if q < q' {
      MulLe(r, q + 1, q');
    }
  }

  lemma SuccessorDivMod(k: nat, r: nat, q: nat, m: nat)
    requires m < r && k == r * q + m
    ensures m + 1 < r ==> (k + 1) / r == q && (k + 1) % r == m + 1
    ensures m + 1 == r ==> (k + 1) / r == q + 1 && (k + 1) % r == 0
  {
    if m + 1 < r {
      QuotientRemainder(r, q, m + 1);
    } else {
      QuotientRemainder(r, q + 1, 0);
      assert r * (q + 1) == r * q + r;
    }
  }

  lemma BelowProduct(r: nat, n: nat, q: nat, m: nat)
    requires m < r && q < n
    ensures m + r * q < r * n
    ensures q * r + m < n * r
  {
    MulLe(r, q + 1, n);
    assert r * (q + 1) == r * q + r;
  }
}
