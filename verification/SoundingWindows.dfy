/**
HDF5GMSPCFArray: 32-bit windows of decimal digits of 64-bit sounding identifiers.
*/
module SoundingWindows {
  import CoordVars
  import MixedRadix

  function Pow10(n: nat): (p: nat)
    ensures p > 0
  {
    if n == 0 then 1 else 10 * Pow10(n - 1)
  }

  function Abs(a: int): nat {
    if a < 0 then -a else a
  }

  /** C++ integer division truncates toward zero, and the remainder has the sign of the dividend. */
  function CDiv(a: int, b: int): int
    requires b > 0
  {
    if a < 0 then -(-a / b) else a / b
  }

  function CMod(a: int, b: int): int
    requires b > 0
  {
    if a < 0 then -(-a % b) else a % b
  }

  /** The `width` decimal digits of v that start at digit `first`, counted from 1 on the right. */
  function Window(v: int, first: int, width: int): int {
    CMod(CDiv(v, Pow10(if first > 1 then first - 1 else 0)), Pow10(if width > 0 then width else 0))
  }

  /** The loop that multiplies by ten. */
  method PowerOfTen(n: int) returns (p: nat)
    ensures p == Pow10(if n > 0 then n else 0)
  {
    p := 1;
    var i := 0;
    while i < n
      invariant 0 <= i && (i <= n || i == 0)
      invariant p == Pow10(i)
    {
      p := 10 * p;
      i := i + 1;
    }
  }

  method ReadWindows(origVal: seq<int>, sdbit: int, numofdbits: int) returns (val: seq<int>)
    ensures |val| == |origVal|
    ensures forall i :: 0 <= i < |val| ==> val[i] == Window(origVal[i], sdbit, numofdbits)
  {
    var maxNum := PowerOfTen(numofdbits);
    var numCut := PowerOfTen(sdbit - 1);
    val := [];
    for i := 0 to |origVal|
      invariant |val| == i
      invariant forall j :: 0 <= j < i ==> val[j] == Window(origVal[j], sdbit, numofdbits)
    {
      val := val + [CMod(CDiv(origVal[i], numCut), maxNum)];
    }
  }

  lemma PowersOfTen(n: nat)
    ensures Pow10(0) == 1 && Pow10(n + 1) == 10 * Pow10(n)
  {}

  /** C++ division: quotient and remainder make up the dividend, whose sign the remainder has. */
  lemma Truncates(a: int, b: int)
    requires b > 0
    ensures a == b * CDiv(a, b) + CMod(a, b) && -b < CMod(a, b) < b
    ensures a >= 0 ==> CMod(a, b) >= 0
    ensures a <= 0 ==> CMod(a, b) <= 0
  {}

  /** The window of a number and of its negative; a first digit below 1 counts as 1, a negative width as 0. */
  lemma WindowIs(v: nat, first: nat, width: nat)
    requires first >= 1
    ensures Window(v, first, width) == v / Pow10(first - 1) % Pow10(width)
    ensures Window(-(v as int), first, width) == -(v / Pow10(first - 1) % Pow10(width))
    ensures forall below: int :: below < 1 ==> Window(v, below, width) == Window(v, 1, width)
    ensures forall below: int :: below < 0 ==> Window(v, first, below) == Window(v, first, 0)
  {
    hide Pow10, CDiv, CMod;
    CutIs(v, Pow10(first - 1), Pow10(width));
  }

  lemma CutIs(v: nat, cut: nat, max: nat)
    requires cut > 0 && max > 0
    ensures CMod(CDiv(v, cut), max) == v / cut % max
    ensures CMod(CDiv(-(v as int), cut), max) == -(v / cut % max)
  {
    hide CDiv, CMod;
    Mirrored(v, cut);
    Mirrored(v / cut, max);
  }

  lemma Mirrored(v: nat, b: nat)
    requires b > 0
    ensures CDiv(v, b) == v / b && CDiv(-(v as int), b) == -(v / b)
    ensures CMod(v, b) == v % b && CMod(-(v as int), b) == -(v % b)
  {
    var zero: nat := 0;
    assert zero / b == 0 && zero % b == 0;
  }

  lemma PowersUsed()
    ensures Pow10(0) == 1 && Pow10(6) == 1_000_000 && Pow10(8) == 100_000_000
  {
    assert Pow10(2) == 100 && Pow10(4) == 10_000;
  }

  /**
  The two parts of a sounding identifier, as the file describes them, fit into 32 bits,
  and together they give the identifier back exactly when it has at most 14 digits.
  */
  lemma PartsReassemble(v: CoordVars.Var, id: int)
    ensures var time, date := CoordVars.TimePart(v), CoordVars.DatePart(v);
            var t, d := Window(id, time.sdbit, time.numofdbits), Window(id, date.sdbit, date.numofdbits);
            && -0x8000_0000 <= t < 0x8000_0000 && -0x8000_0000 <= d < 0x8000_0000
            && (d * 1_000_000 + t == id <==> -100_000_000_000_000 < id < 100_000_000_000_000)
            && (id >= 0 ==> 0 <= t < 1_000_000 && 0 <= d < 100_000_000)
  {
    PowersUsed();
    var a := Abs(id);
    var t, rest := a % 1_000_000, a / 1_000_000;
    var d := rest % 100_000_000;
    assert a == rest * 1_000_000 + t;
    assert d == rest <==> rest < 100_000_000;
    assert rest < 100_000_000 <==> a < 100_000_000_000_000;
    assert id < 0 ==> a == -CDiv(id, 1) && rest == -CDiv(id, 1_000_000);
    assert id >= 0 ==> CDiv(id, 1) == a && CDiv(id, 1_000_000) == rest;
  }

  /** Windows side by side make one wider window. */
  lemma WindowsJoin(v: nat, first: nat, width: nat, width': nat)
    requires first >= 1
    ensures Window(v, first, width + width') ==
            Window(v, first + width, width') * Pow10(width) + Window(v, first, width)
  {
    PowAdd(width, width');
    PowAdd(first - 1, width);
    CutAndSplit(v, Pow10(first - 1), Pow10(width), Pow10(width'));
  }

  lemma CutAndSplit(v: nat, c: nat, a: nat, b: nat)
    requires c > 0 && a > 0 && b > 0
    ensures c * a > 0 && a * b > 0
    ensures CMod(CDiv(v, c), a * b) == CMod(CDiv(v, c * a), b) * a + CMod(CDiv(v, c), a)
  {
    Regroup(v, c, a);
    Regroup(v / c, a, b);
  }

  lemma {:induction false} PowAdd(m: nat, n: nat)
    ensures Pow10(m + n) == Pow10(m) * Pow10(n)
  {
    if n > 0 {
      PowAdd(m, n - 1);
      MulTen(Pow10(m), Pow10(n - 1));
    }
  }

  lemma MulTen(a: nat, b: nat)
    ensures 10 * (a * b) == a * (10 * b)
  {}

  /** Dividing twice divides by the product; the remainders combine. */
  lemma Regroup(v: nat, a: nat, b: nat)
    requires a > 0 && b > 0
    ensures a * b > 0
    ensures v / (a * b) == v / a / b && v % (a * b) == (v / a % b) * a + v % a
  {
    MixedRadix.DivMod(v, a);
    MixedRadix.DivMod(v / a, b);
    Compose(v, a, b, v / a, v % a, v / a / b, v / a % b);
  }

  lemma Compose(v: nat, a: nat, b: nat, q: nat, r: nat, q': nat, r': nat)
    requires v == a * q + r && r < a && q == b * q' + r' && r' < b
    ensures a * b > 0 && v / (a * b) == q' && v % (a * b) == r' * a + r
  {
    MixedRadix.MulPositive(a, b);
    Expand(a, b, q', r');
    MixedRadix.BelowProduct(a, b, r', r);
    MixedRadix.QuotientRemainder(a * b, q', r' * a + r);
  }

  lemma Expand(a: nat, b: nat, q: nat, r: nat)
    ensures a * (b * q + r) == (a * b) * q + r * a
  {}
}
