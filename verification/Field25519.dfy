/** Arithmetic modulo 2^255 - 19 on sixteen signed 64-bit limbs of radix 2^16.

    The limbs are of type `I64`, so the verifier checks that no intermediate result leaves 64
    bits.  `Number` gives the integer a limb vector stands for. */
module Field25519 {
  import opened ModArith
  import opened Word64
  import opened BitOps

  /** A field element: sixteen limbs, least significant first. */
  type Limbs = s: seq<I64> | |s| == 16 witness seq(16, _ => 0)

  const RADIX := 65536
  const TWO_256 := 0x1_00000000_00000000_00000000_00000000_00000000_00000000_00000000_00000000
  const P := 0x7fffffff_ffffffff_ffffffff_ffffffff_ffffffff_ffffffff_ffffffff_ffffffed

  /** The weight of limb `i`. */
  function Weight(i: nat): (w: int)
    ensures w >= 1
  {
    if i == 0 then 1 else RADIX * Weight(i - 1)
  }

  /** The integer that the first `n` limbs stand for. */
  function Number(s: seq<I64>, n: nat): int
    requires n <= |s|
  {
    if n == 0 then 0 else Number(s, n - 1) + s[n - 1] as int * Weight(n - 1)
  }

  function LimbValue(s: Limbs): int {
    Number(s, 16)
  }

  ghost predicate Congruent(a: int, b: int) {
    a % P == b % P
  }

  // ---- Limb vectors as numbers ----

  lemma {:induction false} NumberFrame(s: seq<I64>, t: seq<I64>, n: nat)
    requires n <= |s| && n <= |t| && forall j :: 0 <= j < n ==> s[j] == t[j]
    ensures Number(s, n) == Number(t, n)
  {
    if n > 0 {
      NumberFrame(s, t, n - 1);
    }
  }

  lemma {:induction false} NumberUpdate(s: seq<I64>, i: nat, x: I64, n: nat)
    requires i < n <= |s|
    ensures Number(s[i := x], n) == Number(s, n) + (x as int - s[i] as int) * Weight(i)
  {
    hide Weight;
    if i == n - 1 {
      NumberFrame(s[i := x], s, i);
      assert (x as int - s[i] as int) * Weight(i) == x as int * Weight(i) - s[i] as int * Weight(i);
    } else {
      NumberUpdate(s, i, x, n - 1);
    }
  }

  ghost predicate AreDigits(s: seq<I64>, lo: nat, hi: nat)
    requires hi <= |s|
  {
    forall j :: lo <= j < hi ==> 0 <= s[j] < 65536
  }

  lemma {:induction false} DigitsBound(s: seq<I64>, n: nat)
    requires n <= |s| && AreDigits(s, 0, n)
    ensures 0 <= Number(s, n) < Weight(n)
  {
    if n > 0 {
      DigitsBound(s, n - 1);
      LimbBound(s[n - 1] as int, Weight(n - 1));
    }
  }

  lemma LimbBound(x: int, w: int)
    requires 0 <= x < 65536 && w >= 1
    ensures 0 <= x * w <= 65536 * w - w
  {
    assert (65535 - x) * w >= 0;
    assert (65535 - x) * w == 65535 * w - x * w;
  }

  lemma WeightSixteen()
    ensures Weight(16) == TWO_256
  {
    assert Weight(4) == 0x1_00000000_00000000;
    assert Weight(8) == 0x1_00000000_00000000_00000000_00000000;
    assert Weight(12) == 0x1_00000000_00000000_00000000_00000000_00000000_00000000;
  }

  /** Moving a carry of `c` from limb `i` to limb `i + 1` keeps the number. */
  lemma CarryKeeps(s: seq<I64>, i: nat, n: nat, x: I64, y: I64, c: int)
    requires i + 1 < n <= |s|
    requires x as int == s[i] as int - 65536 * c && y as int == s[i + 1] as int + c
    ensures Number(s[i + 1 := y][i := x], n) == Number(s, n)
  {
    NumberUpdate(s, i + 1, y, n);
    NumberUpdate(s[i + 1 := y], i, x, n);
    assert Weight(i + 1) == 65536 * Weight(i);
    hide Weight, Number;
    CarryCancels(c, Weight(i), Weight(i + 1));
  }

  lemma CarryCancels(c: int, w: int, w': int)
    requires w' == 65536 * w
    ensures (-65536 * c) * w + c * w' == 0
  {}

  // ---- Carrying ----

  /** What a carry pass folds back from above 2^256. */
  function Excess(v: int): int {
    v / TWO_256
  }

  /** The number after a carry pass. */
  function Passed(v: int): int {
    v % TWO_256 + 38 * Excess(v)
  }

  /** One carry pass.  With V the number on entry, the limbs become the digits of V mod 2^256,
      plus 38 * (V div 2^256) in limb 0. */
  method Car25519(o: array<I64>)
    requires o.Length == 16
    requires forall j :: 0 <= j < 16 ==> -0x2000_0000_0000_0000 <= o[j] <= 0x2000_0000_0000_0000
    modifies o
    ensures var v := LimbValue(old(o[..]));
            && AreDigits(o[..], 1, 16)
            && LimbValue(o[..]) == Passed(v)
            && 0 <= o[0] as int - 38 * Excess(v) < 65536
  {
    hide Weight, Passed, Excess;
    ghost var v := LimbValue(o[..]);
    for i := 0 to 16
      invariant AreDigits(o[..], if i == 16 then 1 else 0, i)
      invariant forall j :: i < j < 16 ==> o[j] == old(o[j])
      invariant i < 16 ==> -0x2000_4000_0000_0000 <= o[i] <= 0x2000_4000_0000_0000
      invariant i < 16 ==> LimbValue(o[..]) == v
      invariant i == 16 ==> LimbValue(o[..]) == Passed(v)
                            && 0 <= o[0] as int - 38 * Excess(v) < 65536
    {
      ghost var before := o[..];
      o[i] := o[i] + 65536;
      var c := ShiftRight(o[i], 65536);
      ghost var carry := before[i] as int / 65536;
      CarryOf(before[i] as int);
      if i == 15 {
        o[0] := o[0] + 38 * (c - 1);
        o[i] := o[i] - c * 65536;
        LastCarry(before, o[..], carry, v);
      } else {
        o[i + 1] := o[i + 1] + (c - 1);
        o[i] := o[i] - c * 65536;
        assert o[..] == before[i + 1 := o[i + 1]][i := o[i]];
        CarryKeeps(before, i, 16, o[i], o[i + 1], carry);
      }
    }
  }

  lemma CarryOf(x: int)
    ensures (x + 65536) / 65536 == x / 65536 + 1
  {}

  lemma LastCarry(before: Limbs, after: Limbs, c: int, v: int)
    requires AreDigits(before, 0, 15) && LimbValue(before) == v
    requires c == before[15] as int / 65536
    requires after[15] as int == before[15] as int - 65536 * c && after[0] as int == before[0] as int + 38 * c
    requires forall j :: 1 <= j < 15 ==> after[j] == before[j]
    ensures c == Excess(v) && AreDigits(after, 1, 16)
    ensures LimbValue(after) == Passed(v) && 0 <= after[0] as int - 38 * c < 65536
  {
    hide Weight, Number;
    var digits := before[15 := after[15]];
    NumberUpdate(before, 15, after[15], 16);
    assert digits[0 := after[0]] == after;
    NumberUpdate(digits, 0, after[0], 16);
    DigitsBound(digits, 16);
    WeightSixteen();
    TopWeight();
    TopCarry(c, Weight(15));
    DivUnique(v, TWO_256, c, Number(digits, 16));
  }

  lemma TopWeight()
    ensures Weight(16) == 65536 * Weight(15) && Weight(0) == 1
  {}

  lemma TopCarry(c: int, w: int)
    ensures (-65536 * c) * w == -(c * (65536 * w))
  {}

  // ---- Products ----

  lemma {:induction false} WeightSum(i: nat, j: nat)
    ensures Weight(i + j) == Weight(i) * Weight(j)
  {
    if i > 0 {
      WeightSum(i - 1, j);
      WeightStep(i - 1);
      WeightStep(i - 1 + j);
      hide Weight;
      assert 65536 * (Weight(i - 1) * Weight(j)) == (65536 * Weight(i - 1)) * Weight(j);
    }
  }

  lemma WeightStep(i: nat)
    ensures Weight(i + 1) == 65536 * Weight(i)
  {}

  /** Limbs bounded by `b` in magnitude. */
  ghost predicate Bounded(s: seq<I64>, b: int) {
    forall j :: 0 <= j < |s| ==> -b <= s[j] as int <= b
  }

  lemma {:induction false} NumberBound(s: seq<I64>, n: nat, b: int)
    requires 1 <= n <= |s| && Bounded(s, b) && b >= 0
    ensures -2 * b * Weight(n - 1) <= Number(s, n) <= 2 * b * Weight(n - 1)
  {
    if n > 1 {
      NumberBound(s, n - 1, b);
      BoundStep(s[n - 1] as int, b, Weight(n - 2), Number(s, n - 1));
    }
  }

  lemma BoundStep(x: int, b: int, w: int, m: int)
    requires w >= 1 && b >= 0 && -b <= x <= b && -2 * b * w <= m <= 2 * b * w
    ensures -2 * b * (65536 * w) <= m + x * (65536 * w) <= 2 * b * (65536 * w)
  {
    var bw := b * w;
    assert (b - x) * w >= 0 && (b + x) * w >= 0;
    assert (b - x) * w == bw - x * w && (b + x) * w == bw + x * w;
    assert x * (65536 * w) == 65536 * (x * w);
    assert 2 * b * (65536 * w) == 131072 * bw && 2 * b * w == 2 * bw;
    assert -2 * b * (65536 * w) == -131072 * bw && -2 * b * w == -2 * bw;
    assert bw >= 0;
  }

  lemma {:induction false} NumberSplit(s: seq<I64>, k: nat, n: nat)
    requires k + n <= |s|
    ensures Number(s, k + n) == Number(s, k) + Weight(k) * Number(s[k..], n)
    decreases n
  {
    if n > 0 {
      NumberSplit(s, k, n - 1);
      WeightSum(k, n - 1);
      NumberStep(s, k + n - 1);
      NumberStep(s[k..], n - 1);
      hide Weight, Number;
      ShiftedStep(Weight(k), Number(s[k..], n - 1), s[k + n - 1] as int, Weight(n - 1));
    }
  }

  lemma ShiftedStep(wk: int, m: int, x: int, wn: int)
    ensures wk * (m + x * wn) == wk * m + x * (wk * wn)
  {
    assert wk * (x * wn) == x * (wk * wn);
  }

  /** Schoolbook product of two limb vectors into 31 columns. */
  method Columns(a: Limbs, b: Limbs) returns (t: array<I64>)
    requires Bounded(a, 0x3ffff) && Bounded(b, 0x3ffff)
    ensures fresh(t) && t.Length == 31 && Bounded(t[..], 0x100_0000_0000)
    ensures Number(t[..], 31) == LimbValue(a) * LimbValue(b)
  {
    hide Weight, Number;
    t := new I64[31](_ => 0);
    ZeroNumber(t[..], 31);
    NumberEmpty(a);
    for i := 0 to 16
      invariant Bounded(t[..], i * 0x10_0000_0000)
      invariant Number(t[..], 31) == Number(a, i) * LimbValue(b)
    {
      Row(t, a, b, i);
      NumberStep(a, i);
      assert (Number(a, i) + a[i] as int * Weight(i)) * LimbValue(b)
          == Number(a, i) * LimbValue(b) + a[i] as int * Weight(i) * LimbValue(b);
    }
  }

  lemma NumberEmpty(s: seq<I64>)
    ensures Number(s, 0) == 0
  {}

  lemma NumberStep(s: seq<I64>, i: nat)
    requires i < |s|
    ensures Number(s, i + 1) == Number(s, i) + s[i] as int * Weight(i)
  {}

  lemma {:induction false} ZeroNumber(s: seq<I64>, n: nat)
    requires n <= |s| && forall j :: 0 <= j < n ==> s[j] == 0
    ensures Number(s, n) == 0
  {
    hide Weight;
    if n > 0 {
      ZeroNumber(s, n - 1);
    }
  }

  /** Adds `a[i] * b`, shifted by `i` limbs, into the columns. */
  method Row(t: array<I64>, a: Limbs, b: Limbs, i: nat)
    requires t.Length == 31 && i < 16
    requires Bounded(a, 0x3ffff) && Bounded(b, 0x3ffff) && Bounded(t[..], i * 0x10_0000_0000)
    modifies t
    ensures Bounded(t[..], (i + 1) * 0x10_0000_0000)
    ensures Number(t[..], 31) == old(Number(t[..], 31)) + a[i] as int * Weight(i) * LimbValue(b)
  {
    hide Weight, Number;
    NumberEmpty(b);
    ghost var bound := i * 0x10_0000_0000;
    for j := 0 to 16
      invariant forall k :: 0 <= k < 31 ==> -bound - 0x10_0000_0000 <= t[k] as int <= bound + 0x10_0000_0000
      invariant forall k :: i + j <= k < 31 ==> -bound <= t[k] as int <= bound
      invariant Number(t[..], 31) == old(Number(t[..], 31)) + a[i] as int * Weight(i) * Number(b, j)
    {
      ghost var before := t[..];
      ProductBound(a[i] as int, b[j] as int);
      t[i + j] := t[i + j] + a[i] * b[j];
      assert t[..] == before[i + j := t[i + j]];
      NumberUpdate(before, i + j, t[i + j], 31);
      WeightSum(i, j);
      NumberStep(b, j);
      ColumnStep(a[i] as int, b[j] as int, Weight(i), Weight(j), Number(b, j));
    }
  }

  lemma ProductBound(x: int, y: int)
    requires -0x3ffff <= x <= 0x3ffff && -0x3ffff <= y <= 0x3ffff
    ensures -0x10_0000_0000 <= x * y <= 0x10_0000_0000
  {
    var m := 0x3ffff;
    var ax, ay := if x < 0 then -x else x, if y < 0 then -y else y;
    MulBound(ax, ay, m);
    assert ax * ay == x * y || ax * ay == -(x * y);
  }

  lemma MulBound(x: int, y: int, m: int)
    requires 0 <= x <= m && 0 <= y <= m
    ensures 0 <= x * y <= m * m
  {
    assert (m - x) * y == m * y - x * y;
    assert m * (m - y) == m * m - m * y;
  }

  lemma ColumnStep(x: int, y: int, wi: int, wj: int, m: int)
    ensures x * wi * (m + y * wj) == x * wi * m + (x * y) * (wi * wj)
  {
    var xw := x * wi;
    assert xw * (m + y * wj) == xw * m + xw * (y * wj);
    assert xw * (y * wj) == (x * y) * (wi * wj);
  }

  /** Column `i + 16` weighs 2^256 times column `i`, and 2^256 is congruent to 38. */
  method Fold(t: array<I64>)
    requires t.Length == 31 && Bounded(t[..], 0x100_0000_0000)
    modifies t
    ensures Bounded(t[..16], 0x2700_0000_0000)
    ensures Number(t[..16], 16) == Number(old(t[..]), 16) + 38 * Number(old(t[16..]), 15)
  {
    hide Weight, Number;
    ghost var start, high := t[..], t[16..];
    NumberEmpty(high);
    NumberFrame(t[..16], start, 16);
    for i := 0 to 15
      invariant t[16..] == high && forall k :: i <= k < 16 ==> t[k] == start[k]
      invariant forall k :: 0 <= k < i ==> -0x2700_0000_0000 <= t[k] <= 0x2700_0000_0000
      invariant Number(t[..16], 16) == Number(start, 16) + 38 * Number(high, i)
    {
      ghost var before := t[..16];
      assert t[i + 16] == high[i] == start[i + 16];
      t[i] := t[i] + 38 * t[i + 16];
      assert t[..16] == before[i := t[i]];
      NumberUpdate(before, i, t[i], 16);
      NumberStep(high, i);
      assert (38 * high[i] as int) * Weight(i) == 38 * (high[i] as int * Weight(i));
    }
  }

  /** The range of every product: fully carried, except for a small excess in limb 0. */
  ghost predicate Reduced(s: Limbs) {
    -38 <= s[0] <= 65573 && AreDigits(s, 1, 16)
  }

  lemma PassKeepsResidue(v: int)
    ensures Passed(v) % P == v % P
  {
    assert TWO_256 - 38 == 2 * P;
    var q := v / TWO_256;
    assert v % TWO_256 + 38 * q == v + P * (-2 * q);
    Offset(v % TWO_256 + 38 * q, v, -2 * q, P);
  }

  lemma FirstPassQuotient(s: Limbs)
    requires Bounded(s, 0x2700_0000_0000)
    ensures -0x8000_0000 <= Excess(LimbValue(s)) <= 0x8000_0000
  {
    hide Number;
    NumberBound(s, 16, 0x2700_0000_0000);
    WeightSixteen();
    TopWeight();
    hide Weight;
    assert -0x8000_0000 * TWO_256 <= LimbValue(s) <= 0x8000_0000 * TWO_256;
  }

  lemma SecondPassQuotient(v: int)
    requires -0x8000_0000 <= Excess(v) <= 0x8000_0000
    ensures -1 <= Excess(Passed(v)) <= 1
  {}

  method MulF(a: Limbs, b: Limbs) returns (r: Limbs)
    requires Bounded(a, 0x3ffff) && Bounded(b, 0x3ffff)
    ensures Reduced(r) && Congruent(LimbValue(r), LimbValue(a) * LimbValue(b))
  {
    hide Weight, Number, Passed, Excess;
    var t := Columns(a, b);
    ghost var low, high := Number(t[..], 16), Number(t[16..], 15);
    NumberSplit(t[..], 16, 15);
    WeightSixteen();
    assert t[..][16..] == t[16..];
    Fold(t);
    FoldKeepsResidue(low, high);
    var o := new I64[16](i requires 0 <= i < 16 reads t => t[i]);
    assert o[..] == t[..16];
    ghost var v := LimbValue(o[..]);
    FirstPassQuotient(o[..]);
    Car25519(o);
    PassKeepsResidue(v);
    SecondPassQuotient(v);
    ghost var v' := LimbValue(o[..]);
    Car25519(o);
    PassKeepsResidue(v');
    r := o[..];
  }

  lemma FoldKeepsResidue(low: int, high: int)
    ensures (low + 38 * high) % P == (low + TWO_256 * high) % P
  {
    assert TWO_256 - 38 == 2 * P;
    Offset(low + TWO_256 * high, low + 38 * high, 2 * high, P);
  }

  // ---- Sums and differences ----

  lemma {:induction false} NumberLinear(a: seq<I64>, b: seq<I64>, r: seq<I64>, sign: int, n: nat)
    requires n <= |a| && n <= |b| && n <= |r|
    requires forall j :: 0 <= j < n ==> r[j] as int == a[j] as int + sign * b[j] as int
    ensures Number(r, n) == Number(a, n) + sign * Number(b, n)
  {
    hide Weight;
    if n > 0 {
      NumberLinear(a, b, r, sign, n - 1);
      LinearStep(a[n - 1] as int, b[n - 1] as int, sign, Weight(n - 1), Number(b, n - 1));
    }
  }

  lemma LinearStep(x: int, y: int, sign: int, w: int, m: int)
    ensures (x + sign * y) * w + sign * m == x * w + sign * (m + y * w)
  {
    assert (x + sign * y) * w == x * w + sign * (y * w);
    Distribute(sign, m, y * w);
  }

  method AddF(a: Limbs, b: Limbs, ghost m: int, ghost n: int) returns (r: Limbs)
    requires Bounded(a, m) && Bounded(b, n) && m <= 0x3fff_ffff && n <= 0x3fff_ffff
    ensures LimbValue(r) == LimbValue(a) + LimbValue(b) && Bounded(r, m + n)
  {
    var o := new I64[16](_ => 0);
    for i := 0 to 16
      invariant forall j :: 0 <= j < i ==> o[j] == a[j] + b[j]
    {
      o[i] := a[i] + b[i];
    }
    r := o[..];
    NumberLinear(a, b, r, 1, 16);
  }

  method SubF(a: Limbs, b: Limbs, ghost m: int, ghost n: int) returns (r: Limbs)
    requires Bounded(a, m) && Bounded(b, n) && m <= 0x3fff_ffff && n <= 0x3fff_ffff
    ensures LimbValue(r) == LimbValue(a) - LimbValue(b) && Bounded(r, m + n)
  {
    var o := new I64[16](_ => 0);
    for i := 0 to 16
      invariant forall j :: 0 <= j < i ==> o[j] == a[j] - b[j]
    {
      o[i] := a[i] - b[i];
    }
    r := o[..];
    NumberLinear(a, b, r, -1, 16);
  }

  // ---- Powers ----

  function IntPower(x: int, n: nat): int
    decreases n, x
  {
    if n == 0 then 1 else x * IntPower(x, n - 1)
  }

  lemma {:induction false} PowerSum(x: int, m: nat, n: nat)
    ensures IntPower(x, m + n) == IntPower(x, m) * IntPower(x, n)
  {
    if m > 0 {
      PowerSum(x, m - 1, n);
      assert x * (IntPower(x, m - 1) * IntPower(x, n)) == (x * IntPower(x, m - 1)) * IntPower(x, n);
    }
  }

  lemma PowerOne(x: int)
    ensures IntPower(x, 1) == x
  {
    assert IntPower(x, 1) == x * IntPower(x, 0);
  }

  /** `c` holds the `e`-th power of `x`. */
  ghost predicate IsPower(c: Limbs, x: Limbs, e: nat) {
    Congruent(LimbValue(c), IntPower(LimbValue(x), e))
  }

  /** The largest magnitude of a limb of a product. */
  const LIMB_MAX := 65573

  lemma ReducedBounded(s: Limbs)
    requires Reduced(s)
    ensures Bounded(s, 0x3ffff) && Bounded(s, LIMB_MAX)
  {}

  lemma BoundedWidens(s: Limbs, m: int, n: int)
    requires Bounded(s, m) && m <= n
    ensures Bounded(s, n)
  {}

  /** One square-and-multiply step: the exponent doubles, and grows by one if `multiply`. */
  method PowerStep(c: Limbs, x: Limbs, multiply: bool, ghost e: nat) returns (r: Limbs)
    requires Bounded(c, 0x3ffff) && Bounded(x, 0x3ffff) && IsPower(c, x, e)
    ensures Reduced(r) && IsPower(r, x, 2 * e + if multiply then 1 else 0)
  {
    hide Reduced, Number;
    r := MulF(c, c);
    ReducedBounded(r);
    ghost var v := LimbValue(x);
    CongruentOps(LimbValue(c), IntPower(v, e), LimbValue(c), IntPower(v, e), P);
    PowerSum(v, e, e);
    if multiply {
      ghost var squared := r;
      r := MulF(r, x);
      CongruentOps(LimbValue(squared), IntPower(v, 2 * e), v, v, P);
      PowerSum(v, 2 * e, 1);
      PowerOne(v);
    }
  }

  /** How far the exponent falls short of a power of two while `a` steps remain. */
  function InverseShortfall(a: nat): nat {
    if a >= 5 then 1 else if a == 4 then 2 else if a == 3 then 3 else if a == 2 then 6 else if a == 1 then 11 else 21
  }

  /** Raises to the power P - 2, which is 2^255 - 21. */
  method Inv25519(inp: Limbs) returns (r: Limbs)
    requires Bounded(inp, 0x3ffff)
    ensures Reduced(r) && IsPower(r, inp, P - 2)
  {
    hide Reduced, IsPower, Pow2;
    var c := inp;
    ghost var e: nat := 1;
    StartPower(inp);
    for a := 254 downto 0
      invariant Bounded(c, 0x3ffff) && (a < 254 ==> Reduced(c))
      invariant e + InverseShortfall(a) == Pow2(255 - a) && IsPower(c, inp, e)
    {
      Pow2Step(254 - a);
      c := PowerStep(c, inp, a != 2 && a != 4, e);
      e := 2 * e + if a != 2 && a != 4 then 1 else 0;
      ReducedBounded(c);
    }
    r := c;
    Exponents();
  }

  function RootShortfall(a: nat): nat {
    if a >= 2 then 1 else if a == 1 then 2 else 3
  }

  /** Raises to the power (P - 5) / 8, which is 2^252 - 3. */
  method Pow2523(inp: Limbs) returns (r: Limbs)
    requires Bounded(inp, 0x3ffff)
    ensures Reduced(r) && IsPower(r, inp, (P - 5) / 8)
  {
    hide Reduced, IsPower, Pow2;
    var c := inp;
    ghost var e: nat := 1;
    StartPower(inp);
    for a := 251 downto 0
      invariant Bounded(c, 0x3ffff) && (a < 251 ==> Reduced(c))
      invariant e + RootShortfall(a) == Pow2(252 - a) && IsPower(c, inp, e)
    {
      Pow2Step(251 - a);
      c := PowerStep(c, inp, a != 1, e);
      e := 2 * e + if a != 1 then 1 else 0;
      ReducedBounded(c);
    }
    r := c;
    Exponents();
  }

  lemma Exponents()
    ensures Pow2(255) - 21 == P - 2 && Pow2(252) - 3 == (P - 5) / 8
  {
    hide Pow2;
    Pow2Of64();
    Pow2Divides(64, 128);
    Pow2Divides(128, 256);
    Pow2Step(255);
    Pow2Step(254);
    Pow2Step(253);
    Pow2Step(252);
  }

  lemma Pow2Step(n: nat)
    ensures Pow2(n + 1) == 2 * Pow2(n)
  {}

  lemma StartPower(x: Limbs)
    ensures IsPower(x, x, 1) && Pow2(1) == 2
  {
    hide Number;
    PowerOne(LimbValue(x));
  }

  // ---- Conditional selection ----

  /** Swaps `p` and `q` when `b` is not zero, without a branch on the data. */
  method Sel25519(p: array<I64>, q: array<I64>, b: I64)
    requires p.Length == q.Length == 16 && p != q
    modifies p, q
    ensures p[..] == if b != 0 then old(q[..]) else old(p[..])
    ensures q[..] == if b != 0 then old(p[..]) else old(q[..])
  {
    hide Band, Bxor;
    var c: I64 := if b != 0 then -1 else 0;
    for i := 0 to 16
      invariant forall j :: i <= j < 16 ==> p[j] == old(p[j]) && q[j] == old(q[j])
      invariant forall j :: 0 <= j < i ==> p[j] == (if b != 0 then old(q[j]) else old(p[j]))
      invariant forall j :: 0 <= j < i ==> q[j] == (if b != 0 then old(p[j]) else old(q[j]))
    {
      BandAll(Bxor(p[i], q[i]));
      BxorCancels(p[i], q[i]);
      BxorCancels(q[i], p[i]);
      var t := Band(c, Bxor(p[i], q[i]));
      p[i] := Bxor(p[i], t);
      q[i] := Bxor(q[i], t);
    }
  }

  // ---- Canonical form ----

  /** The limbs of P. */
  function PrimeLimb(i: nat): I64 {
    if i == 0 then 0xffed else if i < 15 then 0xffff else 0x7fff
  }

  lemma LowDigit(s: Limbs)
    requires AreDigits(s, 1, 16)
    ensures LimbValue(s) >= s[0] as int && (LimbValue(s) - s[0] as int) % 65536 == 0
  {
    hide Weight;
    NumberSplit(s, 1, 15);
    NumberOne(s);
    DigitsBound(s[1..], 15);
    hide Number;
    AddMultiple(0, Number(s[1..], 15), 65536);
  }

  lemma NumberOne(s: seq<I64>)
    requires |s| >= 1
    ensures Number(s, 1) == s[0] as int && Weight(1) == 65536
  {
    assert Weight(0) == 1;
    assert Number(s, 0) == 0;
  }

  /** After two passes, a third leaves all sixteen limbs carried, limb 0 included. */
  lemma ThirdPassCarries(v: int, s: Limbs)
    requires -1 <= Excess(v) <= 1 && AreDigits(s, 1, 16)
    requires LimbValue(s) == Passed(Passed(v))
    requires 0 <= s[0] as int - 38 * Excess(Passed(v)) < 65536
    ensures AreDigits(s, 0, 16)
  {
    hide Weight, Number;
    LowDigit(s);
    var u := Passed(v);
    var q := Excess(u);
    if q == 1 {
      assert LimbValue(s) == u - TWO_256 + 38;
    } else if q == -1 {
      var m := u + TWO_256;
      assert LimbValue(s) == m - 38;
      assert m % 65536 >= 65536 - 38;
    }
  }

  function PrimeLimbs(): Limbs {
    seq(16, i requires 0 <= i < 16 => PrimeLimb(i))
  }

  lemma {:induction false} AllOnes(s: seq<I64>, n: nat)
    requires n <= |s| && forall j :: 0 <= j < n ==> s[j] == 65535
    ensures Number(s, n) == Weight(n) - 1
  {
    if n > 0 {
      AllOnes(s, n - 1);
    }
  }

  lemma PrimeValue()
    ensures LimbValue(PrimeLimbs()) == P
  {
    hide Number, Weight;
    var ones: Limbs := seq(16, _ => 65535);
    AllOnes(ones, 16);
    WeightSixteen();
    TopWeight();
    NumberUpdate(ones, 15, 0x7fff, 16);
    var s := ones[15 := 0x7fff];
    NumberUpdate(s, 0, 0xffed, 16);
    assert s[0 := 0xffed] == PrimeLimbs();
  }

  /** Whether a limb difference borrows. */
  function Borrow(x: I64): I64
    requires -65536 <= x <= 65535
  {
    Band(ShiftRight(x, 65536), 1)
  }

  lemma BorrowIs(x: I64)
    requires -65536 <= x <= 65535
    ensures Borrow(x) == if x < 0 then 1 else 0
  {
    hide Band;
    assert Pow2(1) == 2;
    BandMask(ShiftRight(x, 65536), 1, 1);
  }

  lemma LowSixteen(x: I64)
    requires -65536 <= x <= 65535
    ensures Band(x, 0xffff) == if x < 0 then x + 65536 else x
  {
    hide Band, Pow2;
    Pow2Values();
    BandMask(x, 16, 0xffff);
  }

  /** `m` holds `t` minus P up to limb `i`, the last of them not yet masked. */
  ghost predicate PartialDifference(t: Limbs, m: Limbs, i: nat) {
    && 1 <= i <= 16 && AreDigits(m, 0, i - 1) && -65536 <= m[i - 1] <= 65535
    && Number(m, i) == Number(t, i) - Number(PrimeLimbs(), i)
  }

  lemma DifferenceStarts(t: Limbs, m: Limbs)
    requires AreDigits(t, 0, 16) && m[0] == t[0] - 0xffed
    ensures PartialDifference(t, m, 1)
  {
    NumberOne(t);
    NumberOne(m);
    NumberOne(PrimeLimbs());
  }

  lemma DifferenceStep(t: Limbs, m: Limbs, m': Limbs, i: nat)
    requires AreDigits(t, 0, 16) && 1 <= i < 16 && PartialDifference(t, m, i)
    requires var b: I64 := if m[i - 1] < 0 then 1 else 0;
             m'[i] == t[i] - PrimeLimb(i) - b && m'[i - 1] == m[i - 1] + 65536 * b
    requires forall j :: 0 <= j < i - 1 ==> m'[j] == m[j]
    ensures PartialDifference(t, m', i + 1)
  {
    hide Weight, Number;
    var b := if m[i - 1] < 0 then 1 else 0;
    NumberStep(m, i - 1);
    NumberStep(m', i - 1);
    NumberStep(m', i);
    NumberStep(t, i);
    NumberStep(PrimeLimbs(), i);
    NumberFrame(m, m', i - 1);
    WeightStep(i - 1);
    BorrowMoves(m[i - 1] as int, t[i] as int, PrimeLimb(i) as int, b, Weight(i - 1), Weight(i));
  }

  lemma BorrowMoves(x: int, t: int, p: int, b: int, w: int, w': int)
    requires w' == 65536 * w
    ensures (x + 65536 * b) * w + (t - p - b) * w' == x * w + t * w' - p * w'
  {
    assert (x + 65536 * b) * w == x * w + b * w';
    assert (t - p - b) * w' == t * w' - p * w' - b * w';
  }

  lemma DifferenceEnds(t: Limbs, m: Limbs)
    requires AreDigits(t, 0, 16) && PartialDifference(t, m, 16)
    ensures LimbValue(m) == LimbValue(t) - P
    ensures m[15] < 0 <==> LimbValue(t) < P
  {
    hide Weight, Number;
    PrimeValue();
    NumberStep(m, 15);
    DigitsBound(m, 15);
    var w := Weight(15);
    if m[15] < 0 {
      assert m[15] as int * w <= -w;
    } else {
      assert m[15] as int * w >= 0;
    }
  }

  /** Replaces `t` by `t` minus P when that is not negative. */
  method SubtractPrime(t: array<I64>, m: array<I64>)
    requires t.Length == m.Length == 16 && t != m && AreDigits(t[..], 0, 16)
    modifies t, m
    ensures AreDigits(t[..], 0, 16)
    ensures var v := LimbValue(old(t[..])); LimbValue(t[..]) == if v >= P then v - P else v
  {
    hide Band, Number;
    ghost var t0 := t[..];
    m[0] := t[0] - 0xffed;
    DifferenceStarts(t0, m[..]);
    for i := 1 to 15
      invariant t[..] == t0 && PartialDifference(t0, m[..], i)
    {
      ghost var before := m[..];
      BorrowIs(m[i - 1]);
      LowSixteen(m[i - 1]);
      m[i] := t[i] - 0xffff - Borrow(m[i - 1]);
      m[i - 1] := Band(m[i - 1], 0xffff);
      DifferenceStep(t0, before, m[..], i);
    }
    ghost var before := m[..];
    BorrowIs(m[14]);
    LowSixteen(m[14]);
    m[15] := t[15] - 0x7fff - Borrow(m[14]);
    var b := Borrow(m[15]);
    BorrowIs(m[15]);
    m[14] := Band(m[14], 0xffff);
    DifferenceStep(t0, before, m[..], 15);
    DifferenceEnds(t0, m[..]);
    Sel25519(t, m, 1 - b);
  }

  // ---- Bytes ----

  function ByteWeight(i: nat): (w: nat)
    ensures w >= 1
  {
    if i == 0 then 1 else 256 * ByteWeight(i - 1)
  }

  /** The little-endian number in the first `n` bytes. */
  function LittleEndian(b: seq<Byte>, n: nat): nat
    requires n <= |b|
  {
    if n == 0 then 0 else LittleEndian(b, n - 1) + b[n - 1] * ByteWeight(n - 1)
  }

  lemma {:induction false} ByteWeightPairs(i: nat)
    ensures ByteWeight(2 * i) == Weight(i) && ByteWeight(2 * i + 1) == 256 * Weight(i)
  {
    if i > 0 {
      ByteWeightPairs(i - 1);
    }
  }

  lemma {:induction false} BytesOfLimbs(t: Limbs, b: seq<Byte>, i: nat)
    requires i <= 16 && |b| == 32
    requires forall j :: 0 <= j < i ==> t[j] as int == LimbOfBytes(b[2 * j], b[2 * j + 1])
    ensures LittleEndian(b, 2 * i) == Number(t, i)
  {
    if i > 0 {
      BytesOfLimbs(t, b, i - 1);
      ByteWeightPairs(i - 1);
      LittleEndianPair(b, i - 1);
      hide LittleEndian, ByteWeight, Weight;
      PairStep(b[2 * i - 2], b[2 * i - 1], Weight(i - 1));
    }
  }

  function LimbOfBytes(lo: nat, hi: nat): nat {
    lo + hi * 256
  }

  lemma LittleEndianPair(b: seq<Byte>, i: nat)
    requires 2 * i + 2 <= |b|
    ensures LittleEndian(b, 2 * i + 2)
         == LittleEndian(b, 2 * i) + b[2 * i] * ByteWeight(2 * i) + b[2 * i + 1] * ByteWeight(2 * i + 1)
  {
    assert LittleEndian(b, 2 * i + 2) == LittleEndian(b, 2 * i + 1) + b[2 * i + 1] * ByteWeight(2 * i + 1);
  }

  lemma PairStep(lo: nat, hi: nat, w: int)
    ensures lo * w + hi * (256 * w) == LimbOfBytes(lo, hi) * w
  {
    assert hi * (256 * w) == (hi * 256) * w;
  }

  /** The 32 bytes of the unique representative below P. */
  method Pack25519(n: Limbs) returns (o: seq<Byte>)
    requires Bounded(n, 0x3ffff)
    ensures |o| == 32 && LittleEndian(o, 32) == LimbValue(n) % P
  {
    hide Number, Weight;
    var t := new I64[16](i requires 0 <= i < 16 => n[i]);
    assert t[..] == n;
    ThreePasses(t);
    ghost var v := LimbValue(t[..]);
    DigitsBound(t[..], 16);
    WeightSixteen();
    var m := new I64[16](_ => 0);
    SubtractPrime(t, m);
    SubtractPrime(t, m);
    CanonicalResidue(v, LimbValue(t[..]));
    o := LimbBytes(t);
  }

  /** Three carry passes fully carry every small limb vector. */
  method ThreePasses(t: array<I64>)
    requires t.Length == 16 && Bounded(t[..], 0x3ffff)
    modifies t
    ensures AreDigits(t[..], 0, 16) && Congruent(LimbValue(t[..]), LimbValue(old(t[..])))
  {
    hide Number, LimbValue, Congruent, Passed, Excess;
    ghost var v0 := LimbValue(t[..]);
    BoundedWidens(t[..], 0x3ffff, 0x2700_0000_0000);
    FirstPassQuotient(t[..]);
    Car25519(t);
    PassKeepsResidue(v0);
    SecondPassQuotient(v0);
    ghost var v1 := LimbValue(t[..]);
    Car25519(t);
    PassKeepsResidue(v1);
    ghost var v2 := LimbValue(t[..]);
    Car25519(t);
    PassKeepsResidue(v2);
    ThirdPassCarries(v1, t[..]);
    CongruentChain(v0, v1, v2, LimbValue(t[..]));
  }

  lemma CongruentChain(a: int, b: int, c: int, d: int)
    requires a % P == b % P == c % P == d % P
    ensures Congruent(d, a)
  {}

  lemma CanonicalResidue(v: int, r: int)
    requires 0 <= v < TWO_256
    requires var u := if v >= P then v - P else v; r == if u >= P then u - P else u
    ensures r == v % P
  {
    var k := (v - r) / P;
    assert v == P * k + r && 0 <= r < P;
    DivUnique(v, P, k, r);
  }

  method LimbBytes(t: array<I64>) returns (o: seq<Byte>)
    requires t.Length == 16 && AreDigits(t[..], 0, 16)
    ensures |o| == 32 && LittleEndian(o, 32) == LimbValue(t[..])
  {
    hide Band, Number, LittleEndian;
    var bytes := new Byte[32](_ => 0);
    for i := 0 to 16
      invariant forall j :: 0 <= j < i ==> t[j] as int == LimbOfBytes(bytes[2 * j], bytes[2 * j + 1])
    {
      ByteMask(t[i]);
      ByteMask(ShiftRight(t[i], 256));
      bytes[2 * i] := Band(t[i], 0xff) as int;
      bytes[2 * i + 1] := Band(ShiftRight(t[i], 256), 0xff) as int;
    }
    o := bytes[..];
    BytesOfLimbs(t[..], o, 16);
  }

  lemma ByteMask(x: I64)
    ensures Band(x, 0xff) as int == x as int % 256
  {
    hide Band, Pow2;
    Pow2Values();
    BandMask(x, 8, 0xff);
  }
}
