/** Reduction modulo the group order L of 64 signed radix-256 columns. */
module Scalar25519 {
  import opened ModArith
  import opened Word64
  import opened BitOps
  import opened Field25519

  /** The order of the base point: 2^252 plus a 125-bit number. */
  const ORDER := 0x10000000_00000000_00000000_00000000_14def9de_a2f79cd6_5812631a_5cf5d3ed

  const LOW_ORDER := 0x14def9de_a2f79cd6_5812631a_5cf5d3ed

  /** The bytes of the order, least significant first. */
  function OrderByte(j: nat): (b: I64)
    ensures 0 <= b <= 255
    ensures 16 <= j != 31 ==> b == 0
  {
    if j < 16 then
      [0xed, 0xd3, 0xf5, 0x5c, 0x1a, 0x63, 0x12, 0x58,
       0xd6, 0x9c, 0xf7, 0xa2, 0xde, 0xf9, 0xde, 0x14][j]
    else if j == 31 then 0x10
    else 0
  }

  /** The integer that the first `n` columns stand for. */
  function Columned(s: seq<I64>, n: nat): int
    requires n <= |s|
  {
    if n == 0 then 0 else Columned(s, n - 1) + s[n - 1] as int * ByteWeight(n - 1)
  }

  /** The low `n` bytes of the order, as a number. */
  function OrderPrefix(n: nat): int {
    if n == 0 then 0 else OrderPrefix(n - 1) + OrderByte(n - 1) as int * ByteWeight(n - 1)
  }

  lemma ByteWeightStep(i: nat)
    ensures ByteWeight(i + 1) == 256 * ByteWeight(i)
  {}

  lemma ByteWeightValues()
    ensures ByteWeight(8) == 0x1_00000000_00000000
    ensures ByteWeight(16) == 0x1_00000000_00000000_00000000_00000000
    ensures ByteWeight(31) * 256 == ByteWeight(32) == TWO_256
  {
    hide Weight, ByteWeight;
    ByteWeightPairs(4);
    ByteWeightPairs(8);
    ByteWeightPairs(16);
    assert Weight(4) == 0x1_00000000_00000000 && Weight(8) == 0x1_00000000_00000000_00000000_00000000 by {
      WeightFour();
    }
    WeightSixteen();
    ByteWeightStep(31);
  }

  lemma WeightFour()
    ensures Weight(4) == 0x1_00000000_00000000
    ensures Weight(8) == 0x1_00000000_00000000_00000000_00000000
  {
    assert Weight(4) == 0x1_00000000_00000000;
  }

  lemma OrderPrefixStart()
    ensures OrderPrefix(0) == 0
  {}

  lemma OrderPrefixStep(n: nat)
    ensures OrderPrefix(n + 1) == OrderPrefix(n) + OrderByte(n) as int * ByteWeight(n)
  {}

  lemma {:induction false} OrderPrefixFlat(n: nat)
    requires 16 <= n <= 31
    ensures OrderPrefix(n) == OrderPrefix(16)
  {
    hide ByteWeight, OrderByte;
    if n > 16 {
      OrderPrefixFlat(n - 1);
      OrderPrefixStep(n - 1);
    }
  }

  lemma OrderPrefixLow()
    ensures OrderPrefix(16) == LOW_ORDER
  {
    assert OrderPrefix(4) == 0x5cf5d3ed;
    assert OrderPrefix(8) == 0x5812631a_5cf5d3ed;
    assert OrderPrefix(12) == 0xa2f79cd6_5812631a_5cf5d3ed;
  }

  lemma OrderPrefixValues()
    ensures OrderPrefix(20) == LOW_ORDER && OrderPrefix(32) == ORDER
    ensures ORDER == 16 * ByteWeight(31) + LOW_ORDER
  {
    hide ByteWeight, OrderPrefix;
    OrderPrefixLow();
    OrderPrefixFlat(20);
    OrderPrefixFlat(31);
    OrderPrefixStep(31);
    ByteWeightValues();
  }

  // ---- Columns as numbers ----

  lemma {:induction false} ColumnedFrame(s: seq<I64>, t: seq<I64>, n: nat)
    requires n <= |s| && n <= |t| && forall j :: 0 <= j < n ==> s[j] == t[j]
    ensures Columned(s, n) == Columned(t, n)
  {
    if n > 0 {
      ColumnedFrame(s, t, n - 1);
    }
  }

  lemma {:induction false} ColumnedUpdate(s: seq<I64>, i: nat, x: I64, n: nat)
    requires i < n <= |s|
    ensures Columned(s[i := x], n) == Columned(s, n) + (x as int - s[i] as int) * ByteWeight(i)
  {
    hide ByteWeight;
    if i == n - 1 {
      ColumnedFrame(s[i := x], s, i);
      assert (x as int - s[i] as int) * ByteWeight(i) == x as int * ByteWeight(i) - s[i] as int * ByteWeight(i);
    } else {
      ColumnedUpdate(s, i, x, n - 1);
    }
  }

  lemma ByteWeightZero()
    ensures ByteWeight(0) == 1
  {}

  lemma {:induction false} ByteWeightSum(i: nat, j: nat)
    ensures ByteWeight(i + j) == ByteWeight(i) * ByteWeight(j)
  {
    hide ByteWeight;
    ByteWeightZero();
    if j > 0 {
      ByteWeightSum(i, j - 1);
      ByteWeightStep(j - 1);
      ByteWeightStep(i + j - 1);
      var w, v := ByteWeight(i), ByteWeight(j - 1);
      assert w * (256 * v) == 256 * (w * v);
    }
  }

  // ---- Clearing a high column ----

  const COLUMN_BOUND := 0x40_0000

  /** Columns `lo` to `hi` are signed bytes. */
  ghost predicate SignedBytes(s: seq<I64>, lo: int, hi: int)
    requires 0 <= lo && hi <= |s|
  {
    forall j :: lo <= j < hi ==> -128 <= s[j] <= 127
  }

  ghost predicate Within(s: seq<I64>, bound: int) {
    forall j :: 0 <= j < |s| ==> -bound <= s[j] as int <= bound
  }

  /** A bound on the carry out of the first `k` of the twenty columns of a row; `tame` says that
      the last four of them were signed bytes before. */
  function CarryBound(k: nat, tame: bool): int {
    if k <= 16 then 0x800_0000
    else if k == 17 then 0x10_0000
    else if k == 18 then if tame then 0x2000 else 0x8000
    else if k == 19 then if tame then 64 else 0x8000
    else if tame then 1 else 0x8000
  }

  lemma CarryStaysSmall(k: nat, tame: bool, xj: int, carry: int, xi: int, y: int)
    requires k < 20 && -CarryBound(k, tame) <= carry <= CarryBound(k, tame)
    requires -COLUMN_BOUND <= xj <= COLUMN_BOUND && -COLUMN_BOUND <= xi <= COLUMN_BOUND
    requires tame && k >= 16 ==> -128 <= xj <= 127
    requires y == xj + carry - 16 * xi * OrderByte(k) as int
    ensures -CarryBound(k + 1, tame) <= (y + 128) / 256 <= CarryBound(k + 1, tame)
  {
    if k < 16 {
      OrderTimesBound(xi, k);
    }
  }

  /** What `n` columns and a carry into column `j` stand for. */
  ghost function Balance(s: seq<I64>, n: nat, carry: int, j: nat): int
    requires n <= |s|
  {
    Columned(s, n) + carry * ByteWeight(j)
  }

  /** `m` times the low `k` bytes of the order, from column `b` on. */
  ghost function Due(m: int, b: nat, k: nat): int {
    m * (ByteWeight(b) * OrderPrefix(k))
  }

  /** Subtracts the multiple of the order that removes column `i`. */
  method ClearColumn(x: array<I64>, i: nat) returns (ghost carried: int)
    requires x.Length == 64 && 32 <= i < 64 && Within(x[..], COLUMN_BOUND)
    modifies x
    ensures SignedBytes(x[..], i - 32, i - 12) && x[i] == 0
    ensures x[i - 12] as int == old(x[i - 12]) as int + carried && -0x8000 <= carried <= 0x8000
    ensures old(SignedBytes(x[..], i - 16, i - 12)) ==> -1 <= carried <= 1
    ensures forall j :: 0 <= j < 64 && (j < i - 32 || i - 12 < j != i) ==> x[j] == old(x[j])
    ensures Columned(x[..], 64) == Columned(old(x[..]), 64) - ORDER * (16 * old(x[i]) as int * ByteWeight(i - 32))
  {
    hide Columned, ByteWeight, OrderPrefix, OrderByte, Balance, Due;
    ghost var old_x := x[..];
    ghost var tame := SignedBytes(old_x, i - 16, i - 12);
    ghost var m := 16 * x[i] as int;
    RowStarts(old_x, 64, m, i - 32);
    var carry: I64 := 0;
    var j := i - 32;
    while j < i - 12
      invariant i - 32 <= j <= i - 12
      invariant -CarryBound(j - (i - 32), tame) <= carry as int <= CarryBound(j - (i - 32), tame)
      invariant SignedBytes(x[..], i - 32, j)
      invariant forall h :: 0 <= h < 64 && (h < i - 32 || j <= h) ==> x[h] == old_x[h]
      invariant Balance(x[..], 64, carry as int, j) == Columned(old_x, 64) - Due(m, i - 32, j - (i - 32))
    {
      ghost var before := x[..];
      ghost var c := carry as int;
      ghost var k := j - (i - 32);
      OrderTimesBound(x[i] as int, k);
      var y := x[j] + carry - 16 * x[i] * OrderByte(j - (i - 32));
      CarryStaysSmall(k, tame, x[j] as int, c, x[i] as int, y as int);
      carry := ShiftRight(y + 128, 256);
      x[j] := y - carry * 256;
      assert x[..] == before[j := x[j]];
      RowStep(before, 64, c, carry as int, x[j], m, k, i - 32);
      j := j + 1;
    }
    ghost var before := x[..];
    x[i - 12] := x[i - 12] + carry;
    x[i] := 0;
    carried := carry as int;
    assert x[..] == before[i - 12 := x[i - 12]][i := 0];
    RowEnds(before, i, carried);
  }

  lemma OrderTimesBound(x: int, k: nat)
    requires -COLUMN_BOUND <= x <= COLUMN_BOUND
    ensures -0x3fc0_0000 <= x * OrderByte(k) as int <= 0x3fc0_0000
    ensures 16 * x * OrderByte(k) as int == 16 * (x * OrderByte(k) as int)
  {
    hide OrderByte;
    var b := OrderByte(k) as int;
    Scaled(x, b, -COLUMN_BOUND, COLUMN_BOUND);
  }

  lemma RowStarts(s: seq<I64>, n: nat, m: int, b: nat)
    requires n <= |s|
    ensures Balance(s, n, 0, b) == Columned(s, n) - Due(m, b, 0)
  {}

  lemma RowStep(s: seq<I64>, n: nat, c: int, c': int, x': I64, m: int, k: nat, b: nat)
    requires b + k < n <= |s|
    requires x' as int + 256 * c' == s[b + k] as int + c - m * OrderByte(k) as int
    ensures Balance(s[b + k := x'], n, c', b + k + 1) + Due(m, b, k + 1) == Balance(s, n, c, b + k) + Due(m, b, k)
  {
    hide OrderByte, ByteWeight, OrderPrefix, Columned;
    ColumnedUpdate(s, b + k, x', n);
    ByteWeightSum(b, k);
    ByteWeightStep(b + k);
    OrderPrefixStep(k);
    var w, v, p, d := ByteWeight(b), ByteWeight(k), OrderPrefix(k), OrderByte(k) as int;
    assert c' * (256 * (w * v)) == (256 * c') * (w * v);
    RowAlgebra(x' as int - s[b + k] as int, 256 * c', c, w, v, m, d, p);
  }

  lemma RowAlgebra(dx: int, c'': int, c: int, w: int, v: int, m: int, d: int, p: int)
    requires dx + c'' - c == -m * d
    ensures dx * (w * v) + c'' * (w * v) - c * (w * v) == m * (w * p) - m * (w * (p + d * v))
  {
    var u := w * v;
    assert dx * u + c'' * u - c * u == (dx + c'' - c) * u;
    assert w * (p + d * v) == w * p + d * u;
    assert m * (w * p + d * u) == m * (w * p) + m * d * u;
    assert (-m * d) * u == -(m * d * u);
  }

  lemma RowEnds(s: seq<I64>, i: nat, c: int)
    requires |s| == 64 && 32 <= i < 64 && -0x8000 <= c <= 0x8000 && Within(s, COLUMN_BOUND)
    ensures Columned(s[i - 12 := s[i - 12] + c as I64][i := 0], 64) + ORDER * (16 * s[i] as int * ByteWeight(i - 32))
         == Balance(s, 64, c, i - 12) + Due(16 * s[i] as int, i - 32, 20)
  {
    hide ByteWeight, OrderPrefix, Columned, Balance, Due;
    assert -COLUMN_BOUND <= s[i - 12] as int <= COLUMN_BOUND;
    BalanceIs(s, c, i - 12);
    var t := s[i - 12 := s[i - 12] + c as I64];
    ColumnedUpdate(s, i - 12, s[i - 12] + c as I64, 64);
    ColumnedUpdate(t, i, 0, 64);
    WholeRow(s[i] as int, i);
  }

  lemma BalanceIs(s: seq<I64>, c: int, j: nat)
    requires |s| == 64
    ensures Balance(s, 64, c, j) == Columned(s, 64) + c * ByteWeight(j)
  {}

  lemma WholeRow(xi: int, i: nat)
    requires 32 <= i
    ensures ORDER * (16 * xi * ByteWeight(i - 32)) == Due(16 * xi, i - 32, 20) + xi * ByteWeight(i)
  {
    hide ByteWeight, OrderPrefix;
    OrderPrefixValues();
    ByteWeightValues();
    ByteWeightSum(i - 32, 32);
    var w := ByteWeight(i - 32);
    var u := 16 * xi * w;
    assert xi * (w * TWO_256) == u * (16 * ByteWeight(31)) by {
      assert TWO_256 == 16 * (16 * ByteWeight(31));
      PullOut(xi, w, 16 * ByteWeight(31));
    }
    assert (16 * xi) * (w * LOW_ORDER) == u * LOW_ORDER;
    Distribute(u, 16 * ByteWeight(31), LOW_ORDER);
    assert u * ORDER == ORDER * u;
  }

  lemma PullOut(x: int, w: int, v: int)
    ensures x * (w * (16 * v)) == 16 * x * w * v
  {
    assert w * (16 * v) == 16 * (w * v);
    assert x * (16 * (w * v)) == 16 * (x * (w * v));
    assert x * (w * v) == x * w * v;
  }

  // ---- Clearing all the high columns ----

  /** The largest column that adding thirty-two byte products to a byte can give. */
  const MAX_COLUMN := 32 * 255 * 255 + 255

  /** Columns above `i` are clear, those below the last row worked on are untouched, those inside
      it are signed bytes, and the others have taken one more carry. */
  ghost predicate Folding(s: seq<I64>, i: int) {
    && |s| == 64 && 31 <= i < 64
    && (forall j :: i < j < 64 ==> s[j] == 0)
    && (forall j :: 0 <= j < 64 && (j <= i - 32 || i == 63) ==> 0 <= s[j] as int <= MAX_COLUMN)
    && (i < 63 ==> SignedBytes(s, i - 31, i - 11))
    && (forall j :: i - 11 <= j <= i && j <= 50 ==> -129 <= s[j] <= 128)
    && (forall j :: 50 < j <= i ==> -0x8000 <= s[j] as int <= MAX_COLUMN + 0x8000)
  }

  lemma FoldingWithin(s: seq<I64>, i: int)
    requires Folding(s, i)
    ensures Within(s, COLUMN_BOUND)
  {
    forall j | 0 <= j < 64
      ensures -COLUMN_BOUND <= s[j] as int <= COLUMN_BOUND
    {
      if i < 63 && i - 31 <= j < i - 11 {
        assert -128 <= s[j] <= 127;
      }
    }
  }

  lemma FoldingStep(s: seq<I64>, s': seq<I64>, i: int, carried: int)
    requires Folding(s, i) && i >= 32 && |s'| == 64
    requires SignedBytes(s', i - 32, i - 12) && s'[i] == 0
    requires s'[i - 12] as int == s[i - 12] as int + carried && -0x8000 <= carried <= 0x8000
    requires SignedBytes(s, i - 16, i - 12) ==> -1 <= carried <= 1
    requires forall j :: 0 <= j < 64 && (j < i - 32 || i - 12 < j != i) ==> s'[j] == s[j]
    ensures Folding(s', i - 1)
  {
    if i < 63 {
      assert SignedBytes(s, i - 16, i - 12);
      assert -128 <= s[i - 12] <= 127;
    }
  }

  method FoldHigh(x: array<I64>)
    requires x.Length == 64 && forall j :: 0 <= j < 64 ==> 0 <= x[j] as int <= MAX_COLUMN
    modifies x
    ensures forall j :: 32 <= j < 64 ==> x[j] == 0
    ensures forall j :: 0 <= j < 32 ==> -129 <= x[j] <= 128
    ensures Columned(x[..], 64) % ORDER == Columned(old(x[..]), 64) % ORDER
  {
    hide Columned, ByteWeight;
    var i := 63;
    while i >= 32
      invariant 31 <= i <= 63 && Folding(x[..], i)
      invariant Columned(x[..], 64) % ORDER == Columned(old(x[..]), 64) % ORDER
    {
      ghost var before := x[..];
      FoldingWithin(before, i);
      ghost var carried := ClearColumn(x, i);
      FoldingStep(before, x[..], i, carried);
      Offset(Columned(x[..], 64), Columned(before, 64), -(16 * before[i] as int * ByteWeight(i - 32)), ORDER);
      i := i - 1;
    }
    forall j | 0 <= j < 32
      ensures -129 <= x[j] <= 128
    {
      FoldedBounds(x[..], j);
    }
  }

  lemma FoldedBounds(s: seq<I64>, j: nat)
    requires Folding(s, 31) && j < 32
    ensures -129 <= s[j] <= 128
  {
    if j < 20 {
      assert -128 <= s[j] <= 127;
    }
  }

  // ---- The last multiple of the order ----

  lemma Scaled(x: int, w: int, lo: int, hi: int)
    requires lo <= x <= hi && w >= 0
    ensures lo * w <= x * w <= hi * w
  {
    assert (x - lo) * w >= 0 && (hi - x) * w >= 0;
    assert (x - lo) * w == x * w - lo * w && (hi - x) * w == hi * w - x * w;
  }

  lemma {:induction false} SignedBound(s: seq<I64>, n: nat)
    requires n <= |s| && forall j :: 0 <= j < n ==> -129 <= s[j] <= 129
    ensures -129 * (ByteWeight(n) - 1) <= 255 * Columned(s, n) <= 129 * (ByteWeight(n) - 1)
  {
    if n > 0 {
      SignedBound(s, n - 1);
      ColumnedStep(s, n - 1);
      ByteWeightStep(n - 1);
      hide Columned, ByteWeight;
      Scaled(s[n - 1] as int, ByteWeight(n - 1), -129, 129);
    }
  }

  lemma {:induction false} BytesBound(s: seq<I64>, n: nat)
    requires n <= |s| && forall j :: 0 <= j < n ==> 0 <= s[j] <= 255
    ensures 0 <= Columned(s, n) < ByteWeight(n)
  {
    if n > 0 {
      BytesBound(s, n - 1);
      ColumnedStep(s, n - 1);
      ByteWeightStep(n - 1);
      hide Columned, ByteWeight;
      Scaled(s[n - 1] as int, ByteWeight(n - 1), 0, 255);
    }
  }

  lemma ColumnedStep(s: seq<I64>, n: nat)
    requires n < |s|
    ensures Columned(s, n + 1) == Columned(s, n) + s[n] as int * ByteWeight(n)
  {}

  /** Taking off the order as often as the top column says leaves less than the order, and not
      much less than zero. */
  lemma RemainderBounds(s: seq<I64>, q: int)
    requires |s| == 64 && (forall j :: 0 <= j < 32 ==> -129 <= s[j] <= 128) && q == s[31] as int / 16
    ensures -ORDER < Columned(s, 32) - q * ORDER < ORDER
  {
    hide Columned, ByteWeight;
    SignedBound(s, 31);
    ColumnedStep(s, 31);
    ByteWeightValues();
    var w := ByteWeight(31);
    var low, r := Columned(s, 31), s[31] as int % 16;
    assert s[31] as int == 16 * q + r;
    assert (16 * q + r) * w - q * ORDER == r * w - q * LOW_ORDER;
  }

  method SubtractMultiple(x: array<I64>) returns (carry: I64)
    requires x.Length == 64 && forall j :: 0 <= j < 32 ==> -129 <= x[j] <= 128
    modifies x
    ensures forall j :: 0 <= j < 32 ==> 0 <= x[j] <= 255
    ensures forall j :: 32 <= j < 64 ==> x[j] == old(x[j])
    ensures -10 <= carry <= 10
    ensures Columned(x[..], 32) + carry as int * TWO_256
         == Columned(old(x[..]), 32) - (old(x[31]) as int / 16) * ORDER
  {
    hide Columned, ByteWeight, OrderPrefix, OrderByte, Band, Balance, Due;
    ghost var s0, q := x[..], x[31] as int / 16;
    RowStarts(s0, 32, q, 0);
    carry := 0;
    for j := 0 to 32
      invariant -10 <= carry <= 10
      invariant forall h :: 0 <= h < j ==> 0 <= x[h] <= 255
      invariant forall h :: j <= h < 64 ==> x[h] == s0[h]
      invariant Balance(x[..], 32, carry as int, j) == Columned(s0, 32) - Due(q, 0, j)
    {
      ghost var before, c := x[..], carry as int;
      assert x[31] == s0[31];
      SmallMultiple(q, j);
      x[j] := x[j] + carry - ShiftRight(x[31], 16) * OrderByte(j);
      ghost var y := x[j];
      carry := ShiftRight(x[j], 256);
      ByteMask(x[j]);
      x[j] := Band(x[j], 255);
      assert x[..] == before[j := x[j]];
      RowStep(before, 32, c, carry as int, x[j], q, j, 0);
    }
    MultipleEnds(x[..], carry as int, q);
  }

  lemma MultipleEnds(s: seq<I64>, c: int, q: int)
    requires |s| == 64
    ensures Balance(s, 32, c, 32) == Columned(s, 32) + c * TWO_256 && Due(q, 0, 32) == q * ORDER
  {
    hide ByteWeight, Columned, OrderPrefix;
    OrderPrefixValues();
    ByteWeightValues();
    ByteWeightSum(0, 0);
    assert ByteWeight(0) == 1;
  }

  lemma SmallMultiple(q: int, j: nat)
    requires -9 <= q <= 8
    ensures -9 * 255 <= q * OrderByte(j) as int <= 8 * 255
  {
    var b := OrderByte(j) as int;
    hide OrderByte;
    assert (8 - q) * b >= 0 && (q + 9) * b >= 0;
  }

  /** Adds the order back when the subtraction went below zero. */
  method AddBack(x: array<I64>, carry: I64)
    requires x.Length == 64 && -1 <= carry <= 0 && forall j :: 0 <= j < 32 ==> 0 <= x[j] <= 255
    modifies x
    ensures forall j :: 0 <= j < 32 ==> 0 <= x[j] <= 510
    ensures forall j :: 32 <= j < 64 ==> x[j] == old(x[j])
    ensures Columned(x[..], 32) == Columned(old(x[..]), 32) - carry as int * ORDER
  {
    hide Columned, ByteWeight, OrderPrefix, OrderByte;
    OrderPrefixStart();
    for j := 0 to 32
      invariant forall h :: 0 <= h < j ==> 0 <= x[h] <= 510
      invariant forall h :: j <= h < 64 ==> x[h] == old(x[h])
      invariant Columned(x[..], 32) == Columned(old(x[..]), 32) - carry as int * OrderPrefix(j)
    {
      ghost var before := x[..];
      x[j] := x[j] - carry * OrderByte(j);
      assert x[..] == before[j := x[j]];
      ColumnedUpdate(before, j, x[j], 32);
      OrderPrefixStep(j);
      hide *;
      assert carry as int * (OrderPrefix(j) + OrderByte(j) as int * ByteWeight(j))
          == carry as int * OrderPrefix(j) + (carry as int * OrderByte(j) as int) * ByteWeight(j);
    }
    OrderPrefixValues();
  }

  method EmitBytes(x: array<I64>) returns (r: seq<Byte>)
    requires x.Length == 64 && x[32] == 0 && forall j :: 0 <= j < 32 ==> 0 <= x[j] <= 510
    modifies x
    ensures |r| == 32 && LittleEndian(r, 32) == Columned(old(x[..]), 32) % TWO_256
  {
    hide Columned, ByteWeight, LittleEndian, Band;
    ghost var s0 := x[..];
    r := [];
    LittleEndianStart(r);
    ColumnedStart(s0);
    for j := 0 to 32
      invariant |r| == j && 0 <= x[j] <= 512
      invariant forall h :: j < h < 33 ==> x[h] == s0[h]
      invariant LittleEndian(r, j) + (x[j] as int - s0[j] as int) * ByteWeight(j) == Columned(s0, j)
    {
      ByteMask(x[j]);
      x[j + 1] := x[j + 1] + ShiftRight(x[j], 256);
      var b: Byte := Band(x[j], 255) as int;
      LittleEndianAppend(r, b);
      ColumnedStep(s0, j);
      ByteWeightStep(j);
      EmitStep(x[j] as int, b, x[j + 1] as int - s0[j + 1] as int, s0[j] as int, ByteWeight(j));
      r := r + [b];
    }
    ByteWeightValues();
    LittleEndianBound(r, 32);
    DivUnique(Columned(s0, 32), TWO_256, x[32] as int, LittleEndian(r, 32));
  }

  lemma EmitStep(y: int, b: int, d: int, o: int, w: int)
    requires y == 256 * d + b
    ensures b * w + d * (256 * w) == (y - o) * w + o * w
  {
    assert d * (256 * w) == (256 * d) * w;
    assert (y - o) * w + o * w == y * w;
  }

  lemma ColumnedStart(s: seq<I64>)
    ensures Columned(s, 0) == 0
  {}

  lemma LittleEndianStart(b: seq<Byte>)
    ensures LittleEndian(b, 0) == 0
  {}

  lemma LittleEndianAppend(r: seq<Byte>, b: Byte)
    ensures LittleEndian(r + [b], |r| + 1) == LittleEndian(r, |r|) + b * ByteWeight(|r|)
  {
    LittleEndianFrame(r + [b], r, |r|);
  }

  lemma {:induction false} LittleEndianFrame(a: seq<Byte>, b: seq<Byte>, n: nat)
    requires n <= |a| && n <= |b| && forall j :: 0 <= j < n ==> a[j] == b[j]
    ensures LittleEndian(a, n) == LittleEndian(b, n)
  {
    if n > 0 {
      LittleEndianFrame(a, b, n - 1);
    }
  }

  lemma {:induction false} LittleEndianBound(b: seq<Byte>, n: nat)
    requires n <= |b|
    ensures 0 <= LittleEndian(b, n) < ByteWeight(n)
  {
    if n > 0 {
      LittleEndianBound(b, n - 1);
      ByteWeightStep(n - 1);
      Scaled(b[n - 1], ByteWeight(n - 1), 0, 255);
      assert LittleEndian(b, n) == LittleEndian(b, n - 1) + b[n - 1] * ByteWeight(n - 1);
      hide LittleEndian, ByteWeight;
    }
  }

  /** The 32 bytes of the number in the columns, modulo the order. */
  method ModL(x: array<I64>) returns (r: seq<Byte>)
    requires x.Length == 64 && forall j :: 0 <= j < 64 ==> 0 <= x[j] as int <= MAX_COLUMN
    modifies x
    ensures |r| == 32 && LittleEndian(r, 32) == Columned(old(x[..]), 64) % ORDER
  {
    hide Columned, ByteWeight, LittleEndian;
    ghost var v := Columned(x[..], 64);
    FoldHigh(x);
    HighZero(x[..], 64);
    ghost var d, q := Columned(x[..], 32), x[31] as int / 16;
    RemainderBounds(x[..], q);
    var carry := SubtractMultiple(x);
    BytesBound(x[..], 32);
    ByteWeightValues();
    CarryIsSign(Columned(x[..], 32), carry as int, d - q * ORDER);
    ghost var before := Columned(x[..], 32);
    AddBack(x, carry);
    r := EmitBytes(x);
    FinalResidue(d, q, before, carry as int);
  }

  lemma CarryIsSign(n: int, c: int, d: int)
    requires 0 <= n < TWO_256 && n + c * TWO_256 == d && -ORDER < d < ORDER
    ensures c == if d < 0 then -1 else 0
  {}

  lemma FinalResidue(d: int, q: int, n: int, c: int)
    requires n + c * TWO_256 == d - q * ORDER && -ORDER < d - q * ORDER < ORDER
    requires c == if d - q * ORDER < 0 then -1 else 0
    ensures (n - c * ORDER) % TWO_256 == d % ORDER
  {
    var t := d - q * ORDER - c * ORDER;
    Offset(n - c * ORDER, t, -c, TWO_256);
    DivUnique(t, TWO_256, 0, t);
    Offset(d, t, q + c, ORDER);
    DivUnique(t, ORDER, 0, t);
  }

  lemma {:induction false} HighZero(s: seq<I64>, n: nat)
    requires 32 <= n <= |s| && forall j :: 32 <= j < n ==> s[j] == 0
    ensures Columned(s, n) == Columned(s, 32)
  {
    hide ByteWeight;
    if n > 32 {
      HighZero(s, n - 1);
      ColumnedStep(s, n - 1);
    }
  }
}
