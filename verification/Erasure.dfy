/** Systematic Cauchy Reed-Solomon erasure code over GF(256).

    K data shards are kept as they are; M parity shards are combinations of them with the
    coefficients of a Cauchy matrix.  The main results are that every K rows of the coding
    matrix are independent (`AnyKShardsSuffice`), and that `Reconstruct` succeeds exactly when
    at least K shards are present and then returns the data that was encoded. */
module Erasure {
  import opened GaloisField
  import opened LinearAlgebra
  import opened GaussJordan

  const MAX_PARITY := 8
  const MAX_SHARDS := MAX_DATA + MAX_PARITY
  const MAX_SHARD_LENGTH := 1024

  // ---- The coding matrix ----

  /** The evaluation points: parity row i uses point 8 + i, data column j uses point j. */
  function Point(i: nat): Symbol
    requires i < MAX_SHARDS
  {
    i as Symbol
  }

  function Coefficient(i: nat, j: nat): Symbol
    requires i < MAX_PARITY && j < MAX_DATA
  {
    Inverse(Sum(Point(MAX_DATA + i), Point(j)))
  }

  /** The Cauchy row for point index `x` (at least `MAX_DATA`). */
  function CauchyRow(k: nat, x: nat): (row: Vector)
    requires k <= MAX_DATA <= x < MAX_SHARDS
    ensures |row| == k
  {
    seq(k, j requires 0 <= j < k => Inverse(Sum(Point(x), Point(j))))
  }

  /** Row `s` of the coding matrix: a unit row for data shard `s`, a Cauchy row for parity. */
  function CodingRow(k: nat, s: nat): (row: Vector)
    requires k <= MAX_DATA && s < k + MAX_PARITY
    ensures |row| == k
  {
    if s < k then Unit(k, s)
    else CauchyRow(k, MAX_DATA + s - k)
  }

  /** The symbol that shard `s` stores for one column of data symbols. */
  function ShardSymbol(k: nat, s: nat, column: Vector): Symbol
    requires k <= MAX_DATA && s < k + MAX_PARITY && |column| == k
  {
    Dot(CodingRow(k, s), column, k)
  }

  /** The coefficient of data shard `j` in parity shard `i`: the inverse of the sum of 8 + i and j. */
  lemma CoefficientIs(k: nat, i: nat, j: nat)
    requires j < k <= MAX_DATA && i < MAX_PARITY
    ensures Product(CodingRow(k, k + i)[j], Sum((8 + i) as bv8, j as bv8)) == 1
  {
    hide Product, Inverse;
    PointsDistinct(MAX_DATA + i, j);
    InverseLaw(Sum(Point(MAX_DATA + i), Point(j)));
    ProductCommutative(Inverse(Sum(Point(MAX_DATA + i), Point(j))), Sum(Point(MAX_DATA + i), Point(j)));
  }

  lemma DataShardIsVerbatim(k: nat, s: nat, column: Vector)
    requires k <= MAX_DATA && s < k && |column| == k
    ensures ShardSymbol(k, s, column) == column[s]
  {
    hide Dot;
    DotUnit(k, s, column);
  }

  lemma PointsDistinct(i: nat, j: nat)
    requires i < MAX_SHARDS && j < MAX_SHARDS && i != j
    ensures Sum(Point(i), Point(j)) != 0
  {}

  // ---- Cauchy rows have a trivial common kernel ----

  ghost function Support(v: Vector): set<nat> {
    set j: nat | j < |v| && v[j] != 0
  }

  /** The vector obtained by eliminating column `p` with the help of row `q`. */
  function Reduced(v: Vector, p: nat, q: nat): (w: Vector)
    requires p < |v| <= MAX_DATA <= q < MAX_SHARDS
    ensures |w| == |v|
  {
    seq(|v|, j requires 0 <= j < |v| =>
      Product(Product(v[j], Sum(Point(p), Point(j))), Inverse(Sum(Point(q), Point(j)))))
  }

  /** (x + q) * w / (x + y) == (x + p) * v / (x + y) + (q + p) * v / (q + y),
      where w = v * (p + y) / (q + y). */
  lemma ReductionIdentity(x: Symbol, q: Symbol, p: Symbol, y: Symbol, v: Symbol)
    requires Sum(x, y) != 0 && Sum(q, y) != 0
    ensures var cx, cq := Inverse(Sum(x, y)), Inverse(Sum(q, y));
            var w := Product(Product(v, Sum(p, y)), cq);
            Product(Sum(x, q), Product(cx, w))
            == Sum(Product(Sum(x, p), Product(cx, v)), Product(Sum(q, p), Product(cq, v)))
  {
    hide Sum, Product, Inverse;
    var cx, cq := Inverse(Sum(x, y)), Inverse(Sum(q, y));
    var d, vd := Sum(p, y), Product(v, Sum(p, y));
    InverseLaw(Sum(x, y));
    InverseLaw(Sum(q, y));
    // (x + p) * cx * v == v + cx * v * d, and the same for q
    PartialFraction(x, p, y, v, cx);
    PartialFraction(q, p, y, v, cq);
    SumInterchange(v, Product(cx, vd), v, Product(cq, vd));
    SumLaws(v, v, 0);
    SumLaws(Sum(Product(cx, vd), Product(cq, vd)), 0, 0);
    // (x + q) == (x + y) + (q + y)
    SumInterchange(x, y, q, y);
    SumLaws(y, y, 0);
    SumLaws(Sum(x, q), 0, 0);
    var w := Product(vd, cq);
    var z := Product(cx, w);
    ProductDistributes(Sum(x, y), Sum(q, y), z);
    ProductAssociative(Sum(x, y), cx, w);
    ProductOne(w);
    ProductCommutative(vd, cq);
    // (q + y) * cx * cq * vd == cx * vd
    ProductAssociative(cx, cq, vd);
    ProductCommutative(cx, cq);
    ProductAssociative(cq, cx, vd);
    ProductAssociative(Sum(q, y), cq, Product(cx, vd));
    ProductOne(Product(cx, vd));
    SumLaws(Product(cx, vd), Product(cq, vd), 0);
  }

  lemma PartialFraction(x: Symbol, p: Symbol, y: Symbol, v: Symbol, cx: Symbol)
    requires Product(Sum(x, y), cx) == 1
    ensures Product(Sum(x, p), Product(cx, v)) == Sum(v, Product(cx, Product(v, Sum(p, y))))
  {
    hide Sum, Product;
    var d := Sum(p, y);
    SumInterchange(x, y, p, y);
    SumLaws(y, y, 0);
    SumLaws(Sum(x, p), 0, 0);
    var z := Product(cx, v);
    ProductDistributes(Sum(x, y), d, z);
    ProductAssociative(Sum(x, y), cx, v);
    ProductOne(v);
    ProductCommutative(d, z);
    ProductAssociative(cx, v, d);
  }

  /** The reduced vector is killed by row `x` when the original is killed by rows `x` and `q`. */
  lemma ReducedIsKilled(v: Vector, p: nat, q: nat, x: nat)
    requires p < |v| <= MAX_DATA && MAX_DATA <= q < MAX_SHARDS && MAX_DATA <= x < MAX_SHARDS && x != q
    requires Dot(CauchyRow(|v|, q), v, |v|) == 0 && Dot(CauchyRow(|v|, x), v, |v|) == 0
    ensures Dot(CauchyRow(|v|, x), Reduced(v, p, q), |v|) == 0
  {
    hide Sum, Product, Inverse, Point;
    var k, w := |v|, Reduced(v, p, q);
    var xp, qp := Sum(Point(x), Point(p)), Sum(Point(q), Point(p));
    var xq := Sum(Point(x), Point(q));
    ReductionSum(v, p, q, x, k);
    ProductZero(xp);
    ProductZero(qp);
    SumLaws(0, 0, 0);
    PointsDistinct(x, q);
    NoZeroDivisors(xq, Dot(CauchyRow(k, x), w, k));
  }

  lemma {:induction false} ReductionSum(v: Vector, p: nat, q: nat, x: nat, n: nat)
    requires n <= |v| <= MAX_DATA && p < |v| && MAX_DATA <= q < MAX_SHARDS && MAX_DATA <= x < MAX_SHARDS
    ensures var cx, cq := CauchyRow(|v|, x), CauchyRow(|v|, q);
            Product(Sum(Point(x), Point(q)), Dot(cx, Reduced(v, p, q), n))
            == Sum(Product(Sum(Point(x), Point(p)), Dot(cx, v, n)),
                   Product(Sum(Point(q), Point(p)), Dot(cq, v, n)))
    decreases n
  {
    hide Sum, Product, Inverse, Point;
    var xq, xp, qp := Sum(Point(x), Point(q)), Sum(Point(x), Point(p)), Sum(Point(q), Point(p));
    var cx, cq, w := CauchyRow(|v|, x), CauchyRow(|v|, q), Reduced(v, p, q);
    if n == 0 {
      ProductZero(xq);
      ProductZero(xp);
      ProductZero(qp);
      SumLaws(0, 0, 0);
    } else {
      var j := n - 1;
      ReductionSum(v, p, q, x, j);
      PointsDistinct(x, j);
      PointsDistinct(q, j);
      ReductionIdentity(Point(x), Point(q), Point(p), Point(j), v[j]);
      ProductDistributes(Dot(cx, w, j), Product(cx[j], w[j]), xq);
      ProductDistributes(Dot(cx, v, j), Product(cx[j], v[j]), xp);
      ProductDistributes(Dot(cq, v, j), Product(cq[j], v[j]), qp);
      SumInterchange(Product(xp, Dot(cx, v, j)), Product(qp, Dot(cq, v, j)),
                     Product(xp, Product(cx[j], v[j])), Product(qp, Product(cq[j], v[j])));
    }
  }

  lemma ReducedSupport(v: Vector, p: nat, q: nat)
    requires p < |v| <= MAX_DATA <= q < MAX_SHARDS
    ensures Support(Reduced(v, p, q)) == Support(v) - {p}
  {
    hide Sum, Product, Inverse, Point;
    var w := Reduced(v, p, q);
    forall j: nat | j < |v| ensures w[j] != 0 <==> v[j] != 0 && j != p {
      var d, c := Sum(Point(p), Point(j)), Inverse(Sum(Point(q), Point(j)));
      NoZeroDivisors(v[j], d);
      NoZeroDivisors(Product(v[j], d), c);
      PointsDistinct(q, j);
      InverseNonZero(Sum(Point(q), Point(j)));
      if j == p {
        SumLaws(Point(p), 0, 0);
      } else {
        PointsDistinct(p, j);
      }
    }
  }

  /** A vector killed by at least as many Cauchy rows as it has non-zero components is zero. */
  lemma {:induction false} CauchyKernel(v: Vector, xs: set<nat>)
    requires |v| <= MAX_DATA
    requires forall x :: x in xs ==> MAX_DATA <= x < MAX_SHARDS
    requires forall x :: x in xs ==> Dot(CauchyRow(|v|, x), v, |v|) == 0
    requires |Support(v)| <= |xs|
    ensures Support(v) == {}
    decreases |xs|
  {
    hide Sum, Product, Inverse, Point, Dot, CauchyRow, Reduced;
    if Support(v) != {} {
      var p :| p in Support(v);
      assert xs != {};
      var q :| q in xs;
      var w := Reduced(v, p, q);
      ReducedSupport(v, p, q);
      forall x | x in xs - {q} ensures Dot(CauchyRow(|w|, x), w, |w|) == 0 {
        ReducedIsKilled(v, p, q, x);
      }
      CauchyKernel(w, xs - {q});
      forall j: nat | j < |v| && j != p ensures v[j] == 0 {
        assert j !in Support(v) - {p};
      }
      SingleSupport(v, p, q);
    }
  }

  lemma SingleSupport(v: Vector, p: nat, q: nat)
    requires |v| <= MAX_DATA <= q < MAX_SHARDS && p < |v| && v[p] != 0
    requires forall j: nat :: j < |v| && j != p ==> v[j] == 0
    ensures Dot(CauchyRow(|v|, q), v, |v|) != 0
  {
    hide Sum, Product, Inverse, Point, Dot;
    DotSingle(CauchyRow(|v|, q), v, p, |v|);
    PointsDistinct(q, p);
    InverseNonZero(Sum(Point(q), Point(p)));
    NoZeroDivisors(Inverse(Sum(Point(q), Point(p))), v[p]);
  }

  // ---- Any K rows of the coding matrix are independent ----

  ghost predicate IsSelection(sel: seq<nat>, k: nat, n: nat) {
    && |sel| == k
    && (forall t :: 0 <= t < k ==> sel[t] < n)
    && (forall t, u :: 0 <= t < u < k ==> sel[t] != sel[u])
  }

  function Submatrix(k: nat, sel: seq<nat>): (m: Matrix)
    requires k <= MAX_DATA && |sel| == k && forall t :: 0 <= t < k ==> sel[t] < k + MAX_PARITY
    ensures IsSquare(m, k)
  {
    seq(k, t requires 0 <= t < k => CodingRow(k, sel[t]))
  }

  ghost function Shifted(s: set<nat>, d: nat): set<nat> {
    set x | x in s :: x + d
  }

  lemma AnyKShardsSuffice(k: nat, m: nat, sel: seq<nat>)
    requires k <= MAX_DATA && m <= MAX_PARITY && IsSelection(sel, k, k + m)
    ensures Nonsingular(Submatrix(k, sel), k)
  {
    hide Sum, Product, Inverse, Point, Dot, CauchyRow;
    var a := Submatrix(k, sel);
    forall v: Vector | |v| == k && Kills(a, v) ensures IsZero(v) {
      var parity := set s | s in sel && s >= k;
      var xs := Shifted(parity, MAX_DATA - k);
      forall x | x in xs ensures MAX_DATA <= x < MAX_SHARDS && Dot(CauchyRow(k, x), v, k) == 0 {
        var s :| s in parity && x == s + (MAX_DATA - k);
        var t :| 0 <= t < k && sel[t] == s;
        assert Dot(a[t], v, k) == 0;
      }
      forall s | s in sel && s < k ensures v[s] == 0 {
        var t :| 0 <= t < k && sel[t] == s;
        assert Dot(a[t], v, k) == 0;
        DotUnit(k, s, v);
      }
      EnoughParityRows(k, sel, parity, Support(v));
      ShiftedSize(parity, MAX_DATA - k);
      CauchyKernel(v, xs);
      forall j | 0 <= j < k ensures v[j] == 0 {
        assert j !in Support(v);
      }
    }
  }

  /** The selected parity rows are at least as many as the data columns not selected. */
  lemma EnoughParityRows(k: nat, sel: seq<nat>, parity: set<nat>, open: set<nat>)
    requires IsSelection(sel, k, k + MAX_PARITY)
    requires parity == set s | s in sel && s >= k
    requires forall j :: j in open ==> j < k && j !in sel
    ensures |open| <= |parity|
  {
    var all, data := Elements(sel), set s | s in sel && s < k;
    SelectionSize(sel);
    assert all == data + parity;
    assert |all| == |data| + |parity|;
    RangeSize(data + open, k);
    assert |data + open| == |data| + |open|;
  }

  ghost function Elements(sel: seq<nat>): set<nat> {
    set s | s in sel
  }

  lemma {:induction false} SelectionSize(sel: seq<nat>)
    requires forall t, u :: 0 <= t < u < |sel| ==> sel[t] != sel[u]
    ensures |Elements(sel)| == |sel|
  {
    if |sel| > 0 {
      var last := |sel| - 1;
      SelectionSize(sel[..last]);
      assert sel == sel[..last] + [sel[last]];
      assert Elements(sel) == Elements(sel[..last]) + {sel[last]};
    }
  }

  lemma {:induction false} ShiftedSize(s: set<nat>, d: nat)
    ensures |Shifted(s, d)| == |s|
  {
    if s != {} {
      var x :| x in s;
      ShiftedSize(s - {x}, d);
      forall y | y in Shifted(s, d) ensures y == x + d || y in Shifted(s - {x}, d) {
        var z :| z in s && y == z + d;
        assert z == x || z in s - {x};
      }
      assert x + d !in Shifted(s - {x}, d);
      assert Shifted(s, d) == Shifted(s - {x}, d) + {x + d};
    }
  }

  lemma {:induction false} RangeSize(s: set<nat>, k: nat)
    requires forall x :: x in s ==> x < k
    ensures |s| <= k
  {
    if k == 0 {
      assert s == {};
    } else {
      RangeSize(s - {k - 1}, k - 1);
    }
  }

  // ---- Encoding ----

  /** The first `k` entries of column `b` of a block. */
  ghost function BlockColumn(block: array2<Symbol>, k: nat, b: nat): (c: Vector)
    requires k <= block.Length0 && b < block.Length1
    reads block
    ensures |c| == k && forall j :: 0 <= j < k ==> c[j] == block[j, b]
  {
    seq(k, j requires 0 <= j < k reads block => block[j, b])
  }

  method Coeff(i: nat, j: nat) returns (c: Symbol)
    requires i < MAX_PARITY && j < MAX_DATA
    ensures c == Coefficient(i, j)
  {
    hide Inverse;
    c := Inv(Sum(Point(MAX_DATA + i), Point(j)));
  }

  /** One parity symbol: the inner product of a Cauchy row with a data column. */
  method ParitySymbol(k: nat, data: array2<Symbol>, i: nat, b: nat) returns (acc: Symbol)
    requires k <= MAX_DATA && i < MAX_PARITY && data.Length0 == MAX_DATA && b < data.Length1
    ensures acc == ShardSymbol(k, k + i, BlockColumn(data, k, b))
  {
    hide Sum, Product, Inverse, Point;
    acc := 0;
    for j := 0 to k
      invariant acc == Dot(CodingRow(k, k + i), BlockColumn(data, k, b), j)
    {
      var c := Coeff(i, j);
      var p := Mul(c, data[j, b]);
      acc := Sum(acc, p);
    }
  }

  method Encode(k: nat, m: nat, l: nat, data: array2<Symbol>) returns (parity: array2<Symbol>)
    requires 1 <= k <= MAX_DATA && 1 <= m <= MAX_PARITY && 1 <= l <= MAX_SHARD_LENGTH
    requires data.Length0 == MAX_DATA && data.Length1 == MAX_SHARD_LENGTH
    ensures fresh(parity) && parity.Length0 == MAX_DATA && parity.Length1 == MAX_SHARD_LENGTH
    ensures forall i, b :: 0 <= i < m && 0 <= b < l ==>
              parity[i, b] == ShardSymbol(k, k + i, BlockColumn(data, k, b))
    ensures forall i, b :: 0 <= i < MAX_DATA && 0 <= b < MAX_SHARD_LENGTH && (i >= m || b >= l) ==>
              parity[i, b] == 0
  {
    hide ShardSymbol;
    parity := new Symbol[MAX_DATA, MAX_SHARD_LENGTH]((i, b) => 0);
    for i := 0 to m
      invariant forall r, b :: 0 <= r < i && 0 <= b < l ==>
                  parity[r, b] == ShardSymbol(k, k + r, BlockColumn(data, k, b))
      invariant forall r, b :: 0 <= r < MAX_DATA && 0 <= b < MAX_SHARD_LENGTH && (r >= i || b >= l) ==>
                  parity[r, b] == 0
    {
      for b := 0 to l
        invariant forall r, c :: 0 <= r < i && 0 <= c < l ==>
                    parity[r, c] == ShardSymbol(k, k + r, BlockColumn(data, k, c))
        invariant forall c :: 0 <= c < b ==> parity[i, c] == ShardSymbol(k, k + i, BlockColumn(data, k, c))
        invariant forall r, c :: 0 <= r < MAX_DATA && 0 <= c < MAX_SHARD_LENGTH ==>
                    r > i || c >= l || (r == i && c >= b) ==> parity[r, c] == 0
      {
        parity[i, b] := ParitySymbol(k, data, i, b);
      }
    }
  }

  // ---- Reconstruction ----

  function PresentCount(present: seq<bool>, n: nat): nat
    requires n <= |present|
  {
    if n == 0 then 0 else PresentCount(present, n - 1) + if present[n - 1] then 1 else 0
  }

  /** The present shards agree with the encoding of `columns`. */
  ghost predicate Agrees(k: nat, m: nat, l: nat, present: seq<bool>, shards: array2<Symbol>, columns: seq<Vector>)
    requires k <= MAX_DATA && m <= MAX_PARITY && k + m <= |present| && k + m <= shards.Length0 && l <= shards.Length1
    reads shards
  {
    && |columns| == l && (forall b :: 0 <= b < l ==> |columns[b]| == k)
    && forall s, b :: 0 <= s < k + m && present[s] && 0 <= b < l ==> shards[s, b] == ShardSymbol(k, s, columns[b])
  }

  /** Chooses the first K available shards. */
  method ChooseShards(k: nat, n: nat, present: seq<bool>) returns (sel: array<nat>, cnt: nat)
    requires k <= MAX_DATA && n <= |present|
    ensures fresh(sel) && sel.Length == MAX_DATA
    ensures cnt == if PresentCount(present, n) < k then PresentCount(present, n) else k
    ensures IsSelection(sel[..cnt], cnt, n)
    ensures forall t :: 0 <= t < cnt ==> present[sel[t]]
    ensures forall i :: 0 <= i < n && present[i] && i !in sel[..cnt] ==>
              cnt == k && forall t :: 0 <= t < k ==> sel[t] < i
  {
    sel := new nat[MAX_DATA](_ => 0);
    cnt := 0;
    for i := 0 to n
      invariant cnt == if PresentCount(present, i) < k then PresentCount(present, i) else k
      invariant forall t :: 0 <= t < cnt ==> sel[t] < i && present[sel[t]]
      invariant forall t, u :: 0 <= t < u < cnt ==> sel[t] != sel[u]
      invariant forall j :: 0 <= j < i && present[j] && j !in sel[..cnt] ==>
                  cnt == k && forall t :: 0 <= t < k ==> sel[t] < j
    {
      if present[i] && cnt < k {
        ghost var before := sel[..cnt];
        sel[cnt] := i;
        cnt := cnt + 1;
        assert sel[..cnt] == before + [i];
      }
    }
  }

  /** The rows of the coding matrix for the chosen shards. */
  method BuildSubmatrix(k: nat, m: nat, sel: array<nat>) returns (a: array2<Symbol>)
    requires k <= MAX_DATA && m <= MAX_PARITY && sel.Length == MAX_DATA && IsSelection(sel[..k], k, k + m)
    ensures fresh(a) && a.Length0 == a.Length1 == MAX_DATA
    ensures Rows(a, k) == Submatrix(k, sel[..k])
  {
    hide Inverse, Point;
    a := new Symbol[MAX_DATA, MAX_DATA]((i, j) => 0);
    ghost var rows := sel[..k];
    for t := 0 to k
      invariant sel[..k] == rows
      invariant forall u, j :: 0 <= u < t && 0 <= j < k ==> a[u, j] == CodingRow(k, rows[u])[j]
    {
      var r := sel[t];
      assert r == rows[t];
      for j := 0 to k
        invariant sel[..k] == rows
        invariant forall u, i :: 0 <= u < t && 0 <= i < k ==> a[u, i] == CodingRow(k, rows[u])[i]
        invariant forall i :: 0 <= i < j ==> a[t, i] == CodingRow(k, r)[i]
      {
        if r < k {
          a[t, j] := if r == j then 1 else 0;
        } else {
          a[t, j] := Coeff(r - k, j);
        }
      }
    }
    SameEntries(Rows(a, k), Submatrix(k, rows), k);
  }

  method Reconstruct(k: nat, m: nat, l: nat, present: seq<bool>, shards: array2<Symbol>)
    returns (data: array2<Symbol>, success: bool)
    requires 1 <= k <= MAX_DATA && 1 <= m <= MAX_PARITY && 1 <= l <= MAX_SHARD_LENGTH
    requires |present| == MAX_SHARDS
    requires shards.Length0 == MAX_SHARDS && shards.Length1 == MAX_SHARD_LENGTH
    ensures fresh(data) && data.Length0 == MAX_DATA && data.Length1 == MAX_SHARD_LENGTH
    ensures success <==> PresentCount(present, k + m) >= k
    ensures success ==> forall columns | Agrees(k, m, l, present, shards, columns) ::
              forall j, b :: 0 <= j < k && 0 <= b < l ==> data[j, b] == columns[b][j]
    ensures forall j, b :: 0 <= j < MAX_DATA && 0 <= b < MAX_SHARD_LENGTH ==>
              !success || j >= k || b >= l ==> data[j, b] == 0
  {
    hide Nonsingular, IsLeftInverse, Submatrix, Dot, ShardSymbol;
    data := new Symbol[MAX_DATA, MAX_SHARD_LENGTH]((j, b) => 0);
    success := false;
    var sel, cnt := ChooseShards(k, k + m, present);
    if cnt < k {
      return;
    }
    var a := BuildSubmatrix(k, m, sel);
    var aInv, ok := Invert(k, a);
    AnyKShardsSuffice(k, m, sel[..k]);
    if !ok {
      return;
    }
    RecoverData(k, l, aInv, sel, shards, data);
    success := true;
    forall columns | Agrees(k, m, l, present, shards, columns)
      ensures forall j, b :: 0 <= j < k && 0 <= b < l ==> data[j, b] == columns[b][j]
    {
      forall j, b | 0 <= j < k && 0 <= b < l ensures data[j, b] == columns[b][j] {
        RecoveredSymbol(k, m, l, present, shards, columns, sel[..k], Rows(aInv, k), j, b);
      }
    }
  }

  lemma RecoveredSymbol(k: nat, m: nat, l: nat, present: seq<bool>, shards: array2<Symbol>, columns: seq<Vector>,
                        sel: seq<nat>, inv: Matrix, j: nat, b: nat)
    requires k <= MAX_DATA && m <= MAX_PARITY && k + m <= |present| && k + m <= shards.Length0 && l <= shards.Length1
    requires Agrees(k, m, l, present, shards, columns)
    requires IsSelection(sel, k, k + m) && forall t :: 0 <= t < k ==> present[sel[t]]
    requires IsSquare(inv, k) && IsLeftInverse(inv, Submatrix(k, sel), k)
    requires j < k && b < l
    ensures Dot(inv[j], Gathered(shards, sel, b), k) == columns[b][j]
  {
    hide Dot, IsLeftInverse;
    LeftInverseRecovers(inv, Submatrix(k, sel), columns[b], Gathered(shards, sel, b));
  }

  /** The symbols of the chosen shards at offset `b`. */
  ghost function Gathered(shards: array2<Symbol>, sel: seq<nat>, b: nat): (y: Vector)
    requires b < shards.Length1 && forall t :: 0 <= t < |sel| ==> sel[t] < shards.Length0
    reads shards
    ensures |y| == |sel|
  {
    seq(|sel|, t requires 0 <= t < |sel| reads shards => shards[sel[t], b])
  }

  /** Data = inverse * available shards, column by column. */
  method RecoverData(k: nat, l: nat, aInv: array2<Symbol>, sel: array<nat>, shards: array2<Symbol>,
                     data: array2<Symbol>)
    requires k <= MAX_DATA && l <= MAX_SHARD_LENGTH && data != shards && data != aInv
    requires aInv.Length0 == aInv.Length1 == MAX_DATA && sel.Length == MAX_DATA
    requires shards.Length0 == MAX_SHARDS && shards.Length1 == MAX_SHARD_LENGTH
    requires data.Length0 == MAX_DATA && data.Length1 == MAX_SHARD_LENGTH
    requires forall t :: 0 <= t < k ==> sel[t] < MAX_SHARDS
    modifies data
    ensures forall j, b :: 0 <= j < k && 0 <= b < l ==>
              data[j, b] == Dot(Rows(aInv, k)[j], Gathered(shards, sel[..k], b), k)
    ensures forall j, b :: 0 <= j < MAX_DATA && 0 <= b < MAX_SHARD_LENGTH ==>
              j >= k || b >= l ==> data[j, b] == old(data[j, b])
  {
    hide Dot, Gathered, Rows;
    for j := 0 to k
      invariant forall i, b :: 0 <= i < j && 0 <= b < l ==>
                  data[i, b] == Dot(Rows(aInv, k)[i], Gathered(shards, sel[..k], b), k)
      invariant forall i, b :: 0 <= i < MAX_DATA && 0 <= b < MAX_SHARD_LENGTH ==>
                  i >= j || b >= l ==> data[i, b] == old(data[i, b])
    {
      for b := 0 to l
        invariant forall i, c :: 0 <= i < j && 0 <= c < l ==>
                    data[i, c] == Dot(Rows(aInv, k)[i], Gathered(shards, sel[..k], c), k)
        invariant forall c :: 0 <= c < b ==>
                    data[j, c] == Dot(Rows(aInv, k)[j], Gathered(shards, sel[..k], c), k)
        invariant forall i, c :: 0 <= i < MAX_DATA && 0 <= c < MAX_SHARD_LENGTH ==>
                    i > j || c >= l || (i == j && c >= b) ==> data[i, c] == old(data[i, c])
      {
        data[j, b] := RecoverSymbol(k, aInv, sel, shards, j, b);
      }
    }
  }

  method RecoverSymbol(k: nat, aInv: array2<Symbol>, sel: array<nat>, shards: array2<Symbol>, j: nat, b: nat)
    returns (acc: Symbol)
    requires j < k <= MAX_DATA && b < MAX_SHARD_LENGTH
    requires aInv.Length0 == aInv.Length1 == MAX_DATA && sel.Length == MAX_DATA
    requires shards.Length0 == MAX_SHARDS && shards.Length1 == MAX_SHARD_LENGTH
    requires forall t :: 0 <= t < k ==> sel[t] < MAX_SHARDS
    ensures acc == Dot(Rows(aInv, k)[j], Gathered(shards, sel[..k], b), k)
  {
    hide Sum, Product;
    acc := 0;
    for t := 0 to k
      invariant acc == Dot(Rows(aInv, k)[j], Gathered(shards, sel[..k], b), t)
    {
      var p := Mul(aInv[j, t], shards[sel[t], b]);
      acc := Sum(acc, p);
    }
  }
}
