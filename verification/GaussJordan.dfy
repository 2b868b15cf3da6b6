/** Gauss-Jordan inversion of a K-by-K matrix over GF(256), in place on two arrays.

    The functions describe the three row operations on values; the lemmas show what each keeps:
    the work matrix stays `idn * a`, its kernel stays inside the kernel of `a`, and the columns
    already treated stay unit columns. */
module GaussJordan {
  import opened GaloisField
  import opened LinearAlgebra

  const MAX_DATA := 8

  // ---- Row operations on values ----

  function Swapped(m: Matrix, a: nat, b: nat): Matrix
    requires a < |m| && b < |m|
  {
    m[a := m[b]][b := m[a]]
  }

  function Scaled(m: Matrix, r: nat, c: Symbol): Matrix
    requires r < |m|
  {
    m[r := seq(|m[r]|, j requires 0 <= j < |m[r]| => Product(m[r][j], c))]
  }

  /** Row `r` plus `f` times row `p`. */
  function Eliminated(m: Matrix, r: nat, f: Symbol, p: nat): Matrix
    requires r < |m| && p < |m| && |m[p]| == |m[r]|
  {
    m[r := seq(|m[r]|, j requires 0 <= j < |m[r]| => Sum(m[r][j], Product(f, m[p][j])))]
  }

  // ---- What the row operations keep ----

  /** `m == idn * a`, and whatever `m` sends to zero, `a` sends to zero. */
  ghost predicate RowEquivalent(a: Matrix, m: Matrix, idn: Matrix, k: nat) {
    && IsSquare(a, k) && IsSquare(m, k) && IsSquare(idn, k)
    && (forall r, j :: 0 <= r < k && 0 <= j < k ==> m[r][j] == Dot(idn[r], Column(a, j), k))
    && (forall v: Vector :: |v| == k && Kills(m, v) ==> Kills(a, v))
  }

  ghost predicate UnitColumns(m: Matrix, k: nat, c: nat)
    requires IsSquare(m, k)
  {
    forall r, j :: 0 <= r < k && 0 <= j < c && j < k ==> m[r][j] == if r == j then 1 else 0
  }

  lemma SwapKeeps(a: Matrix, m: Matrix, idn: Matrix, k: nat, p: nat, q: nat)
    requires RowEquivalent(a, m, idn, k) && p < k && q < k
    ensures RowEquivalent(a, Swapped(m, p, q), Swapped(idn, p, q), k)
  {
    hide Sum, Product, Dot, Column, Kills;
    SwapKeepsKernel(m, k, p, q);
    var m', idn' := Swapped(m, p, q), Swapped(idn, p, q);
    forall r, j | 0 <= r < k && 0 <= j < k ensures m'[r][j] == Dot(idn'[r], Column(a, j), k) {
      if r == p {
        assert m[q][j] == Dot(idn[q], Column(a, j), k);
      } else if r == q {
        assert m[p][j] == Dot(idn[p], Column(a, j), k);
      } else {
        assert m[r][j] == Dot(idn[r], Column(a, j), k);
      }
    }
  }

  lemma SwapKeepsKernel(m: Matrix, k: nat, p: nat, q: nat)
    requires IsSquare(m, k) && p < k && q < k
    ensures IsSquare(Swapped(m, p, q), k)
    ensures forall v: Vector :: |v| == k && Kills(Swapped(m, p, q), v) ==> Kills(m, v)
  {
    hide Sum, Product, Dot;
    var m' := Swapped(m, p, q);
    forall v: Vector | |v| == k && Kills(m', v) ensures Kills(m, v) {
      forall r | 0 <= r < k ensures Dot(m[r], v, k) == 0 {
        assert m[r] == m'[if r == p then q else if r == q then p else r];
      }
    }
  }

  lemma ScaleKeeps(a: Matrix, m: Matrix, idn: Matrix, k: nat, r: nat, c: Symbol)
    requires RowEquivalent(a, m, idn, k) && r < k && c != 0
    ensures RowEquivalent(a, Scaled(m, r, c), Scaled(idn, r, c), k)
  {
    hide Sum, Product, Dot;
    var m', idn' := Scaled(m, r, c), Scaled(idn, r, c);
    forall j | 0 <= j < k ensures m'[r][j] == Dot(idn'[r], Column(a, j), k) {
      CommuteRow(idn[r], idn'[r], c);
      DotScaled(c, idn[r], idn'[r], Column(a, j), k);
      ProductCommutative(m[r][j], c);
    }
    forall v: Vector | |v| == k && Kills(m', v) ensures Kills(a, v) {
      CommuteRow(m[r], m'[r], c);
      DotScaled(c, m[r], m'[r], v, k);
      NoZeroDivisors(c, Dot(m[r], v, k));
      forall i | 0 <= i < k ensures Dot(m[i], v, k) == 0 {
        assert i != r ==> m[i] == m'[i];
      }
    }
  }

  lemma CommuteRow(u: Vector, w: Vector, c: Symbol)
    requires |w| == |u| && forall j :: 0 <= j < |u| ==> w[j] == Product(u[j], c)
    ensures forall j :: 0 <= j < |u| ==> w[j] == Product(c, u[j])
  {
    hide Product;
    forall j | 0 <= j < |u| ensures w[j] == Product(c, u[j]) {
      ProductCommutative(c, u[j]);
    }
  }

  lemma EliminateKeeps(a: Matrix, m: Matrix, idn: Matrix, k: nat, r: nat, f: Symbol, p: nat)
    requires RowEquivalent(a, m, idn, k) && r < k && p < k && r != p
    ensures RowEquivalent(a, Eliminated(m, r, f, p), Eliminated(idn, r, f, p), k)
  {
    hide Sum, Product, Dot;
    var m', idn' := Eliminated(m, r, f, p), Eliminated(idn, r, f, p);
    forall j | 0 <= j < k ensures m'[r][j] == Dot(idn'[r], Column(a, j), k) {
      DotCombination(idn[r], f, idn[p], idn'[r], Column(a, j), k);
    }
    forall v: Vector | |v| == k && Kills(m', v) ensures Kills(a, v) {
      DotCombination(m[r], f, m[p], m'[r], v, k);
      assert m[p] == m'[p];
      ProductZero(f);
      SumLaws(Dot(m[r], v, k), 0, 0);
      forall i | 0 <= i < k ensures Dot(m[i], v, k) == 0 {
        assert i != r ==> m[i] == m'[i];
      }
    }
  }

  /** When no pivot is left in column `c`, the vector made of that column above the diagonal
      and a one on it is a non-zero element of the kernel. */
  lemma NoPivotIsSingular(a: Matrix, m: Matrix, idn: Matrix, k: nat, c: nat)
    requires RowEquivalent(a, m, idn, k) && c < k && UnitColumns(m, k, c)
    requires forall r :: c <= r < k ==> m[r][c] == 0
    ensures !Nonsingular(a, k)
  {
    hide Sum, Product, Dot;
    var v := seq(k, j requires 0 <= j < k => if j < c then m[j][c] else if j == c then 1 else 0);
    forall r | 0 <= r < k ensures Dot(m[r], v, k) == 0 {
      if r < c {
        RowAboveNoPivot(m[r], v, k, r, c);
      } else {
        DotSingle(m[r], v, c, k);
        ProductZero(1);
      }
    }
    assert Kills(a, v);
    assert v[c] != 0;
  }

  lemma RowAboveNoPivot(u: Vector, v: Vector, k: nat, r: nat, c: nat)
    requires r < c < k == |u| == |v|
    requires forall j :: 0 <= j < c ==> u[j] == if j == r then 1 else 0
    requires v[r] == u[c] && v[c] == 1 && forall j :: c < j < k ==> v[j] == 0
    ensures Dot(u, v, k) == 0
  {
    hide Sum, Product, Dot;
    var e := Unit(k, r);
    var w := Unit(k, c);
    var u' := seq(k, j requires 0 <= j < k => if j < c then e[j] else if j == c then u[c] else 0);
    DotTailZero(u, u', v, k, c + 1);
    forall j | 0 <= j < k ensures u'[j] == Sum(e[j], Product(u[c], w[j])) {
      ProductOne(u[c]);
      ProductZero(u[c]);
      SumLaws(e[j], 0, 0);
      SumLaws(u[c], 0, 0);
    }
    DotCombination(e, u[c], w, u', v, k);
    DotUnit(k, r, v);
    DotUnit(k, c, v);
    ProductOne(u[c]);
    SumLaws(u[c], 0, 0);
  }

  lemma {:induction false} DotTailZero(u: Vector, u': Vector, v: Vector, n: nat, c: nat)
    requires n <= |u| && n <= |u'| && n <= |v|
    requires forall j :: 0 <= j < c && j < n ==> u[j] == u'[j]
    requires forall j :: c <= j < n ==> v[j] == 0
    ensures Dot(u, v, n) == Dot(u', v, n)
    decreases n
  {
    hide Sum, Product;
    if n > 0 {
      DotTailZero(u, u', v, n - 1, c);
      ProductZero(u[n - 1]);
      ProductZero(u'[n - 1]);
    }
  }

  // ---- The arrays ----

  function Rows(m: array2<Symbol>, k: nat): (s: Matrix)
    requires k <= m.Length0 && k <= m.Length1
    reads m
    ensures IsSquare(s, k)
    ensures forall r, j :: 0 <= r < k && 0 <= j < k ==> s[r][j] == m[r, j]
  {
    seq(k, r requires 0 <= r < k reads m =>
      seq(k, j requires 0 <= j < k reads m => m[r, j]))
  }

  lemma SameEntries(a: Matrix, b: Matrix, k: nat)
    requires IsSquare(a, k) && IsSquare(b, k)
    requires forall r, j :: 0 <= r < k && 0 <= j < k ==> a[r][j] == b[r][j]
    ensures a == b
  {
    forall r | 0 <= r < k ensures a[r] == b[r] {}
  }

  method SwapRows(mtx: array2<Symbol>, idn: array2<Symbol>, k: nat, col: nat, piv: nat)
    requires mtx != idn && k <= MAX_DATA && col < k && piv < k && col != piv
    requires mtx.Length0 == mtx.Length1 == idn.Length0 == idn.Length1 == MAX_DATA
    modifies mtx, idn
    ensures Rows(mtx, k) == Swapped(old(Rows(mtx, k)), col, piv)
    ensures Rows(idn, k) == Swapped(old(Rows(idn, k)), col, piv)
  {
    for j := 0 to k
      invariant forall i :: j <= i < k ==> mtx[col, i] == old(mtx[col, i]) && mtx[piv, i] == old(mtx[piv, i])
      invariant forall i :: j <= i < k ==> idn[col, i] == old(idn[col, i]) && idn[piv, i] == old(idn[piv, i])
      invariant forall i :: 0 <= i < j ==> mtx[col, i] == old(mtx[piv, i]) && mtx[piv, i] == old(mtx[col, i])
      invariant forall i :: 0 <= i < j ==> idn[col, i] == old(idn[piv, i]) && idn[piv, i] == old(idn[col, i])
      invariant forall r, i :: 0 <= r < k && r != col && r != piv && 0 <= i < k ==>
                  mtx[r, i] == old(mtx[r, i]) && idn[r, i] == old(idn[r, i])
    {
      var t1, t2 := mtx[col, j], idn[col, j];
      mtx[col, j] := mtx[piv, j];
      mtx[piv, j] := t1;
      idn[col, j] := idn[piv, j];
      idn[piv, j] := t2;
    }
    SameEntries(Rows(mtx, k), Swapped(old(Rows(mtx, k)), col, piv), k);
    SameEntries(Rows(idn, k), Swapped(old(Rows(idn, k)), col, piv), k);
  }

  method ScaleRow(mtx: array2<Symbol>, idn: array2<Symbol>, k: nat, col: nat, c: Symbol)
    requires mtx != idn && k <= MAX_DATA && col < k
    requires mtx.Length0 == mtx.Length1 == idn.Length0 == idn.Length1 == MAX_DATA
    modifies mtx, idn
    ensures Rows(mtx, k) == Scaled(old(Rows(mtx, k)), col, c)
    ensures Rows(idn, k) == Scaled(old(Rows(idn, k)), col, c)
  {
    hide Product;
    for j := 0 to k
      invariant forall i :: j <= i < k ==> mtx[col, i] == old(mtx[col, i]) && idn[col, i] == old(idn[col, i])
      invariant forall i :: 0 <= i < j ==> mtx[col, i] == Product(old(mtx[col, i]), c)
      invariant forall i :: 0 <= i < j ==> idn[col, i] == Product(old(idn[col, i]), c)
      invariant forall r, i :: 0 <= r < k && r != col && 0 <= i < k ==>
                  mtx[r, i] == old(mtx[r, i]) && idn[r, i] == old(idn[r, i])
    {
      mtx[col, j] := Mul(mtx[col, j], c);
      idn[col, j] := Mul(idn[col, j], c);
    }
    SameEntries(Rows(mtx, k), Scaled(old(Rows(mtx, k)), col, c), k);
    SameEntries(Rows(idn, k), Scaled(old(Rows(idn, k)), col, c), k);
  }

  method EliminateRow(mtx: array2<Symbol>, idn: array2<Symbol>, k: nat, r: nat, col: nat)
    requires mtx != idn && k <= MAX_DATA && r < k && col < k && r != col
    requires mtx.Length0 == mtx.Length1 == idn.Length0 == idn.Length1 == MAX_DATA
    modifies mtx, idn
    ensures Rows(mtx, k) == Eliminated(old(Rows(mtx, k)), r, old(mtx[r, col]), col)
    ensures Rows(idn, k) == Eliminated(old(Rows(idn, k)), r, old(mtx[r, col]), col)
  {
    hide Product, Sum;
    var factor := mtx[r, col];
    for j := 0 to k
      invariant forall i :: j <= i < k ==> mtx[r, i] == old(mtx[r, i]) && idn[r, i] == old(idn[r, i])
      invariant forall i :: 0 <= i < j ==> mtx[r, i] == Sum(old(mtx[r, i]), Product(factor, old(mtx[col, i])))
      invariant forall i :: 0 <= i < j ==> idn[r, i] == Sum(old(idn[r, i]), Product(factor, old(idn[col, i])))
      invariant forall s, i :: 0 <= s < k && s != r && 0 <= i < k ==>
                  mtx[s, i] == old(mtx[s, i]) && idn[s, i] == old(idn[s, i])
    {
      var p := Mul(factor, mtx[col, j]);
      mtx[r, j] := Sum(mtx[r, j], p);
      var q := Mul(factor, idn[col, j]);
      idn[r, j] := Sum(idn[r, j], q);
    }
    SameEntries(Rows(mtx, k), Eliminated(old(Rows(mtx, k)), r, factor, col), k);
    SameEntries(Rows(idn, k), Eliminated(old(Rows(idn, k)), r, factor, col), k);
  }

  /** Treats one column whose pivot row is already in place: afterwards it is a unit column. */
  method ClearColumn(mtx: array2<Symbol>, idn: array2<Symbol>, k: nat, col: nat, ghost a: Matrix)
    requires mtx != idn && k <= MAX_DATA && col < k
    requires mtx.Length0 == mtx.Length1 == idn.Length0 == idn.Length1 == MAX_DATA
    requires RowEquivalent(a, Rows(mtx, k), Rows(idn, k), k)
    requires UnitColumns(Rows(mtx, k), k, col) && mtx[col, col] != 0
    modifies mtx, idn
    ensures RowEquivalent(a, Rows(mtx, k), Rows(idn, k), k)
    ensures UnitColumns(Rows(mtx, k), k, col + 1)
  {
    hide Product, Sum, Dot, RowEquivalent;
    var invP := Inv(mtx[col, col]);
    InverseLaw(mtx[col, col]);
    ghost var m0, i0 := Rows(mtx, k), Rows(idn, k);
    ScaleKeeps(a, m0, i0, k, col, invP);
    ScaleRow(mtx, idn, k, col, invP);
    ScaledPivot(m0, k, col, invP);
    for r := 0 to k
      invariant RowEquivalent(a, Rows(mtx, k), Rows(idn, k), k)
      invariant UnitColumns(Rows(mtx, k), k, col) && mtx[col, col] == 1
      invariant forall s :: 0 <= s < r && s != col ==> mtx[s, col] == 0
    {
      if r != col {
        ghost var m1, i1 := Rows(mtx, k), Rows(idn, k);
        EliminateKeeps(a, m1, i1, k, r, mtx[r, col], col);
        EliminatedPivot(m1, k, r, col);
        EliminateRow(mtx, idn, k, r, col);
      }
    }
  }

  lemma ScaledPivot(m: Matrix, k: nat, col: nat, c: Symbol)
    requires IsSquare(m, k) && col < k && UnitColumns(m, k, col) && Product(m[col][col], c) == 1
    ensures UnitColumns(Scaled(m, col, c), k, col) && Scaled(m, col, c)[col][col] == 1
  {
    hide Product;
    ProductZero(c);
  }

  lemma EliminatedPivot(m: Matrix, k: nat, r: nat, col: nat)
    requires IsSquare(m, k) && col < k && r < k && r != col && UnitColumns(m, k, col) && m[col][col] == 1
    ensures var m' := Eliminated(m, r, m[r][col], col);
            UnitColumns(m', k, col) && m'[r][col] == 0 && m'[col] == m[col]
            && forall s :: 0 <= s < k && s != r ==> m'[s] == m[s]
  {
    hide Product, Sum;
    var f := m[r][col];
    var m' := Eliminated(m, r, f, col);
    ProductOne(f);
    SumLaws(f, 0, 0);
    forall j | 0 <= j < col ensures m'[r][j] == m[r][j] {
      ProductZero(f);
      SumLaws(m[r][j], 0, 0);
    }
  }

  /** One column of the elimination: find a pivot, swap it up, clear the column. */
  method TreatColumn(mtx: array2<Symbol>, idn: array2<Symbol>, k: nat, col: nat, ghost a: Matrix)
    returns (found: bool)
    requires mtx != idn && k <= MAX_DATA && col < k
    requires mtx.Length0 == mtx.Length1 == idn.Length0 == idn.Length1 == MAX_DATA
    requires RowEquivalent(a, Rows(mtx, k), Rows(idn, k), k) && UnitColumns(Rows(mtx, k), k, col)
    modifies mtx, idn
    ensures !found ==> !Nonsingular(a, k)
    ensures found ==> RowEquivalent(a, Rows(mtx, k), Rows(idn, k), k)
                      && UnitColumns(Rows(mtx, k), k, col + 1)
  {
    hide Product, Sum, Dot, RowEquivalent, Nonsingular;
    var piv := FindPivot(mtx, k, col);
    if piv == k {
      NoPivotIsSingular(a, Rows(mtx, k), Rows(idn, k), k, col);
      return false;
    }
    if piv != col {
      SwapKeeps(a, Rows(mtx, k), Rows(idn, k), k, col, piv);
      SwapRows(mtx, idn, k, col, piv);
    }
    ClearColumn(mtx, idn, k, col, a);
    found := true;
  }

  method Invert(k: nat, aIn: array2<Symbol>) returns (aOut: array2<Symbol>, success: bool)
    requires 1 <= k <= MAX_DATA && aIn.Length0 == aIn.Length1 == MAX_DATA
    ensures fresh(aOut) && aOut.Length0 == aOut.Length1 == MAX_DATA
    ensures success <==> Nonsingular(Rows(aIn, k), k)
    ensures success ==> IsLeftInverse(Rows(aOut, k), Rows(aIn, k), k)
    ensures !success ==> forall r, j :: 0 <= r < MAX_DATA && 0 <= j < MAX_DATA ==> aOut[r, j] == 0
  {
    hide Product, Sum, Dot, RowEquivalent, UnitColumns, Nonsingular, IsLeftInverse;
    ghost var a := Rows(aIn, k);
    var mtx := new Symbol[MAX_DATA, MAX_DATA]((r, j) requires 0 <= r < MAX_DATA && 0 <= j < MAX_DATA
                                                reads aIn => aIn[r, j]);
    var idn := new Symbol[MAX_DATA, MAX_DATA]((r, j) => if r == j && r < k then 1 else 0);
    aOut := new Symbol[MAX_DATA, MAX_DATA]((r, j) => 0);
    success := true;
    SameEntries(Rows(mtx, k), a, k);
    StartsEquivalent(a, Rows(idn, k), k);
    for col := 0 to k
      invariant RowEquivalent(a, Rows(mtx, k), Rows(idn, k), k)
      invariant UnitColumns(Rows(mtx, k), k, col)
      invariant forall r, j :: 0 <= r < MAX_DATA && 0 <= j < MAX_DATA ==> aOut[r, j] == 0
    {
      var found := TreatColumn(mtx, idn, k, col, a);
      if !found {
        return aOut, false;
      }
    }
    aOut := idn;
    AllColumnsTreated(a, Rows(mtx, k), Rows(idn, k), k);
  }

  lemma AllColumnsTreated(a: Matrix, m: Matrix, idn: Matrix, k: nat)
    requires RowEquivalent(a, m, idn, k) && UnitColumns(m, k, k)
    ensures IsLeftInverse(idn, a, k) && Nonsingular(a, k)
  {
    hide Product, Sum, Dot;
    LeftInverseNonsingular(idn, a, k);
  }

  method FindPivot(mtx: array2<Symbol>, k: nat, col: nat) returns (piv: nat)
    requires k <= MAX_DATA && col < k && mtx.Length0 == mtx.Length1 == MAX_DATA
    ensures piv == k ==> forall r :: col <= r < k ==> mtx[r, col] == 0
    ensures piv != k ==> col <= piv < k && mtx[piv, col] != 0 && forall r :: col <= r < piv ==> mtx[r, col] == 0
  {
    piv := k;
    for r := col to k
      invariant piv == k ==> forall i :: col <= i < r ==> mtx[i, col] == 0
      invariant piv != k ==> col <= piv < r && mtx[piv, col] != 0
                             && forall i :: col <= i < piv ==> mtx[i, col] == 0
    {
      if piv == k && mtx[r, col] != 0 {
        piv := r;
      }
    }
  }

  lemma StartsEquivalent(a: Matrix, idn: Matrix, k: nat)
    requires IsSquare(a, k) && IsSquare(idn, k)
    requires forall r, j :: 0 <= r < k && 0 <= j < k ==> idn[r][j] == if r == j then 1 else 0
    ensures RowEquivalent(a, a, idn, k) && UnitColumns(a, k, 0)
  {
    hide Product, Sum, Dot;
    forall r, j | 0 <= r < k && 0 <= j < k ensures a[r][j] == Dot(idn[r], Column(a, j), k) {
      assert idn[r] == Unit(k, r);
      DotUnit(k, r, Column(a, j));
    }
  }
}
