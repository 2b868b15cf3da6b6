/** Vectors and square matrices over GF(256): inner products, row operations, and what the row
    operations of Gauss-Jordan elimination keep. */
module LinearAlgebra {
  import opened GaloisField

  type Vector = seq<Symbol>
  type Matrix = seq<Vector>

  /** The inner product of the first `n` components. */
  function Dot(u: Vector, v: Vector, n: nat): Symbol
    requires n <= |u| && n <= |v|
    decreases n, u
  {
    if n == 0 then 0 else Sum(Dot(u, v, n - 1), Product(u[n - 1], v[n - 1]))
  }

  ghost predicate IsSquare(m: Matrix, k: nat) {
    |m| == k && forall r :: 0 <= r < k ==> |m[r]| == k
  }

  function Column(m: Matrix, j: nat): (c: Vector)
    requires forall r :: 0 <= r < |m| ==> j < |m[r]|
    ensures |c| == |m|
  {
    seq(|m|, r requires 0 <= r < |m| => m[r][j])
  }

  function Unit(k: nat, i: nat): (u: Vector)
    ensures |u| == k
  {
    seq(k, j => if j == i then 1 else 0)
  }

  ghost predicate IsZero(v: Vector) {
    forall j :: 0 <= j < |v| ==> v[j] == 0
  }

  ghost predicate Kills(m: Matrix, v: Vector)
    requires IsSquare(m, |v|)
  {
    forall r :: 0 <= r < |v| ==> Dot(m[r], v, |v|) == 0
  }

  /** The kernel of the matrix is trivial. */
  ghost predicate Nonsingular(m: Matrix, k: nat)
    requires IsSquare(m, k)
  {
    forall v: Vector :: |v| == k && Kills(m, v) ==> IsZero(v)
  }

  /** `b * a` is the identity. */
  ghost predicate IsLeftInverse(b: Matrix, a: Matrix, k: nat)
    requires IsSquare(a, k) && IsSquare(b, k)
  {
    forall r, j :: 0 <= r < k && 0 <= j < k ==> Dot(b[r], Column(a, j), k) == if r == j then 1 else 0
  }

  // ---- Inner products are bilinear ----

  lemma {:induction false} DotCombination(u: Vector, f: Symbol, p: Vector, w: Vector, v: Vector, n: nat)
    requires n <= |u| && n <= |p| && n <= |w| && n <= |v|
    requires forall j :: 0 <= j < n ==> w[j] == Sum(u[j], Product(f, p[j]))
    ensures Dot(w, v, n) == Sum(Dot(u, v, n), Product(f, Dot(p, v, n)))
    decreases n
  {
    hide Sum, Product;
    ProductZero(f);
    SumLaws(0, 0, 0);
    if n > 0 {
      var i := n - 1;
      DotCombination(u, f, p, w, v, i);
      ProductDistributes(u[i], Product(f, p[i]), v[i]);
      ProductAssociative(f, p[i], v[i]);
      ProductDistributes(Dot(p, v, i), Product(p[i], v[i]), f);
      SumInterchange(Dot(u, v, i), Product(f, Dot(p, v, i)),
                     Product(u[i], v[i]), Product(f, Product(p[i], v[i])));
    }
  }

  lemma {:induction false} DotScaled(c: Symbol, p: Vector, w: Vector, v: Vector, n: nat)
    requires n <= |p| && n <= |w| && n <= |v|
    requires forall j :: 0 <= j < n ==> w[j] == Product(c, p[j])
    ensures Dot(w, v, n) == Product(c, Dot(p, v, n))
    decreases n
  {
    hide Sum, Product;
    ProductZero(c);
    if n > 0 {
      var i := n - 1;
      DotScaled(c, p, w, v, i);
      ProductAssociative(c, p[i], v[i]);
      ProductDistributes(Dot(p, v, i), Product(p[i], v[i]), c);
    }
  }

  lemma {:induction false} DotCommutes(u: Vector, v: Vector, n: nat)
    requires n <= |u| && n <= |v|
    ensures Dot(u, v, n) == Dot(v, u, n)
    decreases n
  {
    hide Sum, Product;
    if n > 0 {
      DotCommutes(u, v, n - 1);
      ProductCommutative(u[n - 1], v[n - 1]);
    }
  }

  /** An inner product in which only component `i` of `u` can matter. */
  lemma {:induction false} DotSingle(u: Vector, v: Vector, i: nat, n: nat)
    requires n <= |u| && n <= |v|
    requires forall j :: 0 <= j < n && j != i ==> u[j] == 0 || v[j] == 0
    ensures Dot(u, v, n) == if i < n then Product(u[i], v[i]) else 0
    decreases n
  {
    hide Sum, Product;
    if n > 0 {
      DotSingle(u, v, i, n - 1);
      ProductZero(u[n - 1]);
      ProductZero(v[n - 1]);
      SumLaws(Product(u[n - 1], v[n - 1]), 0, 0);
      SumLaws(Dot(u, v, n - 1), 0, 0);
    }
  }

  lemma DotUnit(k: nat, i: nat, v: Vector)
    requires i < k == |v|
    ensures Dot(Unit(k, i), v, k) == v[i]
  {
    hide Product, Dot;
    DotSingle(Unit(k, i), v, i, k);
    ProductOne(v[i]);
  }

  lemma {:induction false} DotZero(u: Vector, v: Vector, n: nat)
    requires n <= |u| && n <= |v|
    requires forall j :: 0 <= j < n ==> v[j] == 0
    ensures Dot(u, v, n) == 0
  {
    hide Product;
    DotSingle(u, v, n, n);
  }

  /** `x * (m * v) == (x * m) * v`, for the first `n` rows of `m`. */
  lemma {:induction false} DotAssociates(x: Vector, m: Matrix, v: Vector, y: Vector, z: Vector, n: nat)
    requires n <= |x| && n <= |m| && n <= |y| && |z| == |v|
    requires forall t :: 0 <= t < |m| ==> |m[t]| == |v|
    requires forall t :: 0 <= t < n ==> y[t] == Dot(m[t], v, |v|)
    requires forall j :: 0 <= j < |v| ==> z[j] == Dot(x, Column(m, j), n)
    ensures Dot(x, y, n) == Dot(z, v, |v|)
    decreases n
  {
    hide Sum, Product;
    if n == 0 {
      DotCommutes(z, v, |v|);
      DotZero(v, z, |v|);
    } else {
      var i := n - 1;
      var z' := seq(|v|, j requires 0 <= j < |v| => Dot(x, Column(m, j), i));
      DotAssociates(x, m, v, y, z', i);
      forall j | 0 <= j < |v| ensures z[j] == Sum(z'[j], Product(x[i], m[i][j])) {
        assert Column(m, j)[i] == m[i][j];
      }
      DotCombination(z', x[i], m[i], z, v, |v|);
    }
  }

  /** A matrix with a left inverse is nonsingular, and the inverse recovers every preimage. */
  lemma LeftInverseRecovers(b: Matrix, a: Matrix, v: Vector, y: Vector)
    requires IsSquare(a, |v|) && IsSquare(b, |v|) && IsLeftInverse(b, a, |v|) && |y| == |v|
    requires forall t :: 0 <= t < |v| ==> y[t] == Dot(a[t], v, |v|)
    ensures forall r :: 0 <= r < |v| ==> Dot(b[r], y, |v|) == v[r]
  {
    hide Sum, Product, Dot;
    var k := |v|;
    forall r | 0 <= r < k ensures Dot(b[r], y, k) == v[r] {
      DotAssociates(b[r], a, v, y, Unit(k, r), k);
      DotUnit(k, r, v);
    }
  }

  lemma LeftInverseNonsingular(b: Matrix, a: Matrix, k: nat)
    requires IsSquare(a, k) && IsSquare(b, k) && IsLeftInverse(b, a, k)
    ensures Nonsingular(a, k)
  {
    hide Sum, Product, Dot;
    forall v: Vector | |v| == k && Kills(a, v) ensures IsZero(v) {
      var y := seq(k, _ => 0);
      LeftInverseRecovers(b, a, v, y);
      forall r | 0 <= r < k ensures v[r] == 0 {
        DotZero(b[r], y, k);
      }
    }
  }
}
