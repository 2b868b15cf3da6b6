/** Division with remainder and congruences, for a positive modulus. */
module ModArith {

  lemma MulAtLeast(d: int, k: int)
    requires d > 0 && k >= 1
    ensures d * k >= d
  {
    assert d * k - d == d * (k - 1);
    assert d * (k - 1) >= 0;
  }

  lemma Distribute(d: int, a: int, b: int)
    ensures d * (a - b) == d * a - d * b
    ensures d * (a + b) == d * a + d * b
  {}

  lemma DivUnique(x: int, d: int, q: int, r: int)
    requires d > 0 && x == d * q + r && 0 <= r < d
    ensures x / d == q && x % d == r
  {
    var q', r' := x / d, x % d;
    Distribute(d, q, q');
    var k := q - q';
    if k >= 1 {
      MulAtLeast(d, k);
    } else if k <= -1 {
      MulAtLeast(d, -k);
      Distribute(d, q', q);
    }
  }

  /** Adding a multiple of the modulus does not change the residue. */
  lemma AddMultiple(x: int, k: int, d: int)
    requires d > 0
    ensures (x + d * k) % d == x % d
  {
    var q, r := x / d, x % d;
    Distribute(d, q, k);
    DivUnique(x + d * k, d, q + k, r);
  }

  lemma ModAdd(a: int, b: int, d: int)
    requires d > 0
    ensures (a + b) % d == (a % d + b % d) % d
  {
    var p, q := a / d, b / d;
    Distribute(d, p, q);
    Offset(a + b, a % d + b % d, p + q, d);
  }

  lemma ModSub(a: int, b: int, d: int)
    requires d > 0
    ensures (a - b) % d == (a % d - b % d) % d
  {
    var p, q := a / d, b / d;
    Distribute(d, p, q);
    Offset(a - b, a % d - b % d, p - q, d);
  }

  lemma Offset(x: int, y: int, k: int, d: int)
    requires d > 0 && x == y + d * k
    ensures x % d == y % d
  {
    AddMultiple(y, k, d);
  }

  lemma ModMul(a: int, b: int, d: int)
    requires d > 0
    ensures (a * b) % d == ((a % d) * (b % d)) % d
  {
    var p, q := a / d, b / d;
    MulByParts(a, b, d, p, a % d, q, b % d);
  }

  lemma MulByParts(a: int, b: int, d: int, p: int, r: int, q: int, s: int)
    requires d > 0 && a == d * p + r && b == d * q + s
    ensures (a * b) % d == (r * s) % d
  {
    ProductExpansion(d, p, r, q, s);
    Offset(a * b, r * s, p * q * d + p * s + q * r, d);
  }

  /** Congruent factors give congruent products, and so on. */
  lemma CongruentOps(a: int, a': int, b: int, b': int, d: int)
    requires d > 0 && a % d == a' % d && b % d == b' % d
    ensures (a + b) % d == (a' + b') % d
    ensures (a - b) % d == (a' - b') % d
    ensures (a * b) % d == (a' * b') % d
  {
    ModAdd(a, b, d);
    ModAdd(a', b', d);
    ModSub(a, b, d);
    ModSub(a', b', d);
    ModMul(a, b, d);
    ModMul(a', b', d);
  }

  lemma ProductExpansion(d: int, p: int, r: int, q: int, s: int)
    ensures (d * p + r) * (d * q + s) == r * s + d * (p * q * d + p * s + q * r)
  {
    var x := d * q + s;
    assert (d * p + r) * x == d * p * x + r * x;
    assert r * x == r * s + d * (q * r);
    assert d * p * x == d * (p * x);
    assert p * x == p * q * d + p * s;
    Distribute(d, p * q * d + p * s, q * r);
  }
}
