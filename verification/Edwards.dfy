/** The twisted Edwards curve -x^2 + y^2 = 1 + d x^2 y^2 over the integers modulo P, in affine
    coordinates: the addition that the limb formulas compute.

    Three facts about the curve are hypotheses, gathered in `CurveFacts`: P is prime, the
    denominators of the addition never vanish on the curve, and the addition is associative.
    Closure, commutativity, the identity and inverses are proved. */
module Edwards {
  import opened ModArith
  import opened Word64
  import opened Field25519
  import opened Scalar25519

  const D_LIMBS: seq<I64> :=
    [0x78a3, 0x1359, 0x4dca, 0x75eb, 0xd8ab, 0x4141, 0x0a4d, 0x0070,
     0xe898, 0x7779, 0x4079, 0x8cc7, 0xfe73, 0x2b6f, 0x6cee, 0x5203]

  /** The definitions below are stated under `Open`, which no contract mentions: a proof unfolds one
      by the lemma named after it.  Products of large numbers stay out of the other proofs. */
  predicate Open(u: bool) {
    u
  }

  ghost predicate IsCoefficient(d: int) {
    forall u: bool :: Open(u) ==> d == 0x52036cee_2b6ffe73_8cc74079_7779e898_00700a4d_4141d8ab_75eb4dca_135978a3
  }

  /** The coefficient of the curve. */
  ghost const D: int :=
    assert IsCoefficient(0x52036cee_2b6ffe73_8cc74079_7779e898_00700a4d_4141d8ab_75eb4dca_135978a3);
    var d: int :| IsCoefficient(d); d

  const BASE_X := 0x216936d3_cd6e53fe_c0a4e231_fdd6dc5c_692cc760_9525a7b2_c9562d60_8f25d51a
  const BASE_Y := 0x66666666_66666666_66666666_66666666_66666666_66666666_66666666_66666658

  datatype Affine = Affine(x: int, y: int)

  const IDENTITY := Affine(0, 1)
  const BASE := Affine(BASE_X, BASE_Y)

  ghost predicate SaysZero(b: bool, a: int) {
    forall u: bool :: Open(u) ==> (b <==> a % P == 0)
  }

  /** `a` is a multiple of P. */
  ghost predicate Zero(a: int) {
    assert SaysZero(a % P == 0, a);
    var b: bool :| SaysZero(b, a); b
  }

  ghost predicate IsDefect(d: int, x: int, y: int) {
    forall u: bool :: Open(u) ==> d == -x * x + y * y - 1 - D * ((x * y) * (x * y))
  }

  /** How far a point is from satisfying the curve equation. */
  ghost function Defect(x: int, y: int): int {
    assert IsDefect(-x * x + y * y - 1 - D * ((x * y) * (x * y)), x, y);
    var d: int :| IsDefect(d, x, y); d
  }

  /** The coordinates are residues. */
  predicate InField(p: Affine) {
    0 <= p.x < P && 0 <= p.y < P
  }

  ghost predicate OnCurve(p: Affine) {
    InField(p) && Zero(Defect(p.x, p.y))
  }

  /** The inverse modulo P. */
  ghost function Inverse(z: int): int {
    IntPower(z, P - 2)
  }

  ghost predicate IsRatio(s: int, a: int, c: int) {
    0 <= s < P && forall u: bool :: Open(u) ==> s == a * Inverse(c) % P
  }

  /** The quotient modulo P. */
  ghost function Ratio(a: int, c: int): (s: int)
    ensures 0 <= s < P
  {
    assert IsRatio(a * Inverse(c) % P, a, c);
    var s: int :| IsRatio(s, a, c); s
  }

  ghost predicate IsDelta(d: int, p: Affine, q: Affine) {
    forall u: bool :: Open(u) ==> d == D * ((p.x * q.x) * (p.y * q.y))
  }

  ghost function Delta(p: Affine, q: Affine): int {
    assert IsDelta(D * ((p.x * q.x) * (p.y * q.y)), p, q);
    var d: int :| IsDelta(d, p, q); d
  }

  ghost predicate IsCross(c: int, p: Affine, q: Affine) {
    forall u: bool :: Open(u) ==> c == p.x * q.y + q.x * p.y
  }

  ghost function Cross(p: Affine, q: Affine): int {
    assert IsCross(p.x * q.y + q.x * p.y, p, q);
    var c: int :| IsCross(c, p, q); c
  }

  ghost predicate IsInner(c: int, p: Affine, q: Affine) {
    forall u: bool :: Open(u) ==> c == p.y * q.y + p.x * q.x
  }

  ghost function Inner(p: Affine, q: Affine): int {
    assert IsInner(p.y * q.y + p.x * q.x, p, q);
    var c: int :| IsInner(c, p, q); c
  }

  /** The Edwards addition. */
  ghost function Add(p: Affine, q: Affine): Affine {
    Affine(Ratio(Cross(p, q), 1 + Delta(p, q)), Ratio(Inner(p, q), 1 - Delta(p, q)))
  }

  ghost function Negate(p: Affine): Affine {
    Affine(-p.x % P, p.y)
  }

  // ---- Unfolding ----

  lemma ZeroMeans(a: int)
    ensures Zero(a) <==> a % P == 0
  {
    assert Open(true);
  }

  lemma DefectIs(x: int, y: int)
    ensures Defect(x, y) == -x * x + y * y - 1 - D * ((x * y) * (x * y))
  {
    assert Open(true);
  }

  lemma DeltaIs(p: Affine, q: Affine)
    ensures Delta(p, q) == D * ((p.x * q.x) * (p.y * q.y))
  {
    assert Open(true);
  }

  lemma CrossIs(p: Affine, q: Affine)
    ensures Cross(p, q) == p.x * q.y + q.x * p.y
  {
    assert Open(true);
  }

  lemma InnerIs(p: Affine, q: Affine)
    ensures Inner(p, q) == p.y * q.y + p.x * q.x
  {
    assert Open(true);
  }

  lemma RatioIs(a: int, c: int)
    ensures Ratio(a, c) == a * Inverse(c) % P
  {
    assert Open(true);
  }

  // ---- The coefficient ----

  /** Four limbs at a time. */
  lemma FourLimbs(s: Limbs, n: nat)
    requires n + 4 <= 16
    ensures Number(s, n + 4) == Number(s, n) + Weight(n) * (s[n] as int + 0x1_0000 * s[n + 1] as int
                                + 0x1_0000_0000 * s[n + 2] as int + 0x1_0000_0000_0000 * s[n + 3] as int)
  {
    hide Number, Weight;
    NumberStep(s, n);
    NumberStep(s, n + 1);
    NumberStep(s, n + 2);
    NumberStep(s, n + 3);
    WeightStep(n);
    WeightStep(n + 1);
    WeightStep(n + 2);
  }

  lemma QuarterWeights()
    ensures Weight(0) == 1 && Weight(4) == 0x1_00000000_00000000 && Weight(8) == 0x1_00000000_00000000_00000000_00000000
    ensures Weight(12) == 0x1_00000000_00000000_00000000_00000000_00000000_00000000
  {
    assert Weight(4) == 0x1_00000000_00000000;
    assert Weight(8) == 0x1_00000000_00000000_00000000_00000000;
  }

  lemma DValue()
    ensures D == 0x52036cee_2b6ffe73_8cc74079_7779e898_00700a4d_4141d8ab_75eb4dca_135978a3
  {
    assert Open(true);
  }

  lemma DLimbsValue()
    ensures Reduced(D_LIMBS) && LimbValue(D_LIMBS) == D
  {
    hide Number, Weight;
    FourLimbs(D_LIMBS, 0);
    FourLimbs(D_LIMBS, 4);
    FourLimbs(D_LIMBS, 8);
    FourLimbs(D_LIMBS, 12);
    NumberEmpty(D_LIMBS);
    QuarterWeights();
    DValue();
  }

  // ---- Hypotheses ----

  ghost predicate Invertible(z: int) {
    !Zero(z) ==> Zero(z * Inverse(z) - 1)
  }

  /** P is prime: raising to P - 2 inverts what is not zero (Fermat). */
  ghost predicate PrimeModulus() {
    forall z: int :: Invertible(z)
  }

  ghost predicate Regular(p: Affine, q: Affine) {
    OnCurve(p) && OnCurve(q) ==> !Zero(1 + Delta(p, q)) && !Zero(1 - Delta(p, q))
  }

  /** The addition has no exceptional points (d is not a square). */
  ghost predicate Complete() {
    forall p, q :: Regular(p, q)
  }

  ghost predicate Associates(p: Affine, q: Affine, r: Affine) {
    OnCurve(p) && OnCurve(q) && OnCurve(r) ==> Add(Add(p, q), r) == Add(p, Add(q, r))
  }

  ghost predicate Associative() {
    forall p, q, r :: Associates(p, q, r)
  }

  ghost predicate CurveFacts() {
    PrimeModulus() && Complete() && Associative()
  }

  // ---- Zero modulo P ----

  lemma ZeroTimes(c: int, a: int)
    requires Zero(a)
    ensures Zero(c * a)
  {
    ZeroMeans(a);
    ZeroMeans(c * a);
    assert a == P * (a / P);
    assert c * (P * (a / P)) == P * (c * (a / P));
    AddMultiple(0, c * (a / P), P);
  }

  lemma ZeroPlus(a: int, b: int)
    requires Zero(a) && Zero(b)
    ensures Zero(a + b) && Zero(a - b)
  {
    hide Zero;
    ZeroMeans(a);
    ZeroMeans(b);
    ZeroMeans(a + b);
    ZeroMeans(a - b);
    ModAdd(a, b, P);
    ModSub(a, b, P);
  }

  /** A combination of zeros is zero. */
  lemma Combination(a: int, c: int, u: int, c': int, u': int)
    requires Zero(u) && Zero(u') && a == c * u + c' * u'
    ensures Zero(a)
  {
    hide Zero;
    ZeroTimes(c, u);
    ZeroTimes(c', u');
    ZeroPlus(c * u, c' * u');
  }

  lemma ZeroIsCongruent(a: int, b: int)
    ensures Zero(a - b) <==> Congruent(a, b)
  {
    ZeroMeans(a - b);
    ModSub(a, b, P);
  }

  lemma SameResidue(a: int, b: int)
    requires Zero(a - b) && 0 <= a < P && 0 <= b < P
    ensures a == b
  {
    ZeroMeans(a - b);
  }

  lemma ResidueZero(a: int)
    ensures Zero(a % P - a) && Zero(a - a % P)
  {
    ZeroIsCongruent(a % P, a);
    ZeroIsCongruent(a, a % P);
  }

  /** There are no zero divisors. */
  lemma Cancel(c: int, a: int)
    requires PrimeModulus() && !Zero(c) && Zero(c * a)
    ensures Zero(a)
  {
    hide Zero, Inverse;
    var i := Inverse(c);
    assert Invertible(c);
    assert a == i * (c * a) + (-a) * (c * i - 1);
    Combination(a, i, c * a, -a, c * i - 1);
  }

  lemma NonzeroProduct(a: int, b: int)
    requires PrimeModulus() && !Zero(a) && !Zero(b)
    ensures !Zero(a * b)
  {
    hide Zero, PrimeModulus;
    if Zero(a * b) {
      Cancel(a, b);
    }
  }

  // ---- The addition law ----

  lemma CurveInField(p: Affine)
    requires OnCurve(p)
    ensures InField(p)
  {
    hide Zero, Defect;
  }

  /** What the sum satisfies, without division. */
  lemma SumEquations(p: Affine, q: Affine)
    requires PrimeModulus() && Complete() && OnCurve(p) && OnCurve(q)
    ensures var s := Add(p, q); var d := Delta(p, q);
            && 0 <= s.x < P && 0 <= s.y < P && !Zero(1 + d) && !Zero(1 - d)
            && Zero((1 + d) * s.x - Cross(p, q)) && Zero((1 - d) * s.y - Inner(p, q))
  {
    hide Zero, Inverse, Delta, Cross, Inner, OnCurve, PrimeModulus;
    assert Regular(p, q);
    assert !Zero(1 + Delta(p, q)) && !Zero(1 - Delta(p, q));
    Quotient(Cross(p, q), 1 + Delta(p, q));
    Quotient(Inner(p, q), 1 - Delta(p, q));
  }

  lemma Quotient(a: int, c: int)
    requires PrimeModulus() && !Zero(c)
    ensures Zero(c * Ratio(a, c) - a)
  {
    hide Zero, Inverse;
    var i := Inverse(c);
    assert Invertible(c);
    var s := a * i % P;
    RatioIs(a, c);
    ResidueZero(a * i);
    assert c * s - a == c * (s - a * i) + a * (c * i - 1);
    Combination(c * s - a, c, s - a * i, a, c * i - 1);
  }

  /** Two solutions of the same equations are the same point. */
  lemma SumIsUnique(p: Affine, q: Affine, s: Affine)
    requires PrimeModulus() && Complete() && OnCurve(p) && OnCurve(q)
    requires 0 <= s.x < P && 0 <= s.y < P
    requires Zero((1 + Delta(p, q)) * s.x - Cross(p, q)) && Zero((1 - Delta(p, q)) * s.y - Inner(p, q))
    ensures s == Add(p, q)
  {
    hide Zero, Add, Delta, Cross, Inner, OnCurve, PrimeModulus, Complete;
    var t, d := Add(p, q), Delta(p, q);
    SumEquations(p, q);
    SameQuotient(1 + d, s.x, t.x, Cross(p, q));
    SameQuotient(1 - d, s.y, t.y, Inner(p, q));
  }

  lemma SameQuotient(c: int, a: int, b: int, e: int)
    requires PrimeModulus() && !Zero(c) && Zero(c * a - e) && Zero(c * b - e)
    requires 0 <= a < P && 0 <= b < P
    ensures a == b
  {
    hide Zero, PrimeModulus;
    ZeroPlus(c * a - e, c * b - e);
    assert c * a - e - (c * b - e) == c * (a - b);
    Cancel(c, a - b);
    SameResidue(a, b);
  }

  lemma AddCommutes(p: Affine, q: Affine)
    ensures Add(p, q) == Add(q, p)
  {
    DeltaIs(p, q);
    DeltaIs(q, p);
    CrossIs(p, q);
    CrossIs(q, p);
    InnerIs(p, q);
    InnerIs(q, p);
    assert Delta(p, q) == Delta(q, p);
  }

  lemma IdentityOnCurve()
    ensures OnCurve(IDENTITY)
  {
    DefectIs(0, 1);
    ZeroMeans(Defect(0, 1));
  }

  lemma AddIdentity(p: Affine)
    requires PrimeModulus() && Complete() && OnCurve(p)
    ensures Add(p, IDENTITY) == p && Add(IDENTITY, p) == p
  {
    hide Defect, PrimeModulus, Complete;
    IdentityOnCurve();
    ZeroMeans(0);
    DeltaIs(p, IDENTITY);
    CrossIs(p, IDENTITY);
    InnerIs(p, IDENTITY);
    assert Delta(p, IDENTITY) == 0 && Cross(p, IDENTITY) == p.x && Inner(p, IDENTITY) == p.y;
    SumIsUnique(p, IDENTITY, p);
    AddCommutes(p, IDENTITY);
  }

  // ---- Closure ----

  /** Sums of squares of the cross products. */
  lemma CrossSquares(a: int, b: int, c: int, d: int)
    ensures var e, h := a * d + c * b, b * d + a * c;
            && h * h - e * e == (b * b - a * a) * (d * d - c * c)
            && h * h + e * e == (a * a + b * b) * (c * c + d * d) + 4 * ((a * c) * (b * d))
            && e * h == (a * b) * (c * c + d * d) + (c * d) * (a * a + b * b)
  {}

  lemma SquareOfSum(a: int, b: int)
    ensures (a * a + b * b) * (a * a + b * b) == (b * b - a * a) * (b * b - a * a) + 4 * ((a * b) * (a * b))
  {}

  /** The defect of a quotient point, times the squares `ff` and `gg` of the denominators. */
  ghost function Cleared(k: int, hh: int, ee: int, ehh: int, ff: int, gg: int): int {
    hh * gg - ee * ff - ff * gg - k * ehh
  }

  ghost predicate IsRawDefect(d: int, k: int, e: int, h: int, f: int, g: int) {
    forall u: bool :: Open(u) ==> d == Cleared(k, h * h, e * e, (e * h) * (e * h), f * f, g * g)
  }

  ghost function RawDefect(k: int, e: int, h: int, f: int, g: int): int {
    assert IsRawDefect(Cleared(k, h * h, e * e, (e * h) * (e * h), f * f, g * g), k, e, h, f, g);
    var d: int :| IsRawDefect(d, k, e, h, f, g); d
  }

  lemma RawDefectIs(k: int, e: int, h: int, f: int, g: int)
    ensures RawDefect(k, e, h, f, g) == Cleared(k, h * h, e * e, (e * h) * (e * h), f * f, g * g)
  {
    assert Open(true);
  }

  /** The curve equation of a sum, before division, in terms of those of the summands. */
  lemma SumDefect(k: int, a: int, b: int, c: int, d: int)
    ensures var w := k * ((a * c) * (b * d));
            RawDefect(k, a * d + c * b, b * d + a * c, 1 - w, 1 + w)
            == Reckoned(k, (a * b) * (a * b), (c * d) * (c * d), b * b - a * a, d * d - c * c)
  {
    var e, h, v := a * d + c * b, b * d + a * c, (a * c) * (b * d);
    var w := k * v;
    var u, u', t, t' := b * b - a * a, d * d - c * c, (a * b) * (a * b), (c * d) * (c * d);
    var s, s' := a * a + b * b, c * c + d * d;
    CrossSquares(a, b, c, d);
    SquareOfSum(a, b);
    SquareOfSum(c, d);
    assert v == (a * b) * (c * d);
    var m, m' := a * b, c * d;
    DefectAlgebra(k, m, m', s, s', u, u', h * h, e * e, e * h);
    RawDefectIs(k, e, h, 1 - w, 1 + w);
    ReckonedIs(k, t, t', u, u');
  }

  /** What remains of the defect once the squares of sums are replaced. */
  ghost function Remainder(k: int, t: int, t': int, u: int, u': int): int {
    (1 + k * k * (t * t')) * (u * u') - (1 - k * k * (t * t')) * (1 - k * k * (t * t')) - k * t * (u' * u')
        - k * t' * (u * u)
  }

  ghost predicate IsReckoned(r: int, k: int, t: int, t': int, u: int, u': int) {
    forall b: bool :: Open(b) ==> r == Remainder(k, t, t', u, u')
  }

  ghost function Reckoned(k: int, t: int, t': int, u: int, u': int): int {
    assert IsReckoned(Remainder(k, t, t', u, u'), k, t, t', u, u');
    var r: int :| IsReckoned(r, k, t, t', u, u'); r
  }

  lemma ReckonedIs(k: int, t: int, t': int, u: int, u': int)
    ensures Reckoned(k, t, t', u, u') == Remainder(k, t, t', u, u')
  {
    assert Open(true);
  }

  lemma DefectAlgebra(k: int, m: int, m': int, s: int, s': int, u: int, u': int, hh: int, ee: int, eh: int)
    requires hh - ee == u * u' && hh + ee == s * s' + 4 * (m * m') && eh == m * s' + m' * s
    requires s * s == u * u + 4 * (m * m) && s' * s' == u' * u' + 4 * (m' * m')
    ensures var w := k * (m * m');
            Cleared(k, hh, ee, eh * eh, (1 - w) * (1 - w), (1 + w) * (1 + w)) == Remainder(k, m * m, m' * m', u, u')
  {
    var w, v, r := k * (m * m'), m * m', s * s';
    assert hh * ((1 + w) * (1 + w)) - ee * ((1 - w) * (1 - w)) == (1 + w * w) * (hh - ee) + 2 * w * (hh + ee);
    assert ((1 - w) * (1 - w)) * ((1 + w) * (1 + w)) == (1 - w * w) * (1 - w * w);
    var t, t' := m * m, m' * m';
    assert eh * eh == t * (s' * s') + t' * (s * s) + 2 * (v * r) by {
      SquareExpands(m, s', m', s);
    }
    assert w * w == k * k * (t * t') by {
      WeightSquare(k, m, m');
    }
    assert v * v == t * t';
    Replace(k, w, v, r, t, t', u * u, u' * u', u * u');
  }

  lemma SquareExpands(m: int, x: int, n: int, y: int)
    ensures (m * x + n * y) * (m * x + n * y) == (m * m) * (x * x) + (n * n) * (y * y) + 2 * ((m * n) * (y * x))
  {
    var a, b := m * x, n * y;
    assert (a + b) * (a + b) == a * a + b * b + 2 * (a * b);
    assert a * a == (m * m) * (x * x) && b * b == (n * n) * (y * y);
    assert a * b == (m * n) * (y * x);
  }

  lemma WeightSquare(k: int, m: int, n: int)
    ensures (k * (m * n)) * (k * (m * n)) == k * k * ((m * m) * (n * n))
  {
    var v := m * n;
    assert v * v == (m * m) * (n * n);
    assert (k * v) * (k * v) == k * k * (v * v);
  }

  lemma Replace(k: int, w: int, v: int, r: int, t: int, t': int, uu: int, uu': int, uv: int)
    requires w == k * v && v * v == t * t'
    ensures (1 + w * w) * uv + 2 * w * (r + 4 * v) - k * (t * (uu' + 4 * t') + t' * (uu + 4 * t) + 2 * (v * r))
         == (1 + w * w) * uv - k * t * uu' - k * t' * uu
  {
    assert 2 * w * (r + 4 * v) == 2 * (k * (v * r)) + 8 * (k * (v * v));
    assert k * (t * (uu' + 4 * t') + t' * (uu + 4 * t) + 2 * (v * r))
        == k * t * uu' + k * t' * uu + 8 * (k * (t * t')) + 2 * (k * (v * r));
  }

  /** On the curve, `y^2 - x^2` is `1 + k x^2 y^2`, and then nothing remains. */
  lemma ReckonedVanishes(k: int, t: int, t': int, u: int, u': int)
    requires Zero(u - 1 - k * t) && Zero(u' - 1 - k * t')
    ensures Zero(Reckoned(k, t, t', u, u'))
  {
    hide Zero;
    var p, q := k * t, k * t';
    var c, c', a := 1 + p, 1 + q, 1 + p * q;
    ReckonedIs(k, t, t', u, u');
    assert k * k * (t * t') == p * q;
    Factored(a, p, q, u, u', c, c');
    Balanced(p, q);
    hide *;
    Combination(a * (u * u') - (1 - p * q) * (1 - p * q) - p * (u' * u') - q * (u * u),
                a * u' - q * (u + c), u - 1 - p, a * c - p * (u' + c'), u' - 1 - q);
  }

  lemma Balanced(p: int, q: int)
    ensures (1 + p * q) * ((1 + p) * (1 + q)) - (1 - p * q) * (1 - p * q) - p * ((1 + q) * (1 + q))
              - q * ((1 + p) * (1 + p)) == 0
  {}

  lemma Factored(a: int, p: int, q: int, u: int, u': int, c: int, c': int)
    ensures a * (u * u') - p * (u' * u') - q * (u * u) - (a * (c * c') - p * (c' * c') - q * (c * c))
         == (a * u' - q * (u + c)) * (u - c) + (a * c - p * (u' + c')) * (u' - c')
  {
    assert (a * u' - q * (u + c)) * (u - c) == a * (u * u') - a * (u' * c) - q * (u * u) + q * (c * c);
    assert (a * c - p * (u' + c')) * (u' - c') == a * (u' * c) - a * (c * c') - p * (u' * u') + p * (c' * c');
  }

  lemma ZeroProduct(a: int, b: int, c: int, d: int)
    requires Zero(a - b) && Zero(c - d)
    ensures Zero(a * c - b * d)
  {
    hide Zero;
    Combination(a * c - b * d, a, c - d, d, a - b);
  }

  /** The raw defect is the defect of the quotients, scaled by the squares of the denominators. */
  lemma QuotientOnCurve(e: int, h: int, f: int, g: int, x: int, y: int)
    requires PrimeModulus() && !Zero(f) && !Zero(g)
    requires Zero(g * x - e) && Zero(f * y - h) && Zero(RawDefect(D, e, h, f, g))
    ensures Zero(Defect(x, y))
  {
    hide Zero, PrimeModulus, Defect;
    var m, n, s := g * x, f * y, (f * g) * (f * g);
    RawCongruent(D, m, e, n, h, f, g);
    assert RawDefect(D, m, n, f, g) == s * Defect(x, y) by {
      ScaledDefect(f, g, x, y);
    }
    NonzeroProduct(f, g);
    NonzeroProduct(f * g, f * g);
    Cancel(s, Defect(x, y));
  }

  /** Congruent quotients have congruent raw defects. */
  lemma RawCongruent(k: int, m: int, e: int, n: int, h: int, f: int, g: int)
    requires Zero(m - e) && Zero(n - h) && Zero(RawDefect(k, e, h, f, g))
    ensures Zero(RawDefect(k, m, n, f, g))
  {
    hide Zero;
    ZeroProduct(m, e, m, e);
    ZeroProduct(n, h, n, h);
    ZeroProduct(m, e, n, h);
    ZeroProduct(m * n, e * h, m * n, e * h);
    var a, b, c := n * n - h * h, m * m - e * e, (m * n) * (m * n) - (e * h) * (e * h);
    Combination((g * g) * a - (f * f) * b, g * g, a, -(f * f), b);
    Combination((g * g) * a - (f * f) * b - k * c, 1, (g * g) * a - (f * f) * b, -k, c);
    RawDefectIs(k, m, n, f, g);
    RawDefectIs(k, e, h, f, g);
    assert RawDefect(k, m, n, f, g) == RawDefect(k, e, h, f, g) + ((g * g) * a - (f * f) * b - k * c);
    ZeroPlus(RawDefect(k, e, h, f, g), (g * g) * a - (f * f) * b - k * c);
  }

  lemma ScaledDefect(f: int, g: int, x: int, y: int)
    ensures RawDefect(D, g * x, f * y, f, g) == ((f * g) * (f * g)) * Defect(x, y)
  {
    RawDefectIs(D, g * x, f * y, f, g);
    DefectIs(x, y);
    ScaleOut(D, f, g, x, y);
  }

  lemma ScaleOut(k: int, f: int, g: int, x: int, y: int)
    ensures ((f * y) * (f * y)) * (g * g) - ((g * x) * (g * x)) * (f * f) - (f * f) * (g * g)
              - k * (((g * x) * (f * y)) * ((g * x) * (f * y)))
         == ((f * g) * (f * g)) * (-x * x + y * y - 1 - k * ((x * y) * (x * y)))
  {
    var ff, gg, m, s := f * f, g * g, x * y, (f * g) * (f * g);
    SquareProduct(f, g);
    SquareProduct(f, y);
    SquareProduct(g, x);
    assert (g * x) * (f * y) == (f * g) * m by {
      Regroup(g, x, f, y);
    }
    SquareProduct(f * g, m);
    Rotate(ff, y * y, gg);
    Rotate(gg, x * x, ff);
    assert k * (s * (m * m)) == s * (k * (m * m));
    Spread(s, x * x, y * y, k * (m * m));
  }

  lemma SquareProduct(a: int, b: int)
    ensures (a * b) * (a * b) == (a * a) * (b * b)
  {}

  lemma Regroup(a: int, b: int, c: int, d: int)
    ensures (a * b) * (c * d) == (c * a) * (b * d)
  {}

  lemma Rotate(a: int, b: int, c: int)
    ensures (a * b) * c == (a * c) * b == (c * a) * b
  {}

  lemma Spread(s: int, a: int, b: int, c: int)
    ensures s * (-a + b - 1 - c) == s * b - s * a - s - s * c
  {}

  lemma SumDefectVanishes(p: Affine, q: Affine)
    requires OnCurve(p) && OnCurve(q)
    ensures Zero(RawDefect(D, Cross(p, q), Inner(p, q), 1 - Delta(p, q), 1 + Delta(p, q)))
  {
    hide Zero, RawDefect, Reckoned;
    SumDefect(D, p.x, p.y, q.x, q.y);
    DefectIs(p.x, p.y);
    DefectIs(q.x, q.y);
    DeltaIs(p, q);
    CrossIs(p, q);
    InnerIs(p, q);
    ReckonedVanishes(D, (p.x * p.y) * (p.x * p.y), (q.x * q.y) * (q.x * q.y), p.y * p.y - p.x * p.x,
                     q.y * q.y - q.x * q.x);
  }

  /** The sum of two points on the curve is on the curve. */
  lemma AddOnCurve(p: Affine, q: Affine)
    requires PrimeModulus() && Complete() && OnCurve(p) && OnCurve(q)
    ensures OnCurve(Add(p, q))
  {
    var s, w := Add(p, q), Delta(p, q);
    SumEquations(p, q);
    SumDefectVanishes(p, q);
    hide Zero, Add, PrimeModulus, Complete, RawDefect, Cross, Inner, Delta, Defect;
    QuotientOnCurve(Cross(p, q), Inner(p, q), 1 - w, 1 + w, s.x, s.y);
  }

  // ---- Inverses and multiples ----

  lemma NegateOnCurve(p: Affine)
    requires OnCurve(p)
    ensures OnCurve(Negate(p))
  {
    hide Zero;
    var x, n := p.x, -p.x % P;
    ResidueZero(-x);
    ZeroProduct(n, -x, n, -x);
    assert n * n - x * x == n * n - (-x) * (-x);
    var y := p.y;
    var c := -1 - D * (y * y);
    assert Defect(n, y) == c * (n * n - x * x) + 1 * Defect(x, y) by {
      DefectOfSquare(n, y);
      DefectOfSquare(x, y);
      Distribute(c, n * n, x * x);
    }
    Combination(Defect(n, y), c, n * n - x * x, 1, Defect(x, y));
  }

  lemma DefectOfSquare(x: int, y: int)
    ensures Defect(x, y) == (-1 - D * (y * y)) * (x * x) + y * y - 1
  {
    DefectIs(x, y);
    SquareProduct(x, y);
    assert D * ((x * x) * (y * y)) == (D * (y * y)) * (x * x);
  }

  lemma AddNegate(p: Affine)
    requires PrimeModulus() && Complete() && OnCurve(p)
    ensures Add(p, Negate(p)) == IDENTITY
  {
    NegateOnCurve(p);
    var x, y, n := p.x, p.y, -p.x % P;
    var q := Negate(p);
    ResidueZero(-x);
    NegateAlgebra(D, x, y, n);
    DefectIs(x, y);
    DeltaIs(p, q);
    CrossIs(p, q);
    InnerIs(p, q);
    hide Zero, PrimeModulus, Complete;
    ZeroTimes(-y, n + x);
    Combination(1 - Delta(p, q) - Inner(p, q), -D * ((x * y) * y) - x, n + x, -1, Defect(x, y));
    SumIsUnique(p, q, IDENTITY);
  }

  lemma NegateAlgebra(k: int, x: int, y: int, n: int)
    ensures -(x * y + n * y) == -y * (n + x)
    ensures 1 - k * ((x * n) * (y * y)) - (y * y + x * n)
         == (-k * ((x * y) * y) - x) * (n + x) + (-1) * (-x * x + y * y - 1 - k * ((x * y) * (x * y)))
  {
    var m := k * ((x * y) * y);
    assert k * ((x * n) * (y * y)) == m * n by {
      Move(k, x, n, y);
    }
    assert k * ((x * y) * (x * y)) == m * x by {
      Move(k, x, x, y);
      SquareProduct(x, y);
    }
    assert (-m - x) * (n + x) == -m * n - m * x - x * n - x * x;
  }

  lemma Move(k: int, x: int, n: int, y: int)
    ensures k * ((x * n) * (y * y)) == (k * ((x * y) * y)) * n
  {
    var v := (x * y) * y;
    assert (x * n) * (y * y) == v * n;
    assert k * (v * n) == (k * v) * n;
  }

  // ---- Multiples ----

  lemma Associate(p: Affine, q: Affine, r: Affine)
    requires CurveFacts() && OnCurve(p) && OnCurve(q) && OnCurve(r)
    ensures Add(Add(p, q), r) == Add(p, Add(q, r))
  {
    hide PrimeModulus, Complete, Add, OnCurve;
    assert Associates(p, q, r);
  }

  /** Pairs of sums can be regrouped. */
  lemma Interchange(p: Affine, q: Affine, r: Affine, s: Affine)
    requires CurveFacts() && OnCurve(p) && OnCurve(q) && OnCurve(r) && OnCurve(s)
    ensures Add(Add(p, q), Add(r, s)) == Add(Add(p, r), Add(q, s))
  {
    hide PrimeModulus, Complete, Associative, Add, OnCurve;
    AddOnCurve(r, s);
    AddOnCurve(q, s);
    Associate(p, q, Add(r, s));
    Associate(p, r, Add(q, s));
    Associate(q, r, s);
    Associate(r, q, s);
    AddCommutes(q, r);
  }

  /** The `n`-fold sum of a point. */
  ghost function Times(n: nat, p: Affine): Affine
    decreases n, p.x
  {
    if n == 0 then IDENTITY else Add(Times(n - 1, p), p)
  }

  lemma TimesStep(n: nat, p: Affine)
    ensures Times(0, p) == IDENTITY && Times(n + 1, p) == Add(Times(n, p), p)
  {
    hide Add;
  }

  lemma {:induction false} TimesOnCurve(n: nat, p: Affine)
    requires CurveFacts() && OnCurve(p)
    ensures OnCurve(Times(n, p))
  {
    hide CurveFacts, Add, OnCurve;
    if n == 0 {
      IdentityOnCurve();
    } else {
      TimesOnCurve(n - 1, p);
      FactsGive();
      AddOnCurve(Times(n - 1, p), p);
    }
  }

  lemma FactsGive()
    requires CurveFacts()
    ensures PrimeModulus() && Complete()
  {}

  lemma {:induction false} TimesSum(m: nat, n: nat, p: Affine)
    requires CurveFacts() && OnCurve(p)
    ensures Times(m + n, p) == Add(Times(m, p), Times(n, p))
  {
    hide CurveFacts, Add, OnCurve, Times, PrimeModulus, Complete;
    FactsGive();
    TimesOnCurve(m, p);
    if n == 0 {
      AddIdentity(Times(m, p));
      TimesStep(0, p);
    } else {
      TimesSum(m, n - 1, p);
      TimesOnCurve(n - 1, p);
      Associate(Times(m, p), Times(n - 1, p), p);
      TimesStep(n - 1, p);
      TimesStep(m + n - 1, p);
    }
  }

  lemma {:induction false} TimesProduct(m: nat, n: nat, p: Affine)
    requires CurveFacts() && OnCurve(p)
    ensures Times(m, Times(n, p)) == Times(m * n, p)
  {
    hide CurveFacts, Add, OnCurve, Times;
    TimesStep(0, p);
    TimesStep(0, Times(n, p));
    if m > 0 {
      TimesProduct(m - 1, n, p);
      TimesStep(m - 1, Times(n, p));
      assert (m - 1) * n + n == m * n;
      TimesSum((m - 1) * n, n, p);
    }
  }

  lemma {:induction false} TimesOfSum(n: nat, p: Affine, q: Affine)
    requires CurveFacts() && OnCurve(p) && OnCurve(q)
    ensures Times(n, Add(p, q)) == Add(Times(n, p), Times(n, q))
  {
    hide CurveFacts, Add, OnCurve, Times, PrimeModulus, Complete;
    FactsGive();
    TimesStep(0, p);
    TimesStep(0, q);
    TimesStep(0, Add(p, q));
    if n == 0 {
      IdentityOnCurve();
      AddIdentity(IDENTITY);
    } else {
      TimesOfSum(n - 1, p, q);
      TimesOnCurve(n - 1, p);
      TimesOnCurve(n - 1, q);
      Interchange(Times(n - 1, p), Times(n - 1, q), p, q);
      TimesStep(n - 1, p);
      TimesStep(n - 1, q);
      TimesStep(n - 1, Add(p, q));
    }
  }

  lemma {:induction false} TimesIdentity(n: nat)
    requires CurveFacts()
    ensures Times(n, IDENTITY) == IDENTITY
  {
    hide CurveFacts, Add, OnCurve, Times, PrimeModulus, Complete;
    FactsGive();
    TimesStep(0, IDENTITY);
    if n > 0 {
      TimesIdentity(n - 1);
      TimesStep(n - 1, IDENTITY);
      IdentityOnCurve();
      AddIdentity(IDENTITY);
    }
  }

  // ---- The base point ----

  /** The base point has order L. */
  ghost predicate BaseOrder() {
    Times(ORDER, BASE) == IDENTITY
  }

  lemma BaseOnCurve()
    ensures OnCurve(BASE)
  {
    DValue();
    DefectIs(BASE_X, BASE_Y);
    ZeroMeans(Defect(BASE_X, BASE_Y));
  }

  lemma TimesModOrder(n: nat)
    requires CurveFacts() && BaseOrder()
    ensures Times(n % ORDER, BASE) == Times(n, BASE)
  {
    hide CurveFacts, Add, OnCurve, Times, PrimeModulus, Complete;
    FactsGive();
    BaseOnCurve();
    var q, r := n / ORDER, n % ORDER;
    assert n == q * ORDER + r;
    TimesSum(q * ORDER, r, BASE);
    TimesProduct(q, ORDER, BASE);
    TimesIdentity(q);
    TimesOnCurve(r, BASE);
    AddIdentity(Times(r, BASE));
  }

  /** The equation of the signature check: with A = aB and s = (r + ha) mod L, the points h(-A)
      and sB add up to rB. */
  lemma SignatureEquation(r: nat, h: nat, a: nat)
    requires CurveFacts() && BaseOrder()
    ensures Add(Times(h, Negate(Times(a, BASE))), Times((r + h * a) % ORDER, BASE)) == Times(r, BASE)
  {
    hide *;
    BaseOnCurve();
    ProductIsNatural(h, a);
    MultipleOfMultiple(h, a, h * a, r);
  }

  lemma ProductIsNatural(h: nat, a: nat)
    ensures h * a >= 0
  {}

  lemma MultipleOfMultiple(h: nat, a: nat, m: nat, r: nat)
    requires CurveFacts() && BaseOrder() && m == h * a
    ensures Add(Times(h, Negate(Times(a, BASE))), Times((r + m) % ORDER, BASE)) == Times(r, BASE)
  {
    hide *;
    BaseOnCurve();
    TimesOnCurve(a, BASE);
    TimesProduct(h, a, BASE);
    PublicPartCancels(m, h, Times(a, BASE), r);
  }

  lemma PublicPartCancels(m: nat, h: nat, pub: Affine, r: nat)
    requires CurveFacts() && BaseOrder() && OnCurve(pub) && Times(h, pub) == Times(m, BASE)
    ensures Add(Times(h, Negate(pub)), Times((r + m) % ORDER, BASE)) == Times(r, BASE)
  {
    hide *;
    BaseOnCurve();
    TimesModOrder(r + m);
    TimesSum(r, m, BASE);
    TimesOnCurve(r, BASE);
    NegatedMultiple(h, pub);
    CancelsOut(Times(h, Negate(pub)), Times(r, BASE), Times(h, pub));
  }

  lemma NegatedMultiple(h: nat, p: Affine)
    requires CurveFacts() && OnCurve(p)
    ensures OnCurve(Times(h, Negate(p))) && OnCurve(Times(h, p))
    ensures Add(Times(h, Negate(p)), Times(h, p)) == IDENTITY
  {
    FactsGive();
    hide *;
    NegateOnCurve(p);
    TimesOnCurve(h, p);
    TimesOnCurve(h, Negate(p));
    AddCommutes(Times(h, Negate(p)), Times(h, p));
    TimesOfSum(h, p, Negate(p));
    AddNegate(p);
    TimesIdentity(h);
  }

  lemma CancelsOut(u: Affine, v: Affine, w: Affine)
    requires CurveFacts() && OnCurve(u) && OnCurve(v) && OnCurve(w) && Add(u, w) == IDENTITY
    ensures Add(u, Add(v, w)) == v
  {
    FactsGive();
    hide *;
    AddCommutes(v, w);
    Associate(u, w, v);
    AddIdentity(v);
  }
}
