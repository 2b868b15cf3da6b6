/** Ed25519 signatures (sections 5.1.5 to 5.1.7 of RFC 8032) over the limb arithmetic.

    SHA-512 is a parameter.  What the code computes is stated on points of the curve, under the
    facts about the curve gathered in `Edwards`. */
module Ed25519 {
  import opened ModArith
  import opened Word64
  import opened BitOps
  import opened Field25519
  import opened Scalar25519
  import opened Edwards
  import opened Curve25519
  import opened PointCode

  type Digest = d: seq<Byte> | |d| == 64 witness seq(64, _ => 0)
  type Key = k: seq<Byte> | |k| == 32 witness seq(32, _ => 0)
  type Hash = seq<Byte> -> Digest

  // ---- What RFC 8032 computes ----

  /** The hash of the seed with its low half pruned to a scalar. */
  function Expand(hash: Hash, seed: Key): Digest {
    var d := hash(seed);
    AndBound(d[0], 248);
    ClampBound(d[31]);
    d[0 := And(d[0], 248)][31 := Or(And(d[31], 127), 64)]
  }

  lemma ClampBound(b: Byte)
    ensures Or(And(b, 127), 64) < 256
  {
    hide And, Or, Pow2;
    Pow2Values();
    AndBound(b, 127);
    OrBound(And(b, 127), 64, 8);
  }

  ghost function SecretScalar(hash: Hash, seed: Key): nat {
    LittleEndian(Expand(hash, seed), 32)
  }

  ghost function Encoded(a: Affine): Key {
    ToBytes(Code(a), 32)
  }

  ghost function PublicKeyOf(hash: Hash, seed: Key): Key {
    Encoded(Times(SecretScalar(hash, seed), BASE))
  }

  /** A digest as a scalar, modulo the order. */
  ghost function ScalarOf(d: Digest): nat {
    LittleEndian(d, 64) % ORDER
  }

  ghost function Challenge(hash: Hash, commitment: Key, public: Key, msg: seq<Byte>): nat {
    ScalarOf(hash(commitment + public + msg))
  }

  ghost function NonceOf(hash: Hash, seed: Key, msg: seq<Byte>): nat {
    ScalarOf(hash(Expand(hash, seed)[32..] + msg))
  }

  /** The commitment R. */
  ghost function CommitmentOf(hash: Hash, seed: Key, msg: seq<Byte>): Key {
    Encoded(Times(NonceOf(hash, seed, msg), BASE))
  }

  /** The response S = (r + ha) mod L. */
  ghost function ResponseOf(hash: Hash, seed: Key, msg: seq<Byte>): nat {
    var h := Challenge(hash, CommitmentOf(hash, seed, msg), PublicKeyOf(hash, seed), msg);
    (NonceOf(hash, seed, msg) + h * SecretScalar(hash, seed)) % ORDER
  }

  ghost function SignatureOf(hash: Hash, seed: Key, msg: seq<Byte>): seq<Byte> {
    CommitmentOf(hash, seed, msg) + ToBytes(ResponseOf(hash, seed, msg), 32)
  }

  /** The check of a signature against the point `a` that the public key names. */
  ghost predicate Checks(hash: Hash, public: Key, a: Affine, msg: seq<Byte>, sig: seq<Byte>)
    requires |sig| == 64
  {
    var h := Challenge(hash, sig[..32], public, msg);
    Encoded(Add(Times(h, Negate(a)), Times(LittleEndian(sig[32..], 32), BASE))) == sig[..32]
  }

  /** The public key names a point, and the signature checks against it. */
  ghost predicate Accepts(hash: Hash, public: Key, msg: seq<Byte>, sig: seq<Byte>)
    requires |sig| == 64
  {
    exists a :: Names(public, a) && Checks(hash, public, a, msg, sig)
  }

  ghost predicate Hypotheses() {
    CurveFacts() && BaseOrder()
  }

  /** Every signature of the scheme passes its check. */
  lemma SignatureIsAccepted(hash: Hash, seed: Key, msg: seq<Byte>)
    requires Hypotheses()
    ensures Accepts(hash, PublicKeyOf(hash, seed), msg, SignatureOf(hash, seed, msg))
  {
    hide Times, Add, ToBytes, CurveFacts, BaseOrder, Code, SecretScalar, NonceOf, Challenge, ResponseOf, Names, OnCurve;
    var sig, r := SignatureOf(hash, seed, msg), ResponseOf(hash, seed, msg);
    var a := Times(SecretScalar(hash, seed), BASE);
    assert sig[..32] == CommitmentOf(hash, seed, msg);
    assert sig[32..] == ToBytes(r, 32);
    ByteWeightValues();
    ResponseBound(hash, seed, msg);
    NumberOfBytes(r, 32);
    ResponseCompletes(hash, seed, msg);
    MultipleOnCurve(SecretScalar(hash, seed));
    EncodingNames(a);
    assert Checks(hash, PublicKeyOf(hash, seed), a, msg, sig);
  }

  /** The check depends on the response only modulo L: unlike section 5.1.7 of RFC 8032, the code
      does not ask for S < L. */
  lemma ResponseModuloOrder(hash: Hash, public: Key, msg: seq<Byte>, commitment: Key, s: Key, s': Key)
    requires Hypotheses() && LittleEndian(s, 32) % ORDER == LittleEndian(s', 32) % ORDER
    ensures Accepts(hash, public, msg, commitment + s) <==> Accepts(hash, public, msg, commitment + s')
  {
    hide Times, Add, CurveFacts, BaseOrder, Code, Challenge, Names, LittleEndian, Negate;
    var sig, sig' := commitment + s, commitment + s';
    assert sig[..32] == commitment == sig'[..32] && sig[32..] == s && sig'[32..] == s';
    TimesModOrder(LittleEndian(s, 32));
    TimesModOrder(LittleEndian(s', 32));
    forall a
      ensures Checks(hash, public, a, msg, sig) <==> Checks(hash, public, a, msg, sig')
    {}
  }

  /** So a signature stays one when L is added to its response, if that still fits. */
  lemma ShiftedResponse(hash: Hash, public: Key, msg: seq<Byte>, commitment: Key, s: Key)
    requires Hypotheses() && LittleEndian(s, 32) + ORDER < TWO_256
    ensures var s' := ToBytes(LittleEndian(s, 32) + ORDER, 32);
            s' != s && (Accepts(hash, public, msg, commitment + s) <==> Accepts(hash, public, msg, commitment + s'))
  {
    hide CurveFacts, BaseOrder, Accepts, LittleEndian, ToBytes;
    var n := LittleEndian(s, 32);
    ByteWeightValues();
    NumberOfBytes(n + ORDER, 32);
    AddMultiple(n, 1, ORDER);
    ResponseModuloOrder(hash, public, msg, commitment, s, ToBytes(n + ORDER, 32));
  }

  lemma ResponseBound(hash: Hash, seed: Key, msg: seq<Byte>)
    ensures ResponseOf(hash, seed, msg) < ORDER < TWO_256
  {
    hide NonceOf, SecretScalar, Challenge, CommitmentOf, PublicKeyOf;
  }

  lemma ResponseCompletes(hash: Hash, seed: Key, msg: seq<Byte>)
    requires Hypotheses()
    ensures var a := Times(SecretScalar(hash, seed), BASE);
            var h := Challenge(hash, CommitmentOf(hash, seed, msg), PublicKeyOf(hash, seed), msg);
            Add(Times(h, Negate(a)), Times(ResponseOf(hash, seed, msg), BASE)) == Times(NonceOf(hash, seed, msg), BASE)
  {
    var h := Challenge(hash, CommitmentOf(hash, seed, msg), PublicKeyOf(hash, seed), msg);
    hide Times, Add, CurveFacts, BaseOrder, SecretScalar, NonceOf, Challenge, CommitmentOf, PublicKeyOf;
    SignatureEquation(NonceOf(hash, seed, msg), h, SecretScalar(hash, seed));
  }

  // ---- The code ----

  /** The digest as 64 columns, reduced. */
  method Reduce(d: Digest) returns (r: Key)
    ensures LittleEndian(r, 32) == ScalarOf(d)
  {
    var x := new I64[64](_ => 0);
    for i := 0 to 64
      invariant forall j :: 0 <= j < i ==> x[j] as int == d[j]
      invariant forall j :: i <= j < 64 ==> x[j] == 0
    {
      x[i] := d[i] as I64;
    }
    ColumnsOfBytes(x[..], d, 64);
    r := ModL(x);
  }

  lemma {:induction false} ColumnsOfBytes(s: seq<I64>, b: seq<Byte>, n: nat)
    requires n <= |s| && n <= |b| && forall j :: 0 <= j < n ==> s[j] as int == b[j]
    ensures Columned(s, n) == LittleEndian(b, n)
  {
    if n > 0 {
      ColumnsOfBytes(s, b, n - 1);
    }
  }

  method Scalarbase(s: Key) returns (p: Point)
    ensures InRange(p) && (CurveFacts() ==> Stands(Values(p), Times(LittleEndian(s, 32), BASE)))
  {
    hide LimbValue, Reduced, Bounded, Times, OnCurve, CurveFacts, LittleEndian, Zero;
    UnitValues();
    BaseXValue();
    BaseYValue();
    ReducedBounded(BASE_X_LIMBS);
    ReducedBounded(BASE_Y_LIMBS);
    ReducedBounded(ONE_LIMBS);
    var t := Product(BASE_X_LIMBS, BASE_Y_LIMBS);
    ReducedBounded(t);
    var q := Point(BASE_X_LIMBS, BASE_Y_LIMBS, ONE_LIMBS, t);
    SelfZero(0);
    OneIsNotZero();
    BaseOnCurve();
    p := Scalarmult(q, s, BASE);
  }

  method PublicKey(hash: Hash, seed: Key) returns (r: Key)
    ensures CurveFacts() ==> r == PublicKeyOf(hash, seed)
  {
    hide Stands, Times, OnCurve, CurveFacts, LittleEndian, InRange, Values, Code, ToBytes;
    var d := Expand(hash, seed);
    var p := Scalarbase(d[..32]);
    ghost var a := SecretScalar(hash, seed);
    LittleEndianFrame(d[..32], d, 32);
    r := PackPoint(p, Times(a, BASE));
    if CurveFacts() {
      FactsGive();
      BaseOnCurve();
      TimesOnCurve(a, BASE);
    }
  }

  /** The columns of r + ha, before any carry. */
  method ResponseColumns(r: Key, h: Key, d: Digest) returns (x: array<I64>)
    ensures fresh(x) && x.Length == 64 && forall k :: 0 <= k < 64 ==> 0 <= x[k] as int <= MAX_COLUMN
    ensures Columned(x[..], 64) == LittleEndian(r, 32) + LittleEndian(h, 32) * LittleEndian(d, 32)
  {
    hide Columned, LittleEndian, ByteWeight;
    x := new I64[64](_ => 0);
    for i := 0 to 32
      invariant forall j :: 0 <= j < i ==> x[j] as int == r[j]
      invariant forall j :: i <= j < 64 ==> x[j] == 0
    {
      x[i] := r[i] as I64;
    }
    ColumnsOfBytes(x[..], r, 32);
    HighZero(x[..], 64);
    LittleEndianStart(h);
    for i := 0 to 32
      invariant fresh(x) && x.Length == 64 && forall k :: 0 <= k < 64 ==> 0 <= x[k] as int <= 255 + i * 65025
      invariant Columned(x[..], 64) == LittleEndian(r, 32) + LittleEndian(h, i) * LittleEndian(d, 32)
    {
      AddRow(x, h[i], d, i);
      LittleEndianStep(h, i);
      RowSum(LittleEndian(h, i), h[i], ByteWeight(i), LittleEndian(d, 32));
    }
  }

  lemma RowSum(a: int, b: int, w: int, d: int)
    ensures (a + b * w) * d == a * d + (b * w) * d
  {}

  /** Adds one byte of h times all of a. */
  method AddRow(x: array<I64>, b: Byte, d: Digest, i: nat)
    requires x.Length == 64 && i < 32 && forall k :: 0 <= k < 64 ==> 0 <= x[k] as int <= 255 + i * 65025
    modifies x
    ensures forall k :: 0 <= k < 64 ==> 0 <= x[k] as int <= 255 + (i + 1) * 65025
    ensures Columned(x[..], 64) == Columned(old(x[..]), 64) + (b * ByteWeight(i)) * LittleEndian(d, 32)
  {
    hide Columned, LittleEndian, ByteWeight;
    LittleEndianStart(d);
    for j := 0 to 32
      invariant forall k :: 0 <= k < 64 ==> 0 <= x[k] as int <= 255 + (i + 1) * 65025
      invariant forall k :: i + j <= k < 64 ==> x[k] as int <= 255 + i * 65025
      invariant Columned(x[..], 64) == Columned(old(x[..]), 64) + (b * ByteWeight(i)) * LittleEndian(d, j)
    {
      ghost var before := x[..];
      ByteProduct(b, d[j]);
      x[i + j] := x[i + j] + b as I64 * d[j] as I64;
      assert x[..] == before[i + j := x[i + j]];
      ColumnedUpdate(before, i + j, x[i + j], 64);
      ByteWeightSum(i, j);
      LittleEndianStep(d, j);
      CellSum(b, d[j], ByteWeight(i), ByteWeight(j), LittleEndian(d, j));
    }
  }

  lemma ByteProduct(a: Byte, b: Byte)
    ensures 0 <= a * b <= 65025
  {
    Scaled(a, b, 0, 255);
  }

  lemma CellSum(b: int, c: int, w: int, v: int, l: int)
    ensures (b * w) * (l + c * v) == (b * w) * l + (b * c) * (w * v)
  {
    assert (b * w) * (c * v) == (b * c) * (w * v);
    assert (b * w) * (l + c * v) == (b * w) * l + (b * w) * (c * v);
  }

  /** The signature of a message. */
  method Sign(hash: Hash, seed: Key, msg: seq<Byte>) returns (sig: seq<Byte>)
    ensures |sig| == 64
    ensures CurveFacts() ==> sig == SignatureOf(hash, seed, msg)
  {
    hide Stands, Times, OnCurve, CurveFacts, LittleEndian, InRange, Values, Code, ToBytes, Columned, Expand, ScalarOf;
    var d := Expand(hash, seed);
    var public := PublicKey(hash, seed);
    var nonce := Reduce(hash(d[32..] + msg));
    ghost var r := NonceOf(hash, seed, msg);
    var p := Scalarbase(nonce);
    if CurveFacts() {
      MultipleOnCurve(r);
    }
    var commitment := PackPoint(p, Times(r, BASE));
    var challenge := Reduce(hash(commitment + public + msg));
    var x := ResponseColumns(nonce, challenge, d);
    var response := ModL(x);
    BytesAre(response, LittleEndian(response, 32));
    sig := commitment + response;
  }

  lemma MultipleOnCurve(n: nat)
    requires CurveFacts()
    ensures PrimeModulus() && OnCurve(Times(n, BASE))
  {
    hide *;
    FactsGive();
    BaseOnCurve();
    TimesOnCurve(n, BASE);
  }

  /** The check of a signature. */
  method Verify(hash: Hash, public: Key, msg: seq<Byte>, sig: seq<Byte>) returns (ok: bool)
    requires |sig| == 64
    ensures CurveFacts() ==> (ok <==> Accepts(hash, public, msg, sig))
  {
    hide Stands, Times, OnCurve, CurveFacts, LittleEndian, InRange, Values, Code, ToBytes, Names, Add, Negate,
         PrimeModulus, ScalarOf, IsSum;
    var commitment, response := sig[..32], sig[32..];
    ghost var facts := CurveFacts();
    if facts {
      FactsGive();
    }
    var q, found := Unpackneg(public);
    if !found {
      return false;
    }
    ghost var a := if facts then (var a :| Names(public, a); a) else IDENTITY;
    var challenge := Reduce(hash(commitment + public + msg));
    ghost var h, s := LittleEndian(challenge, 32), LittleEndian(response, 32);
    var p := Scalarmult(q, challenge, Negate(a));
    var q2 := Scalarbase(response);
    var sum := AddPt(p, q2);
    ghost var total := Add(Times(h, Negate(a)), Times(s, BASE));
    if facts {
      NamedOrdinate(public, a);
      NegateOnCurve(a);
      assert Usable(q, Negate(a));
      TimesOnCurve(h, Negate(a));
      MultipleOnCurve(s);
      SumStands(Values(sum), Values(p), Values(q2), Times(h, Negate(a)), Times(s, BASE));
      AddOnCurve(Times(h, Negate(a)), Times(s, BASE));
    }
    var t := PackPoint(sum, total);
    ok := t == commitment;
    if facts {
      assert ok <==> Checks(hash, public, a, msg, sig);
      OnlyPoint(hash, public, a, msg, sig);
    }
  }

  /** The point that a key names is the only one to check against. */
  lemma OnlyPoint(hash: Hash, public: Key, a: Affine, msg: seq<Byte>, sig: seq<Byte>)
    requires PrimeModulus() && |sig| == 64 && Names(public, a)
    ensures Accepts(hash, public, msg, sig) <==> Checks(hash, public, a, msg, sig)
  {
    hide Names, Checks, PrimeModulus;
    forall b | Names(public, b)
      ensures b == a
    {
      NamesOnce(public, a, b);
    }
  }

  /** Verify accepts what Sign produces, for every seed and message. */
  method SignThenVerify(hash: Hash, seed: Key, msg: seq<Byte>) returns (ok: bool)
    ensures Hypotheses() ==> ok
  {
    hide CurveFacts, BaseOrder, Accepts, SignatureOf, PublicKeyOf;
    var public := PublicKey(hash, seed);
    var sig := Sign(hash, seed, msg);
    ok := Verify(hash, public, msg, sig);
    if Hypotheses() {
      SignatureIsAccepted(hash, seed, msg);
    }
  }
}
