/** What an Ed25519 signature binds: the seed, the key and the message, byte by byte of what is hashed. */
module Signatures {
  import opened ModArith
  import opened BitOps
  import opened Field25519
  import opened Scalar25519
  import opened Edwards
  import opened Curve25519
  import opened PointCode
  import opened Ed25519

  const TWO_254 := 0x40000000_00000000_00000000_00000000_00000000_00000000_00000000_00000000
  const TWO_248 := 0x1000000_00000000_00000000_00000000_00000000_00000000_00000000_00000000

  /** The numbers of section 5.1 of RFC 8032: d = -121665/121666, and the base point has the ordinate
      4/5 and an even abscissa. */
  lemma CurveNumbers()
    ensures (D * 121666 + 121665) % P == 0 && (BASE_Y * 5 - 4) % P == 0 && BASE_X % 2 == 0
    ensures ORDER == TWO_254 / 4 + 27742317777372353535851937790883648493 && P == 2 * TWO_254 - 19
  {
    DValue();
  }

  // ---- The secret scalar ----

  lemma ClearedLow(b: Byte)
    ensures And(b, 248) == b - b % 8
  {
    hide And;
    AndStep(b, 248);
    AndStep(b / 2, 124);
    AndStep(b / 4, 62);
    AndMask31(b / 8);
    assert b / 2 / 2 == b / 4 && b / 4 / 2 == b / 8;
  }

  lemma AndMask31(v: nat)
    requires v < 32
    ensures And(v, 31) == v
  {
    hide And, Value, LowBits, Pow2;
    Pow2Values();
    AndMask(v, 5);
    ValueOfLowBits(v, 5);
  }

  /** Or-ing in the highest bit sets it. */
  lemma {:induction false} OrHighest(x: nat, p: nat, k: nat)
    requires p == Pow2(k) && x < 2 * p
    ensures Or(x, p) == p + x % p
    decreases k
  {
    hide Or, Pow2;
    OrHalves(x, p);
    PowerHalves(k);
    if k == 0 {
      OrZero(0);
      assert x / 2 == 0;
    } else {
      OrHighest(x / 2, p / 2, k - 1);
      HalfRemainder(x, p / 2);
    }
  }

  lemma PowerHalves(k: nat)
    ensures Pow2(0) == 1 && Pow2(k) > 0 && (k > 0 ==> Pow2(k) == 2 * Pow2(k - 1))
  {}

  lemma SetHigh(b: Byte)
    ensures Or(And(b, 127), 64) == 64 + b % 64
  {
    hide And, Or, Value, LowBits, Pow2;
    Pow2Values();
    PowerHalves(6);
    AndMask(b, 7);
    LowBitsRemainder(b, 7);
    OrHighest(b % 128, 64, 6);
  }

  lemma {:induction false} LittleEndianUpdate(b: seq<Byte>, i: nat, x: Byte, n: nat)
    requires i < n <= |b|
    ensures LittleEndian(b[i := x], n) == LittleEndian(b, n) + (x - b[i]) * ByteWeight(i)
  {
    hide ByteWeight;
    if i == n - 1 {
      LittleEndianFrame(b[i := x], b, i);
      assert (x - b[i]) * ByteWeight(i) == x * ByteWeight(i) - b[i] * ByteWeight(i);
    } else {
      LittleEndianUpdate(b, i, x, n - 1);
    }
  }

  /** The low 254 bits without the lowest three, and bit 254. */
  function Clamped(n: nat): nat {
    TWO_254 + n % TWO_254 - n % 8
  }

  lemma SecretIs(hash: Hash, seed: Key)
    ensures SecretScalar(hash, seed) == Clamped(LittleEndian(hash(seed), 32))
  {
    hide LittleEndian, And, Or, ByteWeight;
    var d := hash(seed);
    ClearedLow(d[0]);
    SetHigh(d[31]);
    var x, y := And(d[0], 248), Or(And(d[31], 127), 64);
    LittleEndianUpdate(d, 0, x, 32);
    LittleEndianUpdate(d[0 := x], 31, y, 32);
    ByteWeightEnds();
    LowestBits(d);
    HighestBits(d);
  }

  lemma ByteWeightEnds()
    ensures ByteWeight(0) == 1 && ByteWeight(31) == TWO_248
  {
    hide ByteWeight;
    ByteWeightZero();
    ByteWeightStep(31);
    ByteWeightValues();
  }

  lemma {:induction false} LowestByte(b: seq<Byte>, n: nat) returns (q: nat)
    requires 1 <= n <= |b|
    ensures LittleEndian(b, n) == b[0] + 256 * q
  {
    hide ByteWeight;
    ByteWeightZero();
    if n == 1 {
      q := 0;
      LittleEndianStart(b);
    } else {
      var r := LowestByte(b, n - 1);
      ByteWeightStep(n - 2);
      ScaledByte(b[n - 1], ByteWeight(n - 2));
      q := r + b[n - 1] * ByteWeight(n - 2);
    }
  }

  lemma ScaledByte(b: nat, w: nat)
    ensures b * (256 * w) == 256 * (b * w) && b * w >= 0
  {}

  lemma LowestBits(d: seq<Byte>)
    requires |d| >= 32
    ensures LittleEndian(d, 32) % 8 == d[0] % 8
  {
    hide LittleEndian;
    var q := LowestByte(d, 32);
    LowThree(d[0], q);
  }

  lemma LowThree(x: nat, q: nat)
    ensures (x + 256 * q) % 8 == x % 8
  {
    AddMultiple(x, 32 * q, 8);
  }

  lemma HighestBits(d: seq<Byte>)
    requires |d| >= 32
    ensures LittleEndian(d, 32) % TWO_254 == LittleEndian(d, 32) - (d[31] - d[31] % 64) * TWO_248
  {
    hide LittleEndian, ByteWeight;
    var low, b := LittleEndian(d, 31), d[31];
    ByteWeightEnds();
    LittleEndianStep(d, 31);
    LittleEndianBound(d, 31);
    DivUnique(low + b * TWO_248, TWO_254, b / 64, low + b % 64 * TWO_248);
  }

  // ---- What is hashed ----

  /** A signature, with all that is hashed for it written out (section 5.1.6 of RFC 8032). */
  lemma SignatureIs(hash: Hash, seed: Key, msg: seq<Byte>)
    ensures var a := Clamped(LittleEndian(hash(seed), 32));
            var r := LittleEndian(hash(hash(seed)[32..] + msg), 64) % ORDER;
            var commitment, public := Encoded(Times(r, BASE)), Encoded(Times(a, BASE));
            var h := LittleEndian(hash(commitment + public + msg), 64) % ORDER;
            && PublicKeyOf(hash, seed) == public
            && SignatureOf(hash, seed, msg) == commitment + ToBytes((r + h * a) % ORDER, 32)
  {
    hide LittleEndian, Encoded, Times, ToBytes, And, Or, Clamped;
    SecretIs(hash, seed);
    assert Expand(hash, seed)[32..] == hash(seed)[32..];
  }

  lemma SameEncoding(a: Affine, b: Affine)
    requires PrimeModulus() && OnCurve(a) && OnCurve(b)
    ensures Encoded(a) == Encoded(b) <==> a == b
  {
    hide PrimeModulus, OnCurve, Names, ToBytes, Code;
    EncodingNames(a);
    EncodingNames(b);
    if Encoded(a) == Encoded(b) {
      NamesOnce(Encoded(a), a, b);
    }
  }

  lemma SameSummand(u: Affine, v: Affine, w: Affine)
    requires CurveFacts() && OnCurve(u) && OnCurve(v) && OnCurve(w)
    ensures Add(u, w) == Add(v, w) <==> u == v
  {
    FactsGive();
    hide *;
    var n := Negate(w);
    NegateOnCurve(w);
    AddNegate(w);
    Associate(u, w, n);
    Associate(v, w, n);
    AddIdentity(u);
    AddIdentity(v);
  }

  lemma SameMultiples(h: nat, h': nat, a: Affine)
    requires CurveFacts() && OnCurve(a)
    ensures Times(h, Negate(a)) == Times(h', Negate(a)) <==> Times(h, a) == Times(h', a)
  {
    hide *;
    NegatedMultiple(h, a);
    NegatedMultiple(h', a);
    var u, v, x, y := Times(h, Negate(a)), Times(h', Negate(a)), Times(h, a), Times(h', a);
    SameSummand(u, v, x);
    AddCommutes(u, x);
    AddCommutes(u, y);
    AddCommutes(v, y);
    SameSummand(x, y, u);
  }

  /** A signature that is accepted for one message is accepted for another exactly if the digests of
      commitment, key and message give the same multiple of the public point. */
  lemma OtherMessage(hash: Hash, public: Key, a: Affine, msg: seq<Byte>, msg': seq<Byte>, sig: seq<Byte>)
    requires CurveFacts() && |sig| == 64 && Names(public, a) && Accepts(hash, public, msg, sig)
    ensures var h := LittleEndian(hash(sig[..32] + public + msg), 64) % ORDER;
            var h' := LittleEndian(hash(sig[..32] + public + msg'), 64) % ORDER;
            Accepts(hash, public, msg', sig) <==> Times(h, a) == Times(h', a)
  {
    hide CurveFacts, PrimeModulus, Complete, Names, Encoded, Times, Add, OnCurve, LittleEndian, Accepts, Negate;
    FactsGive();
    OnlyPoint(hash, public, a, msg, sig);
    OnlyPoint(hash, public, a, msg', sig);
    var h := LittleEndian(hash(sig[..32] + public + msg), 64) % ORDER;
    var h' := LittleEndian(hash(sig[..32] + public + msg'), 64) % ORDER;
    var w := Times(LittleEndian(sig[32..], 32), BASE);
    NamedOrdinate(public, a);
    NegatedMultiple(h, a);
    NegatedMultiple(h', a);
    MultipleOnCurve(LittleEndian(sig[32..], 32));
    AddOnCurve(Times(h, Negate(a)), w);
    AddOnCurve(Times(h', Negate(a)), w);
    SameEncoding(Add(Times(h, Negate(a)), w), Add(Times(h', Negate(a)), w));
    SameSummand(Times(h, Negate(a)), Times(h', Negate(a)), w);
    SameMultiples(h, h', a);
  }

  // ---- A signature is of one message ----

  /** The inverse of 2^254 modulo the order. */
  const INVERSE := 0x76db1bc_9bfa460d_8539d50e_3fe8dafa_b61925ed_170e9b86_6d766c5c_3b908cb6
  const QUOTIENT := 0x1db6c6f2_6fe91836_14e75438_ffa36bea_b1a206f2_fdba84ff_d2b51da3_12547e1b

  lemma InverseIs()
    ensures INVERSE * TWO_254 == QUOTIENT * ORDER + 1 && INVERSE < ORDER
  {}

  /** A hash that tells the message `odd` from all others. */
  function Telling(odd: seq<Byte>): Hash {
    (m: seq<Byte>) => if |m| == 64 + |odd| && m[64..] == odd then Padded(INVERSE) else Padded(0)
  }

  function Padded(n: nat): Digest {
    ToBytes(n, 64)
  }

  lemma PaddedIs(n: nat)
    requires n < ORDER
    ensures LittleEndian(Padded(n), 64) % ORDER == n
  {
    hide LittleEndian, ToBytes, ByteWeight;
    ByteWeightValues();
    ByteWeightSum(32, 32);
    WideEnough(ByteWeight(32));
    NumberOfBytes(n, 64);
  }

  lemma WideEnough(w: nat)
    requires w == TWO_256
    ensures ORDER < w * w
  {}

  lemma {:induction false} NoBytes(k: nat)
    ensures forall i :: 0 <= i < k ==> ToBytes(0, k)[i] == 0
  {
    hide ByteWeight;
    if k > 0 {
      NoBytes(k - 1);
      ZeroParts(ByteWeight(k - 1));
    }
  }

  lemma ZeroParts(w: nat)
    requires w > 0
    ensures 0 % w == 0 && 0 / w == 0
  {}

  /** With that hash the scalar of every seed is 2^254. */
  lemma TellingSecret(odd: seq<Byte>, seed: Key)
    ensures SecretScalar(Telling(odd), seed) == TWO_254
  {
    hide LittleEndian, ToBytes, SecretScalar;
    SecretIs(Telling(odd), seed);
    ZeroDigest();
  }

  lemma ZeroDigest()
    ensures LittleEndian(Padded(0), 32) == 0
  {
    hide LittleEndian, ToBytes;
    NoBytes(64);
    AllZero(Padded(0), 32);
  }

  lemma {:induction false} AllZero(b: seq<Byte>, n: nat)
    requires n <= |b| && forall i :: 0 <= i < n ==> b[i] == 0
    ensures LittleEndian(b, n) == 0
  {
    hide ByteWeight;
    if n > 0 {
      AllZero(b, n - 1);
    }
  }

  lemma TellsApart()
    requires Hypotheses()
    ensures Times(0, Times(TWO_254, BASE)) != Times(INVERSE, Times(TWO_254, BASE))
  {
    hide CurveFacts, BaseOrder, Times, Add, OnCurve;
    BaseOnCurve();
    FactsGive();
    TimesStep(0, Times(TWO_254, BASE));
    TimesProduct(INVERSE, TWO_254, BASE);
    InverseIs();
    AddMultiple(1, QUOTIENT, ORDER);
    TimesModOrder(INVERSE * TWO_254);
    TimesStep(0, BASE);
    AddIdentity(BASE);
  }

  /** No signature is of two messages: for any two there is a hash under which the signature of the
      one is accepted, and rejected for the other. */
  lemma MessageMatters(seed: Key, msg: seq<Byte>, odd: seq<Byte>) returns (hash: Hash)
    requires Hypotheses() && msg != odd
    ensures Accepts(hash, PublicKeyOf(hash, seed), msg, SignatureOf(hash, seed, msg))
    ensures !Accepts(hash, PublicKeyOf(hash, seed), odd, SignatureOf(hash, seed, msg))
  {
    hide CurveFacts, BaseOrder, Times, Add, OnCurve, LittleEndian, ToBytes, Names, Accepts, Encoded, SecretScalar,
         CommitmentOf, ResponseOf, PublicKeyOf, Code;
    hash := Telling(odd);
    var sig, public, a := SignatureOf(hash, seed, msg), PublicKeyOf(hash, seed), Times(TWO_254, BASE);
    SignatureIsAccepted(hash, seed, msg);
    TellingSecret(odd, seed);
    KeyNames(hash, seed);
    var r := sig[..32] + public;
    assert (r + msg)[64..] == msg && (r + odd)[64..] == odd;
    PaddedIs(0);
    PaddedIs(INVERSE);
    OtherMessage(hash, public, a, msg, odd, sig);
    TellsApart();
  }

  lemma KeyNames(hash: Hash, seed: Key)
    requires CurveFacts()
    ensures Names(PublicKeyOf(hash, seed), Times(SecretScalar(hash, seed), BASE))
  {
    hide CurveFacts, Times, OnCurve, Names, SecretScalar, ToBytes, Code;
    MultipleOnCurve(SecretScalar(hash, seed));
    EncodingNames(Times(SecretScalar(hash, seed), BASE));
  }
}
