/** The compressor: greedy LZ77 over hash chains, written as one fixed-Huffman block.

    `Tokens` gives the meaning of a token sequence and its bits; `BlockDecodes` shows that the
    reference decoder reads the bits back to the bytes the tokens expand to.  `BitWriter` appends
    bits, and `Compress` returns a stream that decompresses to its input. */
module Tokens {
  import opened BitOps
  import opened Huffman
  import opened DeflateFormat
  import opened FixedCode

  datatype Token = Literal(b: Byte) | Match(len: nat, dist: nat)

  /** A token the format can express after `out`. */
  ghost predicate IsToken(t: Token, out: seq<Byte>) {
    t.Match? ==> 3 <= t.len <= 258 && 1 <= t.dist <= 32768 && t.dist <= |out|
  }

  function Apply(t: Token, out: seq<Byte>): seq<Byte>
    requires IsToken(t, out)
  {
    match t
    case Literal(b) => out + [b]
    case Match(len, dist) => CopyMatch(out, dist, len)
  }

  ghost predicate AreTokens(ts: seq<Token>, out: seq<Byte>)
    decreases |ts|
  {
    |ts| > 0 ==> IsToken(ts[0], out) && AreTokens(ts[1..], Apply(ts[0], out))
  }

  /** The bytes that the tokens produce after `out`. */
  ghost function Expand(ts: seq<Token>, out: seq<Byte>): seq<Byte>
    requires AreTokens(ts, out)
    decreases |ts|
  {
    if |ts| == 0 then out else Expand(ts[1..], Apply(ts[0], out))
  }

  function SymbolBits(base: seq<nat>, extra: seq<nat>, v: nat, s: nat): Bits
    requires |base| == |extra| && s < |base| && v >= base[s]
  {
    LowBits(v - base[s], extra[s])
  }

  function LengthBits(len: nat): Bits
    requires 3 <= len <= 258
  {
    LengthHasSymbol(len);
    var ls := FirstFit(LEN_BASE, LEN_EXTRA, len, 0);
    Encoded(FixedLengths(), 257 + ls) + SymbolBits(LEN_BASE, LEN_EXTRA, len, ls)
  }

  function DistanceBits(dist: nat): Bits
    requires 1 <= dist <= 32768
  {
    DistanceHasSymbol(dist);
    var ds := FirstFit(DIST_BASE, DIST_EXTRA, dist, 0);
    Encoded(FixedDistances(), ds) + SymbolBits(DIST_BASE, DIST_EXTRA, dist, ds)
  }

  function TokenBits(t: Token): Bits
    requires t.Match? ==> 3 <= t.len <= 258 && 1 <= t.dist <= 32768
  {
    match t
    case Literal(b) => Encoded(FixedLengths(), b)
    case Match(len, dist) => LengthBits(len) + DistanceBits(dist)
  }

  ghost function StreamBits(ts: seq<Token>, out: seq<Byte>): Bits
    requires AreTokens(ts, out)
    decreases |ts|
  {
    if |ts| == 0 then [] else TokenBits(ts[0]) + StreamBits(ts[1..], Apply(ts[0], out))
  }

  // ---- Appending a token ----

  lemma {:induction false} AppendToken(ts: seq<Token>, out: seq<Byte>, t: Token)
    requires AreTokens(ts, out) && IsToken(t, Expand(ts, out))
    ensures AreTokens(ts + [t], out)
    ensures Expand(ts + [t], out) == Apply(t, Expand(ts, out))
    ensures StreamBits(ts + [t], out) == StreamBits(ts, out) + TokenBits(t)
    decreases |ts|
  {
    hide TokenBits, Apply;
    var all := ts + [t];
    if |ts| == 0 {
      assert all[1..] == [];
      assert AreTokens(all[1..], Apply(t, out));
      assert StreamBits(all, out) == TokenBits(t) + StreamBits(all[1..], Apply(t, out));
    } else {
      AppendToken(ts[1..], Apply(ts[0], out), t);
      assert all[1..] == ts[1..] + [t];
      assert StreamBits(all, out) == TokenBits(ts[0]) + StreamBits(all[1..], Apply(ts[0], out));
    }
  }

  // ---- The reference decoder reads tokens back ----

  lemma LiteralDecodes(sym: nat, rest: Bits)
    requires sym < 288
    ensures DecodeSymbol(FixedLengths(), Encoded(FixedLengths(), sym) + rest) == Parsed(sym, rest)
  {
    FixedNotOversubscribed();
    hide NotOversubscribed, DecodeSymbol, Encoded;
    DecodeRecovers(FixedLengths(), sym, rest);
  }

  lemma DistanceDecodes(ds: nat, rest: Bits)
    requires ds < 30
    ensures DecodeSymbol(FixedDistances(), Encoded(FixedDistances(), ds) + rest) == Parsed(ds, rest)
  {
    DistanceCodeIsCanonical(ds);
    hide NotOversubscribed, DecodeSymbol, Encoded, CodeOf;
    DecodeRecovers(FixedDistances(), ds, rest);
  }

  lemma ExtraDecodes(base: seq<nat>, extra: seq<nat>, v: nat, s: nat, rest: Bits)
    requires |base| == |extra| && s < |base| && Fits(base, extra, v, s)
    ensures TakeExtended(SymbolBits(base, extra, v, s) + rest, base, extra, s) == Parsed(v, rest)
  {
    hide LowBits, Value, Pow2;
    var bits := SymbolBits(base, extra, v, s) + rest;
    ValueOfLowBits(v - base[s], extra[s]);
    assert bits[..extra[s]] == LowBits(v - base[s], extra[s]) && bits[extra[s]..] == rest;
  }

  lemma MatchDecodes(len: nat, ls: nat, dist: nat, out: seq<Byte>, rest: Bits)
    requires 3 <= len <= 258 && 1 <= dist <= 32768 && dist <= |out|
    requires ls <= 28 && Fits(LEN_BASE, LEN_EXTRA, len, ls)
    ensures ReadMatch(FixedDistances(), ls, SymbolBits(LEN_BASE, LEN_EXTRA, len, ls) + DistanceBits(dist) + rest, out)
         == Parsed(CopyMatch(out, dist, len), rest)
  {
    hide FirstFit, TakeExtended, DecodeSymbol, CopyMatch, Encoded, SymbolBits, FixedDistances;
    DistanceHasSymbol(dist);
    var ds := FirstFit(DIST_BASE, DIST_EXTRA, dist, 0);
    var x, y, z := SymbolBits(LEN_BASE, LEN_EXTRA, len, ls), Encoded(FixedDistances(), ds),
                   SymbolBits(DIST_BASE, DIST_EXTRA, dist, ds);
    assert x + DistanceBits(dist) + rest == x + (y + (z + rest));
    ExtraDecodes(LEN_BASE, LEN_EXTRA, len, ls, y + (z + rest));
    DistanceDecodes(ds, z + rest);
    ExtraDecodes(DIST_BASE, DIST_EXTRA, dist, ds, rest);
  }

  lemma TokenDecodes(t: Token, out: seq<Byte>, rest: Bits)
    requires IsToken(t, out)
    ensures ReadSymbols(FixedLengths(), FixedDistances(), TokenBits(t) + rest, out)
         == ReadSymbols(FixedLengths(), FixedDistances(), rest, Apply(t, out))
  {
    hide DecodeSymbol, ReadMatch, Encoded, FixedDistances, CopyMatch, FirstFit;
    match t
    case Literal(b) =>
      LiteralDecodes(b, rest);
    case Match(len, dist) =>
      LengthHasSymbol(len);
      var ls := FirstFit(LEN_BASE, LEN_EXTRA, len, 0);
      var tail := SymbolBits(LEN_BASE, LEN_EXTRA, len, ls) + DistanceBits(dist) + rest;
      assert TokenBits(t) + rest == Encoded(FixedLengths(), 257 + ls) + tail;
      LiteralDecodes(257 + ls, tail);
      MatchDecodes(len, ls, dist, out, rest);
  }

  lemma {:induction false} BlockDecodes(ts: seq<Token>, out: seq<Byte>, rest: Bits)
    requires AreTokens(ts, out)
    ensures ReadSymbols(FixedLengths(), FixedDistances(),
                        StreamBits(ts, out) + Encoded(FixedLengths(), 256) + rest, out)
         == Parsed(Expand(ts, out), rest)
    decreases |ts|
  {
    hide DecodeSymbol, Encoded, FixedDistances, TokenBits, Apply;
    var eob := Encoded(FixedLengths(), 256);
    if |ts| == 0 {
      assert StreamBits(ts, out) + eob + rest == eob + rest;
      LiteralDecodes(256, rest);
    } else {
      hide ReadSymbols;
      var out' := Apply(ts[0], out);
      assert StreamBits(ts, out) + eob + rest == TokenBits(ts[0]) + (StreamBits(ts[1..], out') + eob + rest);
      TokenDecodes(ts[0], out, StreamBits(ts[1..], out') + eob + rest);
      BlockDecodes(ts[1..], out', rest);
    }
  }

  /** The header of a final fixed-Huffman block: BFINAL = 1, BTYPE = 01. */
  const FIXED_HEADER: Bits := [true, true, false]

  /** A byte string that is one final fixed-Huffman block of these tokens, then padding. */
  ghost predicate IsFixedStream(bytes: seq<Byte>, ts: seq<Token>)
    requires AreTokens(ts, [])
  {
    FIXED_HEADER + StreamBits(ts, []) + Encoded(FixedLengths(), 256) <= Unpacked(bytes)
  }

  lemma FixedStreamDecodes(bytes: seq<Byte>, ts: seq<Token>)
    requires AreTokens(ts, []) && IsFixedStream(bytes, ts)
    ensures Inflated(bytes).Parsed? && Inflated(bytes).value == Expand(ts, [])
  {
    hide Unpacked, Encoded, FixedDistances, StreamBits, Expand, ReadSymbols;
    var body := StreamBits(ts, []) + Encoded(FixedLengths(), 256);
    var bits := Unpacked(bytes);
    var rest := bits[3 + |body|..];
    assert FIXED_HEADER + StreamBits(ts, []) + Encoded(FixedLengths(), 256) == FIXED_HEADER + body;
    assert bits == (FIXED_HEADER + body) + rest;
    assert bits[..1] == [true] && bits[1..][..2] == [true, false] && bits[1..][2..] == body + rest;
    assert Value([true]) == 1 && Value([true, false]) == 1;
    BlockDecodes(ts, [], rest);
  }
}

module Deflate {
  import opened BitOps
  import opened Huffman
  import opened DeflateFormat
  import opened FixedCode
  import opened Tokens
  import Inflate

  const HASH_SIZE := 32768
  const MAX_CHAIN := 128

  // ---- Writing bits ----

  lemma AppendStep(acc: nat, nbits: nat, value: nat, count: nat)
    requires nbits < 8 && count <= 13 && acc < Pow2(nbits) && value < Pow2(count)
    ensures var acc' := Or(acc, Shl(value, nbits) % WORD_32);
            && acc' < Pow2(nbits + count)
            && LowBits(acc', nbits + count) == LowBits(acc, nbits) + LowBits(value, count)
  {
    hide Or, LowBits, Shl, Pow2;
    Pow2Values();
    ShlBound(value, nbits, count);
    Pow2Monotone(nbits + count, 20);
    Pow2Monotone(nbits, nbits + count);
    SmallMod(Shl(value, nbits));
    OrBound(acc, Shl(value, nbits), nbits + count);
    OrAppends(acc, nbits, value, count);
  }

  lemma FlushStep(out: seq<Byte>, acc: nat, nbits: nat)
    requires nbits >= 8 && acc < Pow2(nbits)
    ensures And(acc, 0xFF) < 256 && Shr(acc, 8) < Pow2(nbits - 8)
    ensures Unpacked(out + [And(acc, 0xFF)]) + LowBits(Shr(acc, 8), nbits - 8) == Unpacked(out) + LowBits(acc, nbits)
  {
    hide And, LowBits, Shr, Pow2, Value, Unpacked;
    Pow2Values();
    LowByte(acc);
    ShrBound(acc, 8, nbits);
    ShrDrops(acc, 8, nbits);
    LowBitsPrefix(acc, 8, nbits);
    AppendByte(out, And(acc, 0xFF));
    assert LowBits(acc, nbits) == LowBits(acc, nbits)[..8] + LowBits(acc, nbits)[8..];
  }

  lemma LowByte(acc: nat)
    ensures And(acc, 0xFF) < 256 && LowBits(And(acc, 0xFF), 8) == LowBits(acc, 8)
  {
    hide And, LowBits, Pow2, Value;
    Pow2Values();
    AndMask(acc, 8);
    LowBitsOfValue(LowBits(acc, 8));
  }

  lemma AppendByte(out: seq<Byte>, b: Byte)
    ensures Unpacked(out + [b]) == Unpacked(out) + LowBits(b, 8)
  {
    hide LowBits;
    UnpackedAppend(out, [b]);
    assert Unpacked([b]) == LowBits(b, 8) + Unpacked([b][1..]);
  }

  /** Writes a code most significant bit first into the least-significant-first stream. */
  method ReverseBits(value: nat, count: nat) returns (r: nat)
    ensures r < Pow2(count) && LowBits(r, count) == CodeBits(value, count)
  {
    r := 0;
    var v := value;
    for i := 0 to count
      invariant v == Shr(value, i)
      invariant r < Pow2(i) && LowBits(r, i) == CodeBits(value, i)
    {
      ghost var r0 := r;
      r := r * 2 + v % 2;
      v := v / 2;
      assert LowBits(r, i + 1) == [r % 2 == 1] + LowBits(r / 2, i);
      assert r / 2 == r0 && r % 2 == Shr(value, i) % 2;
    }
  }

  class BitWriter {
    var outV: seq<Byte>
    var acc: nat
    var nbits: nat

    ghost predicate Valid()
      reads this
    {
      nbits < 8 && acc < Pow2(nbits)
    }

    /** Everything written so far. */
    ghost function Written(): Bits
      reads this
    {
      Unpacked(outV) + LowBits(acc, nbits)
    }

    constructor ()
      ensures Valid() && Written() == []
    {
      outV, acc, nbits := [], 0, 0;
    }

    method PutBits(value: nat, count: nat)
      requires Valid() && count <= 13 && value < Pow2(count)
      modifies this
      ensures Valid() && Written() == old(Written()) + LowBits(value, count)
    {
      hide And, LowBits, Shr, Pow2, Unpacked, Or, Shl;
      AppendStep(acc, nbits, value, count);
      acc := Or(acc, Shl(value, nbits) % WORD_32);
      nbits := nbits + count;
      assert Written() == old(Written()) + LowBits(value, count);
      while nbits >= 8
        invariant acc < Pow2(nbits) && Written() == old(Written()) + LowBits(value, count)
      {
        FlushStep(outV, acc, nbits);
        outV := outV + [And(acc, 0xFF)];
        acc := Shr(acc, 8);
        nbits := nbits - 8;
      }
    }

    /** Emits a literal/length symbol with its fixed code. */
    method PutLitLen(sym: nat)
      requires Valid() && sym < 288
      modifies this
      ensures Valid() && Written() == old(Written()) + Encoded(FixedLengths(), sym)
    {
      FixedCodeIsCanonical(sym);
      hide CodeOf, LowBits, CodeBits, Pow2, Unpacked;
      var r;
      if sym <= 143 {
        r := ReverseBits(0x30 + sym, 8);
        PutBits(r, 8);
      } else if sym <= 255 {
        r := ReverseBits(0x190 + (sym - 144), 9);
        PutBits(r, 9);
      } else if sym <= 279 {
        r := ReverseBits(sym - 256, 7);
        PutBits(r, 7);
      } else {
        r := ReverseBits(0xC0 + (sym - 280), 8);
        PutBits(r, 8);
      }
    }
  }

  /** First fit over a base/extra table. */
  method FindSymbol(base: seq<nat>, extra: seq<nat>, v: nat) returns (s: nat)
    requires |base| == |extra| > 0
    ensures s == FirstFit(base, extra, v, 0)
  {
    hide Pow2;
    s := |base| - 1;
    for i := 0 to |base|
      invariant FirstFit(base, extra, v, 0) == if i < |base| then FirstFit(base, extra, v, i) else |base| - 1
    {
      if v <= base[i] + (Pow2(extra[i]) - 1) && v >= base[i] {
        return i;
      }
    }
  }

  method EmitMatch(w: BitWriter, len: nat, dist: nat)
    requires w.Valid() && 3 <= len <= 258 && 1 <= dist <= 32768
    modifies w
    ensures w.Valid() && w.Written() == old(w.Written()) + TokenBits(Match(len, dist))
  {
    hide LengthBits, DistanceBits, LowBits, Unpacked;
    EmitLength(w, len);
    EmitDistance(w, dist);
  }

  method EmitLength(w: BitWriter, len: nat)
    requires w.Valid() && 3 <= len <= 258
    modifies w
    ensures w.Valid() && w.Written() == old(w.Written()) + LengthBits(len)
  {
    hide *;
    TableSizes();
    LengthBitsAre(len);
    var ls := FindSymbol(LEN_BASE, LEN_EXTRA, len);
    w.PutLitLen(257 + ls);
    PutExtra(w, LEN_BASE, LEN_EXTRA, len, ls);
  }

  lemma LengthBitsAre(len: nat)
    requires 3 <= len <= 258
    ensures var ls := FirstFit(LEN_BASE, LEN_EXTRA, len, 0);
            && ls <= 27 && Fits(LEN_BASE, LEN_EXTRA, len, ls) && len >= LEN_BASE[ls]
            && LengthBits(len) == Encoded(FixedLengths(), 257 + ls) + SymbolBits(LEN_BASE, LEN_EXTRA, len, ls)
  {
    hide FirstFit, Encoded, SymbolBits;
    LengthHasSymbol(len);
  }

  method EmitDistance(w: BitWriter, dist: nat)
    requires w.Valid() && 1 <= dist <= 32768
    modifies w
    ensures w.Valid() && w.Written() == old(w.Written()) + DistanceBits(dist)
  {
    hide *;
    TableSizes();
    DistanceBitsAre(dist);
    var ds := FindSymbol(DIST_BASE, DIST_EXTRA, dist);
    PutDistance(w, ds);
    PutExtra(w, DIST_BASE, DIST_EXTRA, dist, ds);
  }

  lemma DistanceBitsAre(dist: nat)
    requires 1 <= dist <= 32768
    ensures var ds := FirstFit(DIST_BASE, DIST_EXTRA, dist, 0);
            && Fits(DIST_BASE, DIST_EXTRA, dist, ds) && dist >= DIST_BASE[ds]
            && DistanceBits(dist) == Encoded(FixedDistances(), ds) + SymbolBits(DIST_BASE, DIST_EXTRA, dist, ds)
  {
    hide FirstFit, Encoded, SymbolBits;
    DistanceHasSymbol(dist);
  }

  method PutExtra(w: BitWriter, base: seq<nat>, extra: seq<nat>, v: nat, s: nat)
    requires w.Valid() && |base| == |extra| && s < |base| && Fits(base, extra, v, s) && extra[s] <= 13
    modifies w
    ensures w.Valid() && w.Written() == old(w.Written()) + SymbolBits(base, extra, v, s)
  {
    hide LowBits, Unpacked, Pow2;
    w.PutBits(v - base[s], extra[s]);
  }

  lemma TableSizes()
    ensures |LEN_BASE| == |LEN_EXTRA| == 29 && |DIST_BASE| == |DIST_EXTRA| == 30
    ensures forall s :: 0 <= s < 29 ==> LEN_EXTRA[s] <= 13
    ensures forall s :: 0 <= s < 30 ==> DIST_EXTRA[s] <= 13
  {}

  method PutDistance(w: BitWriter, ds: nat)
    requires w.Valid() && ds < 30
    modifies w
    ensures w.Valid() && w.Written() == old(w.Written()) + Encoded(FixedDistances(), ds)
  {
    DistanceCodeIsCanonical(ds);
    hide CodeOf, LowBits, CodeBits, Pow2, Unpacked;
    var r := ReverseBits(ds, 5);
    w.PutBits(r, 5);
  }

  // ---- Finding matches ----

  function Hash3(data: seq<Byte>, p: nat): (h: nat)
    requires p + 2 < |data|
    ensures h < HASH_SIZE
  {
    HashBound(Xor(Xor(Shl(data[p], 10), Shl(data[p + 1], 5)), data[p + 2]));
    And(Xor(Xor(Shl(data[p], 10), Shl(data[p + 1], 5)), data[p + 2]), HASH_SIZE - 1)
  }

  lemma HashBound(v: nat)
    ensures And(v, HASH_SIZE - 1) < HASH_SIZE
  {
    assert Pow2(15) == HASH_SIZE;
    hide And, Value, LowBits, Pow2;
    AndMask(v, 15);
    LowBitsOfValue(LowBits(v, 15));
  }

  /** The chains lead to strictly earlier positions. */
  ghost predicate ChainsBelow(head: array<int>, prev: array<int>, pos: nat)
    reads head, prev
  {
    && (forall h :: 0 <= h < head.Length ==> -1 <= head[h] < pos)
    && (forall i :: 0 <= i < prev.Length ==> -1 <= prev[i] < i)
  }

  /** The `len` bytes at `pos` repeat those `dist` bytes earlier. */
  ghost predicate Repeats(data: seq<Byte>, pos: nat, len: nat, dist: nat) {
    && 1 <= dist <= pos && pos + len <= |data|
    && forall q :: pos <= q < pos + len ==> data[q] == data[q - dist]
  }

  method MatchLength(data: seq<Byte>, cand: nat, pos: nat) returns (l: nat)
    requires cand < pos < |data|
    ensures l <= 258 && Repeats(data, pos, l, pos - cand)
    ensures l == 258 || pos + l == |data| || data[cand + l] != data[pos + l]
  {
    l := 0;
    while l < 258 && pos + l < |data| && data[cand + l] == data[pos + l]
      invariant l <= 258 && Repeats(data, pos, l, pos - cand)
    {
      l := l + 1;
    }
  }

  /** Follows the hash chain for the longest match within the window. */
  method FindMatch(data: seq<Byte>, head: array<int>, prev: array<int>, pos: nat)
    returns (bestLen: nat, bestDist: nat)
    requires pos < |data| && head.Length == HASH_SIZE && prev.Length == |data| && ChainsBelow(head, prev, pos)
    ensures bestLen > 0 ==> bestLen <= 258 && bestDist <= 32768 && Repeats(data, pos, bestLen, bestDist)
  {
    hide Hash3;
    bestLen, bestDist := 0, 0;
    if pos + 2 < |data| {
      var cand, chain := head[Hash3(data, pos)], 0;
      while cand >= 0 && chain < MAX_CHAIN
        invariant -1 <= cand < pos
        invariant bestLen > 0 ==> bestLen <= 258 && bestDist <= 32768 && Repeats(data, pos, bestLen, bestDist)
        decreases MAX_CHAIN - chain
      {
        var dist := pos - cand;
        if dist <= 32768 {
          var l := MatchLength(data, cand, pos);
          if l > bestLen {
            bestLen, bestDist := l, dist;
          }
        }
        cand := prev[cand];
        chain := chain + 1;
      }
    }
  }

  method Insert(data: seq<Byte>, head: array<int>, prev: array<int>, p: nat)
    requires p < |data| && head != prev && head.Length == HASH_SIZE && prev.Length == |data|
    requires ChainsBelow(head, prev, p)
    modifies head, prev
    ensures ChainsBelow(head, prev, p + 1)
  {
    hide Hash3;
    if p + 2 < |data| {
      var h := Hash3(data, p);
      prev[p] := head[h];
      head[h] := p;
    }
  }

  /** A match, even one that overlaps its own output, reproduces the bytes it stands for. */
  lemma {:induction false} CopyReproduces(data: seq<Byte>, pos: nat, len: nat, dist: nat)
    requires Repeats(data, pos, len, dist)
    ensures CopyMatch(data[..pos], dist, len) == data[..pos + len]
    decreases len
  {
    if len > 0 {
      assert data[..pos][pos - dist] == data[pos];
      assert data[..pos] + [data[pos]] == data[..pos + 1];
      CopyReproduces(data, pos + 1, len - 1, dist);
    }
  }

  /** Encodes the byte or match at `pos` and returns the position after it. */
  method EncodeStep(w: BitWriter, data: seq<Byte>, head: array<int>, prev: array<int>, pos: nat, ghost ts: seq<Token>)
    returns (next: nat, ghost t: Token)
    requires w.Valid() && pos < |data| && head != prev
    requires head.Length == HASH_SIZE && prev.Length == |data| && ChainsBelow(head, prev, pos)
    requires AreTokens(ts, []) && Expand(ts, []) == data[..pos]
    modifies w, head, prev
    ensures w.Valid() && pos < next <= |data| && ChainsBelow(head, prev, next)
    ensures IsToken(t, data[..pos]) && AreTokens(ts + [t], []) && Expand(ts + [t], []) == data[..next]
    ensures StreamBits(ts + [t], []) == StreamBits(ts, []) + TokenBits(t)
    ensures w.Written() == old(w.Written()) + TokenBits(t)
  {
    hide Expand, AreTokens, StreamBits, LowBits, Unpacked, Pow2, Encoded, LengthBits, DistanceBits;
    var bestLen, bestDist := FindMatch(data, head, prev, pos);
    if bestLen >= 3 {
      t := Match(bestLen, bestDist);
      CopyReproduces(data, pos, bestLen, bestDist);
      AppendToken(ts, [], t);
      EmitMatch(w, bestLen, bestDist);
      for k := 0 to bestLen
        invariant w.Valid() && w.Written() == old(w.Written()) + TokenBits(t)
        invariant ChainsBelow(head, prev, pos + k)
      {
        Insert(data, head, prev, pos + k);
      }
      next := pos + bestLen;
    } else {
      t := Literal(data[pos]);
      AppendToken(ts, [], t);
      w.PutLitLen(data[pos]);
      Insert(data, head, prev, pos);
      next := pos + 1;
      assert data[..pos] + [data[pos]] == data[..next];
    }
  }

  /** The compressed form of every byte string decompresses to it. */
  method Compress(data: seq<Byte>) returns (out: seq<Byte>)
    ensures exists ts :: AreTokens(ts, []) && Expand(ts, []) == data && IsFixedStream(out, ts)
    ensures Inflated(out).Parsed? && Inflated(out).value == data
  {
    hide Expand, AreTokens, StreamBits, TokenBits, LowBits, Unpacked, Encoded, Inflated;
    var w := new BitWriter();
    var head := new int[HASH_SIZE](_ => -1);
    var prev := new int[|data|](_ => -1);
    WriteHeader(w);
    var pos := 0;
    ghost var ts: seq<Token> := [];
    NoTokens();
    while pos < |data|
      invariant w.Valid() && pos <= |data| && ChainsBelow(head, prev, pos)
      invariant AreTokens(ts, []) && Expand(ts, []) == data[..pos]
      invariant w.Written() == FIXED_HEADER + StreamBits(ts, [])
    {
      ghost var t;
      pos, t := EncodeStep(w, data, head, prev, pos, ts);
      ts := ts + [t];
    }
    assert data[..pos] == data;
    w.PutLitLen(256);
    out := w.outV;
    if w.nbits > 0 {
      LastByte(w.outV, w.acc, w.nbits);
      out := out + [And(w.acc, 0xFF)];
    } else {
      NoPartialByte(w.outV, w.acc);
    }
    FixedStreamDecodes(out, ts);
  }

  method WriteHeader(w: BitWriter)
    requires w.Valid() && w.Written() == []
    modifies w
    ensures w.Valid() && w.Written() == FIXED_HEADER
  {
    Pow2Values();
    HeaderBits();
    hide LowBits, Unpacked, Pow2;
    w.PutBits(1, 1);
    w.PutBits(1, 2);
  }

  lemma HeaderBits()
    ensures [] + LowBits(1, 1) + LowBits(1, 2) == FIXED_HEADER
  {
    assert LowBits(1, 1) == [true] && LowBits(1, 2) == [true, false];
  }

  lemma NoTokens()
    ensures AreTokens([], []) && Expand([], []) == [] && StreamBits([], []) == []
  {}

  lemma NoPartialByte(out: seq<Byte>, acc: nat)
    ensures Unpacked(out) + LowBits(acc, 0) == Unpacked(out)
  {}

  lemma LastByte(out: seq<Byte>, acc: nat, nbits: nat)
    requires nbits < 8
    ensures And(acc, 0xFF) < 256
    ensures Unpacked(out) + LowBits(acc, nbits) <= Unpacked(out + [And(acc, 0xFF)])
  {
    hide And, LowBits, Unpacked;
    LowByte(acc);
    AppendByte(out, And(acc, 0xFF));
    LowBitsPrefix(acc, nbits, 8);
  }

  /** Decompressing what was compressed gives the data back. */
  method RoundTrip(data: seq<Byte>) returns (out: seq<Byte>)
    ensures out == data
  {
    hide Inflated;
    var packed := Compress(data);
    var ok;
    ok, out := Inflate.Decompress(packed);
  }
}
