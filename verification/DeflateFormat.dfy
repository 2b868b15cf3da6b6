/** The compressed data format of RFC 1951, as a reference decoder over a stream of bits. */
module DeflateFormat {
  import opened BitOps
  import opened Huffman

  const LEN_BASE: seq<nat> :=
    [3, 4, 5, 6, 7, 8, 9, 10, 11, 13, 15, 17, 19, 23, 27, 31, 35, 43, 51, 59,
     67, 83, 99, 115, 131, 163, 195, 227, 258]
  const LEN_EXTRA: seq<nat> :=
    [0, 0, 0, 0, 0, 0, 0, 0, 1, 1, 1, 1, 2, 2, 2, 2, 3, 3, 3, 3,
     4, 4, 4, 4, 5, 5, 5, 5, 0]
  const DIST_BASE: seq<nat> :=
    [1, 2, 3, 4, 5, 7, 9, 13, 17, 25, 33, 49, 65, 97, 129, 193, 257, 385, 513,
     769, 1025, 1537, 2049, 3073, 4097, 6145, 8193, 12289, 16385, 24577]
  const DIST_EXTRA: seq<nat> :=
    [0, 0, 0, 0, 1, 1, 2, 2, 3, 3, 4, 4, 5, 5, 6, 6, 7, 7, 8, 8,
     9, 9, 10, 10, 11, 11, 12, 12, 13, 13]
  const CODE_LENGTH_ORDER: seq<nat> :=
    [16, 17, 18, 0, 8, 7, 9, 6, 10, 5, 11, 4, 12, 3, 13, 2, 14, 1, 15]

  /** The fixed literal/length code (section 3.2.6). */
  function FixedLengths(): (ls: seq<nat>)
    ensures |ls| == 288 && IsCode(ls)
  {
    seq(288, s => if s < 144 then 8 else if s < 256 then 9 else if s < 280 then 7 else 8)
  }

  /** The fixed distance code, without its two unused symbols. */
  function FixedDistances(): (ls: seq<nat>)
    ensures |ls| == 30 && IsCode(ls)
  {
    seq(30, s => 5)
  }

  function TakeBits(bits: Bits, n: nat): (p: Parse<nat>)
    ensures p.Parsed? ==> |p.rest| + n == |bits|
  {
    if |bits| < n then Malformed else Parsed(Value(bits[..n]), bits[n..])
  }

  /** Appends `n` bytes, each copied from `dist` bytes back; the copy may overlap itself. */
  function CopyMatch(out: seq<Byte>, dist: nat, n: nat): (r: seq<Byte>)
    requires 1 <= dist <= |out|
    ensures |r| == |out| + n
    decreases n
  {
    if n == 0 then out else CopyMatch(out + [out[|out| - dist]], dist, n - 1)
  }

  /** The extra bits of a length or distance symbol added to its base. */
  function TakeExtended(bits: Bits, base: seq<nat>, extra: seq<nat>, sym: nat): (p: Parse<nat>)
    requires |base| == |extra| && sym < |base|
    ensures p.Parsed? ==> |p.rest| <= |bits| && p.value >= base[sym]
  {
    var (e, rest) :- TakeBits(bits, extra[sym]);
    Parsed(base[sym] + e, rest)
  }

  lemma DistanceBasePositive(ds: nat)
    requires ds <= 29
    ensures DIST_BASE[ds] >= 1
  {}

  /** What follows length symbol 257 + `sym`: length, distance, copy. */
  function ReadMatch(dist: seq<nat>, sym: nat, bits: Bits, out: seq<Byte>): (p: Parse<seq<Byte>>)
    ensures p.Parsed? ==> |p.rest| <= |bits|
  {
    if sym > 28 then Malformed
    else
      var (len, r2) :- TakeExtended(bits, LEN_BASE, LEN_EXTRA, sym);
      var (ds, r3) :- DecodeSymbol(dist, r2);
      if ds > 29 then Malformed
      else
        var (d, r4) :- TakeExtended(r3, DIST_BASE, DIST_EXTRA, ds);
        DistanceBasePositive(ds);
        if d > |out| then Malformed else Parsed(CopyMatch(out, d, len), r4)
  }

  /** The symbols of one compressed block, up to and including the end-of-block symbol. */
  function ReadSymbols(lit: seq<nat>, dist: seq<nat>, bits: Bits, out: seq<Byte>): (p: Parse<seq<Byte>>)
    ensures p.Parsed? ==> |p.rest| <= |bits|
    decreases |bits|
  {
    var (sym, r1) :- DecodeSymbol(lit, bits);
    if sym == 256 then Parsed(out, r1)
    else if sym < 256 then ReadSymbols(lit, dist, r1, out + [sym])
    else
      var (out', r2) :- ReadMatch(dist, sym - 257, r1, out);
      ReadSymbols(lit, dist, r2, out')
  }

  /** The code lengths of the code-length code, read in their transmission order. */
  function ReadCodeLengths(bits: Bits, i: nat, n: nat, acc: seq<nat>): (p: Parse<seq<nat>>)
    requires i <= n <= 19 && |acc| == 19 && IsCode(acc)
    ensures p.Parsed? ==> |p.rest| <= |bits| && |p.value| == 19 && IsCode(p.value)
    decreases n - i
  {
    if i == n then Parsed(acc, bits)
    else
      var (v, rest) :- TakeBits(bits, 3);
      LowBitsOfValue(bits[..3]);
      assert Pow2(3) == 8;
      ReadCodeLengths(rest, i + 1, n, acc[CODE_LENGTH_ORDER[i] := v])
  }

  function Repeat(v: nat, n: nat): (r: seq<nat>)
    ensures |r| == n
  {
    seq(n, _ => v)
  }

  /** The repeat count that follows code-length symbol 16, 17 or 18. */
  function ReadRun(sym: nat, bits: Bits): (p: Parse<nat>)
    ensures p.Parsed? ==> |p.rest| <= |bits|
  {
    var (n, rest) :- TakeBits(bits, if sym == 16 then 2 else if sym == 17 then 3 else 7);
    Parsed(n + if sym <= 17 then 3 else 11, rest)
  }

  /** The run-length coded literal and distance code lengths. */
  function ReadLengths(cl: seq<nat>, total: nat, bits: Bits, acc: seq<nat>): (p: Parse<seq<nat>>)
    requires |cl| == 19 && IsCode(cl) && |acc| <= total <= MAX_SYMBOLS && IsCode(acc)
    ensures p.Parsed? ==> |p.rest| <= |bits| && |p.value| == total && IsCode(p.value)
    decreases |bits|
  {
    if |acc| == total then Parsed(acc, bits)
    else
      var (sym, r1) :- DecodeSymbol(cl, bits);
      if sym < 16 then ReadLengths(cl, total, r1, acc + [sym])
      else if sym == 16 && |acc| == 0 then Malformed
      else
        var (n, r2) :- ReadRun(sym, r1);
        if |acc| + n > total then Malformed
        else ReadLengths(cl, total, r2, acc + Repeat(if sym == 16 then acc[|acc| - 1] else 0, n))
  }

  function ReadDynamic(bits: Bits, out: seq<Byte>): (p: Parse<seq<Byte>>)
    ensures p.Parsed? ==> |p.rest| <= |bits|
  {
    var (hl, r1) :- TakeBits(bits, 5);
    var (hd, r2) :- TakeBits(r1, 5);
    var (hc, r3) :- TakeBits(r2, 4);
    HeaderBounds(bits, r1, r2);
    ReadDynamicBody(hl + 257, hd + 1, hc + 4, r3, out)
  }

  function ReadDynamicBody(hlit: nat, hdist: nat, hclen: nat, bits: Bits, out: seq<Byte>): (p: Parse<seq<Byte>>)
    requires hlit <= 288 && hdist <= 32 && hclen <= 19
    ensures p.Parsed? ==> |p.rest| <= |bits|
  {
    var (cl, r1) :- ReadCodeLengths(bits, 0, hclen, Repeat(0, 19));
    var (all, r2) :- ReadLengths(cl, hlit + hdist, r1, []);
    ReadSymbols(all[..hlit], all[hlit..], r2, out)
  }

  lemma HeaderBounds(bits: Bits, r1: Bits, r2: Bits)
    requires |bits| >= 5 && |r1| >= 5 && |r2| >= 4
    ensures Value(bits[..5]) < 32 && Value(r1[..5]) < 32 && Value(r2[..4]) < 16
  {
    LowBitsOfValue(bits[..5]);
    LowBitsOfValue(r1[..5]);
    LowBitsOfValue(r2[..4]);
    assert Pow2(5) == 32 && Pow2(4) == 16;
  }

  function TakeBytes(bits: Bits, n: nat): (p: Parse<seq<Byte>>)
    ensures p.Parsed? ==> |p.rest| <= |bits|
    decreases n
  {
    if n == 0 then Parsed([], bits)
    else
      var (b, r1) :- TakeBits(bits, 8);
      ByteBound(bits);
      var (bs, r2) :- TakeBytes(r1, n - 1);
      Parsed([b] + bs, r2)
  }

  lemma ByteBound(bits: Bits)
    requires |bits| >= 8
    ensures Value(bits[..8]) < 256
  {
    LowBitsOfValue(bits[..8]);
    assert Pow2(8) == 256;
  }

  /** A stored block: skip to a byte boundary, read LEN, skip NLEN unchecked, copy LEN bytes. */
  function ReadStored(bits: Bits, out: seq<Byte>): (p: Parse<seq<Byte>>)
    ensures p.Parsed? ==> |p.rest| <= |bits|
  {
    var (len, r1) :- TakeBits(bits[|bits| % 8..], 16);
    var (nlen, r2) :- TakeBits(r1, 16);
    var (bytes, r3) :- TakeBytes(r2, len);
    Parsed(out + bytes, r3)
  }

  function ReadBlock(btype: nat, bits: Bits, out: seq<Byte>): (p: Parse<seq<Byte>>)
    ensures p.Parsed? ==> |p.rest| <= |bits|
  {
    if btype == 0 then ReadStored(bits, out)
    else if btype == 1 then ReadSymbols(FixedLengths(), FixedDistances(), bits, out)
    else if btype == 2 then ReadDynamic(bits, out)
    else Malformed
  }

  function ReadBlocks(bits: Bits, out: seq<Byte>): (p: Parse<seq<Byte>>)
    decreases |bits|
  {
    var (final, r1) :- TakeBits(bits, 1);
    var (btype, r2) :- TakeBits(r1, 2);
    var (out', r3) :- ReadBlock(btype, r2, out);
    if final == 1 then Parsed(out', r3) else ReadBlocks(r3, out')
  }

  /** What a byte string decompresses to. */
  function Inflated(data: seq<Byte>): Parse<seq<Byte>> {
    ReadBlocks(Unpacked(data), [])
  }
}
