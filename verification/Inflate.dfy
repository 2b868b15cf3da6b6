/** The decompressor: an input cursor with a bit buffer, the Huffman decoder driven by it, and the
    block loop.  Every method is proved against the reference decoder of `DeflateFormat`. */
module Inflate {
  import opened BitOps
  import opened Huffman
  import opened DeflateFormat

  class Inflater {
    const data: seq<Byte>
    var inPos: nat
    var bitBuf: nat
    var bitCnt: nat
    var outV: seq<Byte>

    ghost predicate Valid()
      reads this
    {
      inPos <= |data| && bitCnt < 8 && bitBuf < Pow2(bitCnt)
    }

    /** The bits not yet consumed. */
    ghost function Remaining(): Bits
      requires inPos <= |data|
      reads this
    {
      LowBits(bitBuf, bitCnt) + Unpacked(data[inPos..])
    }

    constructor (data: seq<Byte>)
      ensures Valid() && this.data == data && outV == [] && Remaining() == Unpacked(data)
    {
      this.data := data;
      inPos, bitBuf, bitCnt, outV := 0, 0, 0, [];
      new;
      assert data[0..] == data;
    }

    /** Loads one byte above the bits already buffered. */
    method LoadByte()
      requires inPos < |data| && bitCnt < 13 && bitBuf < Pow2(bitCnt)
      modifies this`inPos, this`bitBuf, this`bitCnt
      ensures inPos == old(inPos) + 1 && bitCnt == old(bitCnt) + 8 && bitBuf < Pow2(bitCnt)
      ensures Remaining() == old(Remaining())
    {
      var b := data[inPos];
      LoadStep(bitBuf, bitCnt, b, data[inPos..]);
      bitBuf := Or(bitBuf, Shl(b, bitCnt) % WORD_32);
      assert data[inPos..][1..] == data[inPos + 1..];
      inPos := inPos + 1;
      bitCnt := bitCnt + 8;
    }

    method Bits(need: nat) returns (ok: bool, v: nat)
      requires Valid() && need <= 13
      modifies this`inPos, this`bitBuf, this`bitCnt
      ensures ok ==> Valid()
      ensures match TakeBits(old(Remaining()), need)
              case Malformed => !ok
              case Parsed(value, rest) => ok && v == value && Remaining() == rest
    {
      hide LowBits, Unpacked, Pow2;
      v := 0;
      while bitCnt < need
        invariant inPos <= |data| && bitBuf < Pow2(bitCnt) && Remaining() == old(Remaining())
        invariant bitCnt < 8 || bitCnt < need + 8
        decreases |data| - inPos
      {
        if inPos >= |data| {
          NothingLeft(data, inPos);
          return false, 0;
        }
        LoadByte();
      }
      TakeStep(bitBuf, bitCnt, need, Unpacked(data[inPos..]));
      v := And(bitBuf, Shl(1, need) - 1);
      bitBuf := Shr(bitBuf, need);
      bitCnt := bitCnt - need;
      ok := true;
    }

    /** Reads one Huffman symbol: the walk over the count table, one bit at a time. */
    method Decode(count: array<nat>, symbol: array<nat>, ghost lengths: seq<nat>) returns (ok: bool, sym: nat)
      requires Valid() && Represents(count[..], symbol[..], lengths)
      modifies this`inPos, this`bitBuf, this`bitCnt
      ensures ok ==> Valid()
      ensures match DecodeSymbol(lengths, old(Remaining()))
              case Malformed => !ok
              case Parsed(value, rest) => ok && sym == value && Remaining() == rest
    {
      hide DecodeFrom, Sorted, OfLength, First, LowBits, Unpacked, Pow2, Represents, Count;
      var code: int, first: int, index: int := 0, 0, 0;
      ghost var t := 0;
      WalkStarts(lengths, Remaining());
      for len := 1 to MAX_LENGTH + 1
        invariant Valid() && code == 2 * t && code >= first
        invariant first == First(lengths, len) && index == Offset(lengths, len)
        invariant DecodeFrom(lengths, Remaining(), len, code, first, index) == DecodeSymbol(lengths, old(Remaining()))
      {
        ghost var bits := Remaining();
        var got, b := Bits(1);
        if !got {
          WalkStuck(lengths, bits, len, code, first, index);
          return false, 0;
        }
        OneBit(bits);
        code := code + b;
        RepresentsCount(count[..], symbol[..], lengths, len);
        var cnt := count[len];
        if code - cnt < first {
          WalkEnds(lengths, bits, len, t, code - first);
          RepresentsSymbol(count[..], symbol[..], lengths, len, code - first);
          return true, symbol[index + (code - first)];
        }
        WalkOn(lengths, bits, len, t, code);
        t := code;
        index := index + cnt;
        first := first + cnt;
        first := first * 2;
        code := code * 2;
        FirstStep(lengths, len);
        SortedGrows(lengths, len);
      }
      WalkStuck(lengths, Remaining(), MAX_LENGTH + 1, code, first, index);
      ok, sym := false, 0;
    }

    /** The base value of a length or distance symbol plus its extra bits. */
    method Extended(base: seq<nat>, extra: seq<nat>, sym: nat) returns (ok: bool, v: nat)
      requires Valid() && |base| == |extra| && sym < |base| && extra[sym] <= 13
      modifies this`inPos, this`bitBuf, this`bitCnt
      ensures ok ==> Valid()
      ensures match TakeExtended(old(Remaining()), base, extra, sym)
              case Malformed => !ok
              case Parsed(value, rest) => ok && v == value && Remaining() == rest
    {
      hide TakeBits;
      ok, v := Bits(extra[sym]);
      if ok {
        v := base[sym] + v;
      }
    }

    method CopyBack(dist: nat, len: nat)
      requires 1 <= dist <= |outV|
      modifies this`outV
      ensures outV == CopyMatch(old(outV), dist, len)
    {
      for i := 0 to len
        invariant 1 <= dist <= |outV|
        invariant CopyMatch(outV, dist, len - i) == CopyMatch(old(outV), dist, len)
      {
        outV := outV + [outV[|outV| - dist]];
      }
    }

    /** The length, distance and copy that follow a length symbol. */
    method Match(sym: nat, dc: array<nat>, ds: array<nat>, ghost dist: seq<nat>) returns (ok: bool)
      requires Valid() && Represents(dc[..], ds[..], dist)
      modifies this`inPos, this`bitBuf, this`bitCnt, this`outV
      ensures ok ==> Valid()
      ensures match ReadMatch(dist, sym, old(Remaining()), old(outV))
              case Malformed => !ok
              case Parsed(out, rest) => ok && outV == out && Remaining() == rest
    {
      hide TakeExtended, DecodeSymbol, CopyMatch, Represents;
      if sym > 28 {
        return false;
      }
      ExtraBounds();
      var got, len := Extended(LEN_BASE, LEN_EXTRA, sym);
      if !got {
        return false;
      }
      var dsym;
      got, dsym := Decode(dc, ds, dist);
      if !got || dsym > 29 {
        return false;
      }
      var d;
      got, d := Extended(DIST_BASE, DIST_EXTRA, dsym);
      if !got || d > |outV| {
        return false;
      }
      DistanceBasePositive(dsym);
      CopyBack(d, len);
      ok := true;
    }

    /** The symbols of one block, until the end-of-block symbol. */
    method Codes(lc: array<nat>, ls: array<nat>, dc: array<nat>, ds: array<nat>, ghost lit: seq<nat>,
                 ghost dist: seq<nat>)
      returns (ok: bool)
      requires Valid() && Represents(lc[..], ls[..], lit) && Represents(dc[..], ds[..], dist)
      modifies this`inPos, this`bitBuf, this`bitCnt, this`outV
      ensures ok ==> Valid()
      ensures match ReadSymbols(lit, dist, old(Remaining()), old(outV))
              case Malformed => !ok
              case Parsed(out, rest) => ok && outV == out && Remaining() == rest
    {
      hide DecodeSymbol, ReadMatch, Represents, LowBits, Unpacked, Pow2;
      while true
        invariant Valid()
        invariant ReadSymbols(lit, dist, Remaining(), outV) == ReadSymbols(lit, dist, old(Remaining()), old(outV))
        decreases |Remaining()|
      {
        var got, sym := Decode(lc, ls, lit);
        if !got {
          return false;
        }
        if sym == 256 {
          return true;
        } else if sym < 256 {
          outV := outV + [sym];
        } else {
          got := Match(sym - 257, dc, ds, dist);
          if !got {
            return false;
          }
        }
      }
    }

    method FixedBlock() returns (ok: bool)
      requires Valid()
      modifies this`inPos, this`bitBuf, this`bitCnt, this`outV
      ensures ok ==> Valid()
      ensures match ReadBlock(1, old(Remaining()), old(outV))
              case Malformed => !ok
              case Parsed(out, rest) => ok && outV == out && Remaining() == rest
    {
      hide ReadSymbols, Represents, FixedLengths, FixedDistances;
      var ll := FixedLengthTable();
      var lc, ls := Construct(ll[..]);
      var dc, ds := Construct(FixedDistances());
      ok := Codes(lc, ls, dc, ds, FixedLengths(), FixedDistances());
    }

    /** The code-length code: HCLEN three-bit lengths in transmission order. */
    method CodeLengths(hclen: nat) returns (ok: bool, cl: array<nat>)
      requires Valid() && hclen <= 19
      modifies this`inPos, this`bitBuf, this`bitCnt
      ensures ok ==> Valid()
      ensures fresh(cl) && cl.Length == 19
      ensures match ReadCodeLengths(old(Remaining()), 0, hclen, Repeat(0, 19))
              case Malformed => !ok
              case Parsed(lengths, rest) => ok && cl[..] == lengths && Remaining() == rest
    {
      hide TakeBits, LowBits, Unpacked;
      cl := new nat[19](_ => 0);
      assert cl[..] == Repeat(0, 19);
      hide Repeat;
      for i := 0 to hclen
        invariant Valid() && IsCode(cl[..])
        invariant ReadCodeLengths(Remaining(), i, hclen, cl[..])
               == ReadCodeLengths(old(Remaining()), 0, hclen, Repeat(0, 19))
      {
        ghost var before, bits := cl[..], Remaining();
        var got, v := Bits(3);
        if !got {
          return false, cl;
        }
        CodeLengthBound(bits);
        cl[CODE_LENGTH_ORDER[i]] := v;
        assert cl[..] == before[CODE_LENGTH_ORDER[i] := v];
      }
      ok := true;
    }

    /** Fills `rep` entries with `val`, unless they run past the end. */
    method FillRun(all: array<nat>, idx: nat, val: nat, rep: nat) returns (ok: bool, next: nat)
      requires idx <= all.Length
      modifies all
      ensures ok <==> idx + rep <= all.Length
      ensures ok ==> next == idx + rep && all[..next] == old(all[..idx]) + Repeat(val, rep)
    {
      next := idx;
      for i := 0 to rep
        invariant next == idx + i <= all.Length
        invariant all[..next] == old(all[..idx]) + Repeat(val, i)
      {
        if next >= all.Length {
          return false, next;
        }
        all[next] := val;
        next := next + 1;
        RepeatStep(val, i);
        assert all[..next] == all[..next - 1] + [val];
      }
      ok := true;
    }

    method Run(sym: nat) returns (ok: bool, rep: nat)
      requires Valid() && sym >= 16
      modifies this`inPos, this`bitBuf, this`bitCnt
      ensures ok ==> Valid()
      ensures match ReadRun(sym, old(Remaining()))
              case Malformed => !ok
              case Parsed(n, rest) => ok && rep == n && Remaining() == rest
    {
      hide TakeBits;
      if sym == 16 {
        ok, rep := Bits(2);
        rep := rep + 3;
      } else if sym == 17 {
        ok, rep := Bits(3);
        rep := rep + 3;
      } else {
        ok, rep := Bits(7);
        rep := rep + 11;
      }
    }

    /** One entry or run of the literal and distance code lengths. */
    method LengthRun(clc: array<nat>, cls: array<nat>, ghost cl: seq<nat>, all: array<nat>, idx: nat)
      returns (ok: bool, next: nat)
      requires Valid() && Represents(clc[..], cls[..], cl) && |cl| == 19 && IsCode(cl)
      requires idx < all.Length <= MAX_SYMBOLS && IsCode(all[..idx])
      requires all != clc && all != cls
      modifies this`inPos, this`bitBuf, this`bitCnt, all
      ensures var whole := ReadLengths(cl, all.Length, old(Remaining()), old(all[..idx]));
              if ok then
                && Valid() && idx <= next <= all.Length && IsCode(all[..next])
                && |Remaining()| < |old(Remaining())|
                && ReadLengths(cl, all.Length, Remaining(), all[..next]) == whole
              else whole == Malformed
    {
      hide DecodeSymbol, ReadRun, Represents, LowBits, Unpacked, Pow2;
      next := idx;
      var got, sym := Decode(clc, cls, cl);
      if !got {
        return false, idx;
      }
      if sym < 16 {
        all[idx] := sym;
        next := idx + 1;
        assert all[..next] == old(all[..idx]) + [sym];
        return true, next;
      }
      if sym == 16 && idx == 0 {
        return false, idx;
      }
      var val := if sym == 16 then all[idx - 1] else 0;
      var rep;
      got, rep := Run(sym);
      if !got {
        return false, idx;
      }
      ok, next := FillRun(all, idx, val, rep);
    }

    method DynamicBlock() returns (ok: bool)
      requires Valid()
      modifies this`inPos, this`bitBuf, this`bitCnt, this`outV
      ensures ok ==> Valid()
      ensures match ReadDynamic(old(Remaining()), old(outV))
              case Malformed => !ok
              case Parsed(out, rest) => ok && outV == out && Remaining() == rest
    {
      hide ReadDynamicBody, Value, LowBits, Unpacked, Pow2;
      ghost var bits := Remaining();
      var got, hl := Bits(5);
      if !got {
        return false;
      }
      ghost var r1 := Remaining();
      var hd;
      got, hd := Bits(5);
      if !got {
        return false;
      }
      ghost var r2 := Remaining();
      var hc;
      got, hc := Bits(4);
      if !got {
        return false;
      }
      HeaderBounds(bits, r1, r2);
      ok := DynamicBody(hl + 257, hd + 1, hc + 4);
    }

    method DynamicBody(hlit: nat, hdist: nat, hclen: nat) returns (ok: bool)
      requires Valid() && hlit <= 288 && hdist <= 32 && hclen <= 19
      modifies this`inPos, this`bitBuf, this`bitCnt, this`outV
      ensures ok ==> Valid()
      ensures match ReadDynamicBody(hlit, hdist, hclen, old(Remaining()), old(outV))
              case Malformed => !ok
              case Parsed(out, rest) => ok && outV == out && Remaining() == rest
    {
      hide ReadSymbols, ReadLengths, ReadCodeLengths, Represents, LowBits, Unpacked, Pow2;
      var got, cl := CodeLengths(hclen);
      if !got {
        return false;
      }
      var all := new nat[hlit + hdist](_ => 0);
      ghost var codeLengths := cl[..];
      var clc, cls := Construct(cl[..]);
      var idx: nat := 0;
      ghost var bits := Remaining();
      assert all[..0] == [];
      while idx < hlit + hdist
        invariant Valid() && idx <= hlit + hdist && IsCode(all[..idx]) && outV == old(outV)
        invariant Represents(clc[..], cls[..], codeLengths)
        invariant ReadLengths(codeLengths, hlit + hdist, Remaining(), all[..idx])
               == ReadLengths(codeLengths, hlit + hdist, bits, [])
        decreases |Remaining()|
      {
        got, idx := LengthRun(clc, cls, codeLengths, all, idx);
        if !got {
          return false;
        }
      }
      LengthsDone(codeLengths, hlit + hdist, Remaining(), all[..idx]);
      assert all[..idx] == all[..];
      var lc, ls := Construct(all[..hlit]);
      var dc, ds := Construct(all[hlit..]);
      assert all[..][..hlit] == all[..hlit] && all[..][hlit..] == all[hlit..];
      ok := Codes(lc, ls, dc, ds, all[..hlit], all[hlit..]);
    }

    method StoredBlock() returns (ok: bool)
      requires Valid()
      modifies this`inPos, this`bitBuf, this`bitCnt, this`outV
      ensures ok ==> Valid()
      ensures match ReadStored(old(Remaining()), old(outV))
              case Malformed => !ok
              case Parsed(out, rest) => ok && outV == out && Remaining() == rest
    {
      hide TakeBits, TakeBytes, Unpacked;
      Aligned(bitBuf, bitCnt, data[inPos..]);
      StoredHeader(data[inPos..]);
      bitBuf := 0;
      bitCnt := 0;
      if inPos + 3 >= |data| {
        return false;
      }
      var len := Word(data[inPos], data[inPos + 1]);
      ghost var body := data[inPos + 4..];
      assert data[inPos..][4..] == body;
      TakeWholeBytes(body, len);
      inPos := inPos + 4;
      for i := 0 to len
        invariant inPos == old(inPos) + 4 + i <= |data| && bitBuf == 0 && bitCnt == 0
        invariant i <= |body| && data[inPos..] == body[i..] && outV == old(outV) + body[..i]
      {
        if inPos >= |data| {
          return false;
        }
        outV := outV + [data[inPos]];
        inPos := inPos + 1;
      }
      ok := true;
    }

    /** Decodes blocks until the one marked final. */
    method Blocks() returns (ok: bool)
      requires Valid()
      modifies this`inPos, this`bitBuf, this`bitCnt, this`outV
      ensures match ReadBlocks(old(Remaining()), old(outV))
              case Malformed => !ok
              case Parsed(out, rest) => ok && outV == out
    {
      hide TakeBits, ReadStored, ReadDynamic, ReadSymbols, LowBits, Unpacked, Pow2;
      while true
        invariant Valid()
        invariant ReadBlocks(Remaining(), outV) == ReadBlocks(old(Remaining()), old(outV))
        decreases |Remaining()|
      {
        var got, final := Bits(1);
        if !got {
          return false;
        }
        var btype;
        got, btype := Bits(2);
        if !got {
          return false;
        }
        match btype {
          case 0 => got := StoredBlock();
          case 1 => got := FixedBlock();
          case 2 => got := DynamicBlock();
          case _ => got := false;
        }
        if !got {
          return false;
        }
        if final == 1 {
          return true;
        }
      }
    }
  }

  /** The fixed literal/length code lengths, filled range by range. */
  method FixedLengthTable() returns (ll: array<nat>)
    ensures fresh(ll) && ll[..] == FixedLengths()
  {
    ll := new nat[288](_ => 0);
    for s := 0 to 144
      invariant forall i :: 0 <= i < s ==> ll[i] == 8
    {
      ll[s] := 8;
    }
    for s := 144 to 256
      invariant forall i :: 0 <= i < 144 ==> ll[i] == 8
      invariant forall i :: 144 <= i < s ==> ll[i] == 9
    {
      ll[s] := 9;
    }
    for s := 256 to 280
      invariant forall i :: 0 <= i < 144 ==> ll[i] == 8
      invariant forall i :: 144 <= i < 256 ==> ll[i] == 9
      invariant forall i :: 256 <= i < s ==> ll[i] == 7
    {
      ll[s] := 7;
    }
    for s := 280 to 288
      invariant forall i :: 0 <= i < 144 ==> ll[i] == 8
      invariant forall i :: 144 <= i < 256 ==> ll[i] == 9
      invariant forall i :: 256 <= i < 280 ==> ll[i] == 7
      invariant forall i :: 280 <= i < s ==> ll[i] == 8
    {
      ll[s] := 8;
    }
  }

  lemma RepeatStep(v: nat, i: nat)
    ensures Repeat(v, i + 1) == Repeat(v, i) + [v]
  {}

  lemma CodeLengthBound(bits: Bits)
    ensures TakeBits(bits, 3).Parsed? ==> TakeBits(bits, 3).value < 8
  {
    if |bits| >= 3 {
      LowBitsOfValue(bits[..3]);
      Pow2Values();
    }
  }

  lemma LengthsDone(cl: seq<nat>, total: nat, bits: Bits, acc: seq<nat>)
    requires |cl| == 19 && IsCode(cl) && |acc| == total <= MAX_SYMBOLS && IsCode(acc)
    ensures ReadLengths(cl, total, bits, acc) == Parsed(acc, bits)
  {}

  lemma ExtraBounds()
    ensures forall s :: 0 <= s <= 28 ==> LEN_EXTRA[s] <= 13
    ensures forall s :: 0 <= s <= 29 ==> DIST_EXTRA[s] <= 13
  {}

  lemma WalkStarts(lengths: seq<nat>, bits: Bits)
    ensures First(lengths, 1) == 0 && Offset(lengths, 1) == 0
    ensures DecodeFrom(lengths, bits, 1, 0, 0, 0) == DecodeSymbol(lengths, bits)
  {}

  lemma WalkStuck(lengths: seq<nat>, bits: Bits, len: nat, code: nat, first: nat, index: nat)
    requires 1 <= len && (len > MAX_LENGTH || |bits| == 0)
    ensures DecodeFrom(lengths, bits, len, code, first, index) == Malformed
  {}

  lemma OneBit(bits: Bits)
    requires |bits| > 0
    ensures TakeBits(bits, 1) == Parsed(BitValue(bits[0]), bits[1..])
  {
    assert bits[..1] == [bits[0]];
    assert Value([bits[0]]) == BitValue(bits[0]) + 2 * Value([bits[0]][1..]);
  }

  lemma RepresentsCount(count: seq<nat>, symbol: seq<nat>, lengths: seq<nat>, len: nat)
    requires Represents(count, symbol, lengths) && 1 <= len <= MAX_LENGTH
    ensures |count| == MAX_LENGTH + 1 && count[len] == Count(lengths, len)
  {}

  lemma RepresentsSymbol(count: seq<nat>, symbol: seq<nat>, lengths: seq<nat>, len: nat, r: nat)
    requires Represents(count, symbol, lengths) && 1 <= len <= MAX_LENGTH && r < Count(lengths, len)
    ensures Offset(lengths, len) + r < |symbol| && symbol[Offset(lengths, len) + r] == OfLength(lengths, len)[r]
  {
    hide OfLength, Offset;
    assert Slot(lengths, len, r) == Offset(lengths, len) + r;
  }

  lemma NothingLeft(data: seq<Byte>, inPos: nat)
    requires inPos == |data|
    ensures Unpacked(data[inPos..]) == []
  {}

  lemma {:induction false} ShlOne(n: nat)
    ensures Shl(1, n) == Pow2(n)
  {
    if n > 0 {
      ShlOne(n - 1);
    }
  }

  lemma LoadStep(buf: nat, cnt: nat, b: Byte, rest: seq<Byte>)
    requires cnt < 13 && buf < Pow2(cnt) && |rest| > 0 && rest[0] == b
    ensures var buf' := Or(buf, Shl(b, cnt) % WORD_32);
            && buf' < Pow2(cnt + 8)
            && LowBits(buf', cnt + 8) + Unpacked(rest[1..]) == LowBits(buf, cnt) + Unpacked(rest)
  {
    hide Or, LowBits, Shl, Pow2, Unpacked;
    Pow2Values();
    ShlBound(b, cnt, 8);
    Pow2Monotone(cnt + 8, 20);
    SmallMod(Shl(b, cnt));
    Pow2Monotone(cnt, cnt + 8);
    OrBound(buf, Shl(b, cnt), cnt + 8);
    OrAppends(buf, cnt, b, 8);
    UnpackedHead(rest);
    assert LowBits(buf, cnt) + Unpacked(rest) == (LowBits(buf, cnt) + LowBits(b, 8)) + Unpacked(rest[1..]);
  }

  lemma TakeStep(buf: nat, cnt: nat, need: nat, rest: Bits)
    requires need <= cnt && buf < Pow2(cnt)
    ensures Shl(1, need) >= 1 && Shr(buf, need) < Pow2(cnt - need)
    ensures TakeBits(LowBits(buf, cnt) + rest, need)
         == Parsed(And(buf, Shl(1, need) - 1), LowBits(Shr(buf, need), cnt - need) + rest)
  {
    hide LowBits, And, Shl, Shr, Pow2, Value;
    ShlOne(need);
    AndMask(buf, need);
    LowBitsPrefix(buf, need, cnt);
    ShrBound(buf, need, cnt);
    ShrDrops(buf, need, cnt);
    var bits := LowBits(buf, cnt) + rest;
    assert bits[..need] == LowBits(buf, need);
    assert bits[need..] == LowBits(buf, cnt)[need..] + rest;
  }

  // ---- Byte-aligned input ----

  lemma Aligned(buf: nat, cnt: nat, rest: seq<Byte>)
    requires cnt < 8
    ensures var bits := LowBits(buf, cnt) + Unpacked(rest);
            |bits| % 8 == cnt && bits[|bits| % 8..] == Unpacked(rest)
            && Unpacked(rest) == LowBits(0, 0) + Unpacked(rest)
  {
    hide LowBits, Unpacked;
  }

  lemma TakeOneByte(bytes: seq<Byte>)
    requires |bytes| > 0
    ensures TakeBits(Unpacked(bytes), 8) == Parsed(bytes[0], Unpacked(bytes[1..]))
  {
    hide LowBits, Unpacked, Value, Pow2;
    UnpackedHead(bytes);
    var bits := LowBits(bytes[0], 8) + Unpacked(bytes[1..]);
    assert bits[..8] == LowBits(bytes[0], 8) && bits[8..] == Unpacked(bytes[1..]);
    Pow2Values();
    ValueOfLowBits(bytes[0], 8);
  }

  lemma {:induction false} TakeWholeBytes(bytes: seq<Byte>, n: nat)
    ensures TakeBytes(Unpacked(bytes), n)
         == if n <= |bytes| then Parsed(bytes[..n], Unpacked(bytes[n..])) else Malformed
    decreases n
  {
    hide Unpacked, TakeBits;
    if n == 0 {
      assert bytes[0..] == bytes;
    } else if |bytes| == 0 {
      assert TakeBits(Unpacked(bytes), 8) == Malformed by { TakeTooMuch(Unpacked(bytes), 8); }
    } else {
      TakeOneByte(bytes);
      TakeWholeBytes(bytes[1..], n - 1);
      if n <= |bytes| {
        assert bytes[..n] == [bytes[0]] + bytes[1..][..n - 1];
        assert bytes[1..][n - 1..] == bytes[n..];
      }
    }
  }

  lemma TakeTooMuch(bits: Bits, n: nat)
    requires |bits| < n
    ensures TakeBits(bits, n) == Malformed
  {}

  /** A little-endian sixteen-bit word. */
  function Word(low: nat, high: nat): nat {
    low + high * 256
  }

  lemma TwoByteValue(low: Byte, high: Byte)
    ensures Value(LowBits(low, 8) + LowBits(high, 8)) == Word(low, high)
  {
    hide LowBits, Value, Pow2;
    Pow2Values();
    ValueOfLowBits(low, 8);
    ValueOfLowBits(high, 8);
    ValueAppend(LowBits(low, 8), LowBits(high, 8));
    ShlTimes(high, 8);
  }

  lemma TakeTwoBytes(bytes: seq<Byte>)
    requires |bytes| >= 2
    ensures TakeBits(Unpacked(bytes), 16) == Parsed(Word(bytes[0], bytes[1]), Unpacked(bytes[2..]))
  {
    hide LowBits, Unpacked, Value, Word;
    UnpackedHead(bytes);
    UnpackedHead(bytes[1..]);
    var lo, hi, rest := LowBits(bytes[0], 8), LowBits(bytes[1], 8), Unpacked(bytes[2..]);
    assert bytes[1..][1..] == bytes[2..];
    assert Unpacked(bytes) == (lo + hi) + rest;
    assert ((lo + hi) + rest)[..16] == lo + hi && ((lo + hi) + rest)[16..] == rest;
    TwoByteValue(bytes[0], bytes[1]);
  }

  lemma StoredHeader(bytes: seq<Byte>)
    ensures var bits := Unpacked(bytes);
            if |bytes| >= 4 then
              && TakeBits(bits, 16) == Parsed(Word(bytes[0], bytes[1]), Unpacked(bytes[2..]))
              && TakeBits(Unpacked(bytes[2..]), 16).Parsed?
              && TakeBits(Unpacked(bytes[2..]), 16).rest == Unpacked(bytes[4..])
            else TakeBits(bits, 16) == Malformed || TakeBits(TakeBits(bits, 16).rest, 16) == Malformed
  {
    hide Unpacked, TakeBits;
    if |bytes| < 2 {
      TakeTooMuch(Unpacked(bytes), 16);
    } else {
      TakeTwoBytes(bytes);
      if |bytes| < 4 {
        TakeTooMuch(Unpacked(bytes[2..]), 16);
      } else {
        TakeTwoBytes(bytes[2..]);
        assert bytes[2..][2..] == bytes[4..];
      }
    }
  }

  /** Decompresses a raw stream; `ok` is false on a format error. */
  method Decompress(data: seq<Byte>) returns (ok: bool, out: seq<Byte>)
    ensures match Inflated(data)
            case Malformed => !ok
            case Parsed(value, _) => ok && out == value
  {
    hide ReadBlocks, LowBits, Unpacked;
    var inflater := new Inflater(data);
    ok := inflater.Blocks();
    out := if ok then inflater.outV else [];
  }
}
