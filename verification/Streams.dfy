/** Compressed streams as RFC 1951 describes them: what a writer may put, and that it reads back.

    Blocks of all three types are given by their parts: the code lengths and their run-length form,
    literals and copies, stored bytes.  Nothing here is in terms of the reference decoder. */
module Streams {
  import opened BitOps
  import opened Huffman
  import opened DeflateFormat
  import opened FixedCode
  import Inflate

  // ---- Lengths and distances ----

  /** The extra bits of a length symbol: none for the first eight, then one more with every four. */
  function LenExtra(s: nat): nat {
    if s < 8 || s == 28 then 0 else s / 4 - 1
  }

  /** The first length of a length symbol; the last symbol stands for 258 alone. */
  function LenBase(s: nat): nat {
    if s == 28 then 258 else if s < 8 then 3 + s else 3 + (4 + s % 4) * Pow2(s / 4 - 1)
  }

  function DistExtra(s: nat): nat {
    if s < 4 then 0 else s / 2 - 1
  }

  function DistBase(s: nat): (d: nat)
    ensures d >= 1
  {
    if s < 4 then 1 + s else 1 + (2 + s % 2) * Pow2(s / 2 - 1)
  }

  lemma LengthTable(s: nat)
    requires s <= 28
    ensures LEN_EXTRA[s] == LenExtra(s) && LEN_BASE[s] == LenBase(s)
  {
    hide Pow2;
    LowPowers();
  }

  lemma DistanceTable(s: nat)
    requires s <= 29
    ensures DIST_EXTRA[s] == DistExtra(s) && DIST_BASE[s] == DistBase(s)
  {
    hide Pow2;
    LowPowers();
    if s < 16 {
    } else {
      HighPowers();
    }
  }

  lemma LowPowers()
    ensures Pow2(0) == 1 && Pow2(1) == 2 && Pow2(2) == 4 && Pow2(3) == 8 && Pow2(4) == 16 && Pow2(5) == 32
    ensures Pow2(6) == 64
  {}

  lemma HighPowers()
    ensures Pow2(7) == 128 && Pow2(8) == 256 && Pow2(9) == 512 && Pow2(10) == 1024 && Pow2(11) == 2048
    ensures Pow2(12) == 4096 && Pow2(13) == 8192
  {}

  // ---- Literals and copies ----

  /** A literal, or a copy given by its length and distance symbols with their extra bits. */
  datatype Item = Literal(b: Byte) | Copy(lenSym: nat, lenExtra: nat, distSym: nat, distExtra: nat)

  predicate IsSymbol(code: seq<nat>, s: nat) {
    s < |code| && code[s] != 0
  }

  /** The item has codes, and its copy starts in what was put out. */
  ghost predicate IsItem(lit: seq<nat>, dist: seq<nat>, item: Item, out: seq<Byte>) {
    match item
    case Literal(b) => IsSymbol(lit, b)
    case Copy(ls, le, ds, de) =>
      && ls <= 28 && IsSymbol(lit, 257 + ls) && le < Pow2(LenExtra(ls))
      && ds <= 29 && IsSymbol(dist, ds) && de < Pow2(DistExtra(ds))
      && DistBase(ds) + de <= |out|
  }

  ghost function Put(lit: seq<nat>, dist: seq<nat>, item: Item, out: seq<Byte>): seq<Byte>
    requires IsItem(lit, dist, item, out)
  {
    match item
    case Literal(b) => out + [b]
    case Copy(ls, le, ds, de) => CopyMatch(out, DistBase(ds) + de, LenBase(ls) + le)
  }

  /** Every byte of a copy is the one that many bytes before it. */
  lemma {:induction false} CopyIs(out: seq<Byte>, dist: nat, n: nat)
    requires 1 <= dist <= |out|
    ensures var r := CopyMatch(out, dist, n);
            out <= r && forall i :: |out| <= i < |r| ==> r[i] == r[i - dist]
    decreases n
  {
    if n > 0 {
      var next := out + [out[|out| - dist]];
      CopyIs(next, dist, n - 1);
      var r := CopyMatch(out, dist, n);
      assert r[|out|] == next[|out|] && r[|out| - dist] == next[|out| - dist];
    }
  }

  ghost predicate AreItems(lit: seq<nat>, dist: seq<nat>, items: seq<Item>, out: seq<Byte>)
    decreases |items|
  {
    |items| > 0 ==> IsItem(lit, dist, items[0], out)
                    && AreItems(lit, dist, items[1..], Put(lit, dist, items[0], out))
  }

  ghost function PutAll(lit: seq<nat>, dist: seq<nat>, items: seq<Item>, out: seq<Byte>): seq<Byte>
    requires AreItems(lit, dist, items, out)
    decreases |items|
  {
    if |items| == 0 then out else PutAll(lit, dist, items[1..], Put(lit, dist, items[0], out))
  }

  ghost function ItemBits(lit: seq<nat>, dist: seq<nat>, item: Item, out: seq<Byte>): Bits
    requires IsItem(lit, dist, item, out)
  {
    match item
    case Literal(b) => Encoded(lit, b)
    case Copy(ls, le, ds, de) =>
      Encoded(lit, 257 + ls)
        + (LowBits(le, LenExtra(ls)) + (Encoded(dist, ds) + LowBits(de, DistExtra(ds))))
  }

  /** The items, and the end of the block. */
  ghost function ItemsBits(lit: seq<nat>, dist: seq<nat>, items: seq<Item>, out: seq<Byte>): Bits
    requires AreItems(lit, dist, items, out) && |lit| > 256
    decreases |items|
  {
    if |items| == 0 then Encoded(lit, 256)
    else ItemBits(lit, dist, items[0], out)
         + ItemsBits(lit, dist, items[1..], Put(lit, dist, items[0], out))
  }

  ghost predicate IsCodePair(lit: seq<nat>, dist: seq<nat>) {
    && IsCode(lit) && NotOversubscribed(lit) && IsCode(dist) && NotOversubscribed(dist)
    && IsSymbol(lit, 256)
  }

  lemma TakesBits(v: nat, n: nat, rest: Bits)
    requires v < Pow2(n)
    ensures TakeBits(LowBits(v, n) + rest, n) == Parsed(v, rest)
  {
    hide LowBits, Value, Pow2;
    ValueOfLowBits(v, n);
    assert (LowBits(v, n) + rest)[..n] == LowBits(v, n) && (LowBits(v, n) + rest)[n..] == rest;
  }

  lemma TakesExtended(base: seq<nat>, extra: seq<nat>, s: nat, v: nat, rest: Bits)
    requires |base| == |extra| && s < |base| && v < Pow2(extra[s])
    ensures TakeExtended(LowBits(v, extra[s]) + rest, base, extra, s) == Parsed(base[s] + v, rest)
  {
    hide LowBits, Pow2, TakeBits;
    TakesBits(v, extra[s], rest);
  }

  /** The length of a copy, and its distance, as they are read. */
  function TakeLength(bits: Bits, ls: nat): Parse<nat>
    requires ls <= 28
  {
    TakeExtended(bits, LEN_BASE, LEN_EXTRA, ls)
  }

  function TakeDistance(bits: Bits, ds: nat): Parse<nat>
    requires ds <= 29
  {
    TakeExtended(bits, DIST_BASE, DIST_EXTRA, ds)
  }

  lemma LengthTaken(ls: nat, le: nat, rest: Bits)
    requires ls <= 28 && le < Pow2(LenExtra(ls))
    ensures TakeLength(LowBits(le, LenExtra(ls)) + rest, ls) == Parsed(LenBase(ls) + le, rest)
  {
    hide LowBits, Pow2, TakeExtended, LenExtra, LenBase;
    LengthTable(ls);
    TakesExtended(LEN_BASE, LEN_EXTRA, ls, le, rest);
  }

  lemma DistanceTaken(ds: nat, de: nat, rest: Bits)
    requires ds <= 29 && de < Pow2(DistExtra(ds))
    ensures TakeDistance(LowBits(de, DistExtra(ds)) + rest, ds) == Parsed(DistBase(ds) + de, rest)
  {
    hide LowBits, Pow2, TakeExtended, DistExtra, DistBase;
    DistanceTable(ds);
    TakesExtended(DIST_BASE, DIST_EXTRA, ds, de, rest);
  }

  lemma MatchIs(dist: seq<nat>, ls: nat, bits: Bits, out: seq<Byte>, len: nat, r1: Bits, ds: nat, r2: Bits, d: nat,
                r3: Bits)
    requires ls <= 28 && TakeLength(bits, ls) == Parsed(len, r1)
    requires ds <= 29 && DecodeSymbol(dist, r1) == Parsed(ds, r2)
    requires TakeDistance(r2, ds) == Parsed(d, r3) && 1 <= d <= |out|
    ensures ReadMatch(dist, ls, bits, out) == Parsed(CopyMatch(out, d, len), r3)
  {
    hide TakeExtended, DecodeSymbol, CopyMatch;
  }

  lemma CopyDecodes(dist: seq<nat>, ls: nat, le: nat, ds: nat, de: nat, out: seq<Byte>, rest: Bits)
    requires IsCode(dist) && NotOversubscribed(dist) && ls <= 28 && le < Pow2(LenExtra(ls))
    requires ds <= 29 && IsSymbol(dist, ds) && de < Pow2(DistExtra(ds)) && DistBase(ds) + de <= |out|
    ensures ReadMatch(dist, ls, LowBits(le, LenExtra(ls)) + (Encoded(dist, ds) + (LowBits(de, DistExtra(ds)) + rest)),
                      out)
         == Parsed(CopyMatch(out, DistBase(ds) + de, LenBase(ls) + le), rest)
  {
    hide LowBits, Pow2, TakeLength, TakeDistance, DecodeSymbol, CopyMatch, Encoded, NotOversubscribed, ReadMatch,
         LenExtra, LenBase, DistExtra, DistBase;
    var r2 := LowBits(de, DistExtra(ds)) + rest;
    var r1 := Encoded(dist, ds) + r2;
    LengthTaken(ls, le, r1);
    DecodeRecovers(dist, ds, r2);
    DistanceTaken(ds, de, rest);
    MatchIs(dist, ls, LowBits(le, LenExtra(ls)) + r1, out, LenBase(ls) + le, r1, ds, r2, DistBase(ds) + de, rest);
  }

  lemma ItemDecodes(lit: seq<nat>, dist: seq<nat>, item: Item, out: seq<Byte>, rest: Bits)
    requires IsCodePair(lit, dist) && IsItem(lit, dist, item, out)
    ensures ReadSymbols(lit, dist, ItemBits(lit, dist, item, out) + rest, out)
         == ReadSymbols(lit, dist, rest, Put(lit, dist, item, out))
  {
    hide DecodeSymbol, ReadMatch, Encoded, CopyMatch, LowBits, Pow2, NotOversubscribed, LenExtra, LenBase, DistExtra,
         DistBase;
    match item
    case Literal(b) => DecodeRecovers(lit, b, rest);
    case Copy(ls, le, ds, de) =>
      var tail := LowBits(le, LenExtra(ls)) + (Encoded(dist, ds) + (LowBits(de, DistExtra(ds)) + rest));
      assert ItemBits(lit, dist, item, out) + rest == Encoded(lit, 257 + ls) + tail;
      DecodeRecovers(lit, 257 + ls, tail);
      CopyDecodes(dist, ls, le, ds, de, out, rest);
  }

  /** What was written with any two codes that are not over-subscribed is read back. */
  lemma {:induction false} ItemsDecode(lit: seq<nat>, dist: seq<nat>, items: seq<Item>, out: seq<Byte>, rest: Bits)
    requires IsCodePair(lit, dist) && AreItems(lit, dist, items, out)
    ensures ReadSymbols(lit, dist, ItemsBits(lit, dist, items, out) + rest, out)
         == Parsed(PutAll(lit, dist, items, out), rest)
    decreases |items|
  {
    hide DecodeSymbol, ReadMatch, Encoded, ItemBits, Put, NotOversubscribed;
    if |items| == 0 {
      DecodeRecovers(lit, 256, rest);
    } else {
      hide ReadSymbols;
      var out' := Put(lit, dist, items[0], out);
      var tail := ItemsBits(lit, dist, items[1..], out') + rest;
      assert ItemsBits(lit, dist, items, out) + rest == ItemBits(lit, dist, items[0], out) + tail;
      ItemDecodes(lit, dist, items[0], out, tail);
      ItemsDecode(lit, dist, items[1..], out', rest);
    }
  }

  // ---- Code lengths and their run-length form ----

  /** A code length, a repeat of the last one, or a run of zeros in one of two sizes. */
  datatype Run = Plain(length: nat) | Again(n: nat) | Zeros(n: nat) | ManyZeros(n: nat)

  /** The symbol of a run in the code of code lengths. */
  function RunSymbol(run: Run): nat {
    match run
    case Plain(length) => length
    case Again(_) => 16
    case Zeros(_) => 17
    case ManyZeros(_) => 18
  }

  ghost predicate IsRun(cl: seq<nat>, run: Run, sofar: seq<nat>) {
    && IsSymbol(cl, RunSymbol(run))
    && match run
       case Plain(length) => length <= 15
       case Again(n) => 3 <= n <= 6 && |sofar| > 0
       case Zeros(n) => 3 <= n <= 10
       case ManyZeros(n) => 11 <= n <= 138
  }

  ghost function Spread(cl: seq<nat>, run: Run, sofar: seq<nat>): seq<nat>
    requires IsRun(cl, run, sofar)
  {
    match run
    case Plain(length) => sofar + [length]
    case Again(n) => sofar + seq(n, _ => sofar[|sofar| - 1])
    case Zeros(n) => sofar + seq(n, _ => 0)
    case ManyZeros(n) => sofar + seq(n, _ => 0)
  }

  ghost predicate AreRuns(cl: seq<nat>, runs: seq<Run>, sofar: seq<nat>)
    decreases |runs|
  {
    |runs| > 0 ==> IsRun(cl, runs[0], sofar) && AreRuns(cl, runs[1..], Spread(cl, runs[0], sofar))
  }

  /** The code lengths that the runs stand for. */
  ghost function SpreadAll(cl: seq<nat>, runs: seq<Run>, sofar: seq<nat>): (r: seq<nat>)
    requires AreRuns(cl, runs, sofar)
    ensures |r| >= |sofar| + |runs|
    decreases |runs|
  {
    if |runs| == 0 then sofar else SpreadAll(cl, runs[1..], Spread(cl, runs[0], sofar))
  }

  /** What follows the symbol of a run: how many lengths it stands for, in as many bits as it takes. */
  ghost function CountBits(cl: seq<nat>, run: Run, sofar: seq<nat>): Bits
    requires IsRun(cl, run, sofar)
  {
    match run
    case Plain(_) => []
    case Again(n) => LowBits(n - 3, 2)
    case Zeros(n) => LowBits(n - 3, 3)
    case ManyZeros(n) => LowBits(n - 11, 7)
  }

  ghost function RunBits(cl: seq<nat>, run: Run, sofar: seq<nat>): Bits
    requires IsRun(cl, run, sofar)
  {
    Encoded(cl, RunSymbol(run)) + CountBits(cl, run, sofar)
  }

  ghost function RunsBits(cl: seq<nat>, runs: seq<Run>, sofar: seq<nat>): Bits
    requires AreRuns(cl, runs, sofar)
    decreases |runs|
  {
    if |runs| == 0 then []
    else RunBits(cl, runs[0], sofar) + RunsBits(cl, runs[1..], Spread(cl, runs[0], sofar))
  }

  ghost predicate IsLengthCode(cl: seq<nat>) {
    |cl| == 19 && IsCode(cl) && NotOversubscribed(cl)
  }

  lemma CountTaken(cl: seq<nat>, run: Run, sofar: seq<nat>, rest: Bits)
    requires IsRun(cl, run, sofar) && !run.Plain?
    ensures ReadRun(RunSymbol(run), CountBits(cl, run, sofar) + rest) == Parsed(run.n, rest)
  {
    hide LowBits, TakeBits, Pow2;
    LowPowers();
    HighPowers();
    match run
    case Again(n) => TakesBits(n - 3, 2, rest);
    case Zeros(n) => TakesBits(n - 3, 3, rest);
    case ManyZeros(n) => TakesBits(n - 11, 7, rest);
  }

  lemma SpreadIsCode(cl: seq<nat>, run: Run, sofar: seq<nat>)
    requires IsRun(cl, run, sofar) && IsCode(sofar) && |Spread(cl, run, sofar)| <= MAX_SYMBOLS
    ensures IsCode(Spread(cl, run, sofar))
    ensures !run.Plain? ==>
              Spread(cl, run, sofar) == sofar + Repeat(if run.Again? then sofar[|sofar| - 1] else 0, run.n)
  {}

  lemma PlainDecodes(cl: seq<nat>, run: Run, total: nat, sofar: seq<nat>, rest: Bits)
    requires IsLengthCode(cl) && IsRun(cl, run, sofar) && IsCode(sofar) && run.Plain? && |sofar| < total <= MAX_SYMBOLS
    ensures IsCode(Spread(cl, run, sofar))
    ensures ReadLengths(cl, total, RunBits(cl, run, sofar) + rest, sofar)
         == ReadLengths(cl, total, rest, Spread(cl, run, sofar))
  {
    hide DecodeSymbol, Encoded, NotOversubscribed, ReadRun;
    DecodeRecovers(cl, run.length, rest);
    assert RunBits(cl, run, sofar) + rest == Encoded(cl, run.length) + rest;
  }

  lemma LongDecodes(cl: seq<nat>, run: Run, total: nat, sofar: seq<nat>, rest: Bits)
    requires IsLengthCode(cl) && IsRun(cl, run, sofar) && IsCode(sofar) && !run.Plain?
    requires |Spread(cl, run, sofar)| <= total <= MAX_SYMBOLS
    ensures IsCode(Spread(cl, run, sofar))
    ensures ReadLengths(cl, total, RunBits(cl, run, sofar) + rest, sofar)
         == ReadLengths(cl, total, rest, Spread(cl, run, sofar))
  {
    hide DecodeSymbol, Encoded, NotOversubscribed, ReadRun, CountBits, Repeat;
    var tail := CountBits(cl, run, sofar) + rest;
    assert RunBits(cl, run, sofar) + rest == Encoded(cl, RunSymbol(run)) + tail;
    SpreadIsCode(cl, run, sofar);
    DecodeRecovers(cl, RunSymbol(run), tail);
    CountTaken(cl, run, sofar, rest);
  }

  lemma RunDecodes(cl: seq<nat>, run: Run, total: nat, sofar: seq<nat>, rest: Bits)
    requires IsLengthCode(cl) && IsRun(cl, run, sofar) && IsCode(sofar)
    requires |Spread(cl, run, sofar)| <= total <= MAX_SYMBOLS
    ensures IsCode(Spread(cl, run, sofar))
    ensures ReadLengths(cl, total, RunBits(cl, run, sofar) + rest, sofar)
         == ReadLengths(cl, total, rest, Spread(cl, run, sofar))
  {
    hide RunBits, NotOversubscribed, ReadLengths, IsCode;
    if run.Plain? {
      PlainDecodes(cl, run, total, sofar, rest);
    } else {
      LongDecodes(cl, run, total, sofar, rest);
    }
  }

  /** Every run-length form of code lengths reads back as those lengths. */
  lemma {:induction false} RunsDecode(cl: seq<nat>, runs: seq<Run>, sofar: seq<nat>, rest: Bits)
    requires IsLengthCode(cl) && AreRuns(cl, runs, sofar) && IsCode(sofar)
    requires |SpreadAll(cl, runs, sofar)| <= MAX_SYMBOLS
    ensures IsCode(SpreadAll(cl, runs, sofar))
    ensures ReadLengths(cl, |SpreadAll(cl, runs, sofar)|, RunsBits(cl, runs, sofar) + rest, sofar)
         == Parsed(SpreadAll(cl, runs, sofar), rest)
    decreases |runs|
  {
    hide RunBits, Spread, NotOversubscribed, DecodeSymbol, ReadRun;
    var total := |SpreadAll(cl, runs, sofar)|;
    if |runs| == 0 {
      assert RunsBits(cl, runs, sofar) + rest == rest;
    } else {
      hide ReadLengths;
      var next := Spread(cl, runs[0], sofar);
      var tail := RunsBits(cl, runs[1..], next) + rest;
      assert RunsBits(cl, runs, sofar) + rest == RunBits(cl, runs[0], sofar) + tail;
      RunDecodes(cl, runs[0], total, sofar, tail);
      RunsDecode(cl, runs[1..], next, rest);
    }
  }

  // ---- The code of code lengths ----

  /** The symbol whose length is sent at place `i`: the three runs, zero, and then from the middle out. */
  function SentAt(i: nat): (s: nat)
    requires i < 19
    ensures s < 19
  {
    if i < 3 then 16 + i else if i == 3 then 0 else if i % 2 == 0 then 6 + i / 2 else 9 - i / 2
  }

  /** Where the length of a symbol is sent. */
  function PlaceOf(s: nat): (i: nat)
    requires s < 19
    ensures i < 19 && SentAt(i) == s
  {
    if s >= 16 then s - 16 else if s == 0 then 3 else if s >= 8 then 2 * (s - 6) else 2 * (9 - s) + 1
  }

  lemma OrderIs(i: nat)
    requires i < 19
    ensures CODE_LENGTH_ORDER[i] == SentAt(i)
  {}

  ghost function LengthsBits(cl: seq<nat>, i: nat, n: nat): Bits
    requires |cl| == 19 && i <= n <= 19
    decreases n - i
  {
    if i == n then [] else LowBits(cl[SentAt(i)], 3) + LengthsBits(cl, i + 1, n)
  }

  /** The lengths at the places from `i` on are still to come. */
  ghost predicate SentBefore(cl: seq<nat>, acc: seq<nat>, i: nat) {
    && |cl| == |acc| == 19
    && forall j :: 0 <= j < 19 ==> acc[SentAt(j)] == if j < i then cl[SentAt(j)] else 0
  }

  lemma SentNext(cl: seq<nat>, acc: seq<nat>, i: nat)
    requires i < 19 && SentBefore(cl, acc, i)
    ensures SentBefore(cl, acc[SentAt(i) := cl[SentAt(i)]], i + 1)
  {
    forall j | 0 <= j < 19 && SentAt(j) == SentAt(i)
      ensures j == i
    {
      assert PlaceOf(SentAt(j)) == PlaceOf(SentAt(i));
      PlaceIs(i);
      PlaceIs(j);
    }
  }

  lemma PlaceIs(i: nat)
    requires i < 19
    ensures PlaceOf(SentAt(i)) == i
  {}

  /** All lengths that are not zero are sent. */
  ghost predicate SentIn(cl: seq<nat>, n: nat)
    requires |cl| == 19
  {
    forall j :: n <= j < 19 ==> cl[SentAt(j)] == 0
  }

  lemma AllSent(cl: seq<nat>, acc: seq<nat>, n: nat)
    requires n <= 19 && SentBefore(cl, acc, n) && SentIn(cl, n)
    ensures acc == cl
  {
    hide SentAt, PlaceOf;
    forall s | 0 <= s < 19
      ensures acc[s] == cl[s]
    {
      var j := PlaceOf(s);
      assert acc[SentAt(j)] == if j < n then cl[SentAt(j)] else 0;
    }
  }

  ghost predicate ShortCode(cl: seq<nat>) {
    |cl| == 19 && forall s :: 0 <= s < 19 ==> cl[s] <= 7
  }

  lemma {:induction false} LengthsDecode(cl: seq<nat>, acc: seq<nat>, i: nat, n: nat, rest: Bits)
    requires ShortCode(cl) && i <= n <= 19 && |acc| == 19 && IsCode(acc) && SentBefore(cl, acc, i) && SentIn(cl, n)
    ensures ReadCodeLengths(LengthsBits(cl, i, n) + rest, i, n, acc) == Parsed(cl, rest)
    decreases n - i
  {
    hide LowBits, TakeBits, SentAt, SentBefore, SentIn, Pow2;
    if i == n {
      assert LengthsBits(cl, i, n) + rest == rest;
      AllSent(cl, acc, n);
    } else {
      var v := cl[SentAt(i)];
      var tail := LengthsBits(cl, i + 1, n) + rest;
      assert LengthsBits(cl, i, n) + rest == LowBits(v, 3) + tail;
      LowPowers();
      TakesBits(v, 3, tail);
      OrderIs(i);
      SentNext(cl, acc, i);
      LengthsDecode(cl, acc[SentAt(i) := v], i + 1, n, rest);
    }
  }

  // ---- Dynamic blocks ----

  /** The code of code lengths with the number of its lengths that are sent, the run-length form of
      the two other codes, and how many lengths the first of them has. */
  datatype Header = Header(cl: seq<nat>, sent: nat, runs: seq<Run>, hlit: nat)

  ghost predicate IsHeader(h: Header) {
    && ShortCode(h.cl) && IsLengthCode(h.cl) && 4 <= h.sent <= 19 && SentIn(h.cl, h.sent) && AreRuns(h.cl, h.runs, [])
    && 257 <= h.hlit <= 288 && h.hlit + 1 <= |SpreadAll(h.cl, h.runs, [])| <= h.hlit + 32
    && IsCodePair(LitOf(h), DistOf(h))
  }

  ghost function LitOf(h: Header): seq<nat>
    requires AreRuns(h.cl, h.runs, []) && h.hlit <= |SpreadAll(h.cl, h.runs, [])|
  {
    SpreadAll(h.cl, h.runs, [])[..h.hlit]
  }

  ghost function DistOf(h: Header): seq<nat>
    requires AreRuns(h.cl, h.runs, []) && h.hlit <= |SpreadAll(h.cl, h.runs, [])|
  {
    SpreadAll(h.cl, h.runs, [])[h.hlit..]
  }

  ghost function HeaderBits(h: Header): Bits
    requires IsHeader(h)
  {
    LowBits(h.hlit - 257, 5)
      + (LowBits(|DistOf(h)| - 1, 5)
         + (LowBits(h.sent - 4, 4) + (LengthsBits(h.cl, 0, h.sent) + RunsBits(h.cl, h.runs, []))))
  }

  lemma NothingSent(cl: seq<nat>)
    requires |cl| == 19
    ensures SentBefore(cl, Repeat(0, 19), 0) && IsCode(Repeat(0, 19))
  {}

  lemma BodyDecodes(h: Header, items: seq<Item>, out: seq<Byte>, rest: Bits)
    requires IsHeader(h) && AreItems(LitOf(h), DistOf(h), items, out)
    ensures ReadDynamicBody(h.hlit, |DistOf(h)|, h.sent,
                            LengthsBits(h.cl, 0, h.sent)
                              + (RunsBits(h.cl, h.runs, []) + (ItemsBits(LitOf(h), DistOf(h), items, out) + rest)), out)
         == Parsed(PutAll(LitOf(h), DistOf(h), items, out), rest)
  {
    hide ReadCodeLengths, ReadLengths, ReadSymbols, LengthsBits, RunsBits, ItemsBits, PutAll, IsCodePair, AreItems,
         NotOversubscribed, SentIn, AreRuns, SpreadAll, SentBefore;
    var all := SpreadAll(h.cl, h.runs, []);
    var r2 := ItemsBits(LitOf(h), DistOf(h), items, out) + rest;
    NothingSent(h.cl);
    LengthsDecode(h.cl, Repeat(0, 19), 0, h.sent, RunsBits(h.cl, h.runs, []) + r2);
    RunsDecode(h.cl, h.runs, [], r2);
    ItemsDecode(LitOf(h), DistOf(h), items, out, rest);
  }

  lemma DynamicDecodes(h: Header, items: seq<Item>, out: seq<Byte>, rest: Bits)
    requires IsHeader(h) && AreItems(LitOf(h), DistOf(h), items, out)
    ensures ReadDynamic(HeaderBits(h) + (ItemsBits(LitOf(h), DistOf(h), items, out) + rest), out)
         == Parsed(PutAll(LitOf(h), DistOf(h), items, out), rest)
  {
    hide TakeBits, LowBits, ReadDynamicBody, LengthsBits, RunsBits, ItemsBits, PutAll, AreItems, SpreadAll, AreRuns,
         IsCodePair, NotOversubscribed, SentIn, Pow2;
    LowPowers();
    var tail := ItemsBits(LitOf(h), DistOf(h), items, out) + rest;
    var body := LengthsBits(h.cl, 0, h.sent) + (RunsBits(h.cl, h.runs, []) + tail);
    var a, b, c := LowBits(h.hlit - 257, 5), LowBits(|DistOf(h)| - 1, 5), LowBits(h.sent - 4, 4);
    assert HeaderBits(h) + tail == a + (b + (c + body));
    TakesBits(h.hlit - 257, 5, b + (c + body));
    TakesBits(|DistOf(h)| - 1, 5, c + body);
    TakesBits(h.sent - 4, 4, body);
    BodyDecodes(h, items, out, rest);
  }

  // ---- Stored blocks ----

  lemma {:induction false} BytesDecode(bytes: seq<Byte>, rest: Bits)
    ensures TakeBytes(Unpacked(bytes) + rest, |bytes|) == Parsed(bytes, rest)
  {
    hide TakeBits, LowBits, Pow2;
    if |bytes| == 0 {
      assert Unpacked(bytes) + rest == rest;
    } else {
      HighPowers();
      var tail := Unpacked(bytes[1..]) + rest;
      assert Unpacked(bytes) + rest == LowBits(bytes[0], 8) + tail;
      TakesBits(bytes[0], 8, tail);
      BytesDecode(bytes[1..], rest);
      assert [bytes[0]] + bytes[1..] == bytes;
    }
  }

  /** The length, its complement and the bytes. */
  function StoredBits(bytes: seq<Byte>): Bits
    requires |bytes| <= 65535
  {
    LowBits(|bytes|, 16) + (LowBits(65535 - |bytes|, 16) + Unpacked(bytes))
  }

  lemma StoredDecodes(bytes: seq<Byte>, padding: Bits, out: seq<Byte>, rest: Bits)
    requires |bytes| <= 65535 && |padding| < 8 && |rest| % 8 == 0
    ensures ReadStored(padding + (StoredBits(bytes) + rest), out) == Parsed(out + bytes, rest)
  {
    hide TakeBits, LowBits, Unpacked, TakeBytes, Pow2;
    Pow2Values();
    var body := StoredBits(bytes) + rest;
    var bits := padding + body;
    var tail := Unpacked(bytes) + rest;
    WholeBytes(|padding|, |bytes|, |rest|);
    assert |body| == 32 + 8 * |bytes| + |rest|;
    assert bits[|padding|..] == body;
    assert body == LowBits(|bytes|, 16) + (LowBits(65535 - |bytes|, 16) + tail);
    TakesBits(|bytes|, 16, LowBits(65535 - |bytes|, 16) + tail);
    TakesBits(65535 - |bytes|, 16, tail);
    BytesDecode(bytes, rest);
  }

  lemma WholeBytes(p: nat, n: nat, r: nat)
    requires p < 8 && r % 8 == 0
    ensures (p + (32 + 8 * n + r)) % 8 == p
  {}

  // ---- Streams ----

  datatype Block = Stored(bytes: seq<Byte>) | Fixed(items: seq<Item>) | Dynamic(header: Header, items: seq<Item>)

  ghost predicate IsBlock(b: Block, out: seq<Byte>) {
    match b
    case Stored(bytes) => |bytes| <= 65535
    case Fixed(items) => AreItems(FixedLengths(), FixedDistances(), items, out)
    case Dynamic(h, items) => IsHeader(h) && AreItems(LitOf(h), DistOf(h), items, out)
  }

  ghost function PutBlock(b: Block, out: seq<Byte>): seq<Byte>
    requires IsBlock(b, out)
  {
    match b
    case Stored(bytes) => out + bytes
    case Fixed(items) => PutAll(FixedLengths(), FixedDistances(), items, out)
    case Dynamic(h, items) => PutAll(LitOf(h), DistOf(h), items, out)
  }

  /** What follows the three header bits of a block that starts `at` bits into the stream; a stored
      block continues at the next byte. */
  ghost function BodyBits(b: Block, out: seq<Byte>, at: nat): Bits
    requires IsBlock(b, out)
  {
    match b
    case Stored(bytes) => seq((8 - (at + 3) % 8) % 8, _ => false) + StoredBits(bytes)
    case Fixed(items) => ItemsBits(FixedLengths(), FixedDistances(), items, out)
    case Dynamic(h, items) => HeaderBits(h) + ItemsBits(LitOf(h), DistOf(h), items, out)
  }

  function TypeBits(b: Block): (t: Bits)
    ensures |t| == 2
  {
    match b
    case Stored(_) => [false, false]
    case Fixed(_) => [true, false]
    case Dynamic(_, _) => [false, true]
  }

  lemma FixedPair()
    ensures IsCodePair(FixedLengths(), FixedDistances())
  {
    FixedNotOversubscribed();
    DistanceCodeIsCanonical(0);
  }

  lemma BlockDecodes(b: Block, out: seq<Byte>, at: nat, rest: Bits)
    requires IsBlock(b, out) && (at + 3 + |BodyBits(b, out, at)| + |rest|) % 8 == 0
    ensures ReadBlock(Value(TypeBits(b)), BodyBits(b, out, at) + rest, out) == Parsed(PutBlock(b, out), rest)
  {
    hide ReadStored, ReadSymbols, ReadDynamic, ItemsBits, HeaderBits, PutAll, AreItems, IsHeader, StoredBits,
         FixedLengths, FixedDistances, LitOf, DistOf;
    TypesAre();
    match b
    case Stored(bytes) =>
      var padding: Bits := seq((8 - (at + 3) % 8) % 8, _ => false);
      StoredSize(bytes);
      Aligned(at + 3, |bytes|, |rest|);
      assert BodyBits(b, out, at) + rest == padding + (StoredBits(bytes) + rest);
      StoredDecodes(bytes, padding, out, rest);
    case Fixed(items) =>
      FixedPair();
      ItemsDecode(FixedLengths(), FixedDistances(), items, out, rest);
    case Dynamic(h, items) =>
      DynamicBody(b, out, at, rest);
      DynamicDecodes(h, items, out, rest);
  }

  lemma DynamicBody(b: Block, out: seq<Byte>, at: nat, rest: Bits)
    requires b.Dynamic? && IsBlock(b, out)
    ensures BodyBits(b, out, at) + rest
         == HeaderBits(b.header) + (ItemsBits(LitOf(b.header), DistOf(b.header), b.items, out) + rest)
  {
    hide HeaderBits, ItemsBits, SpreadAll, AreItems;
  }

  lemma TypesAre()
    ensures Value([false, false]) == 0 && Value([true, false]) == 1 && Value([false, true]) == 2
  {
    assert Value([false]) == 0 && Value([true]) == 1;
  }

  lemma StoredSize(bytes: seq<Byte>)
    requires |bytes| <= 65535
    ensures |StoredBits(bytes)| == 32 + 8 * |bytes|
  {}

  lemma Aligned(p: nat, n: nat, r: nat)
    requires (p + ((8 - p % 8) % 8 + (32 + 8 * n)) + r) % 8 == 0
    ensures r % 8 == 0
  {}

  /** Blocks one after the other. */
  ghost predicate AreBlocks(blocks: seq<Block>, out: seq<Byte>)
    decreases |blocks|
  {
    |blocks| > 0 ==> IsBlock(blocks[0], out) && AreBlocks(blocks[1..], PutBlock(blocks[0], out))
  }

  ghost function PutBlocks(blocks: seq<Block>, out: seq<Byte>): seq<Byte>
    requires AreBlocks(blocks, out)
    decreases |blocks|
  {
    if |blocks| == 0 then out else PutBlocks(blocks[1..], PutBlock(blocks[0], out))
  }

  /** The bits of the blocks, the last of them marked as such. */
  ghost function StreamBits(blocks: seq<Block>, out: seq<Byte>, at: nat): Bits
    requires AreBlocks(blocks, out)
    decreases |blocks|
  {
    if |blocks| == 0 then []
    else
      var bits := [|blocks| == 1] + TypeBits(blocks[0]) + BodyBits(blocks[0], out, at);
      bits + StreamBits(blocks[1..], PutBlock(blocks[0], out), at + |bits|)
  }

  lemma {:induction false} BlocksDecode(blocks: seq<Block>, out: seq<Byte>, at: nat, rest: Bits)
    requires |blocks| > 0 && AreBlocks(blocks, out) && (at + |StreamBits(blocks, out, at)| + |rest|) % 8 == 0
    ensures ReadBlocks(StreamBits(blocks, out, at) + rest, out) == Parsed(PutBlocks(blocks, out), rest)
    decreases |blocks|
  {
    hide ReadBlock, BodyBits, PutBlock, TypeBits, IsBlock;
    var b, last := blocks[0], |blocks| == 1;
    var body, out' := BodyBits(b, out, at), PutBlock(b, out);
    var bits := [last] + TypeBits(b) + body;
    var tail := StreamBits(blocks[1..], out', at + |bits|) + rest;
    var all := StreamBits(blocks, out, at) + rest;
    assert all == [last] + (TypeBits(b) + (body + tail));
    OneBit(last, TypeBits(b) + (body + tail));
    TwoBits(TypeBits(b), body + tail);
    BlockDecodes(b, out, at, tail);
    if last {
      assert tail == rest;
    } else {
      BlocksDecode(blocks[1..], out', at + |bits|, rest);
    }
  }

  lemma OneBit(b: bool, rest: Bits)
    ensures TakeBits([b] + rest, 1) == Parsed(if b then 1 else 0, rest)
  {
    assert ([b] + rest)[..1] == [b] && ([b] + rest)[1..] == rest;
    assert Value([b]) == if b then 1 else 0;
  }

  lemma TwoBits(t: Bits, rest: Bits)
    requires |t| == 2
    ensures TakeBits(t + rest, 2) == Parsed(Value(t), rest)
  {
    hide Value;
    assert (t + rest)[..2] == t && (t + rest)[2..] == rest;
  }

  /** A byte string that starts with the bits of some blocks decompresses to what they put out:
      stored, fixed and dynamic blocks in any order, with any codes that are not over-subscribed. */
  lemma StreamDecodes(data: seq<Byte>, blocks: seq<Block>)
    requires |blocks| > 0 && AreBlocks(blocks, []) && StreamBits(blocks, [], 0) <= Unpacked(data)
    ensures Inflated(data).Parsed? && Inflated(data).value == PutBlocks(blocks, [])
  {
    hide Unpacked, StreamBits, PutBlocks, ReadBlocks, AreBlocks;
    var bits, all := StreamBits(blocks, [], 0), Unpacked(data);
    var rest := all[|bits|..];
    assert all == bits + rest && |all| == 8 * |data|;
    BlocksDecode(blocks, [], 0, rest);
  }

  /** And so the decompressor puts it out. */
  method DecompressStream(data: seq<Byte>, ghost blocks: seq<Block>) returns (ok: bool, out: seq<Byte>)
    requires |blocks| > 0 && AreBlocks(blocks, []) && StreamBits(blocks, [], 0) <= Unpacked(data)
    ensures ok && out == PutBlocks(blocks, [])
  {
    hide Unpacked, StreamBits, PutBlocks, Inflated, AreBlocks;
    StreamDecodes(data, blocks);
    ok, out := Inflate.Decompress(data);
  }
}
