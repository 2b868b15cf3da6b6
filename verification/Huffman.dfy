/** Canonical Huffman codes (section 3.2.2 of RFC 1951) and the table-driven decoder.

    A code is given by its vector of code lengths.  `CodeOf` is the canonical assignment of the
    RFC; `DecodeSymbol` is what the count/first/index walk of the decoder computes.  `DecodeExact`
    shows that the walk recognises exactly the canonical codes. */
module Huffman {
  import opened BitOps

  const MAX_LENGTH := 15
  const MAX_SYMBOLS := 320

  /** A vector of code lengths; zero means the symbol has no code. */
  ghost predicate IsCode(lengths: seq<nat>) {
    |lengths| <= MAX_SYMBOLS && forall s :: 0 <= s < |lengths| ==> lengths[s] <= MAX_LENGTH
  }

  /** The symbols with code length `l`, in increasing order. */
  function OfLength(lengths: seq<nat>, l: nat): (syms: seq<nat>)
    ensures |syms| <= |lengths|
    ensures forall i :: 0 <= i < |syms| ==> syms[i] < |lengths| && lengths[syms[i]] == l
  {
    if |lengths| == 0 then []
    else
      var last := |lengths| - 1;
      OfLength(lengths[..last], l) + if lengths[last] == l then [last] else []
  }

  function Count(lengths: seq<nat>, l: nat): nat {
    |OfLength(lengths, l)|
  }

  /** All symbols with code lengths 1 to `l`, ordered by length and then by symbol. */
  function Sorted(lengths: seq<nat>, l: nat): seq<nat> {
    if l == 0 then [] else Sorted(lengths, l - 1) + OfLength(lengths, l)
  }

  /** The first code of length `l`. */
  function First(lengths: seq<nat>, l: nat): nat {
    if l <= 1 then 0 else 2 * (First(lengths, l - 1) + Count(lengths, l - 1))
  }

  /** The canonical code of symbol `s`. */
  function CodeOf(lengths: seq<nat>, s: nat): nat
    requires s < |lengths|
  {
    First(lengths, lengths[s]) + Count(lengths[..s], lengths[s])
  }

  /** The code as it appears in the stream. */
  function Encoded(lengths: seq<nat>, s: nat): (bits: Bits)
    requires s < |lengths|
    ensures |bits| == lengths[s]
  {
    CodeBits(CodeOf(lengths, s), lengths[s])
  }

  /** No length has more codes than fit in that many bits. */
  ghost predicate NotOversubscribed(lengths: seq<nat>) {
    forall l :: 1 <= l <= MAX_LENGTH ==> First(lengths, l) + Count(lengths, l) <= Pow2(l)
  }

  datatype Parse<T> = Malformed | Parsed(value: T, rest: Bits) {
    predicate IsFailure() {
      Malformed?
    }

    function PropagateFailure<U>(): Parse<U>
      requires Malformed?
    {
      Malformed
    }

    function Extract(): (T, Bits)
      requires Parsed?
    {
      (value, rest)
    }
  }

  /** The decoder's walk, from the point where `len - 1` bits have been read. */
  function DecodeFrom(lengths: seq<nat>, bits: Bits, len: nat, code: nat, first: nat, index: nat): (p: Parse<nat>)
    requires 1 <= len
    ensures p.Parsed? ==> |p.rest| < |bits|
    decreases MAX_LENGTH + 1 - len, |bits|
  {
    if len > MAX_LENGTH || |bits| == 0 then Malformed
    else
      var code' := code + BitValue(bits[0]);
      var cnt := Count(lengths, len);
      if code' - cnt < first then
        var i := index + (code' - first);
        if 0 <= i < |Sorted(lengths, MAX_LENGTH)| then Parsed(Sorted(lengths, MAX_LENGTH)[i], bits[1..]) else Malformed
      else
        DecodeFrom(lengths, bits[1..], len + 1, 2 * code', 2 * (first + cnt), index + cnt)
  }

  function DecodeSymbol(lengths: seq<nat>, bits: Bits): (p: Parse<nat>)
    ensures p.Parsed? ==> |p.rest| < |bits|
  {
    DecodeFrom(lengths, bits, 1, 0, 0, 0)
  }

  // ---- Ranks and order ----

  lemma {:induction false} RankOf(lengths: seq<nat>, s: nat)
    requires s < |lengths|
    ensures Count(lengths[..s], lengths[s]) < Count(lengths, lengths[s])
    ensures OfLength(lengths, lengths[s])[Count(lengths[..s], lengths[s])] == s
  {
    var l, last := lengths[s], |lengths| - 1;
    if s == last {
      assert lengths[..s] == lengths[..last];
    } else {
      RankOf(lengths[..last], s);
      assert lengths[..last][..s] == lengths[..s];
    }
  }

  lemma {:induction false} SymbolOfRank(lengths: seq<nat>, l: nat, r: nat)
    requires r < Count(lengths, l)
    ensures var s := OfLength(lengths, l)[r];
            s < |lengths| && lengths[s] == l && Count(lengths[..s], l) == r
  {
    var last := |lengths| - 1;
    var shorter := lengths[..last];
    if r < Count(shorter, l) {
      SymbolOfRank(shorter, l, r);
      var s := OfLength(shorter, l)[r];
      assert shorter[..s] == lengths[..s];
    }
  }

  lemma {:induction false} SortedPrefix(lengths: seq<nat>, l: nat, l': nat)
    requires l <= l'
    ensures Sorted(lengths, l) <= Sorted(lengths, l')
    decreases l'
  {
    hide OfLength;
    if l < l' {
      SortedPrefix(lengths, l, l' - 1);
    }
  }

  lemma SortedAt(lengths: seq<nat>, l: nat, r: nat)
    requires 1 <= l <= MAX_LENGTH && r < Count(lengths, l)
    ensures |Sorted(lengths, l - 1)| + r < |Sorted(lengths, MAX_LENGTH)|
    ensures Sorted(lengths, MAX_LENGTH)[|Sorted(lengths, l - 1)| + r] == OfLength(lengths, l)[r]
  {
    hide OfLength;
    SortedPrefix(lengths, l, MAX_LENGTH);
    assert Sorted(lengths, l) == Sorted(lengths, l - 1) + OfLength(lengths, l);
    hide Sorted;
    assert Sorted(lengths, l)[|Sorted(lengths, l - 1)| + r] == OfLength(lengths, l)[r];
  }

  // ---- The walk recognises exactly the canonical codes ----

  /** Below its own length, a code lies past every shorter code. */
  lemma {:induction false} PrefixIsPast(lengths: seq<nat>, s: nat, len: nat)
    requires s < |lengths| && 1 <= len < lengths[s]
    ensures Shr(CodeOf(lengths, s), lengths[s] - len) >= First(lengths, len) + Count(lengths, len)
    decreases lengths[s] - len
  {
    hide Count;
    if len + 1 < lengths[s] {
      PrefixIsPast(lengths, s, len + 1);
    }
  }

  lemma WalkOn(lengths: seq<nat>, bits: Bits, len: nat, t: nat, c: nat)
    requires 1 <= len <= MAX_LENGTH && |bits| > 0 && c == 2 * t + BitValue(bits[0])
    requires c >= First(lengths, len) + Count(lengths, len)
    ensures DecodeFrom(lengths, bits, len, 2 * t, First(lengths, len), |Sorted(lengths, len - 1)|)
         == DecodeFrom(lengths, bits[1..], len + 1, 2 * c, First(lengths, len + 1), |Sorted(lengths, len)|)
  {
    hide OfLength;
    SortedGrows(lengths, len);
    hide Sorted;
  }

  lemma WalkEnds(lengths: seq<nat>, bits: Bits, len: nat, t: nat, r: nat)
    requires 1 <= len <= MAX_LENGTH && |bits| > 0 && r < Count(lengths, len)
    requires First(lengths, len) + r == 2 * t + BitValue(bits[0])
    ensures DecodeFrom(lengths, bits, len, 2 * t, First(lengths, len), |Sorted(lengths, len - 1)|)
         == Parsed(OfLength(lengths, len)[r], bits[1..])
  {
    hide OfLength;
    SortedAt(lengths, len, r);
    hide Sorted;
  }

  lemma CodeBitsHead(c: nat, m: nat, rest: Bits)
    requires m > 0
    ensures var bits := CodeBits(c, m) + rest;
            |bits| > 0 && bits[1..] == CodeBits(c, m - 1) + rest
            && 2 * Shr(c, m) + BitValue(bits[0]) == Shr(c, m - 1)
  {
    var bits := CodeBits(c, m) + rest;
    assert bits == [Shr(c, m - 1) % 2 == 1] + (CodeBits(c, m - 1) + rest);
  }

  /** Completeness of the walk from any intermediate point. */
  lemma {:induction false} DecodeRecoversFrom(lengths: seq<nat>, s: nat, rest: Bits, len: nat)
    requires s < |lengths| && 1 <= len <= lengths[s] <= MAX_LENGTH
    ensures var c, m := CodeOf(lengths, s), lengths[s] - len + 1;
            DecodeFrom(lengths, CodeBits(c, m) + rest, len, 2 * Shr(c, m), First(lengths, len),
                       |Sorted(lengths, len - 1)|)
            == Parsed(s, rest)
    decreases lengths[s] - len
  {
    hide OfLength, Sorted, DecodeFrom, First;
    var l, c, m := lengths[s], CodeOf(lengths, s), lengths[s] - len + 1;
    CodeBitsHead(c, m, rest);
    if len < l {
      hide CodeBits, Shr, CodeOf;
      PrefixIsPast(lengths, s, len);
      DecodeRecoversFrom(lengths, s, rest, len + 1);
      WalkOn(lengths, CodeBits(c, m) + rest, len, Shr(c, m), Shr(c, m - 1));
    } else {
      RankOf(lengths, s);
      WalkEnds(lengths, CodeBits(c, m) + rest, len, Shr(c, m), Count(lengths[..s], l));
      assert CodeBits(c, 0) + rest == rest;
    }
  }

  lemma SortedGrows(lengths: seq<nat>, len: nat)
    requires 1 <= len
    ensures |Sorted(lengths, len)| == |Sorted(lengths, len - 1)| + Count(lengths, len)
  {}

  lemma DecodeRecovers(lengths: seq<nat>, s: nat, rest: Bits)
    requires IsCode(lengths) && NotOversubscribed(lengths) && s < |lengths| && lengths[s] != 0
    ensures DecodeSymbol(lengths, Encoded(lengths, s) + rest) == Parsed(s, rest)
  {
    hide OfLength;
    RankOf(lengths, s);
    ShrBound(CodeOf(lengths, s), lengths[s], lengths[s]);
    hide DecodeFrom, Count;
    DecodeRecoversFrom(lengths, s, rest, 1);
  }

  /** `bits` continues the code of `s` from the point where its leading bits spell `t`. */
  ghost predicate Continues(lengths: seq<nat>, bits: Bits, len: nat, t: nat, s: nat, rest: Bits)
    requires 1 <= len
  {
    && s < |lengths| && len <= lengths[s] <= MAX_LENGTH
    && bits == CodeBits(CodeOf(lengths, s), lengths[s] - len + 1) + rest
    && Shr(CodeOf(lengths, s), lengths[s] - len + 1) == t
  }

  lemma ContinuesOn(lengths: seq<nat>, bits: Bits, len: nat, t: nat, c: nat, s: nat, rest: Bits)
    requires 1 <= len && |bits| > 0 && c == 2 * t + BitValue(bits[0])
    requires Continues(lengths, bits[1..], len + 1, c, s, rest)
    ensures Continues(lengths, bits, len, t, s, rest)
  {
    hide CodeOf;
    var code, m := CodeOf(lengths, s), lengths[s] - len;
    assert bits == [c % 2 == 1] + (CodeBits(code, m) + rest);
    assert CodeBits(code, m + 1) == [c % 2 == 1] + CodeBits(code, m);
  }

  lemma ContinuesEnds(lengths: seq<nat>, bits: Bits, len: nat, t: nat, r: nat)
    requires 1 <= len <= MAX_LENGTH && |bits| > 0 && r < Count(lengths, len)
    requires First(lengths, len) + r == 2 * t + BitValue(bits[0])
    ensures Continues(lengths, bits, len, t, OfLength(lengths, len)[r], bits[1..])
  {
    hide OfLength, First;
    SymbolOfRank(lengths, len, r);
    LastBit(First(lengths, len) + r, t, bits);
    hide CodeBits, Shr;
  }

  lemma LastBit(c: nat, t: nat, bits: Bits)
    requires |bits| > 0 && c == 2 * t + BitValue(bits[0])
    ensures bits == CodeBits(c, 1) + bits[1..] && Shr(c, 1) == t
  {
    assert CodeBits(c, 1) == [c % 2 == 1] + CodeBits(c, 0);
    assert bits == [c % 2 == 1] + bits[1..];
  }

  /** Soundness of the walk: what it returns is the symbol whose code was read. */
  lemma {:induction false} DecodeSoundFrom(lengths: seq<nat>, bits: Bits, len: nat, t: nat, p: Parse<nat>)
    requires 1 <= len && 2 * t >= First(lengths, len) && p.Parsed?
    requires p == DecodeFrom(lengths, bits, len, 2 * t, First(lengths, len), |Sorted(lengths, len - 1)|)
    ensures Continues(lengths, bits, len, t, p.value, p.rest)
    decreases MAX_LENGTH + 1 - len
  {
    hide *;
    WalkHasInput(lengths, bits, len, 2 * t, First(lengths, len), |Sorted(lengths, len - 1)|);
    FirstStep(lengths, len);
    var c, first := 2 * t + BitValue(bits[0]), First(lengths, len);
    if c < first + Count(lengths, len) {
      WalkEnds(lengths, bits, len, t, c - first);
      ContinuesEnds(lengths, bits, len, t, c - first);
    } else {
      WalkOn(lengths, bits, len, t, c);
      DecodeSoundFrom(lengths, bits[1..], len + 1, c, p);
      ContinuesOn(lengths, bits, len, t, c, p.value, p.rest);
    }
  }

  lemma FirstStep(lengths: seq<nat>, len: nat)
    requires 1 <= len
    ensures First(lengths, len + 1) == 2 * (First(lengths, len) + Count(lengths, len))
  {}

  lemma WalkHasInput(lengths: seq<nat>, bits: Bits, len: nat, code: nat, first: nat, index: nat)
    requires 1 <= len && DecodeFrom(lengths, bits, len, code, first, index).Parsed?
    ensures len <= MAX_LENGTH && |bits| > 0
  {}

  /** The decoder returns a symbol if and only if the stream starts with that symbol's code. */
  lemma DecodeExact(lengths: seq<nat>, bits: Bits, s: nat, rest: Bits)
    requires IsCode(lengths) && NotOversubscribed(lengths)
    ensures DecodeSymbol(lengths, bits) == Parsed(s, rest)
            <==> s < |lengths| && lengths[s] != 0 && bits == Encoded(lengths, s) + rest
  {
    if DecodeSymbol(lengths, bits) == Parsed(s, rest) {
      DecodeSoundFrom(lengths, bits, 1, 0, Parsed(s, rest));
    }
    if s < |lengths| && lengths[s] != 0 && bits == Encoded(lengths, s) + rest {
      DecodeRecovers(lengths, s, rest);
    }
  }

  // ---- The codes are canonical ----

  lemma {:induction false} CountSplits(lengths: seq<nat>, s: nat, t: nat, l: nat)
    requires s <= t <= |lengths|
    ensures Count(lengths[..t], l) == Count(lengths[..s], l) + Count(lengths[s..t], l)
    decreases t
  {
    if s == t {
      assert lengths[s..t] == [];
    } else {
      CountSplits(lengths, s, t - 1, l);
      assert lengths[..t][..t - 1] == lengths[..t - 1];
      assert lengths[s..t][..t - 1 - s] == lengths[s..t - 1];
    }
  }

  /** The two rules of section 3.2.2 of RFC 1951: codes of one length are consecutive, in the order of
      their symbols; and a shorter code comes before the leading bits of every longer one. */
  lemma CodesAreCanonical(lengths: seq<nat>, s: nat, t: nat)
    requires s < |lengths| && t < |lengths| && 0 < lengths[s]
    ensures lengths[s] == lengths[t] && s <= t ==>
              CodeOf(lengths, t) == CodeOf(lengths, s) + Count(lengths[s..t], lengths[s])
    ensures lengths[s] < lengths[t] ==> CodeOf(lengths, s) < Shr(CodeOf(lengths, t), lengths[t] - lengths[s])
  {
    hide Count, First, Shr;
    if lengths[s] == lengths[t] && s <= t {
      CountSplits(lengths, s, t, lengths[s]);
    }
    if lengths[s] < lengths[t] {
      PrefixIsPast(lengths, t, lengths[s]);
      RankOf(lengths, s);
    }
  }

  // ---- The decoding tables ----

  /** Where the symbols of code length `l` start in the symbol table. */
  function Offset(lengths: seq<nat>, l: nat): nat
    requires 1 <= l
  {
    |Sorted(lengths, l - 1)|
  }

  function Slot(lengths: seq<nat>, l: nat, r: nat): nat
    requires 1 <= l
  {
    Offset(lengths, l) + r
  }

  /** The count and symbol tables describe the code. */
  ghost predicate Represents(count: seq<nat>, symbol: seq<nat>, lengths: seq<nat>) {
    && |count| == MAX_LENGTH + 1 && |symbol| == MAX_SYMBOLS && IsCode(lengths)
    && (forall l :: 1 <= l <= MAX_LENGTH ==> count[l] == Count(lengths, l))
    && (forall l, r :: 1 <= l <= MAX_LENGTH && 0 <= r < Count(lengths, l) ==>
          Slot(lengths, l, r) < MAX_SYMBOLS && symbol[Slot(lengths, l, r)] == OfLength(lengths, l)[r])
  }

  lemma CountPrefixStep(lengths: seq<nat>, s: nat, l: nat)
    requires s < |lengths|
    ensures OfLength(lengths[..s + 1], l) == OfLength(lengths[..s], l) + if lengths[s] == l then [s] else []
  {
    assert lengths[..s + 1][..s] == lengths[..s];
  }

  lemma {:induction false} CountMonotone(lengths: seq<nat>, s: nat, l: nat)
    requires s <= |lengths|
    ensures Count(lengths[..s], l) <= Count(lengths, l)
    decreases |lengths| - s
  {
    if s == |lengths| {
      assert lengths[..s] == lengths;
    } else {
      CountMonotone(lengths, s + 1, l);
      CountPrefixStep(lengths, s, l);
    }
  }

  lemma {:induction false} OffsetMonotone(lengths: seq<nat>, l: nat, l': nat)
    requires 1 <= l < l'
    ensures Offset(lengths, l) + Count(lengths, l) <= Offset(lengths, l')
    decreases l'
  {
    hide OfLength;
    SortedGrows(lengths, l);
    if l + 1 < l' {
      OffsetMonotone(lengths, l, l' - 1);
      SortedGrows(lengths, l' - 1);
    }
  }

  lemma {:induction false} SortedSize(lengths: seq<nat>, l: nat)
    ensures |Sorted(lengths, l)| <= |lengths|
    decreases |lengths|
  {
    if |lengths| == 0 {
      SortedOfNothing(l);
    } else {
      var last := |lengths| - 1;
      SortedSize(lengths[..last], l);
      SortedDropLast(lengths, l);
    }
  }

  lemma {:induction false} SortedOfNothing(l: nat)
    ensures Sorted([], l) == []
  {
    if l > 0 {
      SortedOfNothing(l - 1);
    }
  }

  lemma NoneSorted(lengths: seq<nat>)
    ensures Sorted(lengths, 0) == []
  {}

  lemma {:induction false} SortedDropLast(lengths: seq<nat>, l: nat)
    requires |lengths| > 0
    ensures var last := |lengths| - 1;
            |Sorted(lengths, l)| == |Sorted(lengths[..last], l)| + if 1 <= lengths[last] <= l then 1 else 0
    decreases l
  {
    hide Sorted, OfLength, Count;
    if l == 0 {
      NoneSorted(lengths);
      NoneSorted(lengths[..|lengths| - 1]);
    } else {
      SortedDropLast(lengths, l - 1);
      SortedGrows(lengths, l);
      SortedGrows(lengths[..|lengths| - 1], l);
      CountDropLast(lengths, l);
    }
  }

  lemma CountDropLast(lengths: seq<nat>, l: nat)
    requires |lengths| > 0
    ensures var last := |lengths| - 1;
            Count(lengths, l) == Count(lengths[..last], l) + if lengths[last] == l then 1 else 0
  {}

  method CountLengths(lengths: seq<nat>) returns (count: array<nat>)
    requires IsCode(lengths)
    ensures fresh(count) && count.Length == MAX_LENGTH + 1
    ensures forall l :: 0 <= l <= MAX_LENGTH ==> count[l] == Count(lengths, l)
  {
    count := new nat[MAX_LENGTH + 1](_ => 0);
    for s := 0 to |lengths|
      invariant forall l :: 0 <= l <= MAX_LENGTH ==> count[l] == Count(lengths[..s], l)
    {
      forall l | 0 <= l <= MAX_LENGTH
        ensures Count(lengths[..s + 1], l) == Count(lengths[..s], l) + if lengths[s] == l then 1 else 0
      {
        CountPrefixStep(lengths, s, l);
      }
      hide Count;
      count[lengths[s]] := count[lengths[s]] + 1;
    }
    assert lengths[..|lengths|] == lengths;
  }

  method StartOffsets(lengths: seq<nat>, count: array<nat>) returns (offs: array<nat>)
    requires IsCode(lengths) && count.Length == MAX_LENGTH + 1
    requires forall l :: 0 <= l <= MAX_LENGTH ==> count[l] == Count(lengths, l)
    ensures fresh(offs) && offs.Length == MAX_LENGTH + 1
    ensures forall l :: 1 <= l <= MAX_LENGTH ==> offs[l] == Offset(lengths, l)
  {
    hide OfLength;
    offs := new nat[MAX_LENGTH + 1](_ => 0);
    for l := 1 to MAX_LENGTH
      invariant forall i :: 1 <= i <= l ==> offs[i] == Offset(lengths, i)
    {
      offs[l + 1] := offs[l] + count[l];
      SortedGrows(lengths, l);
    }
  }

  /** The symbols seen among the first `s` are in place, and `offs` points past them. */
  ghost predicate Filled(lengths: seq<nat>, s: nat, offs: seq<nat>, symbol: seq<nat>)
    requires s <= |lengths| && |offs| == MAX_LENGTH + 1 && |symbol| == MAX_SYMBOLS
  {
    && (forall l :: 1 <= l <= MAX_LENGTH ==> offs[l] == Slot(lengths, l, Count(lengths[..s], l)))
    && (forall l, r :: 1 <= l <= MAX_LENGTH && 0 <= r < Count(lengths[..s], l) ==>
          Slot(lengths, l, r) < MAX_SYMBOLS && symbol[Slot(lengths, l, r)] == OfLength(lengths[..s], l)[r])
  }

  lemma SlotFree(lengths: seq<nat>, s: nat)
    requires IsCode(lengths) && s < |lengths| && lengths[s] != 0
    ensures var free := Slot(lengths, lengths[s], Count(lengths[..s], lengths[s]));
            && free < MAX_SYMBOLS
            && forall l, r :: 1 <= l <= MAX_LENGTH && 0 <= r < Count(lengths[..s], l) ==> Slot(lengths, l, r) != free
  {
    hide OfLength, Sorted;
    var k := lengths[s];
    RankOf(lengths, s);
    SortedSize(lengths, k);
    SortedGrows(lengths, k);
    var free := Slot(lengths, k, Count(lengths[..s], k));
    forall l, r | 1 <= l <= MAX_LENGTH && 0 <= r < Count(lengths[..s], l) ensures Slot(lengths, l, r) != free {
      CountMonotone(lengths, s, l);
      if l < k {
        OffsetMonotone(lengths, l, k);
      } else if k < l {
        OffsetMonotone(lengths, k, l);
      }
    }
  }

  lemma FilledStep(lengths: seq<nat>, s: nat, offs: seq<nat>, symbol: seq<nat>)
    requires IsCode(lengths) && s < |lengths| && |offs| == MAX_LENGTH + 1 && |symbol| == MAX_SYMBOLS
    requires Filled(lengths, s, offs, symbol)
    ensures var k := lengths[s];
            if k == 0 then Filled(lengths, s + 1, offs, symbol)
            else offs[k] < MAX_SYMBOLS && Filled(lengths, s + 1, offs[k := offs[k] + 1], symbol[offs[k] := s])
  {
    var k := lengths[s];
    forall l | 1 <= l <= MAX_LENGTH
      ensures OfLength(lengths[..s + 1], l) == OfLength(lengths[..s], l) + if k == l then [s] else []
    {
      CountPrefixStep(lengths, s, l);
    }
    if k != 0 {
      SlotFree(lengths, s);
      SlotNext(lengths, k, Count(lengths[..s], k));
    }
    hide OfLength, Slot;
  }

  lemma SlotNext(lengths: seq<nat>, l: nat, r: nat)
    requires 1 <= l
    ensures Slot(lengths, l, r + 1) == Slot(lengths, l, r) + 1
  {}

  lemma FilledEnds(lengths: seq<nat>, offs: seq<nat>, count: seq<nat>, symbol: seq<nat>)
    requires IsCode(lengths) && |offs| == |count| == MAX_LENGTH + 1 && |symbol| == MAX_SYMBOLS
    requires forall l :: 0 <= l <= MAX_LENGTH ==> count[l] == Count(lengths, l)
    requires Filled(lengths, |lengths|, offs, symbol)
    ensures Represents(count, symbol, lengths)
  {
    hide Count, OfLength, Slot;
    assert lengths[..|lengths|] == lengths;
  }

  lemma FilledStarts(lengths: seq<nat>, offs: seq<nat>, symbol: seq<nat>)
    requires |offs| == MAX_LENGTH + 1 && |symbol| == MAX_SYMBOLS
    requires forall l :: 1 <= l <= MAX_LENGTH ==> offs[l] == Offset(lengths, l)
    ensures Filled(lengths, 0, offs, symbol)
  {
    assert lengths[..0] == [];
  }

  /** Builds the decoding tables from the code lengths. */
  method Construct(lengths: seq<nat>) returns (count: array<nat>, symbol: array<nat>)
    requires IsCode(lengths)
    ensures fresh(count) && fresh(symbol)
    ensures Represents(count[..], symbol[..], lengths)
  {
    hide Count, Filled, Represents, Offset;
    count := CountLengths(lengths);
    var offs := StartOffsets(lengths, count);
    symbol := new nat[MAX_SYMBOLS](_ => 0);
    FilledStarts(lengths, offs[..], symbol[..]);
    ghost var counts := count[..];
    for s := 0 to |lengths|
      invariant Filled(lengths, s, offs[..], symbol[..])
      invariant count[..] == counts
    {
      FilledStep(lengths, s, offs[..], symbol[..]);
      ghost var offs0, symbol0 := offs[..], symbol[..];
      var k := lengths[s];
      if k != 0 {
        symbol[offs[k]] := s;
        assert symbol[..] == symbol0[offs0[k] := s];
        offs[k] := offs[k] + 1;
        assert offs[..] == offs0[k := offs0[k] + 1];
      }
    }
    FilledEnds(lengths, offs[..], count[..], symbol[..]);
  }
}
