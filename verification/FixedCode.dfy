/** The fixed Huffman code of section 3.2.6 of RFC 1951: the closed forms that the compressor
    writes are the canonical codes, and the length and distance tables cover their ranges. */
module FixedCode {
  import opened BitOps
  import opened Huffman
  import opened DeflateFormat

  // ---- Literal/length and distance codes ----

  function FixedLitCode(sym: nat): nat
    requires sym < 288
  {
    if sym < 144 then 0x30 + sym
    else if sym < 256 then 0x190 + (sym - 144)
    else if sym < 280 then sym - 256
    else 0xC0 + (sym - 280)
  }

  /** How many of the first `s` symbols have code length `l`. */
  function FixedRank(s: nat, l: nat): nat {
    if l == 8 then (if s < 144 then s else if s < 280 then 144 else 144 + (s - 280))
    else if l == 9 then (if s < 144 then 0 else if s < 256 then s - 144 else 112)
    else if l == 7 then (if s < 256 then 0 else if s < 280 then s - 256 else 24)
    else 0
  }

  lemma {:induction false} FixedCounts(s: nat, l: nat)
    requires s <= 288
    ensures Count(FixedLengths()[..s], l) == FixedRank(s, l)
    decreases s
  {
    if s == 0 {
      assert FixedLengths()[..0] == [];
    } else {
      FixedCounts(s - 1, l);
      CountPrefixStep(FixedLengths(), s - 1, l);
    }
  }

  lemma FixedCountsAll(l: nat)
    ensures Count(FixedLengths(), l) == FixedRank(288, l)
  {
    FixedCounts(288, l);
    assert FixedLengths()[..288] == FixedLengths();
  }

  /** The first fixed code of each length. */
  function FixedFirst(l: nat): nat {
    if l <= 7 then 0 else if l == 8 then 48 else if l == 9 then 400 else Pow2(l)
  }

  lemma {:induction false} FixedFirsts(l: nat)
    ensures First(FixedLengths(), l) == FixedFirst(l)
  {
    hide Count, FixedLengths;
    if l > 1 {
      FixedFirsts(l - 1);
      FixedCountsAll(l - 1);
      assert Pow2(10) == 1024;
    }
  }

  lemma FixedCodeIsCanonical(sym: nat)
    requires sym < 288
    ensures CodeOf(FixedLengths(), sym) == FixedLitCode(sym)
    ensures FixedLitCode(sym) < Pow2(FixedLengths()[sym])
  {
    hide First, Count;
    FixedFirsts(FixedLengths()[sym]);
    FixedCounts(sym, FixedLengths()[sym]);
    Pow2Values();
    assert Pow2(9) == 512;
  }

  lemma FixedNotOversubscribed()
    ensures NotOversubscribed(FixedLengths())
  {
    hide First, Count, FixedLengths;
    forall l | 1 <= l <= MAX_LENGTH
      ensures First(FixedLengths(), l) + Count(FixedLengths(), l) <= Pow2(l)
    {
      FixedFirsts(l);
      FixedCountsAll(l);
      Pow2Values();
      assert Pow2(9) == 512;
    }
  }

  lemma {:induction false} DistanceCounts(s: nat, l: nat)
    requires s <= 30
    ensures Count(FixedDistances()[..s], l) == if l == 5 then s else 0
    decreases s
  {
    if s == 0 {
      assert FixedDistances()[..0] == [];
    } else {
      DistanceCounts(s - 1, l);
      CountPrefixStep(FixedDistances(), s - 1, l);
    }
  }

  lemma {:induction false} DistanceFirsts(l: nat)
    ensures First(FixedDistances(), l) + Count(FixedDistances(), l) <= Pow2(l)
    ensures l <= 5 ==> First(FixedDistances(), l) == 0
  {
    hide Count, FixedDistances;
    DistanceCounts(30, l);
    assert FixedDistances()[..30] == FixedDistances();
    Pow2Values();
    if l > 1 {
      DistanceFirsts(l - 1);
      DistanceCounts(30, l - 1);
    }
  }

  lemma DistanceCodeIsCanonical(ds: nat)
    requires ds < 30
    ensures CodeOf(FixedDistances(), ds) == ds < Pow2(5)
    ensures NotOversubscribed(FixedDistances())
  {
    hide First, Count;
    DistanceFirsts(5);
    DistanceCounts(ds, 5);
    Pow2Values();
    forall l | 1 <= l <= MAX_LENGTH
      ensures First(FixedDistances(), l) + Count(FixedDistances(), l) <= Pow2(l)
    {
      DistanceFirsts(l);
    }
  }

  // ---- First fit in the base/extra tables ----

  predicate Fits(base: seq<nat>, extra: seq<nat>, v: nat, s: nat)
    requires |base| == |extra| && s < |base|
  {
    v <= base[s] + (Pow2(extra[s]) - 1) && v >= base[s]
  }

  /** The first symbol from `s` on whose range contains `v`; the last symbol if there is none. */
  function FirstFit(base: seq<nat>, extra: seq<nat>, v: nat, s: nat): (r: nat)
    requires |base| == |extra| && s < |base|
    ensures r < |base|
    decreases |base| - s
  {
    if Fits(base, extra, v, s) || s + 1 == |base| then s else FirstFit(base, extra, v, s + 1)
  }

  /** Each range starts where the previous one ends. */
  ghost predicate Contiguous(base: seq<nat>, extra: seq<nat>, n: nat)
    requires |base| == |extra| && n < |base|
  {
    forall s :: 0 <= s < n ==> base[s + 1] == base[s] + Pow2(extra[s])
  }

  lemma {:induction false} FirstFitFits(base: seq<nat>, extra: seq<nat>, v: nat, s: nat, n: nat)
    requires |base| == |extra| && s <= n < |base| && Contiguous(base, extra, n)
    requires base[s] <= v < base[n] + Pow2(extra[n])
    ensures FirstFit(base, extra, v, s) <= n
    ensures Fits(base, extra, v, FirstFit(base, extra, v, s))
    decreases n - s
  {
    hide Pow2;
    if !Fits(base, extra, v, s) {
      FirstFitFits(base, extra, v, s + 1, n);
    }
  }

  lemma Pow2Table()
    ensures Pow2(0) == 1 && Pow2(1) == 2 && Pow2(2) == 4 && Pow2(3) == 8 && Pow2(4) == 16 && Pow2(5) == 32
    ensures Pow2(6) == 64 && Pow2(7) == 128 && Pow2(8) == 256 && Pow2(9) == 512 && Pow2(10) == 1024
    ensures Pow2(11) == 2048 && Pow2(12) == 4096 && Pow2(13) == 8192
  {}

  lemma TablesContiguous()
    ensures Contiguous(LEN_BASE, LEN_EXTRA, 27) && Contiguous(DIST_BASE, DIST_EXTRA, 29)
  {
    Pow2Table();
    hide Pow2;
  }

  /** Every match length has a symbol; 258 is coded as symbol 284 with 31 in its extra bits. */
  lemma LengthHasSymbol(len: nat)
    requires 3 <= len <= 258
    ensures var ls := FirstFit(LEN_BASE, LEN_EXTRA, len, 0);
            ls <= 27 && Fits(LEN_BASE, LEN_EXTRA, len, ls) && (len == 258 ==> ls == 27)
  {
    TablesContiguous();
    Pow2Table();
    hide Pow2, Contiguous, FirstFit;
    FirstFitFits(LEN_BASE, LEN_EXTRA, len, 0, 27);
  }

  lemma DistanceHasSymbol(dist: nat)
    requires 1 <= dist <= 32768
    ensures Fits(DIST_BASE, DIST_EXTRA, dist, FirstFit(DIST_BASE, DIST_EXTRA, dist, 0))
  {
    TablesContiguous();
    Pow2Table();
    hide Pow2, Contiguous, FirstFit;
    FirstFitFits(DIST_BASE, DIST_EXTRA, dist, 0, 29);
  }
}
