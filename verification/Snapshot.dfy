/** Writing a snapshot: the records of the whole state, from which a replay rebuilds it. */
module Snapshot {
  import opened Shards
  import opened TrustedTime
  import opened Audit
  import opened VaultState

  ghost function Rebuilt(rs: seq<Record>): Durable {
    Replay(EMPTY, rs)
  }

  lemma RebuiltOne(rs: seq<Record>, r: Record)
    ensures Rebuilt(rs + [r]) == Apply(Rebuilt(rs), r)
  {
    ReplayOne(EMPTY, rs, r);
  }

  ghost function Without<V>(m: map<string, V>, todo: set<string>): map<string, V> {
    map n | n in m && n !in todo :: m[n]
  }

  lemma WithoutStep<V>(m: map<string, V>, todo: set<string>, n: string)
    requires n in m && n in todo
    ensures Without(m, todo - {n}) == Without(m, todo)[n := m[n]]
  {}

  lemma WithoutEnds<V>(m: map<string, V>)
    ensures Without(m, {}) == m && Without(m, m.Keys) == map[]
  {}

  method SaveBuckets(d: Durable, start: seq<Record>) returns (rs: seq<Record>)
    requires Rebuilt(start).buckets == map[]
    ensures Rebuilt(rs) == Rebuilt(start).(buckets := d.buckets) && Adds(d, start, rs)
  {
    hide Replay, Rebuilt, Without, Adds;
    var todo := d.buckets.Keys;
    rs := start;
    AddsNothing(d, start);
    WithoutEnds(d.buckets);
    while todo != {}
      invariant todo <= d.buckets.Keys && Rebuilt(rs) == Rebuilt(start).(buckets := Without(d.buckets, todo))
                  && Adds(d, start, rs)
      decreases |todo|
    {
      var n :| n in todo;
      RebuiltOne(rs, Bucket(n, d.buckets[n]));
      AddsOne(d, start, rs, Bucket(n, d.buckets[n]));
      WithoutStep(d.buckets, todo, n);
      rs := rs + [Bucket(n, d.buckets[n])];
      todo := todo - {n};
    }
  }

  lemma ApplyVersioning(d: Durable, n: string)
    ensures Apply(d, Versioning(n, true)) == d.(versioned := d.versioned + {n})
  {}

  method SaveVersioned(d: Durable, start: seq<Record>) returns (rs: seq<Record>)
    requires Rebuilt(start).versioned == {}
    ensures Rebuilt(rs) == Rebuilt(start).(versioned := d.versioned) && Adds(d, start, rs)
  {
    hide Replay, Rebuilt, Adds, Apply, About;
    var todo := d.versioned;
    ghost var done: set<string> := {};
    rs := start;
    AddsNothing(d, start);
    while todo != {}
      invariant d.versioned == done + todo && Rebuilt(rs) == Rebuilt(start).(versioned := done) && Adds(d, start, rs)
      decreases |todo|
    {
      var n :| n in todo;
      VersioningIsAbout(d, n);
      RebuiltOne(rs, Versioning(n, true));
      AddsOne(d, start, rs, Versioning(n, true));
      ApplyVersioning(Rebuilt(rs), n);
      rs := rs + [Versioning(n, true)];
      todo := todo - {n};
      done := done + {n};
    }
  }

  lemma VersioningIsAbout(d: Durable, n: string)
    requires n in d.versioned
    ensures About(d, Versioning(n, true))
  {}

  /** The versions of one name, oldest first. */
  method SaveHistory(d: Durable, name: string, start: seq<Record>) returns (rs: seq<Record>)
    requires name in d.versions && |d.versions[name]| > 0 && OrderedVersions(d.versions[name], d.verSeq)
    requires name !in Rebuilt(start).versions
    ensures Rebuilt(rs) == Rebuilt(start).(versions := Rebuilt(start).versions[name := d.versions[name]])
              && Adds(d, start, rs)
  {
    hide Replay, Rebuilt, Adds;
    var vs := d.versions[name];
    rs := start;
    AddsNothing(d, start);
    ghost var base := Rebuilt(start);
    for i := 0 to |vs|
      invariant Rebuilt(rs) == if i == 0 then base else base.(versions := base.versions[name := vs[..i]])
      invariant Adds(d, start, rs)
    {
      RebuiltOne(rs, Versioned(name, vs[i]));
      AddsOne(d, start, rs, Versioned(name, vs[i]));
      assert History(Rebuilt(rs), name) == vs[..i];
      assert !HasVersion(vs[..i], vs[i].vid);
      assert vs[..i] + [vs[i]] == vs[..i + 1];
      rs := rs + [Versioned(name, vs[i])];
    }
    assert vs[..|vs|] == vs;
  }

  method SaveVersions(d: Durable, start: seq<Record>) returns (rs: seq<Record>)
    requires Rebuilt(start).versions == map[]
    requires forall name :: name in d.versions ==> |d.versions[name]| > 0 && OrderedVersions(d.versions[name], d.verSeq)
    ensures Rebuilt(rs) == Rebuilt(start).(versions := d.versions) && Adds(d, start, rs)
  {
    hide Replay, Rebuilt, OrderedVersions, Adds;
    var todo := d.versions.Keys;
    rs := start;
    AddsNothing(d, start);
    WithoutEnds(d.versions);
    while todo != {}
      invariant todo <= d.versions.Keys && Rebuilt(rs) == Rebuilt(start).(versions := Without(d.versions, todo))
                  && Adds(d, start, rs)
      decreases |todo|
    {
      var n :| n in todo;
      WithoutStep(d.versions, todo, n);
      var more := SaveHistory(d, n, rs);
      AddsMore(d, start, rs, more);
      rs := more;
      todo := todo - {n};
    }
  }

  method SaveIndex(d: Durable, start: seq<Record>) returns (rs: seq<Record>)
    requires Rebuilt(start).index == map[]
    ensures Rebuilt(rs) == Rebuilt(start).(index := d.index) && Adds(d, start, rs)
  {
    hide Replay, Rebuilt, Without, Adds;
    var todo := d.index.Keys;
    rs := start;
    AddsNothing(d, start);
    WithoutEnds(d.index);
    while todo != {}
      invariant todo <= d.index.Keys && Rebuilt(rs) == Rebuilt(start).(index := Without(d.index, todo))
                  && Adds(d, start, rs)
      decreases |todo|
    {
      var n :| n in todo;
      RebuiltOne(rs, Object(n, d.index[n]));
      AddsOne(d, start, rs, Object(n, d.index[n]));
      WithoutStep(d.index, todo, n);
      rs := rs + [Object(n, d.index[n])];
      todo := todo - {n};
    }
  }

  method SaveLog(hash: Hash, log: seq<Entry>, start: seq<Record>) returns (rs: seq<Record>)
    requires Rebuilt(start).log == [] && ValidChain(hash, log)
    ensures Rebuilt(rs) == Rebuilt(start).(log := log) && Trail(rs) == Trail(start) + log
    ensures |start| <= |rs| && rs[..|start|] == start && forall i :: |start| <= i < |rs| ==>
              rs[i].Audited? && rs[i].entry in log
  {
    hide Replay, Rebuilt, ValidChain, Trail;
    rs := start;
    for i := 0 to |log|
      invariant Rebuilt(rs) == Rebuilt(start).(log := log[..i]) && Trail(rs) == Trail(start) + log[..i]
      invariant |start| <= |rs| && rs[..|start|] == start && forall j :: |start| <= j < |rs| ==>
                  rs[j].Audited? && rs[j].entry in log
    {
      SequenceCounts(hash, log, i);
      RebuiltOne(rs, Audited(log[i]));
      TrailOne(rs, Audited(log[i]));
      assert log[..i] + [log[i]] == log[..i + 1];
      rs := rs + [Audited(log[i])];
    }
    assert log[..|log|] == log;
  }

  /** The audit entries among the records. */
  function Trail(rs: seq<Record>): seq<Entry> {
    if |rs| == 0 then []
    else
      var r := rs[|rs| - 1];
      Trail(rs[..|rs| - 1]) + if r.Audited? then [r.entry] else []
  }

  lemma TrailOne(rs: seq<Record>, r: Record)
    ensures Trail(rs + [r]) == Trail(rs) + if r.Audited? then [r.entry] else []
  {
    assert (rs + [r])[..|rs|] == rs;
  }

  /** The record says something that is so in `d`. */
  ghost predicate About(d: Durable, r: Record) {
    match r
    case Clock(_, _, opSealed) => opSealed == d.opSealed
    case Boot(boot) => boot == d.lastBoot
    case Modes(ingestOnly, syncShut) => ingestOnly == d.ingestOnly && syncShut == d.syncShut
    case Bucket(name, objectLock) => name in d.buckets && d.buckets[name] == objectLock
    case BucketGone(_) => false
    case Versioning(name, flag) => flag && name in d.versioned
    case Counter(verSeq) => verSeq == d.verSeq
    case Versioned(name, v) => name in d.versions && v in d.versions[name]
    case Object(name, m) => name in d.index && d.index[name] == m
    case Deleted(_) => false
    case Audited(e) => e in d.log
  }

  /** `rs` adds records about `d` to `start`, none of them about the clock or the audit log. */
  ghost predicate Adds(d: Durable, start: seq<Record>, rs: seq<Record>) {
    && |start| <= |rs| && rs[..|start|] == start
    && forall i :: |start| <= i < |rs| ==> !rs[i].Clock? && !rs[i].Audited? && About(d, rs[i])
  }

  lemma AddsNothing(d: Durable, start: seq<Record>)
    ensures Adds(d, start, start)
  {}

  lemma AddsOne(d: Durable, start: seq<Record>, rs: seq<Record>, r: Record)
    requires Adds(d, start, rs) && !r.Clock? && !r.Audited? && About(d, r)
    ensures Adds(d, start, rs + [r])
  {
    assert (rs + [r])[..|start|] == rs[..|start|];
  }

  lemma AddsMore(d: Durable, a: seq<Record>, b: seq<Record>, c: seq<Record>)
    requires Adds(d, a, b) && Adds(d, b, c)
    ensures Adds(d, a, c)
  {
    hide About;
    assert c[..|a|] == c[..|b|][..|a|];
    forall i | |a| <= i < |c|
      ensures !c[i].Clock? && !c[i].Audited? && About(d, c[i])
    {
      if i < |b| {
        assert c[i] == c[..|b|][i];
      }
    }
  }

  lemma {:induction false} AddsKeepsTrail(d: Durable, start: seq<Record>, rs: seq<Record>)
    requires Adds(d, start, rs)
    ensures Trail(rs) == Trail(start)
    decreases |rs|
  {
    if |rs| == |start| {
      assert rs == start;
    } else {
      var rs' := rs[..|rs| - 1];
      assert rs'[..|start|] == rs[..|start|];
      assert Adds(d, start, rs');
      AddsKeepsTrail(d, start, rs');
    }
  }

  /** A snapshot of the whole state.  Replaying it gives the state back; its only clock record is
      the first, and its audit entries are the log. */
  method Save(hash: Hash, d: Durable, clock: Guard) returns (rs: seq<Record>)
    requires Inv(hash, d)
    ensures Rebuilt(rs) == d && Trail(rs) == d.log
    ensures |rs| > 0 && rs[0] == Clock(clock.floor, clock.isSealed, d.opSealed)
    ensures forall i :: 1 <= i < |rs| ==> !rs[i].Clock?
    ensures forall i :: 0 <= i < |rs| ==> About(d, rs[i])
  {
    var start := Header(d, clock);
    HeaderRebuilds(d, clock);
    hide Replay, Rebuilt, Trail, ValidChain, OrderedVersions, Header, About;
    CounterIsAbout(d);
    ghost var s1, s2, s3, s4;
    rs := SaveBuckets(d, start);
    s1 := rs;
    rs := SaveVersioned(d, rs);
    AddsMore(d, start, s1, rs);
    RebuiltOne(rs, Counter(d.verSeq));
    AddsOne(d, start, rs, Counter(d.verSeq));
    rs := rs + [Counter(d.verSeq)];
    s2 := rs;
    rs := SaveVersions(d, rs);
    AddsMore(d, start, s2, rs);
    s3 := rs;
    rs := SaveIndex(d, rs);
    AddsMore(d, start, s3, rs);
    AddsKeepsTrail(d, start, rs);
    s4 := rs;
    rs := SaveLog(hash, d.log, rs);
    HeaderFirst(d, start, s4, rs);
  }

  function Header(d: Durable, clock: Guard): seq<Record> {
    [Clock(clock.floor, clock.isSealed, d.opSealed), Boot(d.lastBoot), Modes(d.ingestOnly, d.syncShut)]
  }

  lemma HeaderRebuilds(d: Durable, clock: Guard)
    ensures var h := Header(d, clock);
            && Trail(h) == [] && |h| > 0 && h[0] == Clock(clock.floor, clock.isSealed, d.opSealed)
            && (forall i :: 1 <= i < |h| ==> !h[i].Clock?) && (forall i :: 0 <= i < |h| ==> About(d, h[i]))
            && Rebuilt(h)
                 == EMPTY.(opSealed := d.opSealed, lastBoot := d.lastBoot, ingestOnly := d.ingestOnly,
                           syncShut := d.syncShut)
  {
    var a, b, c := Clock(clock.floor, clock.isSealed, d.opSealed), Boot(d.lastBoot), Modes(d.ingestOnly, d.syncShut);
    hide Replay, Trail;
    NoRecords();
    RebuiltOne([], a);
    RebuiltOne([a], b);
    RebuiltOne([a, b], c);
    TrailOne([], a);
    TrailOne([a], b);
    TrailOne([a, b], c);
    assert [] + [a] == [a] && [a] + [b] == [a, b] && [a, b] + [c] == [a, b, c];
  }

  lemma NoRecords()
    ensures Rebuilt([]) == EMPTY && Trail([]) == []
  {}

  lemma CounterIsAbout(d: Durable)
    ensures About(d, Counter(d.verSeq))
  {}

  lemma AuditedIsAbout(d: Durable, r: Record)
    requires r.Audited? && r.entry in d.log
    ensures About(d, r)
  {}

  lemma HeaderFirst(d: Durable, start: seq<Record>, rs: seq<Record>, all: seq<Record>)
    requires |start| > 0 && start[0].Clock? && (forall i :: 1 <= i < |start| ==> !start[i].Clock?) && Adds(d, start, rs)
    requires forall i :: 0 <= i < |start| ==> About(d, start[i])
    requires |rs| <= |all| && all[..|rs|] == rs && forall i :: |rs| <= i < |all| ==>
               all[i].Audited? && all[i].entry in d.log
    ensures |all| > 0 && all[0] == start[0] && forall i :: 1 <= i < |all| ==> !all[i].Clock?
    ensures forall i :: 0 <= i < |all| ==> About(d, all[i])
  {
    hide About;
    assert all[0] == all[..|rs|][0] && rs[0] == rs[..|start|][0];
    forall i | 0 <= i < |all|
      ensures (i > 0 ==> !all[i].Clock?) && About(d, all[i])
    {
      if i < |start| {
        assert all[i] == all[..|rs|][i] && rs[i] == rs[..|start|][i] && About(d, start[i]);
      } else if i < |rs| {
        assert all[i] == all[..|rs|][i];
      } else {
        AuditedIsAbout(d, all[i]);
      }
    }
  }
}
