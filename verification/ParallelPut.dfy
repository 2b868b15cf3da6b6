/** Storing the chunks of one object with several workers.

    A shared counter hands out chunk indices; each worker stores its chunk and then writes the
    digest into its slot of the manifest, byte by byte.  Workers interleave in any way. */
module ParallelPut {
  import opened BitOps
  import opened Shards
  import opened ObjectFormat
  import ContentStore

  datatype Worker = Idle | Storing(c: nat) | Writing(c: nat, k: nat) | Finished | Failed

  /** The job: the manifest header and the digest of every chunk. */
  datatype Job = Job(header: seq<Byte>, names: seq<Digest>)

  /** `cur` and `bad` are the state of the dispatcher.  `stored` are the chunks on disk, `done` those
      whose slot is complete, `lost` those that a worker failed on. */
  datatype State = State(cur: nat, bad: bool, workers: seq<Worker>, manifest: seq<Byte>, stored: set<nat>,
                         done: set<nat>, lost: set<nat>)

  ghost predicate ValidJob(j: Job) {
    |j.header| == HEADER
  }

  ghost function Start(j: Job, count: nat): State {
    State(0, false, seq(count, _ => Idle), j.header + seq(32 * |j.names|, _ => 0), {}, {}, {})
  }

  predicate IsBusy(w: Worker) {
    w.Storing? || w.Writing?
  }

  function Slot(c: nat): nat {
    HEADER + 32 * c
  }

  // ---- Steps ----

  /** Worker `i` asks the dispatcher for an index, or is told that there is none. */
  ghost predicate Next(j: Job, s: State, s': State, i: nat) {
    && i < |s.workers| && s.workers[i] == Idle
    && s' == if s.cur >= |j.names| then s.(workers := s.workers[i := Finished])
             else s.(workers := s.workers[i := Storing(s.cur)], cur := s.cur + 1)
  }

  /** Worker `i` has written the shards of its chunk. */
  ghost predicate Store(s: State, s': State, i: nat) {
    && i < |s.workers| && s.workers[i].Storing?
    && s' == s.(workers := s.workers[i := Writing(s.workers[i].c, 0)], stored := s.stored + {s.workers[i].c})
  }

  /** Worker `i` writes one byte of its slot. */
  ghost predicate Write(j: Job, s: State, s': State, i: nat) {
    && i < |s.workers| && s.workers[i].Writing? && s.workers[i].k < 32
    && var c, k := s.workers[i].c, s.workers[i].k;
       && c < |j.names| && Slot(c) + k < |s.manifest|
       && s' == s.(workers := s.workers[i := Writing(c, k + 1)], manifest := s.manifest[Slot(c) + k := j.names[c][k]])
  }

  /** Worker `i` is through with its chunk. */
  ghost predicate Complete(s: State, s': State, i: nat) {
    && i < |s.workers| && s.workers[i].Writing? && s.workers[i].k == 32
    && s' == s.(workers := s.workers[i := Idle], done := s.done + {s.workers[i].c})
  }

  /** Worker `i` gets an exception, which the dispatcher records, and ends. */
  ghost predicate Fail(s: State, s': State, i: nat) {
    && i < |s.workers| && IsBusy(s.workers[i])
    && s' == s.(workers := s.workers[i := Failed], bad := true, lost := s.lost + {s.workers[i].c})
  }

  ghost predicate StepOf(j: Job, s: State, s': State, i: nat) {
    Next(j, s, s', i) || Store(s, s', i) || Write(j, s, s', i) || Complete(s, s', i) || Fail(s, s', i)
  }

  ghost predicate Step(j: Job, s: State, s': State) {
    exists i: nat :: StepOf(j, s, s', i)
  }

  ghost predicate IsRun(j: Job, run: seq<State>, count: nat) {
    && |run| > 0 && run[0] == Start(j, count)
    && forall k :: 0 <= k < |run| - 1 ==> Step(j, run[k], run[k + 1])
  }

  // ---- The invariant ----

  ghost predicate Holder(s: State, i: nat, c: nat) {
    i < |s.workers| && IsBusy(s.workers[i]) && s.workers[i].c == c
  }

  ghost predicate Held(s: State, c: nat) {
    exists i: nat :: Holder(s, i, c)
  }

  /** Every index handed out is done, lost, or with exactly one worker. */
  ghost predicate Accounted(j: Job, s: State) {
    && s.cur <= |j.names|
    && (forall c: nat :: c < s.cur <==> c in s.done || c in s.lost || Held(s, c))
    && (forall c: nat, i: nat :: Holder(s, i, c) ==> c !in s.done && c !in s.lost)
    && (forall c: nat, i: nat, k: nat :: Holder(s, i, c) && Holder(s, k, c) ==> i == k)
    && s.done !! s.lost && (s.bad <==> s.lost != {})
  }

  /** The first `k` bytes of slot `c` are written. */
  ghost predicate Written(j: Job, s: State, c: nat, k: nat) {
    && c < |j.names| && Slot(c) + 32 <= |s.manifest| && k <= 32
    && forall b: nat {:trigger j.names[c][b]} :: b < k ==> s.manifest[Slot(c) + b] == j.names[c][b]
  }

  ghost predicate Progress(j: Job, s: State) {
    && |s.manifest| == HEADER + 32 * |j.names| && s.manifest[..HEADER] == j.header
    && (forall c: nat :: c in s.done ==> c in s.stored && Written(j, s, c, 32))
    && (forall i: nat :: i < |s.workers| && s.workers[i].Writing? ==>
          s.workers[i].c in s.stored && Written(j, s, s.workers[i].c, s.workers[i].k))
  }

  ghost predicate Inv(j: Job, s: State) {
    Accounted(j, s) && Progress(j, s)
  }

  lemma StartInv(j: Job, count: nat)
    requires ValidJob(j)
    ensures Inv(j, Start(j, count))
  {}

  /** Only worker `i` changes, and the slots do not. */
  ghost predicate OneWorker(s: State, s': State, i: nat) {
    |s'.workers| == |s.workers| && i < |s.workers| && s'.workers == s.workers[i := s'.workers[i]]
  }

  /** After a step of worker `i`, an index is held if `i` holds it, or if another worker did. */
  lemma HeldAfter(j: Job, s: State, s': State, i: nat)
    requires Accounted(j, s) && OneWorker(s, s', i)
    ensures forall k: nat, c: nat :: k != i ==> (Holder(s', k, c) <==> Holder(s, k, c))
    ensures forall c: nat :: Held(s', c) <==> Holder(s', i, c) || (Held(s, c) && !Holder(s, i, c))
  {
    forall c: nat
      ensures Held(s', c) <==> Holder(s', i, c) || (Held(s, c) && !Holder(s, i, c))
    {
      if Held(s', c) && !Holder(s', i, c) {
        var k: nat :| Holder(s', k, c);
        assert Holder(s, k, c);
      }
      if Held(s, c) && !Holder(s, i, c) {
        var k: nat :| Holder(s, k, c);
        assert Holder(s', k, c);
      }
    }
  }

  lemma HolderIs(s: State, i: nat)
    ensures forall c: nat :: Holder(s, i, c) <==> i < |s.workers| && IsBusy(s.workers[i]) && s.workers[i].c == c
  {}

  /** What becomes of the index that worker `i` held, and of the one it holds next. */
  lemma AccountedKeeps(j: Job, s: State, s': State, i: nat)
    requires Accounted(j, s) && OneWorker(s, s', i) && s.cur <= s'.cur <= |j.names| && s.done <= s'.done
               && s.lost <= s'.lost
    requires forall c: nat :: Holder(s', i, c) ==> if c < s.cur then Holder(s, i, c) else c < s'.cur
    requires forall c: nat :: s.cur <= c < s'.cur ==> Holder(s', i, c)
    requires forall c: nat :: Holder(s, i, c) ==>
               if Holder(s', i, c) then c !in s'.done && c !in s'.lost else c in s'.done || c in s'.lost
    requires forall c: nat :: (c in s'.done && c !in s.done) || (c in s'.lost && c !in s.lost) ==> Holder(s, i, c)
    requires s'.done !! s'.lost && (s'.bad <==> s'.lost != {})
    ensures Accounted(j, s')
  {
    HeldAfter(j, s, s', i);
    hide Holder;
  }

  lemma WrittenFrame(j: Job, s: State, s': State)
    requires s'.manifest == s.manifest
    ensures forall c: nat, k: nat :: Written(j, s, c, k) <==> Written(j, s', c, k)
  {}

  lemma NextKeeps(j: Job, s: State, s': State, i: nat)
    requires Inv(j, s) && Next(j, s, s', i)
    ensures Inv(j, s')
  {
    HolderIs(s, i);
    HolderIs(s', i);
    WrittenFrame(j, s, s');
    hide Holder, Written;
    AccountedKeeps(j, s, s', i);
  }

  lemma StoreKeeps(j: Job, s: State, s': State, i: nat)
    requires Inv(j, s) && Store(s, s', i)
    ensures Inv(j, s')
  {
    HolderIs(s, i);
    HolderIs(s', i);
    WrittenFrame(j, s, s');
    var c := s.workers[i].c;
    assert Holder(s, i, c);
    assert Held(s, c);
    assert Written(j, s', c, 0);
    hide Holder, Written;
    AccountedKeeps(j, s, s', i);
  }

  lemma CompleteKeeps(j: Job, s: State, s': State, i: nat)
    requires Inv(j, s) && Complete(s, s', i)
    ensures Inv(j, s')
  {
    HolderIs(s, i);
    HolderIs(s', i);
    WrittenFrame(j, s, s');
    assert Holder(s, i, s.workers[i].c);
    hide Holder, Written;
    AccountedKeeps(j, s, s', i);
  }

  lemma FailKeeps(j: Job, s: State, s': State, i: nat)
    requires Inv(j, s) && Fail(s, s', i)
    ensures Inv(j, s')
  {
    HolderIs(s, i);
    HolderIs(s', i);
    WrittenFrame(j, s, s');
    assert Holder(s, i, s.workers[i].c);
    hide Holder, Written;
    AccountedKeeps(j, s, s', i);
  }

  /** Writing into one slot leaves the others as they are. */
  lemma OtherSlots(j: Job, s: State, s': State, i: nat, c: nat, k: nat)
    requires Write(j, s, s', i) && Written(j, s, c, k) && c != s.workers[i].c
    ensures Written(j, s', c, k)
  {}

  lemma OwnSlot(j: Job, s: State, s': State, i: nat)
    requires Write(j, s, s', i) && Written(j, s, s.workers[i].c, s.workers[i].k)
    ensures Written(j, s', s.workers[i].c, s.workers[i].k + 1)
  {}

  lemma WriteKeeps(j: Job, s: State, s': State, i: nat)
    requires Inv(j, s) && Write(j, s, s', i)
    ensures Inv(j, s')
  {
    HolderIs(s, i);
    HolderIs(s', i);
    var own := s.workers[i].c;
    assert Holder(s, i, own);
    OwnSlot(j, s, s', i);
    assert s'.manifest[..HEADER] == s.manifest[..HEADER];
    forall c: nat | c in s.done
      ensures Written(j, s', c, 32)
    {
      OtherSlots(j, s, s', i, c, 32);
    }
    forall k: nat | k < |s'.workers| && s'.workers[k].Writing?
      ensures s'.workers[k].c in s'.stored && Written(j, s', s'.workers[k].c, s'.workers[k].k)
    {
      if k != i {
        assert Holder(s, k, s.workers[k].c);
        OtherSlots(j, s, s', i, s.workers[k].c, s.workers[k].k);
      }
    }
    hide Holder, Written;
    AccountedKeeps(j, s, s', i);
  }

  lemma StepKeeps(j: Job, s: State, s': State)
    requires Inv(j, s) && Step(j, s, s')
    ensures Inv(j, s')
  {
    hide Inv, Next, Store, Write, Complete, Fail;
    var i: nat :| StepOf(j, s, s', i);
    if Next(j, s, s', i) {
      NextKeeps(j, s, s', i);
    } else if Store(s, s', i) {
      StoreKeeps(j, s, s', i);
    } else if Write(j, s, s', i) {
      WriteKeeps(j, s, s', i);
    } else if Complete(s, s', i) {
      CompleteKeeps(j, s, s', i);
    } else {
      FailKeeps(j, s, s', i);
    }
  }

  lemma {:induction false} RunKeeps(j: Job, run: seq<State>, count: nat, k: nat)
    requires ValidJob(j) && IsRun(j, run, count) && k < |run|
    ensures Inv(j, run[k])
  {
    if k == 0 {
      StartInv(j, count);
    } else {
      RunKeeps(j, run, count, k - 1);
      StepKeeps(j, run[k - 1], run[k]);
    }
  }

  // ---- The end of a run ----

  ghost predicate Ended(s: State) {
    forall i: nat :: i < |s.workers| ==> s.workers[i].Finished? || s.workers[i].Failed?
  }

  /** The manifest that the sequential loop makes. */
  ghost function Sequential(j: Job): seq<Byte> {
    j.header + Flatten(j.names)
  }

  lemma {:induction false} SlotsMakeManifest(j: Job, s: State, n: nat)
    requires |j.header| == HEADER && n <= |j.names| && |s.manifest| == HEADER + 32 * |j.names|
    requires s.manifest[..HEADER] == j.header && forall c: nat :: c < n ==> Written(j, s, c, 32)
    ensures s.manifest[..Slot(n)] == j.header + Flatten(j.names[..n])
  {
    if n > 0 {
      SlotsMakeManifest(j, s, n - 1);
      assert Written(j, s, n - 1, 32);
      var d := j.names[n - 1];
      assert s.manifest[Slot(n - 1)..Slot(n)] == d by {
        forall b: nat | b < 32
          ensures s.manifest[Slot(n - 1)..Slot(n)][b] == d[b]
        {}
      }
      assert s.manifest[..Slot(n)] == s.manifest[..Slot(n - 1)] + s.manifest[Slot(n - 1)..Slot(n)];
      assert j.names[..n] == j.names[..n - 1] + [d];
      FlattenAppend(j.names[..n - 1], d);
    } else {
      assert j.names[..0] == [];
    }
  }

  /** The dispatcher hands out each index once: an index that some worker has, or that is done, is
      below the counter, and no two workers have the same. */
  lemma HandedOutOnce(j: Job, run: seq<State>, count: nat, k: nat, i: nat, i': nat, c: nat)
    requires ValidJob(j) && IsRun(j, run, count) && k < |run| && Holder(run[k], i, c)
    ensures c < run[k].cur && c !in run[k].done && (Holder(run[k], i', c) ==> i == i')
  {
    RunKeeps(j, run, count, k);
    assert Held(run[k], c);
  }

  /** In every interleaving of any number of workers: when all have ended and no failure was
      recorded, every chunk is stored and the manifest is the one of the sequential loop. */
  lemma EveryRunIsSequential(j: Job, run: seq<State>, count: nat)
    requires ValidJob(j) && IsRun(j, run, count) && count > 0
    requires Ended(run[|run| - 1]) && !run[|run| - 1].bad
    ensures var s := run[|run| - 1]; s.manifest == Sequential(j) && forall c: nat :: c < |j.names| ==> c in s.stored
  {
    var s := run[|run| - 1];
    RunKeeps(j, run, count, |run| - 1);
    FinishedOnlyAtEnd(j, run, count, |run| - 1);
    hide Written;
    assert s.workers[0].Finished?;
    forall c: nat | c < |j.names|
      ensures c in s.done
    {}
    SlotsMakeManifest(j, s, |j.names|);
    assert j.names[..|j.names|] == j.names && s.manifest[..Slot(|j.names|)] == s.manifest;
  }

  /** A worker only finishes when all indices are handed out, and a failed one is recorded. */
  lemma {:induction false} FinishedOnlyAtEnd(j: Job, run: seq<State>, count: nat, k: nat)
    requires IsRun(j, run, count) && k < |run|
    ensures |run[k].workers| == count && run[k].cur <= |j.names|
    ensures forall i: nat :: i < count ==>
              (run[k].workers[i].Finished? ==> run[k].cur == |j.names|) && (run[k].workers[i].Failed? ==> run[k].bad)
  {
    if k > 0 {
      FinishedOnlyAtEnd(j, run, count, k - 1);
      var s, s' := run[k - 1], run[k];
      assert Step(j, s, s');
      var i: nat :| StepOf(j, s, s', i);
    }
  }

  /** The job of storing an object. */
  ghost function JobOf(e: ContentStore.Primitives, o: ContentStore.Object): Job {
    Job(ManifestHeader(|o.payload|, |o.data|, o.compressed, o.nonce),
        ContentStore.ChunkNames(e, o, ChunkCount(|o.payload|)))
  }

  /** Workers that store the chunks of an object fill its manifest, as the loop over them does. */
  lemma ParallelManifest(e: ContentStore.Primitives, o: ContentStore.Object, run: seq<State>, count: nat)
    requires IsRun(JobOf(e, o), run, count) && count > 0
    requires Ended(run[|run| - 1]) && !run[|run| - 1].bad
    ensures var s := run[|run| - 1];
            && s.manifest == ContentStore.ManifestBytes(e, o)
            && forall c: nat :: c < ChunkCount(|o.payload|) ==> c in s.stored
  {
    hide IsRun, Ended, Sequential, ContentStore.ManifestBytes;
    EveryRunIsSequential(JobOf(e, o), run, count);
    SequentialManifest(e, o);
  }

  lemma SequentialManifest(e: ContentStore.Primitives, o: ContentStore.Object)
    ensures Sequential(JobOf(e, o)) == ContentStore.ManifestBytes(e, o)
  {
    ContentStore.ManifestIs(e, o, JobOf(e, o).header);
  }
}
