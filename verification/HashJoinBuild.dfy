/** Concurrent build of the hash-join table (`insert` in hashjoin_hashtable.rs and
    hashjoin_string_hashtable.rs), as a transition system over the steps of every pending call:
    a relaxed load, weak compare-and-swap attempts that may fail spuriously, and the write of
    `next` after the winning attempt. */
module HashJoinBuild {
  import opened HashJoinHeader

  type Addr = Word

  /** One `insert` call per entry address: the bucket of its key and the key's hash. */
  datatype Job = Job(bucket: nat, hash: Word)

  type Jobs = map<Addr, Job>

  ghost predicate ValidJobs(jobs: Jobs, capacity: nat) {
    forall a :: a in jobs ==> IsPointer(a) && jobs[a].bucket < capacity
  }

  /** Where one `insert` call stands; `oldHeader` is the local variable of that name. */
  datatype Phase = Start | Trying(oldHeader: Word) | Linking(oldHeader: Word) | Done

  datatype State = State(headers: seq<Word>, next: map<Addr, Addr>, phase: map<Addr, Phase>)

  ghost predicate Init(jobs: Jobs, capacity: nat, st: State) {
    && |st.headers| == capacity
    && (forall b :: 0 <= b < capacity ==> st.headers[b] == NULL)
    && st.phase.Keys == jobs.Keys == st.next.Keys
    && forall a :: a in jobs ==> st.phase[a] == Start
  }

  // ---------------------------------------------------------------- steps

  /** The relaxed load may observe any value. */
  ghost predicate Load(jobs: Jobs, st: State, st': State, a: Addr, seen: Word) {
    && a in st.phase && st.phase[a] == Start
    && st' == st.(phase := st.phase[a := Trying(seen)])
  }

  ghost predicate CasFails(jobs: Jobs, st: State, st': State, a: Addr) {
    && a in jobs && a in st.phase && st.phase[a].Trying? && jobs[a].bucket < |st.headers|
    && st' == st.(phase := st.phase[a := Trying(st.headers[jobs[a].bucket])])
  }

  ghost predicate CasSucceeds(jobs: Jobs, st: State, st': State, a: Addr) {
    && a in jobs && a in st.phase && st.phase[a].Trying? && jobs[a].bucket < |st.headers|
    && var b, oldHeader := jobs[a].bucket, st.phase[a].oldHeader;
    && st.headers[b] == oldHeader
    && st' == st.(headers := st.headers[b := CombineHeader(NewHeader(a, jobs[a].hash), oldHeader)],
                  phase := st.phase[a := Linking(oldHeader)])
  }

  ghost predicate Link(jobs: Jobs, st: State, st': State, a: Addr) {
    && a in st.phase && st.phase[a].Linking?
    && st' == st.(next := st.next[a := RemoveHeaderTag(st.phase[a].oldHeader)],
                  phase := st.phase[a := Done])
  }

  ghost predicate StepOf(jobs: Jobs, st: State, st': State, a: Addr) {
    || (exists seen :: Load(jobs, st, st', a, seen))
    || CasFails(jobs, st, st', a)
    || CasSucceeds(jobs, st, st', a)
    || Link(jobs, st, st', a)
  }

  ghost predicate Step(jobs: Jobs, st: State, st': State) {
    exists a :: StepOf(jobs, st, st', a)
  }

  /** A run: any interleaving of the steps of all calls. */
  ghost predicate IsRun(jobs: Jobs, capacity: nat, run: seq<State>) {
    && |run| > 0 && Init(jobs, capacity, run[0])
    && forall i :: 0 <= i < |run| - 1 ==> Step(jobs, run[i], run[i + 1])
  }

  // ---------------------------------------------------------------- invariant

  /** The entries pushed on each bucket so far, latest first. */
  type Chains = seq<seq<Addr>>

  ghost predicate NoRepeats(c: seq<Addr>) {
    forall i, j :: 0 <= i < j < |c| ==> c[i] != c[j]
  }

  function Front(c: seq<Addr>): Addr { if c == [] then NULL else c[0] }

  ghost predicate Pushed(st: State, a: Addr) {
    a in st.phase && (st.phase[a].Linking? || st.phase[a].Done?)
  }

  /** What the entry `c[i]` links to, or is about to link to. */
  ghost predicate Linked(st: State, c: seq<Addr>, i: nat)
    requires i < |c|
  {
    && Pushed(st, c[i]) && c[i] in st.next
    && (if st.phase[c[i]].Done? then st.next[c[i]] else RemoveHeaderTag(st.phase[c[i]].oldHeader)) == Front(c[i + 1..])
  }

  /** The header of a bucket agrees with its chain: pointer, emptiness and exact filter. */
  ghost predicate HeaderMatches(jobs: Jobs, header: Word, c: seq<Addr>)
    requires forall a :: a in c ==> a in jobs
  {
    && RemoveHeaderTag(header) == Front(c)
    && (header == NULL <==> c == [])
    && forall h: Word :: EarlyFiltering(header, h) <==> exists a :: a in c && SameTag(jobs[a].hash, h)
  }

  ghost predicate BucketInv(jobs: Jobs, st: State, b: nat, c: seq<Addr>)
    requires b < |st.headers|
  {
    && (forall a :: a in c <==> a in jobs && jobs[a].bucket == b && Pushed(st, a))
    && NoRepeats(c)
    && HeaderMatches(jobs, st.headers[b], c)
    && forall i :: 0 <= i < |c| ==> Linked(st, c, i)
  }

  ghost predicate Inv(jobs: Jobs, capacity: nat, st: State, chains: Chains) {
    && |st.headers| == capacity == |chains|
    && st.phase.Keys == jobs.Keys == st.next.Keys
    && forall b :: 0 <= b < capacity ==> BucketInv(jobs, st, b, chains[b])
  }

  lemma InitInv(jobs: Jobs, capacity: nat, st: State) returns (chains: Chains)
    requires Init(jobs, capacity, st)
    ensures Inv(jobs, capacity, st, chains)
  {
    chains := seq(capacity, _ => []);
    forall b | 0 <= b < capacity ensures BucketInv(jobs, st, b, chains[b]) {
      forall h: Word ensures !EarlyFiltering(NULL, h) { NullHeader(h); }
      assert RemoveHeaderTag(NULL) == NULL;
    }
  }

  /** A step that leaves the headers alone and does not push keeps every chain. */
  lemma QuietStep(jobs: Jobs, capacity: nat, st: State, st': State, chains: Chains)
    requires Inv(jobs, capacity, st, chains)
    requires st'.headers == st.headers && st'.phase.Keys == st.phase.Keys && st'.next.Keys == st.next.Keys
    requires forall a :: a in st.phase ==> (Pushed(st, a) <==> Pushed(st', a))
    requires forall b, i :: 0 <= b < capacity && 0 <= i < |chains[b]| && Linked(st, chains[b], i) ==> Linked(st', chains[b], i)
    ensures Inv(jobs, capacity, st', chains)
  {
    forall b | 0 <= b < capacity ensures BucketInv(jobs, st', b, chains[b]) {
      assert BucketInv(jobs, st, b, chains[b]);
    }
  }

  lemma PushBucket(jobs: Jobs, st: State, st': State, a: Addr, c: seq<Addr>)
    requires CasSucceeds(jobs, st, st', a) && IsPointer(a) && a in st.next
    requires BucketInv(jobs, st, jobs[a].bucket, c)
    ensures BucketInv(jobs, st', jobs[a].bucket, [a] + c)
  {
    var b, c' := jobs[a].bucket, [a] + c;
    assert a !in c;
    forall x ensures x in c' <==> x in jobs && jobs[x].bucket == b && Pushed(st', x) {
      assert x in c' <==> x == a || x in c;
    }
    forall i | 0 <= i < |c'| ensures Linked(st', c', i) {
      if i == 0 {
        assert c'[1..] == c;
      } else {
        assert Linked(st, c, i - 1);
        assert c'[i] == c[i - 1] && c'[i + 1..] == c[i..];
      }
    }
    PushFilter(jobs, a, st.headers[b], c);
  }

  lemma PushFilter(jobs: Jobs, a: Addr, oldHeader: Word, c: seq<Addr>)
    requires a in jobs && IsPointer(a) && (forall x :: x in c ==> x in jobs) && HeaderMatches(jobs, oldHeader, c)
    ensures forall x :: x in [a] + c ==> x in jobs
    ensures HeaderMatches(jobs, CombineHeader(NewHeader(a, jobs[a].hash), oldHeader), [a] + c)
  {
    var hash, c' := jobs[a].hash, [a] + c;
    PushedPointer(a, hash, oldHeader);
    assert RemoveHeaderTag(NULL) == NULL;
    var header := CombineHeader(NewHeader(a, hash), oldHeader);
    forall h: Word ensures EarlyFiltering(header, h) <==> exists x :: x in c' && SameTag(jobs[x].hash, h) {
      PushedFilter(a, hash, oldHeader, h);
      if SameTag(hash, h) {
        assert c'[0] == a && a in c';
      } else if EarlyFiltering(oldHeader, h) {
        var x :| x in c && SameTag(jobs[x].hash, h);
        assert x in c';
      }
    }
  }

  lemma PushInv(jobs: Jobs, capacity: nat, st: State, st': State, a: Addr, chains: Chains) returns (chains': Chains)
    requires ValidJobs(jobs, capacity) && Inv(jobs, capacity, st, chains) && CasSucceeds(jobs, st, st', a)
    ensures Inv(jobs, capacity, st', chains')
  {
    var b := jobs[a].bucket;
    chains' := chains[b := [a] + chains[b]];
    PushBucket(jobs, st, st', a, chains[b]);
    forall d | 0 <= d < capacity && d != b ensures BucketInv(jobs, st', d, chains'[d]) {
      var c := chains[d];
      assert BucketInv(jobs, st, d, c);
      assert a !in c;
      forall i | 0 <= i < |c| ensures Linked(st', c, i) {
        assert Linked(st, c, i) && c[i] in c;
      }
    }
  }

  lemma TryInv(jobs: Jobs, capacity: nat, st: State, st': State, a: Addr, seen: Word, chains: Chains)
    requires Inv(jobs, capacity, st, chains)
    requires a in st.phase && !Pushed(st, a) && st' == st.(phase := st.phase[a := Trying(seen)])
    ensures Inv(jobs, capacity, st', chains)
  {
    QuietStep(jobs, capacity, st, st', chains);
  }

  lemma LinkInv(jobs: Jobs, capacity: nat, st: State, st': State, a: Addr, chains: Chains)
    requires Inv(jobs, capacity, st, chains) && Link(jobs, st, st', a)
    ensures Inv(jobs, capacity, st', chains)
  {
    QuietStep(jobs, capacity, st, st', chains);
  }

  lemma StepInv(jobs: Jobs, capacity: nat, st: State, st': State, chains: Chains) returns (chains': Chains)
    requires ValidJobs(jobs, capacity) && Inv(jobs, capacity, st, chains) && Step(jobs, st, st')
    ensures Inv(jobs, capacity, st', chains')
  {
    chains' := chains;
    var a :| StepOf(jobs, st, st', a);
    if CasSucceeds(jobs, st, st', a) {
      chains' := PushInv(jobs, capacity, st, st', a, chains);
    } else if Link(jobs, st, st', a) {
      LinkInv(jobs, capacity, st, st', a, chains);
    } else {
      TryInv(jobs, capacity, st, st', a, st'.phase[a].oldHeader, chains);
    }
  }

  lemma {:induction false} RunInv(jobs: Jobs, capacity: nat, run: seq<State>) returns (chains: Chains)
    requires ValidJobs(jobs, capacity) && IsRun(jobs, capacity, run)
    ensures Inv(jobs, capacity, run[|run| - 1], chains)
    decreases |run|
  {
    var n := |run| - 1;
    if n == 0 {
      chains := InitInv(jobs, capacity, run[0]);
    } else {
      chains := RunInv(jobs, capacity, run[..n]);
      assert Step(jobs, run[n - 1], run[n - 1 + 1]);
      chains := StepInv(jobs, capacity, run[n - 1], run[n], chains);
    }
  }

  // ---------------------------------------------------------------- the finished table

  /** Following `next` from `ptr` visits exactly the addresses of `c`, in order, and ends. */
  predicate IsChain(next: map<Addr, Addr>, ptr: Addr, c: seq<Addr>)
    decreases |c|
  {
    if c == [] then ptr == NULL else ptr == c[0] && ptr != NULL && ptr in next && IsChain(next, next[ptr], c[1..])
  }

  /** What a probe of bucket `b` relies on. */
  ghost predicate Built(jobs: Jobs, st: State, b: nat, c: seq<Addr>)
    requires b < |st.headers|
  {
    && NoRepeats(c)
    && (forall a :: a in c <==> a in jobs && jobs[a].bucket == b)
    && IsChain(st.next, RemoveHeaderTag(st.headers[b]), c)
    && (st.headers[b] == NULL <==> c == [])
    && forall h: Word :: EarlyFiltering(st.headers[b], h) <==> exists a :: a in c && SameTag(jobs[a].hash, h)
  }

  lemma {:induction false} ChainOfLinks(st: State, c: seq<Addr>)
    requires forall i :: 0 <= i < |c| ==> Linked(st, c, i) && st.phase[c[i]].Done? && c[i] != NULL
    ensures IsChain(st.next, Front(c), c)
    decreases |c|
  {
    if c != [] {
      var d := c[1..];
      forall i | 0 <= i < |d| ensures Linked(st, d, i) && st.phase[d[i]].Done? && d[i] != NULL {
        assert Linked(st, c, i + 1) && d[i + 1..] == c[i + 2..];
      }
      assert Linked(st, c, 0);
      ChainOfLinks(st, d);
    }
  }

  /** Whatever the interleaving, once every call has returned each bucket's chain is finite, has no
      repeats, holds exactly the entries of that bucket, and its header filter is exact. */
  lemma BuildIsComplete(jobs: Jobs, capacity: nat, run: seq<State>) returns (chains: Chains)
    requires ValidJobs(jobs, capacity) && IsRun(jobs, capacity, run)
    requires forall a :: a in jobs ==> a in run[|run| - 1].phase && run[|run| - 1].phase[a] == Done
    ensures |chains| == capacity == |run[|run| - 1].headers|
    ensures forall b :: 0 <= b < capacity ==> Built(jobs, run[|run| - 1], b, chains[b])
  {
    chains := RunInv(jobs, capacity, run);
    var st := run[|run| - 1];
    forall b | 0 <= b < capacity ensures Built(jobs, st, b, chains[b]) {
      assert BucketInv(jobs, st, b, chains[b]);
      assert forall i :: 0 <= i < |chains[b]| ==> chains[b][i] in chains[b];
      ChainOfLinks(st, chains[b]);
    }
  }

  // ---------------------------------------------------------------- no call can get stuck

  ghost function Unfinished(st: State): set<Addr> {
    set a | a in st.phase && st.phase[a] != Done
  }

  lemma Extend(jobs: Jobs, capacity: nat, run: seq<State>, st': State, a: Addr)
    requires IsRun(jobs, capacity, run) && StepOf(jobs, run[|run| - 1], st', a)
    ensures IsRun(jobs, capacity, run + [st'])
  {
    var longer := run + [st'];
    forall i | 0 <= i < |longer| - 1 ensures Step(jobs, longer[i], longer[i + 1]) {
      if i < |run| - 1 {
        assert Step(jobs, run[i], run[i + 1]);
      } else {
        assert StepOf(jobs, longer[i], longer[i + 1], a);
      }
    }
  }

  lemma FinishLinking(jobs: Jobs, capacity: nat, run: seq<State>, a: Addr) returns (run': seq<State>)
    requires IsRun(jobs, capacity, run) && a in run[|run| - 1].phase && run[|run| - 1].phase[a].Linking?
    ensures IsRun(jobs, capacity, run') && run <= run'
    ensures run'[|run'| - 1].phase == run[|run| - 1].phase[a := Done]
  {
    var st := run[|run| - 1];
    var st' := st.(next := st.next[a := RemoveHeaderTag(st.phase[a].oldHeader)], phase := st.phase[a := Done]);
    Extend(jobs, capacity, run, st', a);
    run' := run + [st'];
  }

  lemma FinishTrying(jobs: Jobs, capacity: nat, run: seq<State>, a: Addr) returns (run': seq<State>)
    requires ValidJobs(jobs, capacity) && IsRun(jobs, capacity, run) && a in jobs
    requires a in run[|run| - 1].phase && run[|run| - 1].phase[a].Trying? && |run[|run| - 1].headers| == capacity
    ensures IsRun(jobs, capacity, run') && run <= run'
    ensures run'[|run'| - 1].phase == run[|run| - 1].phase[a := Done]
  {
    var st, b := run[|run| - 1], jobs[a].bucket;
    var st1 := st.(phase := st.phase[a := Trying(st.headers[b])]);
    Extend(jobs, capacity, run, st1, a);
    var st2 := st1.(headers := st1.headers[b := CombineHeader(NewHeader(a, jobs[a].hash), st.headers[b])],
                    phase := st1.phase[a := Linking(st.headers[b])]);
    assert CasSucceeds(jobs, st1, st2, a);
    Extend(jobs, capacity, run + [st1], st2, a);
    run' := FinishLinking(jobs, capacity, run + [st1] + [st2], a);
  }

  /** In any reachable state a pending call that runs alone finishes. */
  lemma FinishOne(jobs: Jobs, capacity: nat, run: seq<State>, a: Addr) returns (run': seq<State>)
    requires ValidJobs(jobs, capacity) && IsRun(jobs, capacity, run) && a in jobs
    ensures IsRun(jobs, capacity, run') && run <= run'
    ensures run'[|run'| - 1].phase == run[|run| - 1].phase[a := Done]
  {
    var _ := RunInv(jobs, capacity, run);
    var st := run[|run| - 1];
    match st.phase[a]
    case Start =>
      var st' := st.(phase := st.phase[a := Trying(NULL)]);
      assert Load(jobs, st, st', a, NULL);
      Extend(jobs, capacity, run, st', a);
      run' := FinishTrying(jobs, capacity, run + [st'], a);
    case Trying(_) =>
      run' := FinishTrying(jobs, capacity, run, a);
    case Linking(_) =>
      run' := FinishLinking(jobs, capacity, run, a);
    case Done =>
      run' := run;
  }

  /** Every run can be continued until all calls have returned. */
  lemma {:induction false} CanFinish(jobs: Jobs, capacity: nat, run: seq<State>) returns (run': seq<State>)
    requires ValidJobs(jobs, capacity) && IsRun(jobs, capacity, run)
    ensures IsRun(jobs, capacity, run') && run <= run'
    ensures forall a :: a in jobs ==> a in run'[|run'| - 1].phase && run'[|run'| - 1].phase[a] == Done
    decreases |Unfinished(run[|run| - 1])|
  {
    var _ := RunInv(jobs, capacity, run);
    var st := run[|run| - 1];
    if Unfinished(st) == {} {
      run' := run;
      forall a | a in jobs ensures st.phase[a] == Done { assert a !in Unfinished(st); }
    } else {
      var a :| a in Unfinished(st);
      run' := FinishOne(jobs, capacity, run, a);
      assert Unfinished(run'[|run'| - 1]) == Unfinished(st) - {a};
      run' := CanFinish(jobs, capacity, run');
    }
  }
}
