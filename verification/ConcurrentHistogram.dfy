/** Any number of recorders and one snapshot reader on the same histogram. Every atomic access is one
    step. Read-modify-writes act on the latest value; a plain load may return an older one, but no
    thread sees a location go backwards. The accesses of one recorder take effect in program order:
    this is more than relaxed atomics on different locations promise to an outside observer, and what
    is said about counters at points in between (`BucketsAheadOfCount`) refers to that order. */
module ConcurrentHistogram {
  import opened Bits
  import opened OrderStatistics
  import opened Histogram

  /** Where a recorder of `v` stands: which of its four accesses are done, and in the loop on the
      maximum, what it last read. */
  datatype Pc =
    | Idle
    | Bucketed(v: nat)
    | Counted(v: nat)
    | Summed(v: nat)
    | Looping(v: nat, cur: nat)

  /** `seen` is the position in the maximum's history this thread has got to. */
  datatype Recorder = Recorder(pc: Pc, seen: nat)

  /** The snapshot in progress: values loaded so far, the lowest value each bucket may still show this
      thread, and what that was when the scan began. */
  datatype Reader = Reader(got: seq<nat>, floor: seq<nat>, began: seq<nat>)

  /** `maxima` is the maximum's history, latest last; `started` lists the values counted so far. */
  datatype State = State(
    buckets: seq<nat>,
    count: nat,
    sum: U64,
    maxima: seq<nat>,
    recs: seq<Recorder>,
    reader: Reader,
    started: seq<nat>)

  datatype Action =
    | Bump(i: nat, v: nat)
    | IncCount(i: nat)
    | AddSum(i: nat)
    | LoadMax(i: nat, at: nat)
    | CasSucceeds(i: nat)
    | CasFails(i: nat, at: nat)
    | Leave(i: nat)
    | BeginScan(oldest: seq<nat>)
    | LoadBucket(value: nat)

  function Latest(s: seq<nat>): nat
    requires s != []
  {
    s[|s| - 1]
  }

  predicate Init(n: nat, s: State) {
    && s == State(s.buckets, 0, 0, [0], s.recs, Reader([], s.buckets, s.buckets), [])
    && s.buckets == Counts(_ => 0, [], n)
    && forall i :: 0 <= i < |s.recs| ==> s.recs[i] == Recorder(Idle, 0)
  }

  predicate Enabled(f: Bucketing, n: nat, s: State, a: Action) {
    && |s.buckets| == n && s.maxima != []
    && match a
       case Bump(i, v) => i < |s.recs| && s.recs[i].pc.Idle? && f(v) < n
       case IncCount(i) => i < |s.recs| && s.recs[i].pc.Bucketed?
       case AddSum(i) => i < |s.recs| && s.recs[i].pc.Counted?
       case LoadMax(i, at) => i < |s.recs| && s.recs[i].pc.Summed? && s.recs[i].seen <= at < |s.maxima|
       case CasSucceeds(i) =>
         && i < |s.recs| && s.recs[i].pc.Looping? && s.recs[i].pc.v > s.recs[i].pc.cur
         && Latest(s.maxima) == s.recs[i].pc.cur
       case CasFails(i, at) =>
         i < |s.recs| && s.recs[i].pc.Looping? && s.recs[i].pc.v > s.recs[i].pc.cur && s.recs[i].seen <= at < |s.maxima|
       case Leave(i) => i < |s.recs| && s.recs[i].pc.Looping? && s.recs[i].pc.v <= s.recs[i].pc.cur
       case BeginScan(oldest) => Dominated(s.reader.floor, oldest) && Dominated(oldest, s.buckets)
       case LoadBucket(value) =>
         var r := s.reader;
         |r.got| < n == |r.floor| && r.floor[|r.got|] <= value <= s.buckets[|r.got|]
  }

  function Move(s: State, i: nat, pc: Pc): State
    requires i < |s.recs|
  {
    s.(recs := s.recs[i := s.recs[i].(pc := pc)])
  }

  function See(s: State, i: nat, v: nat, at: nat): State
    requires i < |s.recs| && at < |s.maxima|
  {
    s.(recs := s.recs[i := Recorder(Looping(v, s.maxima[at]), at)])
  }

  function Apply(f: Bucketing, n: nat, s: State, a: Action): State
    requires Enabled(f, n, s, a)
  {
    match a
    case Bump(i, v) =>
      Move(s, i, Bucketed(v)).(buckets := s.buckets[f(v) := s.buckets[f(v)] + 1], started := s.started + [v])
    case IncCount(i) => Move(s, i, Counted(s.recs[i].pc.v)).(count := s.count + 1)
    case AddSum(i) => Move(s, i, Summed(s.recs[i].pc.v)).(sum := Rem(s.sum + s.recs[i].pc.v, W))
    case LoadMax(i, at) => See(s, i, s.recs[i].pc.v, at)
    case CasSucceeds(i) =>
      s.(maxima := s.maxima + [s.recs[i].pc.v], recs := s.recs[i := Recorder(Idle, |s.maxima|)])
    case CasFails(i, at) => See(s, i, s.recs[i].pc.v, at)
    case Leave(i) => Move(s, i, Idle)
    case BeginScan(oldest) => s.(reader := Reader([], oldest, oldest))
    case LoadBucket(value) =>
      s.(reader := s.reader.(got := s.reader.got + [value], floor := s.reader.floor[|s.reader.got| := value]))
  }

  predicate Path(f: Bucketing, n: nat, states: seq<State>, actions: seq<Action>) {
    && |states| == |actions| + 1
    && forall i :: 0 <= i < |actions| ==>
                   Enabled(f, n, states[i], actions[i]) && states[i + 1] == Apply(f, n, states[i], actions[i])
  }

  // ------------------------------------------------------------- the counters

  /** Recorders that have counted their bucket but not yet the total. */
  function Between(recs: seq<Recorder>): nat {
    if recs == [] then 0 else Between(recs[..|recs| - 1]) + if recs[|recs| - 1].pc.Bucketed? then 1 else 0
  }

  /** Values counted in a bucket but not yet in the sum. */
  function Unsummed(recs: seq<Recorder>): nat {
    if recs == [] then 0 else
    Unsummed(recs[..|recs| - 1]) + Pending(recs[|recs| - 1].pc)
  }

  function Pending(pc: Pc): nat {
    if pc.Bucketed? || pc.Counted? then pc.v else 0
  }

  lemma {:induction false} OneRecorderMoves(recs: seq<Recorder>, i: nat, r: Recorder)
    requires i < |recs|
    ensures Between(recs[i := r]) + (if recs[i].pc.Bucketed? then 1 else 0)
         == Between(recs) + if r.pc.Bucketed? then 1 else 0
    ensures Unsummed(recs[i := r]) + Pending(recs[i].pc) == Unsummed(recs) + Pending(r.pc)
    decreases |recs|
  {
    var k := |recs| - 1;
    if i == k {
      assert recs[i := r][..k] == recs[..k];
    } else {
      assert recs[i := r][..k] == recs[..k][i := r];
      OneRecorderMoves(recs[..k], i, r);
    }
  }

  /** The buckets count exactly the values started. */
  ghost predicate BucketsAgree(f: Bucketing, n: nat, buckets: seq<nat>, started: seq<nat>) {
    && buckets == Counts(f, started, n)
    && forall j :: 0 <= j < |started| ==> f(started[j]) < n
  }

  /** Count and sum lack exactly what is still on its way. */
  predicate TotalsAgree(started: seq<nat>, count: nat, sum: U64, between: nat, unsummed: nat) {
    && |started| == count + between
    && unsummed <= Total(started)
    && sum == Rem(Total(started) - unsummed, W)
  }

  ghost predicate CountersAgree(f: Bucketing, n: nat, s: State) {
    && BucketsAgree(f, n, s.buckets, s.started)
    && TotalsAgree(s.started, s.count, s.sum, Between(s.recs), Unsummed(s.recs))
  }

  // ------------------------------------------------------------- the maximum

  /** The recorder still has to put its value into the maximum. */
  predicate Carries(r: Recorder, v: nat) {
    !r.pc.Idle? && r.pc.v == v
  }

  ghost predicate InFlight(recs: seq<Recorder>, v: nat) {
    exists i :: 0 <= i < |recs| && Carries(recs[i], v)
  }

  predicate Rising(s: seq<nat>) {
    forall i, j :: 0 <= i <= j < |s| ==> s[i] <= s[j]
  }

  /** What a looping recorder last read is a value the maximum had. */
  predicate ReadThere(maxima: seq<nat>, r: Recorder) {
    r.pc.Looping? ==> r.seen < |maxima| && maxima[r.seen] == r.pc.cur
  }

  ghost predicate MaximumAgrees(s: State) {
    && s.maxima != [] && Rising(s.maxima)
    && (forall i :: 0 <= i < |s.recs| ==> ReadThere(s.maxima, s.recs[i]))
    && (forall i :: 0 <= i < |s.recs| && !s.recs[i].pc.Idle? ==> s.recs[i].pc.v in s.started)
    && (Latest(s.maxima) == 0 || Latest(s.maxima) in s.started)
    && (forall v :: v in s.started ==> v <= Latest(s.maxima) || InFlight(s.recs, v))
  }

  // ------------------------------------------------------------- the snapshot

  predicate Dominated(a: seq<nat>, b: seq<nat>) {
    |a| == |b| && forall i :: 0 <= i < |a| ==> a[i] <= b[i]
  }

  predicate ReaderAgrees(n: nat, s: State) {
    var r := s.reader;
    && |s.buckets| == n && Dominated(r.began, r.floor) && Dominated(r.floor, s.buckets)
    && |r.got| <= n && r.got == r.floor[..|r.got|]
  }

  ghost predicate Inv(f: Bucketing, n: nat, s: State) {
    CountersAgree(f, n, s) && MaximumAgrees(s) && ReaderAgrees(n, s)
  }

  // ------------------------------------------------------------- every step keeps it

  lemma BucketCounted(f: Bucketing, n: nat, buckets: seq<nat>, started: seq<nat>, v: nat)
    requires BucketsAgree(f, n, buckets, started) && f(v) < n
    ensures BucketsAgree(f, n, buckets[f(v) := buckets[f(v)] + 1], started + [v])
  {
    CountsOneMore(f, started, v, n);
  }

  lemma ValueStarted(started: seq<nat>, count: nat, sum: U64, between: nat, unsummed: nat, v: nat)
    requires TotalsAgree(started, count, sum, between, unsummed)
    ensures TotalsAgree(started + [v], count, sum, between + 1, unsummed + v)
  {
    TotalOneMore(started, v);
  }

  lemma ValueSummed(started: seq<nat>, count: nat, sum: U64, between: nat, unsummed: nat, v: nat)
    requires TotalsAgree(started, count, sum, between, unsummed) && v <= unsummed
    ensures TotalsAgree(started, count, Rem(sum + v, W), between, unsummed - v)
  {
    var t := Total(started) - unsummed;
    RemIsMod(t, W);
    RemIsMod(t + v, W);
    RemIsMod(sum + v, W);
    SumWraps(t, v);
  }

  lemma BumpKeepsCounters(f: Bucketing, n: nat, s: State, i: nat, v: nat)
    requires CountersAgree(f, n, s) && Enabled(f, n, s, Bump(i, v))
    ensures CountersAgree(f, n, Apply(f, n, s, Bump(i, v)))
  {
    OneRecorderMoves(s.recs, i, s.recs[i].(pc := Bucketed(v)));
    BucketCounted(f, n, s.buckets, s.started, v);
    ValueStarted(s.started, s.count, s.sum, Between(s.recs), Unsummed(s.recs), v);
  }

  lemma AddSumKeepsTotals(s: State, i: nat, v: nat)
    requires TotalsAgree(s.started, s.count, s.sum, Between(s.recs), Unsummed(s.recs))
    requires i < |s.recs| && s.recs[i].pc == Counted(v)
    ensures var recs' := s.recs[i := s.recs[i].(pc := Summed(v))];
            TotalsAgree(s.started, s.count, Rem(s.sum + v, W), Between(recs'), Unsummed(recs'))
  {
    OneRecorderMoves(s.recs, i, s.recs[i].(pc := Summed(v)));
    ValueSummed(s.started, s.count, s.sum, Between(s.recs), Unsummed(s.recs), v);
  }

  lemma AddSumKeepsCounters(f: Bucketing, n: nat, s: State, i: nat)
    requires CountersAgree(f, n, s) && Enabled(f, n, s, AddSum(i))
    ensures CountersAgree(f, n, Apply(f, n, s, AddSum(i)))
  {
    AddSumKeepsTotals(s, i, s.recs[i].pc.v);
  }

  lemma IncCountKeepsCounters(f: Bucketing, n: nat, s: State, i: nat)
    requires CountersAgree(f, n, s) && Enabled(f, n, s, IncCount(i))
    ensures CountersAgree(f, n, Apply(f, n, s, IncCount(i)))
  {
    OneRecorderMoves(s.recs, i, s.recs[i].(pc := Counted(s.recs[i].pc.v)));
  }

  /** Steps in the loop on the maximum leave the counters alone. */
  lemma LoopKeepsCounters(f: Bucketing, n: nat, s: State, s': State, i: nat, r: Recorder)
    requires CountersAgree(f, n, s) && i < |s.recs|
    requires s' == s.(recs := s.recs[i := r], maxima := s'.maxima)
    requires s.recs[i].pc.Summed? || s.recs[i].pc.Looping?
    requires r.pc.Looping? || r.pc.Idle?
    ensures CountersAgree(f, n, s')
  {
    OneRecorderMoves(s.recs, i, r);
  }

  lemma StepKeepsCounters(f: Bucketing, n: nat, s: State, a: Action)
    requires CountersAgree(f, n, s) && Enabled(f, n, s, a)
    ensures CountersAgree(f, n, Apply(f, n, s, a))
  {
    var s' := Apply(f, n, s, a);
    match a
    case Bump(i, v) => BumpKeepsCounters(f, n, s, i, v);
    case IncCount(i) => IncCountKeepsCounters(f, n, s, i);
    case AddSum(i) => AddSumKeepsCounters(f, n, s, i);
    case LoadMax(i, _) => LoopKeepsCounters(f, n, s, s', i, s'.recs[i]);
    case CasSucceeds(i) => LoopKeepsCounters(f, n, s, s', i, s'.recs[i]);
    case CasFails(i, _) => LoopKeepsCounters(f, n, s, s', i, s'.recs[i]);
    case Leave(i) => LoopKeepsCounters(f, n, s, s', i, s'.recs[i]);
    case BeginScan(_) =>
    case LoadBucket(_) =>
  }

  /** A value stays in flight when some other recorder moves, or its own goes on with it. */
  lemma StaysInFlight(recs: seq<Recorder>, i: nat, r: Recorder, v: nat)
    requires i < |recs| && InFlight(recs, v)
    requires Carries(recs[i], v) ==> Carries(r, v)
    ensures InFlight(recs[i := r], v)
  {
    var j :| 0 <= j < |recs| && Carries(recs[j], v);
    assert Carries(recs[i := r][j], v);
  }

  lemma BumpKeepsMaximum(f: Bucketing, n: nat, s: State, i: nat, v: nat)
    requires MaximumAgrees(s) && Enabled(f, n, s, Bump(i, v))
    ensures MaximumAgrees(Apply(f, n, s, Bump(i, v)))
  {
    var s' := Apply(f, n, s, Bump(i, v));
    assert s'.recs == s.recs[i := s.recs[i].(pc := Bucketed(v))];
    forall x | x in s'.started ensures x <= Latest(s'.maxima) || InFlight(s'.recs, x) {
      if x == v {
        assert Carries(s'.recs[i], v);
      } else if InFlight(s.recs, x) {
        StaysInFlight(s.recs, i, s'.recs[i], x);
      }
    }
  }

  /** A recorder that goes on with its value. */
  lemma GoingOnKeepsMaximum(s: State, s': State, i: nat, r: Recorder)
    requires MaximumAgrees(s) && i < |s.recs| && !s.recs[i].pc.Idle?
    requires Carries(r, s.recs[i].pc.v) && ReadThere(s.maxima, r)
    requires s'.recs == s.recs[i := r] && s'.maxima == s.maxima && s'.started == s.started
    ensures MaximumAgrees(s')
  {
    forall x | x in s'.started ensures x <= Latest(s'.maxima) || InFlight(s'.recs, x) {
      if InFlight(s.recs, x) {
        StaysInFlight(s.recs, i, r, x);
      }
    }
  }

  /** A recorder that is done with its value once the maximum is at least as large. */
  lemma LeavingKeepsMaximum(s: State, s': State, i: nat, r: Recorder)
    requires MaximumAgrees(s) && i < |s.recs| && !s.recs[i].pc.Idle? && r.pc.Idle?
    requires s'.recs == s.recs[i := r] && s'.started == s.started
    requires s'.maxima == s.maxima || (s'.maxima == s.maxima + [s.recs[i].pc.v] && s.recs[i].pc.v > Latest(s.maxima))
    requires s.recs[i].pc.v <= Latest(s'.maxima)
    ensures MaximumAgrees(s')
  {
    forall x | x in s'.started ensures x <= Latest(s'.maxima) || InFlight(s'.recs, x) {
      if InFlight(s.recs, x) && x != s.recs[i].pc.v {
        StaysInFlight(s.recs, i, r, x);
      }
    }
  }

  lemma LeaveKeepsMaximum(f: Bucketing, n: nat, s: State, i: nat)
    requires MaximumAgrees(s) && Enabled(f, n, s, Leave(i))
    ensures MaximumAgrees(Apply(f, n, s, Leave(i)))
  {
    assert ReadThere(s.maxima, s.recs[i]);
    assert s.maxima[s.recs[i].seen] <= Latest(s.maxima);
    LeavingKeepsMaximum(s, Apply(f, n, s, Leave(i)), i, s.recs[i].(pc := Idle));
  }

  lemma StepKeepsMaximum(f: Bucketing, n: nat, s: State, a: Action)
    requires MaximumAgrees(s) && Enabled(f, n, s, a)
    ensures MaximumAgrees(Apply(f, n, s, a))
  {
    var s' := Apply(f, n, s, a);
    match a
    case Bump(i, v) => BumpKeepsMaximum(f, n, s, i, v);
    case IncCount(i) => GoingOnKeepsMaximum(s, s', i, s'.recs[i]);
    case AddSum(i) => GoingOnKeepsMaximum(s, s', i, s'.recs[i]);
    case LoadMax(i, _) => GoingOnKeepsMaximum(s, s', i, s'.recs[i]);
    case CasSucceeds(i) => LeavingKeepsMaximum(s, s', i, s'.recs[i]);
    case CasFails(i, _) => GoingOnKeepsMaximum(s, s', i, s'.recs[i]);
    case Leave(i) => LeaveKeepsMaximum(f, n, s, i);
    case BeginScan(_) =>
    case LoadBucket(_) =>
  }

  lemma StepKeepsReader(f: Bucketing, n: nat, s: State, a: Action)
    requires ReaderAgrees(n, s) && Enabled(f, n, s, a)
    ensures ReaderAgrees(n, Apply(f, n, s, a))
  {
    if a.LoadBucket? {
      var r, r' := s.reader, Apply(f, n, s, a).reader;
      assert r'.got == r'.floor[..|r'.got|];
    }
  }

  lemma InitInv(f: Bucketing, n: nat, s: State)
    requires Init(n, s)
    ensures Inv(f, n, s)
  {
    assert Between(s.recs) == 0 && Unsummed(s.recs) == 0 by { AllIdle(s.recs); }
    assert s.buckets == Counts(f, [], n);
  }

  lemma {:induction false} InvFrom(f: Bucketing, n: nat, states: seq<State>, actions: seq<Action>, k: nat)
    requires Path(f, n, states, actions) && Inv(f, n, states[0]) && k <= |actions|
    ensures Inv(f, n, states[k])
  {
    if k > 0 {
      InvFrom(f, n, states, actions, k - 1);
      var s, a := states[k - 1], actions[k - 1];
      assert Enabled(f, n, s, a);
      StepKeepsCounters(f, n, s, a);
      StepKeepsMaximum(f, n, s, a);
      StepKeepsReader(f, n, s, a);
    }
  }

  lemma InvAlong(f: Bucketing, n: nat, states: seq<State>, actions: seq<Action>, k: nat)
    requires Path(f, n, states, actions) && Init(n, states[0]) && k <= |actions|
    ensures Inv(f, n, states[k])
  {
    InitInv(f, n, states[0]);
    InvFrom(f, n, states, actions, k);
  }

  lemma {:induction false} AllIdle(recs: seq<Recorder>)
    requires forall i :: 0 <= i < |recs| ==> recs[i].pc.Idle?
    ensures Between(recs) == 0 && Unsummed(recs) == 0
  {
    if recs != [] {
      AllIdle(recs[..|recs| - 1]);
    }
  }

  // ------------------------------------------------------------- every run

  /** At every point of every run: the bucket total is ahead of the count by exactly the recorders
      between those two increments, and the buckets count exactly the values recorded so far. */
  lemma BucketsAheadOfCount(f: Bucketing, n: nat, states: seq<State>, actions: seq<Action>, k: nat)
    requires Path(f, n, states, actions) && Init(n, states[0]) && k <= |actions|
    ensures |states[k].buckets| == n && states[k].buckets == Counts(f, states[k].started, n)
    ensures Cumulative(states[k].buckets, n) - states[k].count == Between(states[k].recs)
  {
    InvAlong(f, n, states, actions, k);
    var s := states[k];
    CumulativeIsBelow(f, s.started, n, n);
    AllBelow(f, s.started, n);
  }

  /** Once all recorders are done, count, sum and maximum are those of the recorded values. */
  lemma QuietTotals(f: Bucketing, n: nat, states: seq<State>, actions: seq<Action>, k: nat)
    requires Path(f, n, states, actions) && Init(n, states[0]) && k <= |actions|
    requires forall i :: 0 <= i < |states[k].recs| ==> states[k].recs[i].pc.Idle?
    ensures states[k].count == |states[k].started| && states[k].sum == Total(states[k].started) % W
    ensures states[k].maxima != [] && Latest(states[k].maxima) == Maximum(states[k].started)
  {
    InvAlong(f, n, states, actions, k);
    var s := states[k];
    AllIdle(s.recs);
    RemIsMod(Total(s.started), W);
    MaximumIsLargest(s.started);
    if s.started != [] {
      assert Maximum(s.started) <= Latest(s.maxima);
      if Latest(s.maxima) != 0 {
        var j :| 0 <= j < |s.started| && s.started[j] == Latest(s.maxima);
      }
    }
  }

  lemma {:induction false} DominatedTotal(a: seq<nat>, b: seq<nat>, i: nat)
    requires Dominated(a, b) && i <= |a|
    ensures Cumulative(a, i) <= Cumulative(b, i)
  {
    if i > 0 {
      DominatedTotal(a, b, i - 1);
    }
  }

  // ------------------------------------------------------------- what a snapshot can show

  /** Step `a` begins a scan, step `b` is still in it. */
  predicate Scanning(f: Bucketing, n: nat, states: seq<State>, actions: seq<Action>, a: nat, b: nat) {
    && Path(f, n, states, actions) && a < b <= |actions| && actions[a].BeginScan?
    && forall i :: a < i < b ==> !actions[i].BeginScan?
  }

  /** Buckets never shrink. */
  lemma {:induction false} BucketsGrow(f: Bucketing, n: nat, states: seq<State>, actions: seq<Action>, a: nat, b: nat)
    requires Path(f, n, states, actions) && a <= b <= |actions|
    ensures Dominated(states[a].buckets, states[b].buckets)
    decreases b
  {
    if a < b {
      BucketsGrow(f, n, states, actions, a, b - 1);
      assert Enabled(f, n, states[b - 1], actions[b - 1]);
    }
  }

  lemma {:induction false} ScanRemembersStart(f: Bucketing, n: nat, states: seq<State>, actions: seq<Action>, a: nat,
                                              b: nat)
    requires Scanning(f, n, states, actions, a, b)
    ensures states[b].reader.began == actions[a].oldest
    decreases b
  {
    assert Enabled(f, n, states[b - 1], actions[b - 1]);
    if b > a + 1 {
      ScanRemembersStart(f, n, states, actions, a, b - 1);
    }
  }

  lemma GotIsFloor(f: Bucketing, n: nat, states: seq<State>, actions: seq<Action>, a: nat, b: nat)
    requires Scanning(f, n, states, actions, a, b) && Inv(f, n, states[0]) && |states[b].reader.got| == n
    ensures Dominated(actions[a].oldest, states[b].reader.got) && Dominated(states[b].reader.got, states[b].buckets)
    ensures |states[b].buckets| == n
  {
    InvFrom(f, n, states, actions, b);
    ScanRemembersStart(f, n, states, actions, a, b);
    assert states[b].reader.got == states[b].reader.floor;
  }

  /** Whatever the memory does, a finished snapshot's total lies between the total of the oldest values
      its loads could return and the bucket total at its end. */
  lemma SnapshotWithinReach(f: Bucketing, n: nat, states: seq<State>, actions: seq<Action>, a: nat, b: nat)
    requires Scanning(f, n, states, actions, a, b) && Init(n, states[0]) && |states[b].reader.got| == n
    ensures |actions[a].oldest| == n == |states[b].buckets|
    ensures Cumulative(actions[a].oldest, n) <= Cumulative(states[b].reader.got, n) <= Cumulative(states[b].buckets, n)
  {
    InitInv(f, n, states[0]);
    GotIsFloor(f, n, states, actions, a, b);
    DominatedTotal(actions[a].oldest, states[b].reader.got, n);
    DominatedTotal(states[b].reader.got, states[b].buckets, n);
  }

  /** What a bucket may still show the reader never sinks. */
  lemma {:induction false} FloorGrows(f: Bucketing, n: nat, states: seq<State>, actions: seq<Action>, b: nat, d: nat)
    requires Path(f, n, states, actions) && Init(n, states[0]) && b <= d <= |actions|
    ensures Dominated(states[b].reader.floor, states[d].reader.floor)
    decreases d
  {
    if b < d {
      FloorGrows(f, n, states, actions, b, d - 1);
      assert Enabled(f, n, states[d - 1], actions[d - 1]);
    }
  }

  /** Whatever the memory does, a later snapshot never shows a smaller total than an earlier one. */
  lemma SnapshotsNeverGoBack(f: Bucketing, n: nat, states: seq<State>, actions: seq<Action>, b: nat, d: nat)
    requires Path(f, n, states, actions) && Init(n, states[0]) && b <= d <= |actions|
    requires |states[b].reader.got| == n == |states[d].reader.got|
    ensures Cumulative(states[b].reader.got, n) <= Cumulative(states[d].reader.got, n)
  {
    InvAlong(f, n, states, actions, b);
    InvAlong(f, n, states, actions, d);
    FloorGrows(f, n, states, actions, b, d);
    assert states[b].reader.got == states[b].reader.floor && states[d].reader.got == states[d].reader.floor;
    DominatedTotal(states[b].reader.got, states[d].reader.got, n);
  }

  /** No load between `a` and `b` returns a value the bucket had only before step `a`. */
  predicate NoneOlder(states: seq<State>, actions: seq<Action>, a: nat, b: nat)
    requires a < b <= |actions| && |states| == |actions| + 1
  {
    forall i :: a < i < b && actions[i].LoadBucket? ==>
      |states[i].reader.got| < |states[a].buckets| && states[a].buckets[|states[i].reader.got|] <= actions[i].value
  }

  /** Every load between `a` and `b` returns the newest value. */
  predicate AllNewest(states: seq<State>, actions: seq<Action>, a: nat, b: nat)
    requires a < b <= |actions| && |states| == |actions| + 1
  {
    forall i :: a < i < b && actions[i].LoadBucket? ==>
      |states[i].reader.got| < |states[i].buckets| && actions[i].value == states[i].buckets[|states[i].reader.got|]
  }

  lemma NewestIsNotOlder(f: Bucketing, n: nat, states: seq<State>, actions: seq<Action>, a: nat, b: nat)
    requires Scanning(f, n, states, actions, a, b) && AllNewest(states, actions, a, b)
    ensures NoneOlder(states, actions, a, b)
  {
    forall i | a < i < b && actions[i].LoadBucket?
      ensures |states[i].reader.got| < |states[a].buckets|
      ensures states[a].buckets[|states[i].reader.got|] <= actions[i].value
    {
      BucketsGrow(f, n, states, actions, a, i);
    }
  }

  /** The values got so far are not below what the buckets were at the start. */
  lemma {:induction false} LoadsNotBelowStart(f: Bucketing, n: nat, states: seq<State>, actions: seq<Action>, a: nat,
                                              b: nat)
    requires Scanning(f, n, states, actions, a, b) && NoneOlder(states, actions, a, b)
    ensures |states[b].reader.got| <= n == |states[a].buckets|
    ensures forall j :: 0 <= j < |states[b].reader.got| ==> states[a].buckets[j] <= states[b].reader.got[j]
    decreases b
  {
    assert Enabled(f, n, states[a], actions[a]);
    assert Enabled(f, n, states[b - 1], actions[b - 1]);
    if b > a + 1 {
      LoadsNotBelowStart(f, n, states, actions, a, b - 1);
    }
  }

  /** A finished snapshot's total lies between the bucket totals at the scan's start and end, whenever no
      load returned a value from before the start. */
  lemma SnapshotBetweenStartAndEnd(f: Bucketing, n: nat, states: seq<State>, actions: seq<Action>, a: nat, b: nat)
    requires Scanning(f, n, states, actions, a, b) && Init(n, states[0]) && |states[b].reader.got| == n
    requires NoneOlder(states, actions, a, b)
    ensures |states[a].buckets| == n == |states[b].buckets|
    ensures Cumulative(states[a].buckets, n) <= Cumulative(states[b].reader.got, n) <= Cumulative(states[b].buckets, n)
  {
    SnapshotWithinReach(f, n, states, actions, a, b);
    LoadsNotBelowStart(f, n, states, actions, a, b);
    DominatedTotal(states[a].buckets, states[b].reader.got, n);
  }

  /** In particular when every load returns the newest value, whatever older values the memory still had. */
  lemma NewestLoadsBetweenStartAndEnd(f: Bucketing, n: nat, states: seq<State>, actions: seq<Action>, a: nat, b: nat)
    requires Scanning(f, n, states, actions, a, b) && Init(n, states[0]) && |states[b].reader.got| == n
    requires AllNewest(states, actions, a, b)
    ensures |states[a].buckets| == n == |states[b].buckets|
    ensures Cumulative(states[a].buckets, n) <= Cumulative(states[b].reader.got, n) <= Cumulative(states[b].buckets, n)
  {
    NewestIsNotOlder(f, n, states, actions, a, b);
    SnapshotBetweenStartAndEnd(f, n, states, actions, a, b);
  }

  // ------------------------------------------------------------- when a snapshot cannot miss anything

  /** A run from `s` that begins with a scan and ends with its completion. */
  predicate Completes(f: Bucketing, n: nat, s: State, oldest: seq<nat>, states: seq<State>, actions: seq<Action>) {
    && actions != [] && Scanning(f, n, states, actions, 0, |actions|)
    && states[0] == s && actions[0] == BeginScan(oldest)
    && |states[|actions|].reader.got| == n
  }

  /** Every completion of the scan has at least the bucket total at its start. */
  ghost predicate NeverBelowStart(f: Bucketing, n: nat, s: State, oldest: seq<nat>) {
    forall states: seq<State>, actions: seq<Action> :: Completes(f, n, s, oldest, states, actions) ==>
      |s.buckets| == n && Cumulative(s.buckets, n) <= Cumulative(states[|actions|].reader.got, n)
  }

  /** The scan all of whose loads return the oldest value they may. */
  lemma {:induction false} OldestScan(f: Bucketing, n: nat, s: State, oldest: seq<nat>, k: nat)
    returns (states: seq<State>, actions: seq<Action>)
    requires Enabled(f, n, s, BeginScan(oldest)) && k <= n
    ensures |actions| == k + 1 && Scanning(f, n, states, actions, 0, |actions|)
    ensures states[0] == s && actions[0] == BeginScan(oldest)
    ensures states[|actions|] == s.(reader := Reader(oldest[..k], oldest, oldest))
  {
    if k == 0 {
      actions := [BeginScan(oldest)];
      states := [s, Apply(f, n, s, BeginScan(oldest))];
    } else {
      states, actions := OldestScan(f, n, s, oldest, k - 1);
      OldestLoad(f, n, s, oldest, k - 1);
      var load := LoadBucket(oldest[k - 1]);
      ScanGoesOn(f, n, states, actions, load);
      states, actions := states + [Apply(f, n, states[|actions|], load)], actions + [load];
    }
  }

  lemma OldestLoad(f: Bucketing, n: nat, s: State, oldest: seq<nat>, k: nat)
    requires Enabled(f, n, s, BeginScan(oldest)) && k < n
    ensures var mid, load := s.(reader := Reader(oldest[..k], oldest, oldest)), LoadBucket(oldest[k]);
            && Enabled(f, n, mid, load)
            && Apply(f, n, mid, load) == s.(reader := Reader(oldest[..k + 1], oldest, oldest))
  {
    assert oldest[..k] + [oldest[k]] == oldest[..k + 1];
    assert oldest[k := oldest[k]] == oldest;
  }

  lemma ScanGoesOn(f: Bucketing, n: nat, states: seq<State>, actions: seq<Action>, a: Action)
    requires actions != [] && Scanning(f, n, states, actions, 0, |actions|)
    requires !a.BeginScan? && Enabled(f, n, states[|actions|], a)
    ensures Scanning(f, n, states + [Apply(f, n, states[|actions|], a)], actions + [a], 0, |actions| + 1)
  {
  }

  lemma {:induction false} StrictlyLess(a: seq<nat>, b: seq<nat>, i: nat, j: nat)
    requires Dominated(a, b) && j < i <= |a| && a[j] < b[j]
    ensures Cumulative(a, i) < Cumulative(b, i)
  {
    if i == j + 1 {
      DominatedTotal(a, b, j);
    } else {
      StrictlyLess(a, b, i - 1, j);
    }
  }

  /** A scan can never show less than there was at its start exactly when none of its loads may return
      a value from before the start. */
  lemma NeverBelowStartIffNothingOlder(f: Bucketing, n: nat, s: State, oldest: seq<nat>)
    requires Inv(f, n, s) && Enabled(f, n, s, BeginScan(oldest))
    ensures NeverBelowStart(f, n, s, oldest) <==> oldest == s.buckets
  {
    if oldest == s.buckets {
      forall states: seq<State>, actions: seq<Action> | Completes(f, n, s, oldest, states, actions)
        ensures Cumulative(s.buckets, n) <= Cumulative(states[|actions|].reader.got, n)
      {
        GotIsFloor(f, n, states, actions, 0, |actions|);
        DominatedTotal(oldest, states[|actions|].reader.got, n);
      }
    } else {
      var j :| 0 <= j < n && oldest[j] != s.buckets[j];
      StrictlyLess(oldest, s.buckets, n, j);
      var states, actions := OldestScan(f, n, s, oldest, n);
      assert oldest[..n] == oldest;
      assert Completes(f, n, s, oldest, states, actions);
    }
  }

  /** One recorder, one bucket: a value is counted, yet a scan begun afterwards still finds nothing. */
  lemma StaleScanMissesRecord() returns (states: seq<State>, actions: seq<Action>)
    ensures Path(_ => 0, 1, states, actions) && Init(1, states[0])
    ensures |actions| == 3 && actions[1].BeginScan? && states[1].buckets == [1]
    ensures states[3].reader.got == [0] && Cumulative([0], 1) < Cumulative(states[1].buckets, 1)
  {
    var f: Bucketing := _ => 0;
    var s0 := State([0], 0, 0, [0], [Recorder(Idle, 0)], Reader([], [0], [0]), []);
    assert Counts(f, [], 1) == [0];
    var s1 := Apply(f, 1, s0, Bump(0, 5));
    assert s1.buckets == [1];
    var s2 := Apply(f, 1, s1, BeginScan([0]));
    var s3 := Apply(f, 1, s2, LoadBucket(0));
    states, actions := [s0, s1, s2, s3], [Bump(0, 5), BeginScan([0]), LoadBucket(0)];
  }
}
