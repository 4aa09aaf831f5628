/** The leader/follower protocol that shares one log sync among concurrent callers. */
module GroupCommit {

  /** A record: the log it was appended to and its position there. */
  datatype Place = Place(writer: nat, index: nat)

  /**
   * A caller of `request_sync`. The leader visits the logs in order; `pos` is the next one,
   * `started` are the log lengths when it began and `seen` those it met at each visited log.
   */
  datatype Caller =
    | Idle
    | Appended(at: Place)
    | Leader(at: Place, epoch: nat, pos: nat, started: seq<nat>, seen: seq<nat>)
    | Follower(at: Place, epoch: nat)
    | Returned(at: Place, led: bool)

  /** Per log: records appended, records on disk, and the flag that asks for a sync. */
  datatype State = State(
    appended: seq<nat>, durable: seq<nat>, dirty: seq<bool>,
    epoch: nat, pending: nat, callers: map<nat, Caller>)

  datatype Step = Append(c: nat, writer: nat) | Request(c: nat) | SyncNext(c: nat) | Finish(c: nat) | Wake(c: nat)

  predicate Enabled(s: State, step: Step) {
    step.c in s.callers &&
    match step
    case Append(c, w) => s.callers[c].Idle? && w < |s.appended| == |s.dirty|
    case Request(c) => s.callers[c].Appended?
    case SyncNext(c) => s.callers[c].Leader? && s.callers[c].pos < |s.appended| == |s.dirty| == |s.durable|
    case Finish(c) => s.callers[c].Leader? && s.callers[c].pos == |s.appended|
    case Wake(c) => s.callers[c].Follower? && s.epoch > s.callers[c].epoch
  }

  function Next(s: State, step: Step): State
    requires Enabled(s, step)
  {
    var me := s.callers[step.c];
    match step
    case Append(c, w) =>
      s.(appended := s.appended[w := s.appended[w] + 1], dirty := s.dirty[w := true],
         callers := s.callers[c := Appended(Place(w, s.appended[w]))])
    case Request(c) =>
      var role := if s.pending == 0 then Leader(me.at, s.epoch, 0, s.appended, []) else Follower(me.at, s.epoch);
      s.(pending := s.pending + 1, callers := s.callers[c := role])
    case SyncNext(c) =>
      var p := me.pos;
      var durable := if s.dirty[p] then s.durable[p := s.appended[p]] else s.durable;
      s.(durable := durable, dirty := s.dirty[p := false],
         callers := s.callers[c := me.(pos := p + 1, seen := me.seen + [s.appended[p]])])
    case Finish(c) =>
      s.(epoch := s.epoch + 1, pending := 0, callers := s.callers[c := Returned(me.at, true)])
    case Wake(c) => s.(callers := s.callers[c := Returned(me.at, false)])
  }

  // ---- What every interleaving keeps ----

  predicate OnDisk(s: State, p: Place) {
    p.writer < |s.durable| && p.index < s.durable[p.writer]
  }

  ghost predicate LogsOk(s: State) {
    && |s.appended| == |s.durable| == |s.dirty|
    && forall w | 0 <= w < |s.appended| ::
         s.durable[w] <= s.appended[w] && (!s.dirty[w] ==> s.durable[w] == s.appended[w])
  }

  predicate InLog(s: State, p: Place) {
    p.writer < |s.appended| && p.index < s.appended[p.writer]
  }

  /** The leader's own record was there when it began, and each visited log is on disk as it was met. */
  ghost predicate LeaderOk(s: State, l: Caller)
    requires l.Leader?
  {
    && l.epoch == s.epoch && l.pos == |l.seen| <= |s.appended| == |s.durable| == |l.started|
    && l.at.writer < |l.started| && l.at.index < l.started[l.at.writer]
    && (forall w | 0 <= w < l.pos :: l.started[w] <= l.seen[w] == s.durable[w])
    && (forall w | 0 <= w < |l.started| :: l.started[w] <= s.appended[w])
  }

  ghost predicate SomeLeader(s: State) {
    exists c :: c in s.callers && s.callers[c].Leader?
  }

  ghost predicate Good(s: State) {
    && LogsOk(s)
    && (s.pending > 0 <==> SomeLeader(s))
    && (forall a, b | a in s.callers && b in s.callers && s.callers[a].Leader? && s.callers[b].Leader? :: a == b)
    && (forall c | c in s.callers && s.callers[c].Leader? :: LeaderOk(s, s.callers[c]))
    && (forall c | c in s.callers && s.callers[c].Follower? ::
          s.callers[c].epoch <= s.epoch && (s.callers[c].epoch == s.epoch ==> s.pending > 0))
    && (forall c | c in s.callers && !s.callers[c].Idle? :: InLog(s, s.callers[c].at))
    && (forall c | c in s.callers && s.callers[c].Returned? && s.callers[c].led :: OnDisk(s, s.callers[c].at))
  }

  lemma AppendKeepsGood(s: State, c: nat, w: nat)
    requires Good(s) && Enabled(s, Append(c, w))
    ensures Good(Next(s, Append(c, w)))
  {
    SameLeaders(s, Next(s, Append(c, w)));
  }

  lemma RequestKeepsGood(s: State, c: nat)
    requires Good(s) && Enabled(s, Request(c))
    ensures Good(Next(s, Request(c)))
  {
    if s.pending == 0 { RequestLeads(s, c); } else { RequestFollows(s, c); }
  }

  lemma RequestLeads(s: State, c: nat)
    requires Good(s) && Enabled(s, Request(c)) && s.pending == 0
    ensures Good(Next(s, Request(c)))
  {
    var s' := Next(s, Request(c));
    assert c in s'.callers && s'.callers[c].Leader?;
  }

  lemma RequestFollows(s: State, c: nat)
    requires Good(s) && Enabled(s, Request(c)) && s.pending > 0
    ensures Good(Next(s, Request(c)))
  {
    SameLeaders(s, Next(s, Request(c)));
  }

  lemma SyncKeepsGood(s: State, c: nat)
    requires Good(s) && Enabled(s, SyncNext(c))
    ensures Good(Next(s, SyncNext(c)))
  {
    var s' := Next(s, SyncNext(c));
    SameLeaders(s, s');
    assert LeaderOk(s, s.callers[c]);
    assert LeaderOk(s', s'.callers[c]);
  }

  /** A visited log is on disk as it was met, and asks for no further sync until something is appended. */
  lemma SyncWrites(s: State, c: nat, w: nat)
    requires Good(s) && Enabled(s, SyncNext(c)) && w < |s.appended|
    ensures var p, s' := s.callers[c].pos, Next(s, SyncNext(c));
      if w == p then s'.durable[w] == s.appended[w] && !s'.dirty[w] else s'.durable[w] == s.durable[w] && s'.dirty[w] == s.dirty[w]
  {
    assert LeaderOk(s, s.callers[c]);
  }

  lemma FinishKeepsGood(s: State, c: nat)
    requires Good(s) && Enabled(s, Finish(c))
    ensures Good(Next(s, Finish(c)))
  {
    assert LeaderOk(s, s.callers[c]);
    assert !SomeLeader(Next(s, Finish(c)));
  }

  /** Helper: a step that leaves every leader in place leaves one in place. */
  lemma SameLeaders(s: State, s': State)
    requires s.callers.Keys == s'.callers.Keys
    requires forall c | c in s.callers :: s.callers[c].Leader? <==> s'.callers[c].Leader?
    ensures SomeLeader(s) <==> SomeLeader(s')
  {
    if SomeLeader(s) {
      var c :| c in s.callers && s.callers[c].Leader?;
      assert c in s'.callers && s'.callers[c].Leader?;
    }
    if SomeLeader(s') {
      var c :| c in s'.callers && s'.callers[c].Leader?;
      assert c in s.callers && s.callers[c].Leader?;
    }
  }

  lemma WakeKeepsGood(s: State, c: nat)
    requires Good(s) && Enabled(s, Wake(c))
    ensures Good(Next(s, Wake(c)))
  {
    SameLeaders(s, Next(s, Wake(c)));
  }

  lemma StepKeepsGood(s: State, step: Step)
    requires Good(s) && Enabled(s, step)
    ensures Good(Next(s, step))
  {
    match step
    case Append(c, w) => AppendKeepsGood(s, c, w);
    case Request(c) => RequestKeepsGood(s, c);
    case SyncNext(c) => SyncKeepsGood(s, c);
    case Finish(c) => FinishKeepsGood(s, c);
    case Wake(c) => WakeKeepsGood(s, c);
  }

  function Run(s: State, steps: seq<Step>): State
    requires Possible(s, steps)
    decreases steps
  {
    if steps == [] then s else Run(Next(s, steps[0]), steps[1..])
  }

  predicate Possible(s: State, steps: seq<Step>)
    decreases steps
  {
    steps == [] || (Enabled(s, steps[0]) && Possible(Next(s, steps[0]), steps[1..]))
  }

  lemma {:induction false} RunKeepsGood(s: State, steps: seq<Step>)
    requires Good(s) && Possible(s, steps)
    ensures Good(Run(s, steps))
    decreases steps
  {
    if steps != [] {
      StepKeepsGood(s, steps[0]);
      RunKeepsGood(Next(s, steps[0]), steps[1..]);
    }
  }

  function Start(writers: nat, callers: set<nat>): State {
    State(seq(writers, _ => 0), seq(writers, _ => 0), seq(writers, _ => false), 0, 0, map c | c in callers :: Idle)
  }

  /** In every interleaving: one leader at most, a leader for every waiting follower, leaders' records on disk. */
  lemma ProtocolIsSafe(writers: nat, callers: set<nat>, steps: seq<Step>)
    requires Possible(Start(writers, callers), steps)
    ensures var s := Run(Start(writers, callers), steps);
      && (forall a, b | a in s.callers && b in s.callers && s.callers[a].Leader? && s.callers[b].Leader? :: a == b)
      && (forall c | c in s.callers && s.callers[c].Follower? :: s.epoch > s.callers[c].epoch || SomeLeader(s))
      && (forall c | c in s.callers && s.callers[c].Returned? && s.callers[c].led :: OnDisk(s, s.callers[c].at))
  {
    assert Good(Start(writers, callers));
    RunKeepsGood(Start(writers, callers), steps);
  }

  /** When an epoch ends, whatever had been appended before its leader began is on disk. */
  lemma EpochCoversItsStart(writers: nat, callers: set<nat>, steps: seq<Step>, c: nat, p: Place)
    requires Possible(Start(writers, callers), steps) && Enabled(Run(Start(writers, callers), steps), Finish(c))
    requires var l := Run(Start(writers, callers), steps).callers[c];
      p.writer < |l.started| && p.index < l.started[p.writer]
    ensures OnDisk(Next(Run(Start(writers, callers), steps), Finish(c)), p)
  {
    assert Good(Start(writers, callers));
    RunKeepsGood(Start(writers, callers), steps);
  }

  /**
   * A record that arrived while the leader was syncing is on disk at the end of the epoch exactly
   * when it was appended before the leader visited its log.
   */
  lemma LateRecordDurableIff(writers: nat, callers: set<nat>, steps: seq<Step>, c: nat, p: Place)
    requires Possible(Start(writers, callers), steps) && Enabled(Run(Start(writers, callers), steps), Finish(c))
    requires p.writer < writers
    ensures var s := Run(Start(writers, callers), steps);
      p.writer < |s.callers[c].seen| &&
      (OnDisk(Next(s, Finish(c)), p) <==> p.index < s.callers[c].seen[p.writer])
  {
    assert Good(Start(writers, callers));
    RunKeepsGood(Start(writers, callers), steps);
    WriterCountFixed(Start(writers, callers), steps);
  }

  lemma {:induction false} WriterCountFixed(s: State, steps: seq<Step>)
    requires Possible(s, steps)
    ensures |Run(s, steps).appended| == |s.appended|
    decreases steps
  {
    if steps != [] { WriterCountFixed(Next(s, steps[0]), steps[1..]); }
  }

  /**
   * The comment above `request_sync` says the leader repeats its pass until no log is dirty. The
   * code makes one pass: whoever appends and joins when the pass is over returns with the record
   * not on disk, whatever the log and whatever happened before.
   */
  lemma LatecomerReturnsTooEarly(s: State, leader: nat, c: nat, w: nat)
    requires Good(s) && Enabled(s, Finish(leader)) && Enabled(s, Append(c, w))
    ensures var s1 := Next(s, Append(c, w));
      Enabled(s1, Request(c)) &&
      var s2 := Next(s1, Request(c));
      Enabled(s2, Finish(leader)) &&
      var s3 := Next(s2, Finish(leader));
      Enabled(s3, Wake(c)) &&
      var s4 := Next(s3, Wake(c));
      s4.callers[c].Returned? && !OnDisk(s4, s4.callers[c].at)
  {
    var l := s.callers[leader];
    assert LeaderOk(s, l);
    assert SomeLeader(s);
  }
}
