/**
 engine/engine.go under concurrency: any number of Evaluate, Decide, Emit, Reload and SetSink
 calls, interleaved at the granularity of single field accesses, with the read-write lock
 modelled as a lock.
 */
module EngineConcurrency {
  import opened Bytes
  import opened RuleEngine

  /** Which callback is installed. */
  type SinkRef = Option<nat>

  datatype Call =
    | Evaluate(q: Query, meta: Meta)
    | Decide(q: Query)
    | Emit(decision: Decision, sql: bytes, meta: Meta)
    | Reload(rules: seq<Rule>)
    | SetSink(sink: SinkRef)

  /** Where a call stands.  The phases Locked to Snapshot hold the read lock. */
  datatype Phase =
    | Waiting
    | Locked
    | RulesRead(rules: seq<Rule>)
    | Snapshot(rules: seq<Rule>, sink: SinkRef)
    | Scanning(rules: seq<Rule>, sink: SinkRef, next: nat)
    | Sending(decision: Decision, sink: SinkRef)
    | WriteLocked
    | Written
    | Returned(result: Option<Decision>)

  datatype Thread = Thread(call: Call, phase: Phase)

  /** One invocation of a sink, with the thread that made it. */
  datatype Sent = Sent(thread: nat, sink: nat, event: Event)

  datatype State = State(rules: seq<Rule>, sink: SinkRef,
                         readers: set<nat>, writer: Option<nat>,
                         threads: map<nat, Thread>, sent: seq<Sent>)

  // ---- steps ----

  predicate Writes(c: Call) { c.Reload? || c.SetSink? }

  predicate HoldsRead(p: Phase) { p.Locked? || p.RulesRead? || p.Snapshot? }

  predicate HoldsWrite(p: Phase) { p.WriteLocked? || p.Written? }

  /** Where the next step of thread `t` takes it; None when it has returned or must wait for the lock. */
  function NextPhase(s: State, t: nat, fold: Fold): Option<Phase>
    requires t in s.threads
  {
    var c := s.threads[t].call;
    match s.threads[t].phase
    case Waiting =>
      if s.writer.Some? || (Writes(c) && s.readers != {}) then None
      else Some(if Writes(c) then WriteLocked else Locked)
    case WriteLocked => Some(Written)
    case Written => Some(Returned(None))
    case Locked =>
      Some(if c.Evaluate? then RulesRead(s.rules)
           else if c.Decide? then Snapshot(s.rules, None) else Snapshot([], s.sink))
    case RulesRead(rules) => Some(Snapshot(rules, s.sink))
    case Snapshot(rules, sink) =>
      Some(if c.Emit? then Sending(c.decision, sink) else Scanning(rules, sink, 0))
    case Scanning(rules, sink, i) =>
      if !c.Evaluate? && !c.Decide? then None
      else if i < |rules| && !Matches(rules[i], c.q, fold) then Some(Scanning(rules, sink, i + 1))
      else
        var d := if i < |rules| then Decision(rules[i].action, rules[i].name) else DEFAULT_ALLOW;
        Some(if c.Evaluate? then Sending(d, sink) else Returned(Some(d)))
    case Sending(d, sink) => Some(Returned(if c.Evaluate? then Some(d) else None))
    case Returned(_) => None
  }

  /** What sending decision `d` to the sink a call has read amounts to. */
  function Sends(t: nat, d: Decision, sink: SinkRef, sql: bytes, meta: Meta): seq<Sent> {
    if sink.None? || d.action == Ignore then [] else [Sent(t, sink.value, Event(d.action, d.rule, sql, meta))]
  }

  /** The sink invocations of the next step of thread `t`. */
  function Output(t: nat, th: Thread): seq<Sent> {
    if !th.phase.Sending? then []
    else match th.call
      case Evaluate(q, meta) => Sends(t, th.phase.decision, th.phase.sink, q.sql, meta)
      case Emit(_, sql, meta) => Sends(t, th.phase.decision, th.phase.sink, sql, meta)
      case _ => []
  }

  /** The next step of thread `t`: it enters and leaves the lock with its phase, installs what a writer
      brings, and invokes the sink. */
  function Step(s: State, t: nat, fold: Fold): Option<State>
    requires t in s.threads
  {
    var c := s.threads[t].call;
    match NextPhase(s, t, fold)
    case None => None
    case Some(p) =>
      Some(State(if p.Written? && c.Reload? then c.rules else s.rules,
                 if p.Written? && c.SetSink? then c.sink else s.sink,
                 s.readers - {t} + (if HoldsRead(p) then {t} else {}),
                 if HoldsWrite(p) then Some(t) else if s.writer == Some(t) then None else s.writer,
                 s.threads[t := Thread(c, p)],
                 s.sent + Output(t, s.threads[t])))
  }

  predicate Init(s: State) {
    && s.readers == {} && s.writer == None && s.sent == []
    && forall t | t in s.threads :: s.threads[t].phase == Waiting
  }

  ghost predicate Next(s: State, s': State, fold: Fold) {
    exists t | t in s.threads :: Step(s, t, fold) == Some(s')
  }

  /** A run: any interleaving of the calls present in its first state. */
  ghost predicate IsRun(run: seq<State>, fold: Fold) {
    && run != [] && Init(run[0])
    && forall i | 0 <= i < |run| - 1 :: Next(run[i], run[i+1], fold)
  }

  // ---- what every step keeps ----

  /** The lock's own records agree with where the threads are, and a writer is alone. */
  ghost predicate LockOK(s: State) {
    && (s.writer.Some? ==> s.readers == {})
    && (forall t :: t in s.readers <==> t in s.threads && HoldsRead(s.threads[t].phase))
    && (forall t :: s.writer == Some(t) <==> t in s.threads && HoldsWrite(s.threads[t].phase))
  }

  /** What a thread has read while it holds the read lock is what is installed. */
  ghost predicate ReadsOK(s: State, th: Thread) {
    match th.phase
    case RulesRead(rules) => th.call.Evaluate? && rules == s.rules
    case Snapshot(rules, sink) =>
      && (th.call.Evaluate? || th.call.Decide? ==> rules == s.rules)
      && (th.call.Evaluate? || th.call.Emit? ==> sink == s.sink)
      && !Writes(th.call)
    case Locked => !Writes(th.call)
    case WriteLocked => Writes(th.call)
    case Written => Writes(th.call)
    case Scanning(rules, _, i) => (th.call.Evaluate? || th.call.Decide?) && i <= |rules|
    case Sending(_, _) => th.call.Evaluate? || th.call.Emit?
    case _ => true
  }

  /** The rules already passed over do not match. */
  predicate ScanOK(th: Thread, fold: Fold) {
    th.phase.Scanning? && (th.call.Evaluate? || th.call.Decide?) ==>
      forall i | 0 <= i < th.phase.next && i < |th.phase.rules| :: !Matches(th.phase.rules[i], th.call.q, fold)
  }

  ghost predicate Inv(s: State, fold: Fold) {
    && LockOK(s)
    && forall t | t in s.threads :: ReadsOK(s, s.threads[t]) && ScanOK(s.threads[t], fold)
  }

  lemma InvHoldsInitially(s: State, fold: Fold)
    requires Init(s)
    ensures Inv(s, fold)
  {
  }

  lemma LockIsKept(s: State, t: nat, fold: Fold)
    requires Inv(s, fold) && t in s.threads && Step(s, t, fold).Some?
    ensures LockOK(Step(s, t, fold).value)
  {
    hide Matches, Output, ScanOK;
    assert ReadsOK(s, s.threads[t]);
  }

  /** Another thread's step does not disturb what a reader has read: a writer cannot be there. */
  lemma OthersKeepReads(s: State, t: nat, u: nat, fold: Fold)
    requires Inv(s, fold) && t in s.threads && u in s.threads && u != t && Step(s, t, fold).Some?
    ensures ReadsOK(Step(s, t, fold).value, s.threads[u])
  {
    hide Matches, Output, ScanOK;
    assert ReadsOK(s, s.threads[u]) && ReadsOK(s, s.threads[t]);
  }

  lemma OwnStepIsOK(s: State, t: nat, fold: Fold)
    requires Inv(s, fold) && t in s.threads && Step(s, t, fold).Some?
    ensures
      var s' := Step(s, t, fold).value;
      ReadsOK(s', s'.threads[t]) && ScanOK(s'.threads[t], fold)
  {
    hide Matches, Output, LockOK;
    assert ReadsOK(s, s.threads[t]) && ScanOK(s.threads[t], fold);
  }

  lemma InvIsKept(s: State, t: nat, fold: Fold)
    requires Inv(s, fold) && t in s.threads && Step(s, t, fold).Some?
    ensures Inv(Step(s, t, fold).value, fold)
  {
    hide ReadsOK, ScanOK, NextPhase, LockOK;
    LockIsKept(s, t, fold);
    OwnStepIsOK(s, t, fold);
    var s' := Step(s, t, fold).value;
    forall u | u in s'.threads ensures ReadsOK(s', s'.threads[u]) && ScanOK(s'.threads[u], fold) {
      if u != t { OthersKeepReads(s, t, u, fold); }
    }
  }

  lemma {:induction false} InvHoldsInRun(run: seq<State>, k: nat, fold: Fold)
    requires IsRun(run, fold) && k < |run|
    ensures Inv(run[k], fold)
    decreases k
  {
    if k == 0 {
      InvHoldsInitially(run[0], fold);
    } else {
      InvHoldsInRun(run, k - 1, fold);
      assert Next(run[k-1], run[k-1+1], fold);
      var t :| t in run[k-1].threads && Step(run[k-1], t, fold) == Some(run[k]);
      InvIsKept(run[k-1], t, fold);
    }
  }

  /** Whenever some call has not returned, some call can take a step. */
  lemma NoDeadlock(s: State, fold: Fold, waiting: nat)
    requires Inv(s, fold) && waiting in s.threads && !s.threads[waiting].phase.Returned?
    ensures exists t | t in s.threads :: Step(s, t, fold).Some?
  {
    if s.writer.Some? {
      assert Step(s, s.writer.value, fold).Some?;
    } else if s.readers != {} {
      var t :| t in s.readers;
      assert Step(s, t, fold).Some?;
    } else {
      assert Step(s, waiting, fold).Some?;
    }
  }

  // ---- atomicity ----

  /** The sink invocations made by one thread. */
  function SentBy(sent: seq<Sent>, t: nat): seq<Sent> {
    if sent == [] then []
    else SentBy(sent[..|sent|-1], t) + (if sent[|sent|-1].thread == t then [sent[|sent|-1]] else [])
  }

  /** The configuration thread `t` works with at `k` was the installed one in state `j`, in which `t`
      still held the read lock, and its decision and invocations so far are those that follow from it. */
  ghost predicate FollowsFrom(run: seq<State>, k: nat, t: nat, j: nat, fold: Fold)
    requires j <= k < |run| && t in run[j].threads && t in run[k].threads
  {
    var was, th := run[j], run[k].threads[t];
    && was.threads[t].phase.Snapshot?
    && match th.phase
       case Snapshot(rules, sink) => j == k && SentBy(run[k].sent, t) == []
       case Scanning(rules, sink, _) =>
         && rules == was.rules && SentBy(run[k].sent, t) == []
         && (th.call.Evaluate? ==> sink == was.sink)
       case Sending(d, sink) =>
         && sink == was.sink && SentBy(run[k].sent, t) == []
         && (th.call.Evaluate? ==> d == FirstMatch(was.rules, th.call.q, fold))
         && (th.call.Emit? ==> d == th.call.decision)
       case Returned(result) =>
         (match th.call
          case Evaluate(q, meta) =>
            && result == Some(FirstMatch(was.rules, q, fold))
            && SentBy(run[k].sent, t) == Sends(t, FirstMatch(was.rules, q, fold), was.sink, q.sql, meta)
          case Decide(q) =>
            result == Some(FirstMatch(was.rules, q, fold)) && SentBy(run[k].sent, t) == []
          case Emit(d, sql, meta) =>
            result == None && SentBy(run[k].sent, t) == Sends(t, d, was.sink, sql, meta)
          case _ => false)
       case _ => false
  }

  predicate PastSnapshot(th: Thread) {
    !Writes(th.call) && (th.phase.Snapshot? || th.phase.Scanning? || th.phase.Sending? || th.phase.Returned?)
  }

  lemma {:induction false} SentByOfConcat(a: seq<Sent>, b: seq<Sent>, t: nat)
    requires |b| <= 1
    ensures SentBy(a + b, t) == SentBy(a, t) + (if b != [] && b[0].thread == t then b else [])
  {
    if b == [] {
      assert a + b == a;
    } else {
      assert (a + b)[..|a|] == a;
    }
  }

  /** What a step of thread `u` means for thread `t`. */
  lemma StepSeenBy(s: State, u: nat, t: nat, fold: Fold)
    requires u in s.threads && t in s.threads && Step(s, u, fold).Some?
    ensures
      var s' := Step(s, u, fold).value;
      && NextPhase(s, u, fold).Some?
      && t in s'.threads && s'.threads[t].call == s.threads[t].call
      && s'.threads[t].phase == (if u == t then NextPhase(s, u, fold).value else s.threads[t].phase)
      && SentBy(s'.sent, t) == SentBy(s.sent, t) + (if u == t then Output(t, s.threads[t]) else [])
  {
    hide NextPhase;
    SentByOfConcat(s.sent, Output(u, s.threads[u]), t);
  }

  /** The thread whose step led to state `k`. */
  lemma StepInto(run: seq<State>, k: nat, fold: Fold) returns (u: nat)
    requires IsRun(run, fold) && 0 < k < |run|
    ensures u in run[k-1].threads && Step(run[k-1], u, fold) == Some(run[k])
    ensures run[k].threads.Keys == run[k-1].threads.Keys
    ensures Inv(run[k-1], fold) && Inv(run[k], fold)
  {
    hide Inv, Init, NextPhase, Output;
    assert Next(run[k-1], run[k-1+1], fold);
    u :| u in run[k-1].threads && Step(run[k-1], u, fold) == Some(run[k]);
    InvHoldsInRun(run, k - 1, fold);
    InvHoldsInRun(run, k, fold);
  }

  /** A call before its snapshot has sent nothing. */
  lemma {:induction false} NothingSentBefore(run: seq<State>, k: nat, t: nat, fold: Fold)
    requires IsRun(run, fold) && k < |run| && t in run[k].threads
    requires !PastSnapshot(run[k].threads[t])
    ensures SentBy(run[k].sent, t) == []
    decreases k
  {
    hide Step, Inv, IsRun;
    if k == 0 {
      RunStartsClean(run, fold);
    } else {
      var u := StepInto(run, k, fold);
      StepSeenBy(run[k-1], u, t, fold);
      NothingSentBefore(run, k - 1, t, fold);
    }
  }

  lemma RunStartsClean(run: seq<State>, fold: Fold)
    requires IsRun(run, fold)
    ensures run[0].sent == [] && forall t | t in run[0].threads :: run[0].threads[t].phase.Waiting?
  {
  }

  /** Every call works with one configuration that was installed while it held the read lock. */
  lemma {:induction false} WorksOnSnapshot(run: seq<State>, k: nat, t: nat, fold: Fold) returns (j: nat)
    requires IsRun(run, fold) && k < |run| && t in run[k].threads
    requires PastSnapshot(run[k].threads[t])
    ensures j <= k && t in run[j].threads && run[j].threads[t].call == run[k].threads[t].call
    ensures FollowsFrom(run, k, t, j, fold)
    decreases k
  {
    hide Step, LockOK, Matches, Init, IsRun;
    RunStartsClean(run, fold);
    var u := StepInto(run, k, fold);
    var before := run[k-1];
    StepSeenBy(before, u, t, fold);
    assert ReadsOK(before, before.threads[t]) && ScanOK(before.threads[t], fold);
    if u == t && !PastSnapshot(before.threads[t]) {
      NothingSentBefore(run, k - 1, t, fold);
      j := k;
    } else {
      j := WorksOnSnapshot(run, k - 1, t, fold);
      if run[k].threads[t].phase.Snapshot? {
        j := k;
      } else if u == t && before.threads[t].phase.Scanning? {
        ScanDecides(before.threads[t], fold);
      }
    }
  }

  /** A scan that stops has found the first match. */
  lemma ScanDecides(th: Thread, fold: Fold)
    requires th.phase.Scanning? && (th.call.Evaluate? || th.call.Decide?) && ScanOK(th, fold)
    requires th.phase.next <= |th.phase.rules|
    ensures
      var (rules, i) := (th.phase.rules, th.phase.next);
      (i < |rules| ==> Matches(rules[i], th.call.q, fold)) ==>
        FirstMatch(rules, th.call.q, fold) ==
          if i < |rules| then Decision(rules[i].action, rules[i].name) else DEFAULT_ALLOW
  {
    var rules, i := th.phase.rules, th.phase.next;
    if i < |rules| ==> Matches(rules[i], th.call.q, fold) {
      FirstMatchDecides(rules, th.call.q, fold, i);
    }
  }

  // ---- the promises of the engine, over every interleaving ----

  /** The invocations of one call are a single one, of the installed sink, with this event; none when it is to be
      ignored or no sink is installed. */
  predicate SentOnce(sent: seq<Sent>, sink: SinkRef, d: Decision, sql: bytes, meta: Meta) {
    if sink.None? || d.action == Ignore then sent == []
    else
      && |sent| == 1 && sent[0].sink == sink.value
      && sent[0].event.action == d.action && sent[0].event.rule == d.rule
      && sent[0].event.sql == sql && sent[0].event.meta == meta
  }

  /** A finished Evaluate has decided by the one rule list, and reported to the one sink, that were installed
      together at a moment when it held the read lock: no mixture of old and new, at most one event, and none
      exactly when the decision is to ignore or there was no sink. */
  lemma EvaluateIsAtomic(run: seq<State>, k: nat, t: nat, fold: Fold) returns (j: nat)
    requires IsRun(run, fold) && k < |run| && t in run[k].threads
    requires run[k].threads[t].call.Evaluate? && run[k].threads[t].phase.Returned?
    ensures j <= k && t in run[j].threads && HoldsRead(run[j].threads[t].phase)
    ensures
      var (q, meta) := (run[k].threads[t].call.q, run[k].threads[t].call.meta);
      var d := FirstMatch(run[j].rules, q, fold);
      && run[k].threads[t].phase.result == Some(d)
      && SentBy(run[k].sent, t) == Sends(t, d, run[j].sink, q.sql, meta)
      && SentOnce(SentBy(run[k].sent, t), run[j].sink, d, q.sql, meta)
  {
    hide IsRun, FirstMatch;
    j := WorksOnSnapshot(run, k, t, fold);
  }

  /** A finished Decide has decided by the rule list installed while it held the read lock, and sent nothing. */
  lemma DecideIsAtomic(run: seq<State>, k: nat, t: nat, fold: Fold) returns (j: nat)
    requires IsRun(run, fold) && k < |run| && t in run[k].threads
    requires run[k].threads[t].call.Decide? && run[k].threads[t].phase.Returned?
    ensures j <= k && t in run[j].threads && HoldsRead(run[j].threads[t].phase)
    ensures run[k].threads[t].phase.result == Some(FirstMatch(run[j].rules, run[k].threads[t].call.q, fold))
    ensures SentBy(run[k].sent, t) == []
  {
    hide IsRun, FirstMatch;
    j := WorksOnSnapshot(run, k, t, fold);
  }

  /** A finished Emit has sent its event to the sink installed while it held the read lock. */
  lemma EmitIsAtomic(run: seq<State>, k: nat, t: nat, fold: Fold) returns (j: nat)
    requires IsRun(run, fold) && k < |run| && t in run[k].threads
    requires run[k].threads[t].call.Emit? && run[k].threads[t].phase.Returned?
    ensures j <= k && t in run[j].threads && HoldsRead(run[j].threads[t].phase)
    ensures
      var (d, sql, meta) := (run[k].threads[t].call.decision, run[k].threads[t].call.sql, run[k].threads[t].call.meta);
      SentOnce(SentBy(run[k].sent, t), run[j].sink, d, sql, meta)
  {
    hide IsRun, FirstMatch;
    j := WorksOnSnapshot(run, k, t, fold);
  }

  /** Decide, and later Emit of its result to the sink that was installed when it decided: together they send
      what Evaluate would have sent at the moment of deciding, whatever reloads ran in between. */
  lemma DeferredEmitIsEvaluate(run: seq<State>, k: nat, decider: nat, emitter: nat, fold: Fold)
    returns (i: nat, j: nat)
    requires IsRun(run, fold) && k < |run| && decider in run[k].threads && emitter in run[k].threads
    requires
      var (a, b) := (run[k].threads[decider], run[k].threads[emitter]);
      && a.call.Decide? && a.phase.Returned? && b.call.Emit? && b.phase.Returned?
      && a.phase.result == Some(b.call.decision) && b.call.sql == a.call.q.sql
    ensures i <= k && decider in run[i].threads && HoldsRead(run[i].threads[decider].phase)
    ensures j <= k && emitter in run[j].threads && HoldsRead(run[j].threads[emitter].phase)
    ensures SentBy(run[k].sent, decider) == []
    ensures
      var (q, meta) := (run[k].threads[decider].call.q, run[k].threads[emitter].call.meta);
      run[j].sink == run[i].sink ==>
        && SentBy(run[k].sent, emitter) ==
           Sends(emitter, FirstMatch(run[i].rules, q, fold), run[i].sink, q.sql, meta)
        && SentOnce(SentBy(run[k].sent, emitter), run[i].sink, FirstMatch(run[i].rules, q, fold), q.sql, meta)
  {
    hide IsRun, FirstMatch;
    i := WorksOnSnapshot(run, k, decider, fold);
    j := WorksOnSnapshot(run, k, emitter, fold);
  }

  // ---- where the configuration of a snapshot comes from ----

  /** The two fields that writers install. */
  datatype Field = Rules | Sink

  predicate Sets(c: Call, f: Field) { if f.Rules? then c.Reload? else c.SetSink? }

  ghost predicate SameField(f: Field, s: State, s': State) {
    if f.Rules? then s.rules == s'.rules else s.sink == s'.sink
  }

  /** State `s` has in field `f` what call `c` brings. */
  ghost predicate Brought(c: Call, f: Field, s: State)
    requires Sets(c, f)
  {
    if f.Rules? then s.rules == c.rules else s.sink == c.sink
  }

  /** The step into state `i` is the one in which thread `w` installs what it brings. */
  predicate Installs(run: seq<State>, i: nat, w: nat) {
    && 0 < i < |run| && w in run[i-1].threads && w in run[i].threads
    && run[i-1].threads[w].phase.WriteLocked? && run[i].threads[w].phase.Written?
  }

  /** Nothing is installed in field `f` behind state `lo` up to state `hi`. */
  ghost predicate Undisturbed(run: seq<State>, f: Field, lo: nat, hi: nat)
    requires hi < |run|
  {
    forall i: nat, w: nat | lo < i <= hi && Installs(run, i, w) :: !Sets(run[i].threads[w].call, f)
  }

  /** A step installs what its thread brings when it is to, and otherwise leaves the field and installs nothing. */
  lemma InstallingStep(run: seq<State>, j: nat, u: nat, f: Field, fold: Fold)
    requires 0 < j < |run| && u in run[j-1].threads && Step(run[j-1], u, fold) == Some(run[j])
    ensures forall w: nat | Installs(run, j, w) :: w == u
    ensures if Installs(run, j, u) && Sets(run[j].threads[u].call, f) then Brought(run[j].threads[u].call, f, run[j])
            else SameField(f, run[j-1], run[j])
  {
    hide Matches, Output;
  }

  /** What is installed in any state is what the last writer of that field brought, or what was there initially. */
  lemma {:induction false} FieldOrigin(run: seq<State>, j: nat, f: Field, fold: Fold) returns (i: nat, w: nat)
    requires IsRun(run, fold) && j < |run|
    ensures i <= j && Undisturbed(run, f, i, j)
    ensures if i == 0 then SameField(f, run[0], run[j])
            else Installs(run, i, w) && Sets(run[i].threads[w].call, f) && Brought(run[i].threads[w].call, f, run[j])
    decreases j
  {
    hide Inv, IsRun, Step;
    if j == 0 {
      i, w := 0, 0;
    } else {
      var u := StepInto(run, j, fold);
      i, w := FieldOrigin(run, j - 1, f, fold);
      InstallingStep(run, j, u, f, fold);
      if Installs(run, j, u) && Sets(run[j].threads[u].call, f) {
        i, w := j, u;
      }
    }
  }

  /** A writer that is done has installed what it brought. */
  lemma {:induction false} WriterHasInstalled(run: seq<State>, m: nat, w: nat, fold: Fold) returns (i: nat)
    requires IsRun(run, fold) && m < |run| && w in run[m].threads && Writes(run[m].threads[w].call)
    requires run[m].threads[w].phase.Written? || run[m].threads[w].phase.Returned?
    ensures i <= m && Installs(run, i, w) && run[i].threads[w].call == run[m].threads[w].call
    decreases m
  {
    hide Step, LockOK, Matches, IsRun;
    RunStartsClean(run, fold);
    var u := StepInto(run, m, fold);
    StepSeenBy(run[m-1], u, w, fold);
    assert ReadsOK(run[m-1], run[m-1].threads[w]);
    if Installs(run, m, w) {
      i := m;
    } else {
      i := WriterHasInstalled(run, m - 1, w, fold);
    }
  }

  /** A call that is still waiting has been waiting all along. */
  lemma {:induction false} WaitingBefore(run: seq<State>, j: nat, m: nat, t: nat, fold: Fold)
    requires IsRun(run, fold) && j <= m < |run| && t in run[m].threads && run[m].threads[t].phase.Waiting?
    ensures t in run[j].threads && run[j].threads[t].phase.Waiting?
    decreases m
  {
    hide Step, Inv, Matches, IsRun;
    if j == m {
    } else {
      var u := StepInto(run, m, fold);
      StepSeenBy(run[m-1], u, t, fold);
      WaitingBefore(run, j, m - 1, t, fold);
    }
  }

  /** A Reload that returned before an Evaluate began is not missed: the Evaluate decides by its rules, or by
      those of a Reload that installed later. */
  lemma ReloadIsSeen(run: seq<State>, m: nat, k: nat, w: nat, t: nat, fold: Fold) returns (own: nat, i: nat, r: nat)
    requires IsRun(run, fold) && m <= k < |run| && w in run[m].threads && t in run[m].threads && t in run[k].threads
    requires run[m].threads[w].call.Reload? && run[m].threads[w].phase.Returned?
    requires run[m].threads[t].phase.Waiting?
    requires run[k].threads[t].call.Evaluate? && run[k].threads[t].phase.Returned?
    ensures own <= m && Installs(run, own, w) && run[own].threads[w].call == run[m].threads[w].call
    ensures own <= i <= k && Installs(run, i, r) && run[i].threads[r].call.Reload?
    ensures own < i || r == w
    ensures run[k].threads[t].phase.result ==
            Some(FirstMatch(run[i].threads[r].call.rules, run[k].threads[t].call.q, fold))
  {
    hide IsRun, FirstMatch, Undisturbed;
    var j := EvaluateIsAtomic(run, k, t, fold);
    if j <= m { WaitingBefore(run, j, m, t, fold); }
    own := WriterHasInstalled(run, m, w, fold);
    i, r := FieldOrigin(run, j, Rules, fold);
    if i < own { DisturbedBy(run, i, j, own, w); }
    if i == own { InstallsAlone(run, i, w, r, fold); }
  }

  lemma InstallsAlone(run: seq<State>, i: nat, w: nat, r: nat, fold: Fold)
    requires IsRun(run, fold) && Installs(run, i, w) && Installs(run, i, r)
    ensures r == w
  {
    hide Inv, IsRun, Matches, Output;
    var u := StepInto(run, i, fold);
  }

  lemma DisturbedBy(run: seq<State>, lo: nat, hi: nat, i: nat, w: nat)
    requires lo < i <= hi < |run| && Installs(run, i, w) && run[i].threads[w].call.Reload?
    ensures !Undisturbed(run, Rules, lo, hi)
  {
  }
}
