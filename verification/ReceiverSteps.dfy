/** The steps of any number of `handle` calls on one database, with redelivery, forged
    requests, database errors, and handlers that die before the commit or between the
    commit and the response; and what every step keeps. */
module ReceiverSteps {
  import opened Options
  import opened ReceiverTables
  import opened ReceiverSequence

  /** Where a transaction stands; `rest` are the selected refunds still to resolve. */
  datatype Stage =
    | Opened
    | Recorded(state: InboxState)
    | Resolving(rest: set<Key>)
    | Finished(outcome: Outcome)

  datatype Phase =
    | Waiting
    | Open(stage: Stage, work: Tables)
    | Committed(outcome: Outcome)
    | Answered(outcome: Outcome)
    | Dead

  datatype Handler = Handler(d: Delivery, phase: Phase)

  datatype Entry = Entry(id: nat, d: Delivery)

  /** `log` is a history variable: the deliveries whose transaction committed, in commit order. */
  datatype System = System(db: Tables, lock: Option<nat>, handlers: map<nat, Handler>, log: seq<Entry>)

  datatype Step =
    | Arrive(id: nat, d: Delivery)
    | Refuse(id: nat, d: Delivery)
    | Begin(id: nat)
    | Advance(id: nat, row: Key)
    | Fail(id: nat)
    | Commit(id: nat)
    | Answer(id: nat)
    | Die(id: nat)

  const INITIAL := System(EMPTY, None, map[], [])

  function With(s: System, id: nat, phase: Phase): System
    requires id in s.handlers
  {
    s.(handlers := s.handlers[id := s.handlers[id].(phase := phase)])
  }

  function Released(lock: Option<nat>, id: nat): Option<nat> {
    if lock == Some(id) then None else lock
  }

  /** The next statement of a transaction would break a constraint. */
  ghost predicate Violates(d: Delivery, stage: Stage, work: Tables) {
    match stage
    case Recorded(Processed) => !InsertsAllowed(work, d.key)
    case Resolving(rest) => exists k :: k in rest && !InsertsAllowed(work, k)
    case _ => false
  }

  ghost predicate Advances(d: Delivery, stage: Stage, work: Tables, row: Key, stage': Stage, work': Tables) {
    match stage
    case Opened =>
      if d.key in work.inbox then stage' == Finished(Reply(work, d)) && work' == work
      else stage' == Recorded(ArrivalState(work, d)) && work' == InsertInbox(work, d)
    case Recorded(PendingDependency) => stage' == Finished(Accepted) && work' == work
    case Recorded(Processed) =>
      && InsertsAllowed(work, d.key)
      && work' == ApplyEvent(work, d.key, d.eventType, d.orderId, d.now)
      && stage' == (if d.eventType == Refunded then Finished(Accepted)
                    else Resolving(PendingRefunds(work', d.key.profile, d.key.account, d.orderId)))
    case Resolving(rest) =>
      if rest == {} then stage' == Finished(Accepted) && work' == work
      else
        && row in rest && InsertsAllowed(work, row)
        && work' == ResolveRow(work, row, d.orderId, d.now) && stage' == Resolving(rest - {row})
    case Finished(_) => false
  }

  ghost predicate Next(s: System, step: Step, s': System) {
    match step
    case Arrive(id, d) =>
      id !in s.handlers && s' == s.(handlers := s.handlers[id := Handler(d, Waiting)])
    case Refuse(id, d) =>
      id !in s.handlers && s' == s.(handlers := s.handlers[id := Handler(d, Answered(Rejected))])
    case Begin(id) =>
      && id in s.handlers && s.handlers[id].phase == Waiting && s.lock == None
      && s' == With(s, id, Open(Opened, s.db)).(lock := Some(id))
    case Advance(id, row) =>
      && id in s.handlers && id in s'.handlers && s.handlers[id].phase.Open? && s'.handlers[id].phase.Open?
      && Advances(s.handlers[id].d, s.handlers[id].phase.stage, s.handlers[id].phase.work, row,
                  s'.handlers[id].phase.stage, s'.handlers[id].phase.work)
      && s' == With(s, id, s'.handlers[id].phase)
    case Fail(id) =>
      && id in s.handlers && (s.handlers[id].phase.Open? || s.handlers[id].phase.Waiting?)
      && s' == With(s, id, Answered(Unavailable)).(lock := Released(s.lock, id))
    case Commit(id) =>
      && id in s.handlers && s.handlers[id].phase.Open? && s.handlers[id].phase.stage.Finished?
      && s' == With(s, id, Committed(s.handlers[id].phase.stage.outcome)).(
                 lock := None, db := s.handlers[id].phase.work, log := s.log + [Entry(id, s.handlers[id].d)])
    case Answer(id) =>
      && id in s.handlers && s.handlers[id].phase.Committed?
      && s' == With(s, id, Answered(s.handlers[id].phase.outcome))
    case Die(id) =>
      && id in s.handlers && !s.handlers[id].phase.Answered?
      && s' == With(s, id, Dead).(lock := Released(s.lock, id))
  }

  function Deliveries(log: seq<Entry>): (ds: seq<Delivery>)
    ensures |ds| == |log|
    ensures forall i :: 0 <= i < |log| ==> ds[i] == log[i].d
  {
    seq(|log|, i requires 0 <= i < |log| => log[i].d)
  }

  // ---------------------------------------------------------------------
  // What every step keeps
  // ---------------------------------------------------------------------

  function AppliedOf(db: Tables, d: Delivery): Tables {
    ApplyEvent(InsertInbox(db, d), d.key, d.eventType, d.orderId, d.now)
  }

  function SelectedOf(db: Tables, d: Delivery): set<Key> {
    PendingRefunds(AppliedOf(db, d), d.key.profile, d.key.account, d.orderId)
  }

  /** An open transaction has done a prefix of `After` on the committed tables. */
  ghost predicate WorkFits(db: Tables, d: Delivery, stage: Stage, work: Tables) {
    match stage
    case Opened => work == db
    case Recorded(state) =>
      d.key !in db.inbox && state == ArrivalState(db, d) && work == InsertInbox(db, d)
    case Resolving(rest) =>
      && d.key !in db.inbox && d.eventType == Succeeded && rest <= SelectedOf(db, d)
      && work == Resolved(AppliedOf(db, d), SelectedOf(db, d) - rest, d.orderId, d.now)
    case Finished(outcome) => work == After(db, d) && outcome == Reply(db, d)
  }

  lemma ResolvingFits(db: Tables, d: Delivery, rest: set<Key>, k: Key)
    requires Inv(db) && d.key !in db.inbox && d.eventType == Succeeded && rest <= SelectedOf(db, d) && k in rest
    ensures Ready(AppliedOf(db, d), SelectedOf(db, d) - rest, k, d.orderId, d.now)
    ensures (SelectedOf(db, d) - rest) + {k} == SelectedOf(db, d) - (rest - {k})
  {
    AppliedInv(db, d);
    SelectedResolvable(db, d);
    ResolveReady(AppliedOf(db, d), SelectedOf(db, d) - rest, k, d.orderId, d.now);
  }

  lemma SelectedResolvable(db: Tables, d: Delivery)
    requires d.eventType == Succeeded
    ensures forall x :: x in SelectedOf(db, d) ==> Resolvable(AppliedOf(db, d), x, d.orderId)
  {
  }

  /** No statement of an open transaction can break a constraint. */
  lemma NoViolation(db: Tables, d: Delivery, stage: Stage, work: Tables)
    requires Inv(db) && WorkFits(db, d, stage, work)
    ensures !Violates(d, stage, work)
  {
    match stage
    case Recorded(Processed) => InvVersions(db);
    case Resolving(rest) =>
      forall k | k in rest ensures InsertsAllowed(work, k) {
        ResolvingFits(db, d, rest, k);
      }
    case _ =>
  }

  lemma AdvanceFits(db: Tables, d: Delivery, stage: Stage, work: Tables, row: Key, stage': Stage, work': Tables)
    requires Inv(db) && WorkFits(db, d, stage, work)
    requires Advances(d, stage, work, row, stage', work')
    ensures WorkFits(db, d, stage', work')
  {
    match stage
    case Opened =>
    case Recorded(Processed) =>
      if d.eventType == Succeeded {
        var all := SelectedOf(db, d);
        assert all - all == {};
        ResolvedEmpty(AppliedOf(db, d), d.orderId, d.now);
      }
    case Recorded(PendingDependency) =>
    case Resolving(rest) =>
      if rest == {} {
        assert SelectedOf(db, d) - rest == SelectedOf(db, d);
      } else {
        ResolvingFits(db, d, rest, row);
      }
    case Finished(_) =>
  }

  /** The answer is the one that the commit at its place in the log calls for. */
  ghost predicate Justified(log: seq<Entry>, id: nat, d: Delivery, outcome: Outcome) {
    exists i :: 0 <= i < |log| && log[i] == Entry(id, d) && outcome == Reply(Sequential(Deliveries(log)[..i]), d)
  }

  ghost predicate HandlerFits(s: System, id: nat, h: Handler) {
    match h.phase
    case Open(stage, work) => s.lock == Some(id) && WorkFits(s.db, h.d, stage, work)
    case Committed(outcome) => Justified(s.log, id, h.d, outcome)
    case Answered(outcome) => outcome in {Rejected, Unavailable} || Justified(s.log, id, h.d, outcome)
    case _ => true
  }

  /** The handler has left its transaction for good. */
  predicate Past(h: Handler) {
    h.phase.Committed? || h.phase.Answered? || h.phase.Dead?
  }

  ghost predicate LogFits(s: System) {
    && s.db == Sequential(Deliveries(s.log))
    && (forall i :: 0 <= i < |s.log| ==> s.log[i].id in s.handlers && Past(s.handlers[s.log[i].id]))
    && (forall i, j :: 0 <= i < j < |s.log| ==> s.log[i].id != s.log[j].id)
  }

  predicate LockFits(s: System) {
    s.lock.Some? ==> s.lock.value in s.handlers && s.handlers[s.lock.value].phase.Open?
  }

  ghost predicate HandlersFit(s: System) {
    forall id :: id in s.handlers ==> HandlerFits(s, id, s.handlers[id])
  }

  ghost predicate SystemInv(s: System) {
    LogFits(s) && LockFits(s) && HandlersFit(s)
  }

  lemma JustifiedGrows(log: seq<Entry>, e: Entry, id: nat, d: Delivery, outcome: Outcome)
    requires Justified(log, id, d, outcome)
    ensures Justified(log + [e], id, d, outcome)
  {
    var i :| 0 <= i < |log| && log[i] == Entry(id, d) && outcome == Reply(Sequential(Deliveries(log)[..i]), d);
    assert Deliveries(log + [e])[..i] == Deliveries(log)[..i];
    assert (log + [e])[i] == Entry(id, d);
  }

  lemma SequentialGrows(log: seq<Entry>, e: Entry)
    ensures Sequential(Deliveries(log + [e])) == After(Sequential(Deliveries(log)), e.d)
  {
    var ds := Deliveries(log + [e]);
    assert ds[..|ds| - 1] == Deliveries(log);
  }

  lemma CommitKeepsHandler(s: System, id: nat, s': System, x: nat)
    requires SystemInv(s) && Next(s, Commit(id), s') && x in s'.handlers
    ensures HandlerFits(s', x, s'.handlers[x])
  {
    var e := Entry(id, s.handlers[id].d);
    assert HandlerFits(s, x, s.handlers[x]);
    if x == id {
      assert Deliveries(s'.log)[..|s.log|] == Deliveries(s.log) && s'.log[|s.log|] == e;
    } else if s.handlers[x].phase.Committed? {
      JustifiedGrows(s.log, e, x, s.handlers[x].d, s.handlers[x].phase.outcome);
    } else if s.handlers[x].phase.Answered? && s.handlers[x].phase.outcome !in {Rejected, Unavailable} {
      JustifiedGrows(s.log, e, x, s.handlers[x].d, s.handlers[x].phase.outcome);
    }
  }

  /** The committed handler was not in the log, since it had not left its transaction. */
  lemma CommitNew(s: System, id: nat)
    requires LogFits(s) && id in s.handlers && s.handlers[id].phase.Open?
    ensures forall i :: 0 <= i < |s.log| ==> s.log[i].id != id
  {
  }

  lemma CommitKeepsLog(s: System, id: nat, s': System)
    requires LogFits(s) && id in s.handlers && HandlerFits(s, id, s.handlers[id]) && Next(s, Commit(id), s')
    ensures LogFits(s')
  {
    CommitNew(s, id);
    SequentialGrows(s.log, Entry(id, s.handlers[id].d));
  }

  lemma CommitKeeps(s: System, id: nat, s': System)
    requires SystemInv(s) && Next(s, Commit(id), s')
    ensures SystemInv(s')
  {
    assert HandlerFits(s, id, s.handlers[id]);
    CommitKeepsLog(s, id, s');
    forall x | x in s'.handlers ensures HandlerFits(s', x, s'.handlers[x]) { CommitKeepsHandler(s, id, s', x); }
  }

  lemma AdvanceKeepsHandler(s: System, id: nat, row: Key, s': System)
    requires SystemInv(s) && Next(s, Advance(id, row), s')
    ensures HandlerFits(s', id, s'.handlers[id])
  {
    SequentialInv(Deliveries(s.log));
    assert HandlerFits(s, id, s.handlers[id]);
    AdvanceFits(s.db, s.handlers[id].d, s.handlers[id].phase.stage, s.handlers[id].phase.work, row,
                s'.handlers[id].phase.stage, s'.handlers[id].phase.work);
  }

  lemma AdvanceKeeps(s: System, id: nat, row: Key, s': System)
    requires SystemInv(s) && Next(s, Advance(id, row), s')
    ensures SystemInv(s')
  {
    AdvanceKeepsHandler(s, id, row, s');
    OneHandlerKeeps(s, id, s');
  }

  /** One handler moved, and neither the tables nor the log changed. */
  ghost predicate OnlyHandler(s: System, id: nat, s': System) {
    && s'.db == s.db && s'.log == s.log && id in s'.handlers && s'.handlers.Keys == s.handlers.Keys + {id}
    && (forall x :: x in s.handlers && x != id ==> s'.handlers[x] == s.handlers[x])
  }

  /** It moved to a place that fits: the lock is still with its holder, was its own, or was free, and a handler that
      had left its transaction did not return to it. */
  ghost predicate MovedWell(s: System, id: nat, s': System)
    requires id in s'.handlers
  {
    && HandlerFits(s', id, s'.handlers[id]) && LockFits(s')
    && (s'.lock == s.lock || s.lock == None || s.lock == Some(id))
    && (id in s.handlers ==> Past(s.handlers[id]) ==> Past(s'.handlers[id]))
  }

  lemma OneHandlerLog(s: System, id: nat, s': System)
    requires LogFits(s) && OnlyHandler(s, id, s') && MovedWell(s, id, s')
    ensures LogFits(s')
  {
  }

  lemma OneHandlerFits(s: System, id: nat, s': System, x: nat)
    requires HandlersFit(s) && OnlyHandler(s, id, s') && MovedWell(s, id, s') && x in s'.handlers
    ensures HandlerFits(s', x, s'.handlers[x])
  {
    if x != id { assert HandlerFits(s, x, s.handlers[x]); }
  }

  lemma OneHandlerKeeps(s: System, id: nat, s': System)
    requires SystemInv(s) && OnlyHandler(s, id, s') && MovedWell(s, id, s')
    ensures SystemInv(s')
  {
    OneHandlerLog(s, id, s');
    forall x | x in s'.handlers ensures HandlerFits(s', x, s'.handlers[x]) { OneHandlerFits(s, id, s', x); }
  }

  lemma NewcomerKeeps(s: System, step: Step, s': System)
    requires SystemInv(s) && Next(s, step, s') && (step.Arrive? || step.Refuse?)
    ensures SystemInv(s')
  {
    OneHandlerKeeps(s, step.id, s');
  }

  lemma BeginKeeps(s: System, id: nat, s': System)
    requires SystemInv(s) && Next(s, Begin(id), s')
    ensures SystemInv(s')
  {
    OneHandlerKeeps(s, id, s');
  }

  lemma LeaverKeeps(s: System, step: Step, s': System)
    requires SystemInv(s) && Next(s, step, s') && (step.Fail? || step.Answer? || step.Die?)
    ensures SystemInv(s')
  {
    assert HandlerFits(s, step.id, s.handlers[step.id]);
    OneHandlerKeeps(s, step.id, s');
  }

  /** Every step of every handler keeps the system invariant. */
  lemma NextKeeps(s: System, step: Step, s': System)
    requires SystemInv(s) && Next(s, step, s')
    ensures SystemInv(s')
  {
    match step
    case Advance(id, row) => AdvanceKeeps(s, id, row, s');
    case Commit(id) => CommitKeeps(s, id, s');
    case Begin(id) => BeginKeeps(s, id, s');
    case Arrive(_, _) => NewcomerKeeps(s, step, s');
    case Refuse(_, _) => NewcomerKeeps(s, step, s');
    case _ => LeaverKeeps(s, step, s');
  }

  lemma CommitExtends(s: System, id: nat, s': System)
    requires SystemInv(s) && Next(s, Commit(id), s')
    ensures Extends(s.db, s'.db)
  {
    assert HandlerFits(s, id, s.handlers[id]);
    SequentialInv(Deliveries(s.log));
    AfterExtends(s.db, s.handlers[id].d);
  }

  lemma OnlyCommitWrites(s: System, step: Step, s': System)
    requires Next(s, step, s') && !step.Commit?
    ensures s'.db == s.db
  {
  }

  lemma NextExtends(s: System, step: Step, s': System)
    requires SystemInv(s) && Next(s, step, s')
    ensures Extends(s.db, s'.db)
  {
    if step.Commit? { CommitExtends(s, step.id, s'); } else { OnlyCommitWrites(s, step, s'); }
  }
}
