/** No handler can get stuck: whatever a run did, every handler that waits or is in its
    transaction can still be answered from the tables. */
module ReceiverProgress {
  import opened Options
  import opened ReceiverTables
  import opened ReceiverSequence
  import opened ReceiverSteps
  import opened ReceiverRuns

  ghost predicate IsPath(states: seq<System>, steps: seq<Step>) {
    && |states| == |steps| + 1
    && (forall i {:trigger steps[i]} :: 0 <= i < |steps| ==> Next(states[i], steps[i], states[i + 1]))
  }

  /** The system can go from `s` to `s'`. */
  ghost predicate Leads(s: System, s': System) {
    exists states, steps :: IsPath(states, steps) && states[0] == s && states[|steps|] == s'
  }

  lemma LeadsOn(a: System, b: System, c: System)
    requires Leads(a, b) && Leads(b, c)
    ensures Leads(a, c)
  {
    var xs, us :| IsPath(xs, us) && xs[0] == a && xs[|us|] == b;
    var ys, vs :| IsPath(ys, vs) && ys[0] == b && ys[|vs|] == c;
    PathsJoin(xs, us, ys, vs);
    assert (xs + ys[1..])[|us + vs|] == c;
  }

  lemma PathsJoin(xs: seq<System>, us: seq<Step>, ys: seq<System>, vs: seq<Step>)
    requires IsPath(xs, us) && IsPath(ys, vs) && xs[|us|] == ys[0]
    ensures IsPath(xs + ys[1..], us + vs)
  {
    var zs, ws := xs + ys[1..], us + vs;
    forall i {:trigger ws[i]} | 0 <= i < |ws| ensures Next(zs[i], ws[i], zs[i + 1]) {
      if i < |us| {
        assert ws[i] == us[i];
      } else {
        assert ws[i] == vs[i - |us|] && zs[i] == ys[i - |us|] && zs[i + 1] == ys[i - |us| + 1];
      }
    }
  }

  lemma OneStep(s: System, step: Step, s': System)
    requires Next(s, step, s')
    ensures Leads(s, s')
  {
    assert IsPath([s, s'], [step]) && [s, s'][|[step]|] == s';
  }

  function Rank(stage: Stage): nat {
    match stage
    case Opened => 3
    case Recorded(_) => 2
    case Resolving(_) => 1
    case Finished(_) => 0
  }

  function Left(stage: Stage): nat {
    if stage.Resolving? then |stage.rest| else 0
  }

  predicate Closer(a: Stage, b: Stage) {
    Rank(a) < Rank(b) || (Rank(a) == Rank(b) && Left(a) < Left(b))
  }

  /** A transaction that is not finished has a next statement, and it brings the end closer. */
  lemma NextStatement(db: Tables, d: Delivery, stage: Stage, work: Tables)
    returns (row: Key, stage': Stage, work': Tables)
    requires Inv(db) && WorkFits(db, d, stage, work) && !stage.Finished?
    ensures Advances(d, stage, work, row, stage', work') && Closer(stage', stage)
  {
    NoViolation(db, d, stage, work);
    row := d.key;
    match stage
    case Opened =>
      if d.key in work.inbox {
        stage', work' := Finished(Reply(work, d)), work;
      } else {
        stage', work' := Recorded(ArrivalState(work, d)), InsertInbox(work, d);
      }
    case Recorded(PendingDependency) => stage', work' := Finished(Accepted), work;
    case Recorded(Processed) =>
      work' := ApplyEvent(work, d.key, d.eventType, d.orderId, d.now);
      stage' := if d.eventType == Refunded then Finished(Accepted)
                else Resolving(PendingRefunds(work', d.key.profile, d.key.account, d.orderId));
    case Resolving(rest) => row, stage', work' := NextRefund(d, rest, work);
  }

  lemma NextRefund(d: Delivery, rest: set<Key>, work: Tables) returns (row: Key, stage': Stage, work': Tables)
    requires !Violates(d, Resolving(rest), work)
    ensures Advances(d, Resolving(rest), work, row, stage', work') && Closer(stage', Resolving(rest))
  {
    if rest == {} {
      row, stage', work' := d.key, Finished(Accepted), work;
    } else {
      row :| row in rest;
      assert InsertsAllowed(work, row);
      stage', work' := Resolving(rest - {row}), ResolveRow(work, row, d.orderId, d.now);
    }
  }

  /** In every reachable state the holder of the write lock can execute its next statement. */
  lemma CanAdvance(s: System, id: nat) returns (row: Key, s': System)
    requires SystemInv(s) && id in s.handlers && s.handlers[id].phase.Open? && !s.handlers[id].phase.stage.Finished?
    ensures Next(s, Advance(id, row), s') && Closer(s'.handlers[id].phase.stage, s.handlers[id].phase.stage)
  {
    SequentialInv(Deliveries(s.log));
    assert HandlerFits(s, id, s.handlers[id]);
    var stage', work';
    row, stage', work' := NextStatement(s.db, s.handlers[id].d, s.handlers[id].phase.stage, s.handlers[id].phase.work);
    s' := With(s, id, Open(stage', work'));
  }

  ghost predicate OthersWait(s: System, id: nat, s': System) {
    && s'.handlers.Keys == s.handlers.Keys
    && (forall x :: x in s.handlers && x != id ==> s'.handlers[x] == s.handlers[x])
  }

  lemma AdvanceOne(s: System, id: nat) returns (s': System)
    requires SystemInv(s) && id in s.handlers && s.handlers[id].phase.Open? && !s.handlers[id].phase.stage.Finished?
    ensures Leads(s, s') && SystemInv(s') && OthersWait(s, id, s') && id in s'.handlers
    ensures s'.handlers[id].phase.Open? && Closer(s'.handlers[id].phase.stage, s.handlers[id].phase.stage)
  {
    var row;
    row, s' := CanAdvance(s, id);
    NextKeeps(s, Advance(id, row), s');
    OneStep(s, Advance(id, row), s');
  }

  lemma CommitOne(s: System, id: nat) returns (s': System)
    requires SystemInv(s) && id in s.handlers && s.handlers[id].phase.Open? && s.handlers[id].phase.stage.Finished?
    ensures Leads(s, s') && SystemInv(s') && s'.lock == None && OthersWait(s, id, s')
    ensures id in s'.handlers && s'.handlers[id].phase.Committed?
  {
    s' := With(s, id, Committed(s.handlers[id].phase.stage.outcome)).(
            lock := None, db := s.handlers[id].phase.work, log := s.log + [Entry(id, s.handlers[id].d)]);
    NextKeeps(s, Commit(id), s');
    OneStep(s, Commit(id), s');
  }

  /** The holder of the write lock can run to its commit, which frees the lock. */
  lemma {:induction false} CanCommit(s: System, id: nat) returns (s': System)
    requires SystemInv(s) && id in s.handlers && s.handlers[id].phase.Open?
    ensures Leads(s, s') && SystemInv(s') && s'.lock == None && OthersWait(s, id, s')
    ensures id in s'.handlers && s'.handlers[id].phase.Committed?
    decreases Rank(s.handlers[id].phase.stage), Left(s.handlers[id].phase.stage)
  {
    if s.handlers[id].phase.stage.Finished? {
      s' := CommitOne(s, id);
    } else {
      var m := AdvanceOne(s, id);
      s' := CanCommit(m, id);
      LeadsOn(s, m, s');
    }
  }

  lemma CanAnswer(s: System, id: nat) returns (s': System)
    requires SystemInv(s) && id in s.handlers && s.handlers[id].phase.Open?
    ensures Leads(s, s') && SystemInv(s') && id in s'.handlers && Told(s'.handlers[id])
  {
    var m := CanCommit(s, id);
    assert HandlerFits(m, id, m.handlers[id]);
    s' := With(m, id, Answered(m.handlers[id].phase.outcome));
    assert Next(m, Answer(id), s');
    NextKeeps(m, Answer(id), s');
    OneStep(m, Answer(id), s');
    LeadsOn(s, m, s');
  }

  /** The handler was answered from the tables, neither refused nor turned away by the database. */
  predicate Told(h: Handler) {
    h.phase in {Answered(Accepted), Answered(Duplicate), Answered(Conflict)}
  }

  lemma CanBegin(s: System, id: nat) returns (s': System)
    requires SystemInv(s) && id in s.handlers && s.handlers[id].phase.Waiting? && s.lock == None
    ensures Next(s, Begin(id), s') && SystemInv(s') && s'.handlers[id].phase.Open?
  {
    s' := With(s, id, Open(Opened, s.db)).(lock := Some(id));
    NextKeeps(s, Begin(id), s');
  }

  /** A waiting handler can begin at once if the lock is free, and otherwise after its holder commits. */
  lemma CanEnter(s: System, id: nat) returns (s': System)
    requires SystemInv(s) && id in s.handlers && s.handlers[id].phase.Waiting?
    ensures Leads(s, s') && SystemInv(s') && id in s'.handlers && s'.handlers[id].phase.Open?
  {
    if s.lock == None {
      s' := CanBegin(s, id);
      OneStep(s, Begin(id), s');
    } else {
      var m := CanCommit(s, s.lock.value);
      s' := CanBegin(m, id);
      OneStep(m, Begin(id), s');
      LeadsOn(s, m, s');
    }
  }

  /** No deadlock: from every reachable state, every handler that waits for the lock or is in its transaction can
      be answered from the tables. */
  lemma NeverStuck(s: System, id: nat) returns (s': System)
    requires Reachable(s) && id in s.handlers && (s.handlers[id].phase.Waiting? || s.handlers[id].phase.Open?)
    ensures Leads(s, s') && id in s'.handlers && Told(s'.handlers[id])
  {
    ReachableInv(s);
    if s.handlers[id].phase.Open? {
      s' := CanAnswer(s, id);
    } else {
      var m := CanEnter(s, id);
      s' := CanAnswer(m, id);
      LeadsOn(s, m, s');
    }
  }
}
