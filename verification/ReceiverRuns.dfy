/** Whole runs of the receiver, however `handle` calls interleave, fail and die. */
module ReceiverRuns {
  import opened ReceiverTables
  import opened ReceiverSequence
  import opened ReceiverSteps

  ghost predicate IsRun(states: seq<System>, steps: seq<Step>) {
    && |states| == |steps| + 1
    && states[0] == INITIAL
    && (forall i :: 0 <= i < |steps| ==> Next(states[i], steps[i], states[i + 1]))
  }

  lemma {:induction false} RunInv(states: seq<System>, steps: seq<Step>, n: nat)
    requires IsRun(states, steps) && n < |states|
    ensures SystemInv(states[n])
  {
    if n > 0 {
      RunInv(states, steps, n - 1);
      NextKeeps(states[n - 1], steps[n - 1], states[n]);
    }
  }

  /** The states that some run ends in. */
  ghost predicate Reachable(s: System) {
    exists states, steps :: IsRun(states, steps) && states[|steps|] == s
  }

  lemma ReachableInv(s: System)
    requires Reachable(s)
    ensures SystemInv(s) && Inv(s.db)
  {
    var states, steps :| IsRun(states, steps) && states[|steps|] == s;
    RunInv(states, steps, |steps|);
    SequentialInv(Deliveries(s.log));
  }

  // ---------------------------------------------------------------------
  // Results about whole runs
  // ---------------------------------------------------------------------

  /** However handlers interleave, fail and die, the tables are those of handling the first
      committed delivery of each key once, in commit order; and they meet the invariants. */
  lemma ExactlyOnce(s: System)
    requires Reachable(s)
    ensures s.db == Sequential(Firsts(Deliveries(s.log)))
    ensures DistinctKeys(Firsts(Deliveries(s.log)))
    ensures Inv(s.db)
  {
    ReachableInv(s);
    FirstsSuffice(Deliveries(s.log));
    FirstsDistinct(Deliveries(s.log));
  }

  /** No statement ever breaks a primary key, foreign key or check constraint. */
  lemma ConstraintsHold(s: System, id: nat)
    requires Reachable(s) && id in s.handlers && s.handlers[id].phase.Open?
    ensures !Violates(s.handlers[id].d, s.handlers[id].phase.stage, s.handlers[id].phase.work)
  {
    ReachableInv(s);
    assert HandlerFits(s, id, s.handlers[id]);
    NoViolation(s.db, s.handlers[id].d, s.handlers[id].phase.stage, s.handlers[id].phase.work);
  }

  /** Acknowledgement only after commit: whoever was told that an event was accepted, or was a
      duplicate, finds that very event in the committed inbox, then and in every later state. */
  lemma AcknowledgedIsDurable(s: System, id: nat)
    requires Reachable(s) && id in s.handlers
    requires s.handlers[id].phase in {Answered(Accepted), Answered(Duplicate)}
    ensures s.handlers[id].d.key in s.db.inbox
    ensures SameEvent(s.db.inbox[s.handlers[id].d.key], s.handlers[id].d)
  {
    ReachableInv(s);
    var d, outcome := s.handlers[id].d, s.handlers[id].phase.outcome;
    assert HandlerFits(s, id, s.handlers[id]);
    var i :| 0 <= i < |s.log| && s.log[i] == Entry(id, d) && outcome == Reply(Sequential(Deliveries(s.log)[..i]), d);
    ReplyRecords(Deliveries(s.log), i);
  }

  /** Every answer that was given from the tables is the one that its place in the log deserves. */
  lemma AnswerMeaning(s: System, id: nat, outcome: Outcome)
    requires Reachable(s) && id in s.handlers && outcome !in {Rejected, Unavailable}
    requires s.handlers[id].phase in {Committed(outcome), Answered(outcome)}
    ensures exists i :: 0 <= i < |s.log| && s.log[i] == Entry(id, s.handlers[id].d)
                        && Deserves(Deliveries(s.log), i, outcome)
    ensures forall i :: 0 <= i < |s.log| && s.log[i].id == id ==> Deserves(Deliveries(s.log), i, outcome)
  {
    ReachableInv(s);
    var d, ds := s.handlers[id].d, Deliveries(s.log);
    assert HandlerFits(s, id, s.handlers[id]);
    var i :| 0 <= i < |s.log| && s.log[i] == Entry(id, d) && outcome == Reply(Sequential(ds[..i]), d);
    ReplyMeaning(ds, i);
    LoggedOnce(s, i);
  }

  lemma LoggedOnce(s: System, i: nat)
    requires SystemInv(s) && i < |s.log|
    ensures forall j :: 0 <= j < |s.log| && s.log[j].id == s.log[i].id ==> j == i
  {
  }

  /** At most one handler is ever told that a given key was accepted. */
  lemma AcceptedOnce(s: System, a: nat, b: nat)
    requires Reachable(s) && a in s.handlers && b in s.handlers
    requires s.handlers[a].phase == Answered(Accepted) == s.handlers[b].phase
    requires s.handlers[a].d.key == s.handlers[b].d.key
    ensures a == b
  {
    ReachableInv(s);
    var da, db, ds := s.handlers[a].d, s.handlers[b].d, Deliveries(s.log);
    assert HandlerFits(s, a, s.handlers[a]) && HandlerFits(s, b, s.handlers[b]);
    var i :| 0 <= i < |s.log| && s.log[i] == Entry(a, da) && Accepted == Reply(Sequential(ds[..i]), da);
    var j :| 0 <= j < |s.log| && s.log[j] == Entry(b, db) && Accepted == Reply(Sequential(ds[..j]), db);
    if i < j { LaterNotAccepted(ds, i, j); }
    if j < i { LaterNotAccepted(ds, j, i); }
  }

  /** From any moment of a run to any later one, rows are only added, orders stay refunded
      once refunded, and versions never decrease. */
  lemma {:induction false} TablesOnlyGrow(states: seq<System>, steps: seq<Step>, m: nat, n: nat)
    requires IsRun(states, steps) && m <= n < |states|
    ensures Extends(states[m].db, states[n].db)
  {
    if m < n {
      TablesOnlyGrow(states, steps, m, n - 1);
      RunInv(states, steps, n - 1);
      NextExtends(states[n - 1], steps[n - 1], states[n]);
      ExtendsTransitive(states[m].db, states[n - 1].db, states[n].db);
    }
  }
}
