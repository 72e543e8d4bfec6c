/** Which installed blobs outlive power loss. The protocol syncs files and never the directory, so
    a name lasts exactly if somebody else synced the directory while it was bound. */
module BlobDurability {
  import opened Text
  import opened BlobStore
  import opened BlobVerdicts

  /** No run from here, power loss included, ever takes `body` away. */
  ghost predicate KeptForever(hash: Bytes -> string, s: System, body: Bytes) {
    forall states, steps, m {:trigger Holds(hash, states[m], body), IsRun(hash, states, steps)} ::
      IsRun(hash, states, steps) && states[0] == s && 0 <= m < |states| ==> Holds(hash, states[m], body)
  }

  // ---------------------------------------------------------------------
  // The durable image
  // ---------------------------------------------------------------------

  /** No step of a writer makes a name durable. */
  lemma DurableStep(hash: Bytes -> string, s: System, step: Step, s': System)
    requires Next(hash, s, step, s') && !step.PowerLoss?
    ensures s'.durable == if step.SyncDirectory? then s.dir else s.durable
  {
  }

  ghost predicate SyncedIn(states: seq<System>, steps: seq<Step>, m: nat, n: nat, name: Name)
    requires m <= n <= |steps| && |states| == |steps| + 1
  {
    exists i :: m <= i < n && steps[i].SyncDirectory? && name in states[i].dir
  }

  /** While the power stays on, a final name is durable exactly if it was already, or if the directory was synced
      from outside while the name was bound. */
  lemma {:induction false} DurableIff(hash: Bytes -> string, states: seq<System>, steps: seq<Step>, n: nat, d: string)
    requires IsRun(hash, states, steps) && Initial(states[0]) && n < |states|
    requires forall i :: 0 <= i < n ==> !steps[i].PowerLoss?
    ensures Final(d) in states[n].durable <==>
      Final(d) in states[0].durable || SyncedIn(states, steps, 0, n, Final(d))
  {
    if n > 0 {
      DurableIff(hash, states, steps, n - 1, d);
      DurableStep(hash, states[n - 1], steps[n - 1], states[n]);
      RunInv(hash, states, steps, n - 1);
      assert Final(d) in states[n - 1].durable ==> Final(d) in states[n - 1].dir;
      SyncedMore(states, steps, n, Final(d));
    }
  }

  lemma SyncedMore(states: seq<System>, steps: seq<Step>, n: nat, name: Name)
    requires 1 <= n <= |steps| && |states| == |steps| + 1
    ensures SyncedIn(states, steps, 0, n, name) <==>
      SyncedIn(states, steps, 0, n - 1, name) || (steps[n - 1].SyncDirectory? && name in states[n - 1].dir)
  {
  }

  // ---------------------------------------------------------------------
  // What survives
  // ---------------------------------------------------------------------

  /** The name of `body` is durable and bound to exactly `body`. */
  ghost predicate Safe(hash: Bytes -> string, s: System, body: Bytes) {
    Final(hash(body)) in s.durable && Holds(hash, s, body)
  }

  lemma SafeStep(hash: Bytes -> string, s: System, step: Step, s': System, body: Bytes)
    requires Inv(hash, s) && Sound(hash, s) && Safe(hash, s, body) && Next(hash, s, step, s')
    ensures Safe(hash, s', body)
  {
    if step.PowerLoss? {
      SafeThroughLoss(hash, s, s', body);
    } else {
      NextKeeps(hash, s, step, s');
      DurableStep(hash, s, step, s');
    }
  }

  lemma SafeThroughLoss(hash: Bytes -> string, s: System, s': System, body: Bytes)
    requires Inv(hash, s) && Sound(hash, s) && Safe(hash, s, body) && LosesPower(s, s')
    ensures Safe(hash, s', body)
  {
  }

  lemma {:induction false} SafeRun(hash: Bytes -> string, states: seq<System>, steps: seq<Step>, n: nat, body: Bytes)
    requires IsRun(hash, states, steps) && Inv(hash, states[0]) && Sound(hash, states[0]) && n < |states|
    requires Safe(hash, states[0], body)
    ensures Safe(hash, states[n], body)
  {
    if n > 0 {
      SafeRun(hash, states, steps, n - 1, body);
      RunInv(hash, states, steps, n - 1);
      AlwaysSound(hash, states, steps, n - 1);
      SafeStep(hash, states[n - 1], steps[n - 1], states[n], body);
    }
  }

  /** Power loss that takes away one name that is not durable. */
  lemma LosesName(hash: Bytes -> string, s: System, d: string) returns (s': System)
    requires NamesFit(s) && Final(d) !in s.durable
    ensures Next(hash, s, PowerLoss, s') && Final(d) !in s'.dir
  {
    var left := s.dir - {Final(d)};
    s' := System(s.inodes, left, left, map[]);
    assert LosesPower(s, s');
  }

  /** A stored blob is kept through everything that can happen if and only if its name is durable. */
  lemma SurvivesIff(hash: Bytes -> string, s: System, body: Bytes)
    requires Inv(hash, s) && Sound(hash, s) && Holds(hash, s, body)
    ensures KeptForever(hash, s, body) <==> Final(hash(body)) in s.durable
  {
    if Final(hash(body)) in s.durable {
      forall states, steps, m | IsRun(hash, states, steps) && states[0] == s && 0 <= m < |states|
        ensures Holds(hash, states[m], body)
      {
        SafeRun(hash, states, steps, m, body);
      }
    } else {
      var s' := LosesName(hash, s, hash(body));
      var states, steps := [s, s'], [PowerLoss];
      assert IsRun(hash, states, steps) && !Holds(hash, states[1], body);
    }
  }

  /** A writer's success outlives every later power loss if and only if its name was durable from the start, or the
      directory was synced from outside after the name was bound: nothing that the writers do matters. */
  lemma SuccessSurvivesIff(hash: Bytes -> string, states: seq<System>, steps: seq<Step>, n: nat, w: nat)
    requires IsRun(hash, states, steps) && Initial(states[0]) && Sound(hash, states[0]) && n < |states|
    requires w in states[n].writers && states[n].writers[w].phase in {Done(Installed), Done(Verified)}
    requires forall i :: 0 <= i < n ==> !steps[i].PowerLoss?
    ensures var body := states[n].writers[w].body;
      KeptForever(hash, states[n], body) <==>
        Final(hash(body)) in states[0].durable || SyncedIn(states, steps, 0, n, Final(hash(body)))
  {
    var body := states[n].writers[w].body;
    SuccessStores(hash, states, steps, n, w);
    RunInv(hash, states, steps, n);
    AlwaysSound(hash, states, steps, n);
    DurableIff(hash, states, steps, n, hash(body));
    SurvivesIff(hash, states[n], body);
  }

  // ---------------------------------------------------------------------
  // A blob that is installed and then lost
  // ---------------------------------------------------------------------

  /** For every body there is a run of the protocol alone, with nothing going wrong, that reports it as installed, after
      which power loss can take it away. */
  lemma InstalledThenLost(hash: Bytes -> string, body: Bytes) returns (states: seq<System>, steps: seq<Step>)
    ensures IsRun(hash, states, steps) && Initial(states[0]) && AllCalm(steps)
    ensures 0 in states[|steps|].writers && states[|steps|].writers[0] == Writer(body, Done(Installed))
    ensures !KeptForever(hash, states[|steps|], body)
  {
    var s := StoreOnce(hash, body);
    states, steps :| IsRun(hash, states, steps) && AllCalm(steps) && states[0] == EMPTY && states[|steps|] == s;
    assert Sound(hash, EMPTY);
    SuccessSurvivesIff(hash, states, steps, |steps|, 0);
  }
}
