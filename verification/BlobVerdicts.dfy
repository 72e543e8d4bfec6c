/** What a writer reports, and when: every verdict about an existing blob is the right one, errors without a
    failing call are real, and every writer can finish. */
module BlobVerdicts {
  import opened Options
  import opened Text
  import opened BlobStore

  // ---------------------------------------------------------------------
  // The verdict on an existing blob
  // ---------------------------------------------------------------------

  predicate Reads(turn: Turn) {
    turn.Stat? || turn.ReadSome? || turn.ReadEnd?
  }

  /** What a writer of `body` owes to a file that holds `data`. */
  function Verdict(data: Bytes, body: Bytes): Outcome {
    if data == body then Verified else IntegrityError
  }

  /** Looking at an existing file ends, however the reads are cut short, in the verdict that its bytes deserve. */
  lemma VerdictIsRight(hash: Bytes -> string, s: System, turn: Turn, x: Writer, phase': Phase)
    requires WriterFits(hash, s, x) && Turns(hash, s, turn, x.body, x.phase, phase') && Reads(turn) && !phase'.Reading?
    ensures (x.phase.Opened? || x.phase.Reading?) && x.phase.existing in s.inodes
    ensures phase' == Leave(x.phase.cleanup, Verdict(s.inodes[x.phase.existing].data, x.body))
  {
    if turn.ReadEnd? {
      assert x.phase.got == s.inodes[x.phase.existing].data;
    }
  }

  // ---------------------------------------------------------------------
  // Errors are real
  // ---------------------------------------------------------------------

  predicate IsFailure(turn: Turn) {
    turn.CheckFails? || turn.CreateFails? || turn.Fails? || turn.CloseFails? || turn.UnlinkFails?
  }

  /** No call of the operating system fails. */
  predicate NoFailure(step: Step) {
    step.Move? ==> !IsFailure(step.turn)
  }

  /** The final name of `body` is bound to something else. */
  ghost predicate Mismatch(hash: Bytes -> string, s: System, body: Bytes) {
    && Final(hash(body)) in s.dir && s.dir[Final(hash(body))] in s.inodes
    && s.inodes[s.dir[Final(hash(body))]].data != body
  }

  ghost predicate OutcomeReal(hash: Bytes -> string, s: System, body: Bytes, outcome: Outcome) {
    outcome != WriteError && (outcome == IntegrityError ==> Mismatch(hash, s, body))
  }

  ghost predicate WriterReal(hash: Bytes -> string, s: System, x: Writer) {
    && (x.phase.Cleaning? ==> OutcomeReal(hash, s, x.body, x.phase.outcome))
    && (x.phase.Done? ==> OutcomeReal(hash, s, x.body, x.phase.outcome))
  }

  ghost predicate AllReal(hash: Bytes -> string, s: System) {
    forall w :: w in s.writers ==> WriterReal(hash, s, s.writers[w])
  }

  lemma StaysReal(hash: Bytes -> string, s: System, s': System, x: Writer)
    requires WriterReal(hash, s, x) && FinalsKept(s, s')
    ensures WriterReal(hash, s', x)
  {
  }

  lemma TurnReal(hash: Bytes -> string, s: System, turn: Turn, x: Writer, phase': Phase)
    requires WriterFits(hash, s, x) && WriterReal(hash, s, x) && !IsFailure(turn)
    requires Turns(hash, s, turn, x.body, x.phase, phase')
    ensures WriterReal(hash, s, x.(phase := phase'))
  {
    if Reads(turn) && !phase'.Reading? {
      VerdictIsRight(hash, s, turn, x, phase');
    }
  }

  lemma MoveReal(hash: Bytes -> string, s: System, w: nat, turn: Turn, s': System)
    requires Inv(hash, s) && AllReal(hash, s) && Moves(hash, s, w, turn, s') && !IsFailure(turn)
    ensures AllReal(hash, s')
  {
    assert WriterFits(hash, s, s.writers[w]) && WriterReal(hash, s, s.writers[w]);
    TurnReal(hash, s, turn, s.writers[w], s'.writers[w].phase);
    forall v | v in s'.writers ensures WriterReal(hash, s', s'.writers[v]) {
      if v != w { assert WriterReal(hash, s, s.writers[v]); }
    }
  }

  /** The writer whose step it is; nobody else moves. */
  lemma OneMoves(hash: Bytes -> string, s: System, step: Step, s': System)
    requires Next(hash, s, step, s') && !step.PowerLoss? && !step.SyncDirectory?
    ensures Others(s, s', step.w)
  {
  }

  lemma FileStepReal(hash: Bytes -> string, s: System, step: Step, s': System)
    requires Inv(hash, s) && AllReal(hash, s) && Next(hash, s, step, s')
    requires !step.PowerLoss? && !step.SyncDirectory? && !step.Move?
    ensures AllReal(hash, s')
  {
    NextKeeps(hash, s, step, s');
    OneMoves(hash, s, step, s');
    forall v | v in s'.writers ensures WriterReal(hash, s', s'.writers[v]) {
      if v != step.w {
        StaysReal(hash, s, s', s.writers[v]);
      } else if step.Unlink? {
        StaysReal(hash, s, s', s.writers[v]);
      }
    }
  }

  lemma NextReal(hash: Bytes -> string, s: System, step: Step, s': System)
    requires Inv(hash, s) && AllReal(hash, s) && Next(hash, s, step, s') && NoFailure(step)
    ensures AllReal(hash, s')
  {
    if step.Move? {
      MoveReal(hash, s, step.w, step.turn, s');
    } else if step.SyncDirectory? {
      forall v | v in s'.writers ensures WriterReal(hash, s', s'.writers[v]) {
        assert WriterReal(hash, s, s.writers[v]);
      }
    } else if !step.PowerLoss? {
      FileStepReal(hash, s, step, s');
    }
  }

  lemma {:induction false} RunReal(hash: Bytes -> string, states: seq<System>, steps: seq<Step>, n: nat)
    requires IsRun(hash, states, steps) && Initial(states[0]) && n < |states|
    requires forall i :: 0 <= i < n ==> NoFailure(steps[i])
    ensures AllReal(hash, states[n])
  {
    if n > 0 {
      RunReal(hash, states, steps, n - 1);
      RunInv(hash, states, steps, n - 1);
      NextReal(hash, states[n - 1], steps[n - 1], states[n]);
    }
  }

  /** As long as no call fails, a writer that is done was successful, or found other bytes under its digest. */
  lemma ErrorsAreReal(hash: Bytes -> string, states: seq<System>, steps: seq<Step>, n: nat, w: nat)
    requires IsRun(hash, states, steps) && Initial(states[0]) && n < |states|
    requires forall i :: 0 <= i < n ==> NoFailure(steps[i])
    requires w in states[n].writers && states[n].writers[w].phase.Done?
    ensures var Writer(body, Done(outcome)) := states[n].writers[w];
      && (outcome in {Installed, Verified} <==> Holds(hash, states[n], body))
      && (outcome == IntegrityError <==> Mismatch(hash, states[n], body))
      && outcome != WriteError
  {
    RunReal(hash, states, steps, n);
    RunInv(hash, states, steps, n);
    assert WriterReal(hash, states[n], states[n].writers[w]) && WriterFits(hash, states[n], states[n].writers[w]);
  }

  /** In a store that starts sound, and without a collision, no failing call means success. */
  lemma NoFailureNoError(hash: Bytes -> string, states: seq<System>, steps: seq<Step>, n: nat, w: nat)
    requires IsRun(hash, states, steps) && Initial(states[0]) && Sound(hash, states[0]) && n < |states|
    requires forall i :: 0 <= i < n ==> NoFailure(steps[i])
    requires w in states[n].writers && states[n].writers[w].phase.Done?
    requires forall b :: hash(b) == hash(states[n].writers[w].body) ==> b == states[n].writers[w].body
    ensures states[n].writers[w].phase.outcome in {Installed, Verified}
  {
    ErrorsAreReal(hash, states, steps, n, w);
    AlwaysSound(hash, states, steps, n);
    RunInv(hash, states, steps, n);
  }

  // ---------------------------------------------------------------------
  // Every writer can finish
  // ---------------------------------------------------------------------

  /** A step of the protocol itself in which nothing goes wrong. */
  predicate Calm(step: Step) {
    !step.SyncDirectory? && !step.PowerLoss? && (step.Move? ==> !IsFailure(step.turn) && !step.turn.Die?)
  }

  predicate AllCalm(steps: seq<Step>) {
    forall i :: 0 <= i < |steps| ==> Calm(steps[i])
  }

  /** The protocol alone, with nothing going wrong, leads from `s` to `s'`. */
  ghost predicate Reaches(hash: Bytes -> string, s: System, s': System) {
    exists states, steps :: IsRun(hash, states, steps) && AllCalm(steps) && states[0] == s && states[|steps|] == s'
  }

  lemma ReachesSelf(hash: Bytes -> string, s: System)
    ensures Reaches(hash, s, s)
  {
    var steps: seq<Step> := [];
    assert IsRun(hash, [s], steps) && AllCalm(steps) && [s][|steps|] == s;
  }

  lemma OneStep(hash: Bytes -> string, s: System, step: Step, s': System)
    requires Next(hash, s, step, s') && Calm(step)
    ensures Reaches(hash, s, s')
  {
    var states, steps := [s, s'], [step];
    assert IsRun(hash, states, steps) && AllCalm(steps) && states[|steps|] == s';
  }

  lemma RunsJoin(hash: Bytes -> string, xs: seq<System>, us: seq<Step>, ys: seq<System>, vs: seq<Step>)
    requires IsRun(hash, xs, us) && IsRun(hash, ys, vs) && xs[|us|] == ys[0]
    ensures IsRun(hash, xs + ys[1..], us + vs)
  {
    var zs, ws := xs + ys[1..], us + vs;
    forall i {:trigger ws[i]} | 0 <= i < |ws| ensures Next(hash, zs[i], ws[i], zs[i + 1]) {
      if i < |us| {
        assert ws[i] == us[i];
      } else {
        assert ws[i] == vs[i - |us|] && zs[i] == ys[i - |us|] && zs[i + 1] == ys[i - |us| + 1];
      }
    }
  }

  lemma ReachesOn(hash: Bytes -> string, a: System, b: System, c: System)
    requires Reaches(hash, a, b) && Reaches(hash, b, c)
    ensures Reaches(hash, a, c)
  {
    var xs, us :| IsRun(hash, xs, us) && AllCalm(us) && xs[0] == a && xs[|us|] == b;
    var ys, vs :| IsRun(hash, ys, vs) && AllCalm(vs) && ys[0] == b && ys[|vs|] == c;
    RunsJoin(hash, xs, us, ys, vs);
    assert AllCalm(us + vs);
    assert (xs + ys[1..])[0] == a && (xs + ys[1..])[|us + vs|] == c;
  }

  lemma ReachesInv(hash: Bytes -> string, s: System, s': System)
    requires Inv(hash, s) && Reaches(hash, s, s')
    ensures Inv(hash, s')
  {
    var states, steps :| IsRun(hash, states, steps) && AllCalm(steps) && states[0] == s && states[|steps|] == s';
    RunInv(hash, states, steps, |steps|);
  }

  lemma MoveReaches(hash: Bytes -> string, s: System, w: nat, turn: Turn, phase': Phase)
    requires w in s.writers && !IsFailure(turn) && !turn.Die?
    requires Turns(hash, s, turn, s.writers[w].body, s.writers[w].phase, phase')
    ensures Reaches(hash, s, Put(s, w, phase'))
  {
    assert Moves(hash, s, w, turn, Put(s, w, phase'));
    OneStep(hash, s, Move(w, turn), Put(s, w, phase'));
  }

  lemma PutTwice(s: System, w: nat, a: Phase, b: Phase)
    requires w in s.writers
    ensures Put(Put(s, w, a), w, b) == Put(s, w, b)
  {
  }

  /** Reading on to the end of a file of the expected length. */
  lemma {:induction false} CanRead(hash: Bytes -> string, s: System, w: nat, existing: nat, cleanup: Option<nat>,
                                   got: Bytes)
    requires w in s.writers && existing in s.inodes && got <= s.inodes[existing].data
    requires |s.inodes[existing].data| == |s.writers[w].body|
    ensures Reaches(hash, Put(s, w, Reading(existing, cleanup, got)),
                    Put(s, w, Leave(cleanup, Verdict(s.inodes[existing].data, s.writers[w].body))))
    decreases |s.inodes[existing].data| - |got|
  {
    var data, body := s.inodes[existing].data, s.writers[w].body;
    var here, there := Put(s, w, Reading(existing, cleanup, got)), Put(s, w, Leave(cleanup, Verdict(data, body)));
    if |got| == |data| {
      assert got == data;
      MoveReaches(hash, here, w, ReadEnd, Leave(cleanup, Verdict(data, body)));
      PutTwice(s, w, Reading(existing, cleanup, got), Leave(cleanup, Verdict(data, body)));
    } else {
      var count := if |data| - |got| < READ_CHUNK then |data| - |got| else READ_CHUNK;
      var more := got + data[|got|..|got| + count];
      assert more <= data;
      MoveReaches(hash, here, w, ReadSome(count), Reading(existing, cleanup, more));
      PutTwice(s, w, Reading(existing, cleanup, got), Reading(existing, cleanup, more));
      CanRead(hash, s, w, existing, cleanup, more);
      ReachesOn(hash, here, Put(s, w, Reading(existing, cleanup, more)), there);
    }
  }

  lemma CanLook(hash: Bytes -> string, s: System, w: nat)
    requires w in s.writers && s.writers[w].phase.Opened? && s.writers[w].phase.existing in s.inodes
    ensures var Writer(body, Opened(existing, cleanup)) := s.writers[w];
      Reaches(hash, s, Put(s, w, Leave(cleanup, Verdict(s.inodes[existing].data, body))))
  {
    var Writer(body, Opened(existing, cleanup)) := s.writers[w];
    var data := s.inodes[existing].data;
    if |data| != |body| {
      MoveReaches(hash, s, w, Stat, Leave(cleanup, IntegrityError));
    } else {
      MoveReaches(hash, s, w, Stat, Reading(existing, cleanup, []));
      CanRead(hash, s, w, existing, cleanup, []);
      ReachesOn(hash, s, Put(s, w, Reading(existing, cleanup, [])), Put(s, w, Leave(cleanup, Verdict(data, body))));
    }
  }

  /** The outcome that a writer is bound for when its final name is, or is not, bound already. */
  ghost function DueOutcome(hash: Bytes -> string, s: System, body: Bytes): Outcome
    requires NamesFit(s)
  {
    if Final(hash(body)) !in s.dir then Installed
    else Verdict(s.inodes[s.dir[Final(hash(body))]].data, body)
  }

  /** Nobody but `w` moved. */
  ghost predicate Alone(s: System, s': System, w: nat) {
    Others(s, s', w) && w in s.writers
  }

  ghost predicate FinishedAs(s: System, s': System, w: nat, body: Bytes, outcome: Outcome) {
    Alone(s, s', w) && s'.writers[w] == Writer(body, Done(outcome))
  }

  lemma CanClean(hash: Bytes -> string, s: System, w: nat) returns (s': System)
    requires w in s.writers && s.writers[w].phase.Cleaning?
    ensures Reaches(hash, s, s') && FinishedAs(s, s', w, s.writers[w].body, s.writers[w].phase.outcome)
  {
    s' := Put(s, w, Done(s.writers[w].phase.outcome)).(dir := s.dir - {Temp(s.writers[w].phase.temp)});
    OneStep(hash, s, Unlink(w), s');
  }

  /** A writer whose link found the name bound, or was the first, comes to the outcome it is due. */
  lemma CanLink(hash: Bytes -> string, s: System, w: nat) returns (s': System)
    requires Inv(hash, s) && w in s.writers && s.writers[w].phase.Linking?
    ensures Reaches(hash, s, s')
    ensures FinishedAs(s, s', w, s.writers[w].body, DueOutcome(hash, s, s.writers[w].body))
  {
    var Writer(body, Linking(temp, file)) := s.writers[w];
    assert WriterFits(hash, s, s.writers[w]);
    if Final(hash(body)) in s.dir {
      var existing := s.dir[Final(hash(body))];
      var looking := Put(s, w, Opened(existing, Some(temp)));
      OneStep(hash, s, Link(w), looking);
      CanLook(hash, looking, w);
      var left := Put(looking, w, Cleaning(temp, Verdict(s.inodes[existing].data, body)));
      ReachesOn(hash, s, looking, left);
      s' := CanClean(hash, left, w);
      ReachesOn(hash, s, left, s');
    } else {
      var linked := Put(s, w, Cleaning(temp, Installed)).(dir := s.dir[Final(hash(body)) := s.dir[Temp(temp)]]);
      OneStep(hash, s, Link(w), linked);
      s' := CanClean(hash, linked, w);
      ReachesOn(hash, s, linked, s');
    }
  }

  /** Writing and syncing touches only the writer's own file. */
  lemma CanWrite(hash: Bytes -> string, s: System, w: nat) returns (s': System)
    requires w in s.writers && s.writers[w].phase.Writing? && s.writers[w].phase.written == 0
    requires s.writers[w].phase.file in s.inodes && s.inodes[s.writers[w].phase.file].data == []
    ensures Reaches(hash, s, s') && Alone(s, s', w) && OnlyFile(s, s', s.writers[w].phase.file)
    ensures s'.writers[w] == Writer(s.writers[w].body, Linking(s.writers[w].phase.temp, s.writers[w].phase.file))
  {
    var Writer(body, Writing(temp, file, _)) := s.writers[w];
    var written := s;
    if body == [] {
      ReachesSelf(hash, s);
    } else {
      written := Put(s, w, Writing(temp, file, |body|)).(inodes :=
                   s.inodes[file := Inode(s.inodes[file].data + body[0..|body|], false)]);
      OneStep(hash, s, Write(w, |body|), written);
    }
    s' := Put(written, w, Linking(temp, file)).(inodes :=
            written.inodes[file := written.inodes[file].(synced := true)]);
    OneStep(hash, written, Sync(w), s');
    ReachesOn(hash, s, written, s');
  }

  lemma {:induction false} FreshNumber(used: set<nat>) returns (n: nat)
    ensures forall m :: m in used ==> m < n
  {
    if used == {} {
      n := 0;
    } else {
      var m :| m in used;
      var k := FreshNumber(used - {m});
      n := if k > m then k else m + 1;
      assert used == (used - {m}) + {m};
    }
  }

  lemma FreshFile(s: System) returns (temp: nat, file: nat)
    ensures Temp(temp) !in s.dir && file !in s.inodes
  {
    var tokens := set n | n in s.dir && n.Temp? :: n.token;
    temp := FreshNumber(tokens);
    file := FreshNumber(s.inodes.Keys);
    forall t | Temp(t) in s.dir ensures t in tokens {
      assert Temp(t).Temp? && Temp(t).token == t;
    }
  }

  /** The same final names hold the same bytes. */
  ghost predicate SameFinals(s: System, s': System) {
    && (forall d :: Final(d) in s'.dir <==> Final(d) in s.dir)
    && (forall d :: Final(d) in s.dir && s.dir[Final(d)] in s.inodes ==>
          s'.dir[Final(d)] in s'.inodes && s'.inodes[s'.dir[Final(d)]].data == s.inodes[s.dir[Final(d)]].data)
  }

  lemma SameDue(hash: Bytes -> string, s: System, s': System, body: Bytes)
    requires NamesFit(s) && NamesFit(s') && SameFinals(s, s')
    ensures DueOutcome(hash, s', body) == DueOutcome(hash, s, body)
  {
  }

  lemma CanCreate(hash: Bytes -> string, s: System, w: nat) returns (s': System, temp: nat, file: nat)
    requires Inv(hash, s) && w in s.writers && s.writers[w].phase.Creating?
    ensures Reaches(hash, s, s') && Inv(hash, s') && Alone(s, s', w) && SameFinals(s, s')
    ensures s'.writers[w] == Writer(s.writers[w].body, Writing(temp, file, 0))
  {
    temp, file := FreshFile(s);
    s' := Put(s, w, Writing(temp, file, 0)).(
            dir := s.dir[Temp(temp) := file], inodes := s.inodes[file := Inode([], false)]);
    OneStep(hash, s, Create(w, temp, file), s');
    ReachesInv(hash, s, s');
  }

  lemma CanFill(hash: Bytes -> string, s: System, w: nat) returns (s': System)
    requires Inv(hash, s) && w in s.writers && s.writers[w].phase.Writing? && s.writers[w].phase.written == 0
    ensures Reaches(hash, s, s') && Inv(hash, s') && Alone(s, s', w) && SameFinals(s, s')
    ensures s'.writers[w].body == s.writers[w].body && s'.writers[w].phase.Linking?
  {
    assert WriterFits(hash, s, s.writers[w]);
    s' := CanWrite(hash, s, w);
    ReachesInv(hash, s, s');
  }

  /** A writer that found no blob can install its own, unless another one does so first. */
  lemma CanInstall(hash: Bytes -> string, s: System, w: nat) returns (s': System)
    requires Inv(hash, s) && w in s.writers && s.writers[w].phase.Creating?
    ensures Reaches(hash, s, s')
    ensures FinishedAs(s, s', w, s.writers[w].body, DueOutcome(hash, s, s.writers[w].body))
  {
    var body := s.writers[w].body;
    var created, temp, file := CanCreate(hash, s, w);
    var filled := CanFill(hash, created, w);
    SameDue(hash, s, created, body);
    SameDue(hash, created, filled, body);
    s' := CanLink(hash, filled, w);
    ReachesOn(hash, s, created, filled);
    ReachesOn(hash, s, filled, s');
  }

  lemma CanVerify(hash: Bytes -> string, s: System, w: nat) returns (s': System)
    requires Inv(hash, s) && w in s.writers && s.writers[w].phase.Checking? && Final(hash(s.writers[w].body)) in s.dir
    ensures Reaches(hash, s, s')
    ensures FinishedAs(s, s', w, s.writers[w].body, DueOutcome(hash, s, s.writers[w].body))
  {
    var body := s.writers[w].body;
    var existing := s.dir[Final(hash(body))];
    var looking := Put(s, w, Opened(existing, None));
    MoveReaches(hash, s, w, Check, Opened(existing, None));
    CanLook(hash, looking, w);
    s' := Put(looking, w, Done(Verdict(s.inodes[existing].data, body)));
    ReachesOn(hash, s, looking, s');
  }

  lemma CanStart(hash: Bytes -> string, s: System, w: nat) returns (s': System)
    requires Inv(hash, s) && w in s.writers && s.writers[w].phase.Checking? && Final(hash(s.writers[w].body)) !in s.dir
    ensures Reaches(hash, s, s') && Inv(hash, s') && Alone(s, s', w) && SameFinals(s, s')
    ensures s'.writers[w] == Writer(s.writers[w].body, Creating)
  {
    s' := Put(s, w, Creating);
    MoveReaches(hash, s, w, Check, Creating);
    ReachesInv(hash, s, s');
  }

  /** Every writer can finish, with nothing going wrong, and then reports what it is due: it installed its bytes if
      the name was free, verified them if they were there, and refuses anything else. */
  lemma CanFinish(hash: Bytes -> string, s: System, w: nat) returns (s': System)
    requires Inv(hash, s) && w in s.writers && s.writers[w].phase.Checking?
    ensures Reaches(hash, s, s') && Inv(hash, s')
    ensures FinishedAs(s, s', w, s.writers[w].body, DueOutcome(hash, s, s.writers[w].body))
  {
    if Final(hash(s.writers[w].body)) in s.dir {
      s' := CanVerify(hash, s, w);
    } else {
      var creating := CanStart(hash, s, w);
      SameDue(hash, s, creating, s.writers[w].body);
      s' := CanInstall(hash, creating, w);
      ReachesOn(hash, s, creating, s');
    }
    ReachesInv(hash, s, s');
  }

  const EMPTY := System(map[], map[], map[], map[])

  lemma CanSpawn(hash: Bytes -> string, s: System, w: nat, body: Bytes) returns (s': System)
    requires Inv(hash, s) && w !in s.writers
    ensures Reaches(hash, s, s') && Inv(hash, s') && Others(s, s', w) && s'.writers[w] == Writer(body, Checking)
    ensures s'.dir == s.dir && s'.inodes == s.inodes
  {
    s' := s.(writers := s.writers[w := Writer(body, Checking)]);
    OneStep(hash, s, Spawn(w, body), s');
    ReachesInv(hash, s, s');
  }

  lemma StoreOnce(hash: Bytes -> string, body: Bytes) returns (s: System)
    ensures Reaches(hash, EMPTY, s) && Inv(hash, s) && s.writers == map[0 := Writer(body, Done(Installed))]
  {
    assert Inv(hash, EMPTY);
    var spawned := CanSpawn(hash, EMPTY, 0, body);
    s := CanFinish(hash, spawned, 0);
    ReachesOn(hash, EMPTY, spawned, s);
    assert s.writers.Keys == {0};
  }

  /** The same body stored twice: the first writer installs it and the second one verifies it. */
  lemma StoreTwice(hash: Bytes -> string, body: Bytes) returns (s: System)
    ensures Reaches(hash, EMPTY, s) && 0 in s.writers && 1 in s.writers
    ensures s.writers[0] == Writer(body, Done(Installed)) && s.writers[1] == Writer(body, Done(Verified))
  {
    var once := StoreOnce(hash, body);
    assert WriterFits(hash, once, once.writers[0]);
    var spawned := CanSpawn(hash, once, 1, body);
    s := CanFinish(hash, spawned, 1);
    ReachesOn(hash, EMPTY, once, spawned);
    ReachesOn(hash, EMPTY, spawned, s);
  }
}
