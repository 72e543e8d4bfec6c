/** Installing content-addressed blobs: any number of writers over one directory,
    with short writes and reads, failing calls, writers that die anywhere, and
    power loss that forgets whatever was not synced. */
module BlobStore {
  import opened Options
  import opened Text

  /** A final name is the digest of its contents; a temporary name is a fresh token. */
  datatype Name = Final(digest: string) | Temp(token: nat)

  datatype Inode = Inode(data: Bytes, synced: bool)

  datatype Outcome = Installed | Verified | IntegrityError | WriteError

  datatype Phase =
    | Checking
    | Creating
    | Writing(temp: nat, file: nat, written: nat)
    | Linking(temp: nat, file: nat)
    | Opened(existing: nat, cleanup: Option<nat>)
    | Reading(existing: nat, cleanup: Option<nat>, got: Bytes)
    | Cleaning(temp: nat, outcome: Outcome)
    | Done(outcome: Outcome)
    | Dead

  datatype Writer = Writer(body: Bytes, phase: Phase)

  /** `durable` is the image of the directory that power loss cannot take away. */
  datatype System = System(inodes: map<nat, Inode>, dir: map<Name, nat>, durable: map<Name, nat>,
                           writers: map<nat, Writer>)

  /** What a writer can do that touches neither a file nor a name. */
  datatype Turn =
    | Check
    | CheckFails
    | CreateFails
    | Fails
    | CloseFails
    | Stat
    | ReadSome(count: nat)
    | ReadEnd
    | UnlinkFails
    | Die

  datatype Step =
    | Spawn(w: nat, body: Bytes)
    | Move(w: nat, turn: Turn)
    | Create(w: nat, temp: nat, file: nat)
    | Write(w: nat, count: nat)
    | Sync(w: nat)
    | Link(w: nat)
    | Unlink(w: nat)
    | SyncDirectory
    | PowerLoss

  const READ_CHUNK := 65536

  // ---------------------------------------------------------------------
  // The steps of one writer
  // ---------------------------------------------------------------------

  function Put(s: System, w: nat, phase: Phase): System
    requires w in s.writers
  {
    s.(writers := s.writers[w := s.writers[w].(phase := phase)])
  }

  /** Leaving the protocol, through the removal of the temporary file if there is one. */
  function Leave(cleanup: Option<nat>, outcome: Outcome): Phase {
    if cleanup.Some? then Cleaning(cleanup.value, outcome) else Done(outcome)
  }

  /** Where a turn leads. */
  ghost predicate Turns(hash: Bytes -> string, s: System, turn: Turn, body: Bytes, phase: Phase, phase': Phase) {
    match turn
    case Check =>
      && phase.Checking?
      && phase' == (if Final(hash(body)) in s.dir then Opened(s.dir[Final(hash(body))], None) else Creating)
    case CheckFails => phase.Checking? && phase' == Done(IntegrityError)
    case CreateFails => phase.Creating? && phase' == Done(WriteError)
    case Stat =>
      && phase.Opened? && phase.existing in s.inodes
      && phase' == (if |s.inodes[phase.existing].data| != |body| then Leave(phase.cleanup, IntegrityError)
                    else Reading(phase.existing, phase.cleanup, []))
    case ReadSome(count) =>
      && phase.Reading? && phase.existing in s.inodes
      && 1 <= count <= READ_CHUNK && count <= |body| - |phase.got| + 1
      && |phase.got| + count <= |s.inodes[phase.existing].data|
      && var more := phase.got + s.inodes[phase.existing].data[|phase.got|..|phase.got| + count];
         phase' == if |more| > |body| then Leave(phase.cleanup, IntegrityError)
                   else Reading(phase.existing, phase.cleanup, more)
    case ReadEnd =>
      && phase.Reading? && phase.existing in s.inodes && |phase.got| >= |s.inodes[phase.existing].data|
      && phase' == Leave(phase.cleanup,
                         if |phase.got| != |body| || hash(phase.got) != hash(body) || phase.got != body
                         then IntegrityError else Verified)
    case Fails => FailsTo(phase, phase')
    case CloseFails => CloseFailsTo(phase, phase')
    case UnlinkFails => phase.Cleaning? && phase' == Done(WriteError)
    case Die => !phase.Done? && phase' == Dead
  }

  /** A failing write, sync or link, and a failing open, status or read of the existing file. */
  predicate FailsTo(phase: Phase, phase': Phase) {
    match phase
    case Writing(temp, _, _) => phase' == Cleaning(temp, WriteError)
    case Linking(temp, _) => phase' == Cleaning(temp, WriteError)
    case Opened(_, cleanup) => phase' == Leave(cleanup, IntegrityError)
    case Reading(_, cleanup, _) => phase' == Leave(cleanup, IntegrityError)
    case _ => false
  }

  /** Closing the temporary file fails, and it is left behind; closing the existing one fails after any verdict. */
  predicate CloseFailsTo(phase: Phase, phase': Phase) {
    match phase
    case Writing(_, _, _) => phase' == Done(WriteError)
    case Opened(_, cleanup) => phase' == Leave(cleanup, WriteError)
    case Reading(_, cleanup, _) => phase' == Leave(cleanup, WriteError)
    case _ => false
  }

  ghost predicate Moves(hash: Bytes -> string, s: System, w: nat, turn: Turn, s': System) {
    && w in s.writers && w in s'.writers
    && Turns(hash, s, turn, s.writers[w].body, s.writers[w].phase, s'.writers[w].phase)
    && s' == Put(s, w, s'.writers[w].phase)
  }

  predicate Spawns(s: System, w: nat, body: Bytes, s': System) {
    w !in s.writers && s' == s.(writers := s.writers[w := Writer(body, Checking)])
  }

  predicate Creates(s: System, w: nat, temp: nat, file: nat, s': System) {
    && w in s.writers && s.writers[w].phase == Creating && Temp(temp) !in s.dir && file !in s.inodes
    && s' == Put(s, w, Writing(temp, file, 0)).(
               dir := s.dir[Temp(temp) := file], inodes := s.inodes[file := Inode([], false)])
  }

  predicate Writes(s: System, w: nat, count: nat, s': System) {
    && w in s.writers && s.writers[w].phase.Writing?
    && var Writer(body, Writing(temp, file, written)) := s.writers[w];
       && 1 <= count <= |body| - written && file in s.inodes
       && s' == Put(s, w, Writing(temp, file, written + count)).(inodes :=
                  s.inodes[file := Inode(s.inodes[file].data + body[written..written + count], false)])
  }

  predicate Syncs(s: System, w: nat, s': System) {
    && w in s.writers && s.writers[w].phase.Writing?
    && var Writer(body, Writing(temp, file, written)) := s.writers[w];
       && written == |body| && file in s.inodes
       && s' == Put(s, w, Linking(temp, file)).(inodes := s.inodes[file := s.inodes[file].(synced := true)])
  }

  predicate Links(hash: Bytes -> string, s: System, w: nat, s': System) {
    && w in s.writers && s.writers[w].phase.Linking?
    && var Writer(body, Linking(temp, _)) := s.writers[w];
       && Temp(temp) in s.dir
       && s' == (if Final(hash(body)) in s.dir then Put(s, w, Opened(s.dir[Final(hash(body))], Some(temp)))
                 else Put(s, w, Cleaning(temp, Installed)).(dir := s.dir[Final(hash(body)) := s.dir[Temp(temp)]]))
  }

  predicate Unlinks(s: System, w: nat, s': System) {
    && w in s.writers && s.writers[w].phase.Cleaning?
    && s' == Put(s, w, Done(s.writers[w].phase.outcome)).(dir := s.dir - {Temp(s.writers[w].phase.temp)})
  }

  /** Every process is gone. A name may be what it was durably or what it was last; a name that was durable and is
      still the same survives. An inode that was not synced may hold anything. */
  ghost predicate LosesPower(s: System, s': System) {
    && s'.writers == map[] && s'.durable == s'.dir
    && (forall n :: n in s'.dir ==>
          || (n in s.dir && s'.dir[n] == s.dir[n])
          || (n in s.durable && s'.dir[n] == s.durable[n]))
    && (forall n :: n in s.durable && n in s.dir && s.dir[n] == s.durable[n] ==> n in s'.dir)
    && s'.inodes.Keys == s.inodes.Keys
    && (forall f :: f in s.inodes && s.inodes[f].synced ==> s'.inodes[f] == s.inodes[f])
  }

  ghost predicate Next(hash: Bytes -> string, s: System, step: Step, s': System) {
    match step
    case Spawn(w, body) => Spawns(s, w, body, s')
    case Create(w, temp, file) => Creates(s, w, temp, file, s')
    case Write(w, count) => Writes(s, w, count, s')
    case Sync(w) => Syncs(s, w, s')
    case Link(w) => Links(hash, s, w, s')
    case Unlink(w) => Unlinks(s, w, s')
    case SyncDirectory => s' == s.(durable := s.dir)
    case PowerLoss => LosesPower(s, s')
    case Move(w, turn) => Moves(hash, s, w, turn, s')
  }

  ghost predicate IsRun(hash: Bytes -> string, states: seq<System>, steps: seq<Step>) {
    && |states| == |steps| + 1
    && (forall i {:trigger steps[i]} :: 0 <= i < |steps| ==> Next(hash, states[i], steps[i], states[i + 1]))
  }

  // ---------------------------------------------------------------------
  // Invariants
  // ---------------------------------------------------------------------

  /** The file that a writer owns: it is reachable only through the writer's temporary name. */
  ghost predicate Owns(s: System, temp: nat, file: nat) {
    && Temp(temp) in s.dir && s.dir[Temp(temp)] == file && file in s.inodes
    && (forall n :: n in s.dir && n != Temp(temp) ==> s.dir[n] != file)
  }

  predicate HasTemp(p: Phase) {
    p.Writing? || p.Linking? || p.Cleaning? || (p.Opened? && p.cleanup.Some?) || (p.Reading? && p.cleanup.Some?)
  }

  function TempOf(p: Phase): nat
    requires HasTemp(p)
  {
    match p
    case Writing(temp, _, _) => temp
    case Linking(temp, _) => temp
    case Cleaning(temp, _) => temp
    case Opened(_, cleanup) => cleanup.value
    case Reading(_, cleanup, _) => cleanup.value
  }

  /** The final name of `body` is bound to exactly `body`. */
  ghost predicate Holds(hash: Bytes -> string, s: System, body: Bytes) {
    && Final(hash(body)) in s.dir && s.dir[Final(hash(body))] in s.inodes
    && s.inodes[s.dir[Final(hash(body))]].data == body
  }

  ghost predicate IsFinalFile(s: System, digest: string, file: nat) {
    Final(digest) in s.dir && s.dir[Final(digest)] == file && file in s.inodes
  }

  ghost predicate WriterFits(hash: Bytes -> string, s: System, x: Writer) {
    match x.phase
    case Writing(temp, file, written) =>
      Owns(s, temp, file) && written <= |x.body| && s.inodes[file].data == x.body[..written]
    case Linking(temp, file) =>
      Owns(s, temp, file) && s.inodes[file] == Inode(x.body, true)
    case Opened(existing, _) => IsFinalFile(s, hash(x.body), existing)
    case Reading(existing, _, got) =>
      IsFinalFile(s, hash(x.body), existing) && got <= s.inodes[existing].data
    case Cleaning(_, outcome) => outcome in {Installed, Verified} ==> Holds(hash, s, x.body)
    case Done(outcome) => outcome in {Installed, Verified} ==> Holds(hash, s, x.body)
    case _ => true
  }

  ghost predicate WritersFit(hash: Bytes -> string, s: System) {
    forall w :: w in s.writers ==> WriterFits(hash, s, s.writers[w])
  }

  ghost predicate TempsDistinct(s: System) {
    forall v, w :: v in s.writers && w in s.writers && v != w
                   && HasTemp(s.writers[v].phase) && HasTemp(s.writers[w].phase)
      ==> TempOf(s.writers[v].phase) != TempOf(s.writers[w].phase)
  }

  ghost predicate TempsBound(s: System) {
    forall w :: w in s.writers && HasTemp(s.writers[w].phase) ==> Temp(TempOf(s.writers[w].phase)) in s.dir
  }

  /** Names are bound to files, and a durable final name is still what it was. */
  ghost predicate NamesFit(s: System) {
    && (forall n :: n in s.dir ==> s.dir[n] in s.inodes)
    && (forall n :: n in s.durable ==> s.durable[n] in s.inodes)
    && (forall d :: Final(d) in s.durable ==> Final(d) in s.dir && s.dir[Final(d)] == s.durable[Final(d)])
  }

  ghost predicate Inv(hash: Bytes -> string, s: System) {
    NamesFit(s) && TempsDistinct(s) && TempsBound(s) && WritersFit(hash, s)
  }

  /** Every final name is bound to complete, synced bytes that hash to it. */
  ghost predicate Sound(hash: Bytes -> string, s: System) {
    forall d :: Final(d) in s.dir ==>
      s.dir[Final(d)] in s.inodes && s.inodes[s.dir[Final(d)]].synced && hash(s.inodes[s.dir[Final(d)]].data) == d
  }

  /** No final name is unbound or bound anew, and what it holds stays. */
  ghost predicate FinalsKept(s: System, s': System) {
    forall d :: Final(d) in s.dir && s.dir[Final(d)] in s.inodes ==>
      && Final(d) in s'.dir && s'.dir[Final(d)] == s.dir[Final(d)]
      && s.dir[Final(d)] in s'.inodes && s'.inodes[s.dir[Final(d)]].data == s.inodes[s.dir[Final(d)]].data
  }

  /** What a step other than power loss does to everybody: the invariant, soundness and final names are kept. */
  ghost predicate Keeps(hash: Bytes -> string, s: System, s': System) {
    Inv(hash, s') && FinalsKept(s, s') && (Sound(hash, s) ==> Sound(hash, s'))
  }

  // ---------------------------------------------------------------------
  // Every step keeps the invariants
  // ---------------------------------------------------------------------

  /** Everybody but `w` stays where they were. */
  ghost predicate Others(s: System, s': System, w: nat) {
    && w in s'.writers && s'.writers.Keys == s.writers.Keys + {w}
    && (forall v :: v in s.writers && v != w ==> s'.writers[v] == s.writers[v])
  }

  /** The temporary name that a writer holds, if any, is the one it held before. */
  predicate TempKept(s: System, s': System, w: nat)
    requires w in s'.writers
  {
    HasTemp(s'.writers[w].phase) ==>
      w in s.writers && HasTemp(s.writers[w].phase) && TempOf(s'.writers[w].phase) == TempOf(s.writers[w].phase)
  }

  lemma TempsKept(s: System, s': System, w: nat)
    requires TempsDistinct(s) && Others(s, s', w) && TempKept(s, s', w)
    ensures TempsDistinct(s')
  {
  }

  /** A writer moves along and no file and no name changes. */
  lemma QuietKeeps(hash: Bytes -> string, s: System, s': System, w: nat)
    requires Inv(hash, s) && Others(s, s', w) && TempKept(s, s', w) && WriterFits(hash, s, s'.writers[w])
    requires s'.inodes == s.inodes && s'.dir == s.dir && s'.durable == s.durable
    ensures Keeps(hash, s, s')
  {
    TempsKept(s, s', w);
    forall v | v in s'.writers ensures WriterFits(hash, s', s'.writers[v]) {
      if v != w { assert WriterFits(hash, s, s.writers[v]); }
    }
  }

  lemma TurnFits(hash: Bytes -> string, s: System, turn: Turn, x: Writer, phase': Phase)
    requires WriterFits(hash, s, x) && Turns(hash, s, turn, x.body, x.phase, phase') && NamesFit(s)
    ensures WriterFits(hash, s, x.(phase := phase'))
    ensures HasTemp(phase') ==> HasTemp(x.phase) && TempOf(phase') == TempOf(x.phase)
  {
    if turn.ReadEnd? {
      assert x.phase.got == s.inodes[x.phase.existing].data;
    }
  }

  lemma MoveKeeps(hash: Bytes -> string, s: System, w: nat, turn: Turn, s': System)
    requires Inv(hash, s) && Moves(hash, s, w, turn, s')
    ensures Keeps(hash, s, s')
  {
    assert WriterFits(hash, s, s.writers[w]);
    TurnFits(hash, s, turn, s.writers[w], s'.writers[w].phase);
    QuietKeeps(hash, s, s', w);
  }

  lemma SpawnKeeps(hash: Bytes -> string, s: System, w: nat, body: Bytes, s': System)
    requires Inv(hash, s) && Spawns(s, w, body, s')
    ensures Keeps(hash, s, s')
  {
    QuietKeeps(hash, s, s', w);
  }

  /** A writer that was there before a file was created under a new temporary name. */
  lemma CreatedFits(hash: Bytes -> string, s: System, w: nat, temp: nat, file: nat, s': System, x: Writer)
    requires NamesFit(s) && Creates(s, w, temp, file, s') && WriterFits(hash, s, x)
    ensures WriterFits(hash, s', x)
  {
  }

  lemma CreateTemps(s: System, w: nat, temp: nat, file: nat, s': System)
    requires TempsDistinct(s) && TempsBound(s) && Creates(s, w, temp, file, s')
    ensures TempsDistinct(s') && TempsBound(s')
  {
  }

  lemma CreateKeeps(hash: Bytes -> string, s: System, w: nat, temp: nat, file: nat, s': System)
    requires Inv(hash, s) && Creates(s, w, temp, file, s')
    ensures Keeps(hash, s, s')
  {
    CreateTemps(s, w, temp, file, s');
    forall v | v in s'.writers ensures WriterFits(hash, s', s'.writers[v]) {
      assert v in s.writers && WriterFits(hash, s, s.writers[v]);
      if v != w { CreatedFits(hash, s, w, temp, file, s', s.writers[v]); }
    }
  }

  /** A change of one file that no final name and no other writer can see. */
  ghost predicate OnlyFile(s: System, s': System, file: nat) {
    && s'.dir == s.dir && s'.durable == s.durable && s'.inodes.Keys == s.inodes.Keys
    && (forall f :: f in s.inodes && f != file ==> s'.inodes[f] == s.inodes[f])
  }

  lemma OtherFits(hash: Bytes -> string, s: System, s': System, temp: nat, file: nat, x: Writer)
    requires OnlyFile(s, s', file) && Owns(s, temp, file) && WriterFits(hash, s, x)
    requires HasTemp(x.phase) ==> TempOf(x.phase) != temp
    ensures WriterFits(hash, s', x)
  {
  }

  lemma OwnFileKeeps(hash: Bytes -> string, s: System, s': System, w: nat, temp: nat, file: nat)
    requires Inv(hash, s) && w in s.writers && Others(s, s', w) && OnlyFile(s, s', file) && Owns(s, temp, file)
    requires HasTemp(s.writers[w].phase) && TempOf(s.writers[w].phase) == temp && TempKept(s, s', w)
    requires WriterFits(hash, s', s'.writers[w])
    ensures Keeps(hash, s, s')
  {
    TempsKept(s, s', w);
    OwnFileUnseen(hash, s, s', temp, file);
    OwnFileFits(hash, s, s', w, temp, file);
  }

  /** No final name is bound to the file of a writer. */
  lemma OwnFileUnseen(hash: Bytes -> string, s: System, s': System, temp: nat, file: nat)
    requires NamesFit(s) && OnlyFile(s, s', file) && Owns(s, temp, file)
    ensures NamesFit(s') && FinalsKept(s, s') && (Sound(hash, s) ==> Sound(hash, s'))
  {
  }

  lemma OwnFileFits(hash: Bytes -> string, s: System, s': System, w: nat, temp: nat, file: nat)
    requires Inv(hash, s) && w in s.writers && Others(s, s', w) && OnlyFile(s, s', file) && Owns(s, temp, file)
    requires HasTemp(s.writers[w].phase) && TempOf(s.writers[w].phase) == temp
    requires WriterFits(hash, s', s'.writers[w])
    ensures WritersFit(hash, s')
  {
    forall v | v in s'.writers ensures WriterFits(hash, s', s'.writers[v]) {
      if v != w {
        assert WriterFits(hash, s, s.writers[v]);
        OtherFits(hash, s, s', temp, file, s.writers[v]);
      }
    }
  }

  lemma WriteKeeps(hash: Bytes -> string, s: System, w: nat, count: nat, s': System)
    requires Inv(hash, s) && Writes(s, w, count, s')
    ensures Keeps(hash, s, s')
  {
    var Writer(body, Writing(temp, file, written)) := s.writers[w];
    assert WriterFits(hash, s, s.writers[w]);
    assert body[..written] + body[written..written + count] == body[..written + count];
    OwnFileKeeps(hash, s, s', w, temp, file);
  }

  lemma SyncKeeps(hash: Bytes -> string, s: System, w: nat, s': System)
    requires Inv(hash, s) && Syncs(s, w, s')
    ensures Keeps(hash, s, s')
  {
    var Writer(body, Writing(temp, file, written)) := s.writers[w];
    assert WriterFits(hash, s, s.writers[w]);
    assert body[..|body|] == body;
    OwnFileKeeps(hash, s, s', w, temp, file);
  }

  /** A writer that does not own the file under the name that is now bound. */
  lemma LinkedFits(hash: Bytes -> string, s: System, d: string, file: nat, x: Writer)
    requires Final(d) !in s.dir && WriterFits(hash, s, x)
    requires x.phase.Writing? || x.phase.Linking? ==> x.phase.file != file
    ensures WriterFits(hash, s.(dir := s.dir[Final(d) := file]), x)
  {
  }

  /** What a writer is said to fit does not depend on the other writers. */
  lemma FitsElsewhere(hash: Bytes -> string, s: System, s': System, x: Writer)
    requires WriterFits(hash, s, x) && s'.dir == s.dir && s'.inodes == s.inodes
    ensures WriterFits(hash, s', x)
  {
  }

  /** Two writers own different files. */
  lemma FilesDiffer(hash: Bytes -> string, s: System, v: nat, w: nat)
    requires Inv(hash, s) && v in s.writers && w in s.writers && v != w && s.writers[w].phase.Linking?
    ensures s.writers[v].phase.Writing? || s.writers[v].phase.Linking? ==>
              s.writers[v].phase.file != s.writers[w].phase.file
  {
    assert WriterFits(hash, s, s.writers[v]) && WriterFits(hash, s, s.writers[w]);
  }

  lemma InstallFits(hash: Bytes -> string, s: System, w: nat, s': System)
    requires Inv(hash, s) && Links(hash, s, w, s') && Final(hash(s.writers[w].body)) !in s.dir
    ensures WritersFit(hash, s')
  {
    var Writer(body, Linking(temp, file)) := s.writers[w];
    assert WriterFits(hash, s, s.writers[w]);
    var linked := s.(dir := s.dir[Final(hash(body)) := file]);
    forall v | v in s'.writers ensures WriterFits(hash, s', s'.writers[v]) {
      if v != w {
        FilesDiffer(hash, s, v, w);
        assert WriterFits(hash, s, s.writers[v]);
        LinkedFits(hash, s, hash(body), file, s.writers[v]);
        FitsElsewhere(hash, linked, s', s.writers[v]);
      }
    }
  }

  lemma InstallKeeps(hash: Bytes -> string, s: System, w: nat, s': System)
    requires Inv(hash, s) && Links(hash, s, w, s') && Final(hash(s.writers[w].body)) !in s.dir
    ensures NamesFit(s') && TempsBound(s') && FinalsKept(s, s') && (Sound(hash, s) ==> Sound(hash, s'))
  {
    assert WriterFits(hash, s, s.writers[w]);
  }

  lemma LinkKeeps(hash: Bytes -> string, s: System, w: nat, s': System)
    requires Inv(hash, s) && Links(hash, s, w, s')
    ensures Keeps(hash, s, s')
  {
    if Final(hash(s.writers[w].body)) in s.dir {
      QuietKeeps(hash, s, s', w);
    } else {
      TempsKept(s, s', w);
      InstallFits(hash, s, w, s');
      InstallKeeps(hash, s, w, s');
    }
  }

  lemma UnlinkedFits(hash: Bytes -> string, s: System, temp: nat, x: Writer)
    requires WriterFits(hash, s, x) && (HasTemp(x.phase) ==> TempOf(x.phase) != temp)
    ensures WriterFits(hash, s.(dir := s.dir - {Temp(temp)}), x)
  {
  }

  lemma UnlinkFits(hash: Bytes -> string, s: System, w: nat, s': System)
    requires Inv(hash, s) && Unlinks(s, w, s')
    ensures WritersFit(hash, s')
  {
    var temp := s.writers[w].phase.temp;
    var unlinked := s.(dir := s.dir - {Temp(temp)});
    forall v | v in s'.writers ensures WriterFits(hash, s', s'.writers[v]) {
      assert WriterFits(hash, s, s.writers[v]);
      if v != w {
        UnlinkedFits(hash, s, temp, s.writers[v]);
        FitsElsewhere(hash, unlinked, s', s.writers[v]);
      }
    }
  }

  lemma UnlinkKeeps(hash: Bytes -> string, s: System, w: nat, s': System)
    requires Inv(hash, s) && Unlinks(s, w, s')
    ensures Keeps(hash, s, s')
  {
    TempsKept(s, s', w);
    UnlinkFits(hash, s, w, s');
  }

  lemma SyncDirectoryKeeps(hash: Bytes -> string, s: System)
    requires Inv(hash, s)
    ensures Keeps(hash, s, s.(durable := s.dir))
  {
    var s' := s.(durable := s.dir);
    forall v | v in s'.writers ensures WriterFits(hash, s', s'.writers[v]) {
      assert WriterFits(hash, s, s.writers[v]);
    }
  }

  /** Every step but power loss keeps the invariant, soundness, and every final name with its bytes. */
  lemma NextKeeps(hash: Bytes -> string, s: System, step: Step, s': System)
    requires Inv(hash, s) && Next(hash, s, step, s') && !step.PowerLoss?
    ensures Keeps(hash, s, s')
  {
    match step
    case Spawn(w, body) => SpawnKeeps(hash, s, w, body, s');
    case Move(w, turn) => MoveKeeps(hash, s, w, turn, s');
    case Create(w, temp, file) => CreateKeeps(hash, s, w, temp, file, s');
    case Write(w, count) => WriteKeeps(hash, s, w, count, s');
    case Sync(w) => SyncKeeps(hash, s, w, s');
    case Link(w) => LinkKeeps(hash, s, w, s');
    case Unlink(w) => UnlinkKeeps(hash, s, w, s');
    case SyncDirectory => SyncDirectoryKeeps(hash, s);
  }

  lemma PowerLossKeeps(hash: Bytes -> string, s: System, s': System)
    requires Inv(hash, s) && LosesPower(s, s')
    ensures Inv(hash, s')
    ensures Sound(hash, s) ==> Sound(hash, s')
  {
  }

  /** Every step, power loss included, keeps the invariant and keeps final names sound. */
  lemma NextSound(hash: Bytes -> string, s: System, step: Step, s': System)
    requires Inv(hash, s) && Next(hash, s, step, s')
    ensures Inv(hash, s')
    ensures Sound(hash, s) ==> Sound(hash, s')
  {
    if step.PowerLoss? { PowerLossKeeps(hash, s, s'); } else { NextKeeps(hash, s, step, s'); }
  }

  // ---------------------------------------------------------------------
  // Whole runs
  // ---------------------------------------------------------------------

  /** A directory in which no writer is at work; what the names hold may be anything. */
  ghost predicate Initial(s: System) {
    s.writers == map[] && NamesFit(s)
  }

  lemma {:induction false} RunInv(hash: Bytes -> string, states: seq<System>, steps: seq<Step>, n: nat)
    requires IsRun(hash, states, steps) && Inv(hash, states[0]) && n < |states|
    ensures Inv(hash, states[n])
  {
    if n > 0 {
      RunInv(hash, states, steps, n - 1);
      NextSound(hash, states[n - 1], steps[n - 1], states[n]);
    }
  }

  /** A writer that returned success has exactly its own bytes under its digest, whatever the
      directory held at the start and whatever the other writers do. */
  lemma SuccessStores(hash: Bytes -> string, states: seq<System>, steps: seq<Step>, n: nat, w: nat)
    requires IsRun(hash, states, steps) && Initial(states[0]) && n < |states| && w in states[n].writers
    requires states[n].writers[w].phase in {Done(Installed), Done(Verified)}
    ensures Holds(hash, states[n], states[n].writers[w].body)
  {
    RunInv(hash, states, steps, n);
    assert WriterFits(hash, states[n], states[n].writers[w]);
  }

  /** Starting from a sound directory, no short write, failing call, death or power loss ever leaves a
      final name bound to anything but complete bytes that hash to it. */
  lemma {:induction false} AlwaysSound(hash: Bytes -> string, states: seq<System>, steps: seq<Step>, n: nat)
    requires IsRun(hash, states, steps) && Inv(hash, states[0]) && Sound(hash, states[0]) && n < |states|
    ensures Sound(hash, states[n])
  {
    if n > 0 {
      AlwaysSound(hash, states, steps, n - 1);
      RunInv(hash, states, steps, n - 1);
      NextSound(hash, states[n - 1], steps[n - 1], states[n]);
    }
  }

  /** As long as the power stays on, a final name is bound once: to one file, with the same bytes, for good. */
  lemma {:induction false} BoundOnce(hash: Bytes -> string, states: seq<System>, steps: seq<Step>, m: nat, n: nat,
                                     d: string)
    requires IsRun(hash, states, steps) && Initial(states[0]) && m <= n < |states| && Final(d) in states[m].dir
    requires forall i :: m <= i < n ==> !steps[i].PowerLoss?
    ensures states[m].dir[Final(d)] in states[m].inodes
    ensures Final(d) in states[n].dir && states[n].dir[Final(d)] == states[m].dir[Final(d)]
    ensures states[m].dir[Final(d)] in states[n].inodes
    ensures states[n].inodes[states[m].dir[Final(d)]].data == states[m].inodes[states[m].dir[Final(d)]].data
  {
    RunInv(hash, states, steps, m);
    if m < n {
      BoundOnce(hash, states, steps, m, n - 1, d);
      RunInv(hash, states, steps, n - 1);
      NextKeeps(hash, states[n - 1], steps[n - 1], states[n]);
    }
  }
}
