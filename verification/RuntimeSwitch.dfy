/** Installing a new program over a running one (internal/tunnel/runtime_install.go,
    manager.go): the exchange of the files, the worker processes around it, and a
    crash or an error at any step. */
module RuntimeSwitch {
  import opened RuntimeFiles
  import opened Wrappers

  /** The journal is written at the start, to commit, and to take a commit back. */
  datatype Save = First | Commit | Undo

  /** Recovery runs at process start, to roll an install back, and at its end. */
  datatype Context = AtStart | InRollback | AtSuccess

  /** What the manager does next. */
  datatype Step =
    | Off
    | Idle
    | Downloading
    | OpenJournal(save: Save)
    | RenameJournal(save: Save)
    | SyncJournal(save: Save)
    | PauseWorkers
    | BackUp
    | Place
    | SyncDir
    | ResumeWorkers
    | Confirm
    | RecordSuccess
    | RollBack
    | ReadJournal(context: Context)
    | UndoExchange(context: Context, journal: Journal)
    | RemovePrevious(context: Context)
    | RemoveJournal(context: Context)
    | RemoveTemps(context: Context)
    | Recovered(context: Context)

  /** `original` is the program in place when the install began, `program` the one it
      installs and `durable` the journal it has last made durable. */
  datatype State = State(fs: Files, step: Step, running: bool, paused: bool,
                         name: string, program: Binary, original: Option<Binary>, durable: Option<Journal>)

  datatype Event =
    | Crash
    | Boot
    | Begin(name: string, program: Binary)
    | Advance
    | Fail
    | Partial(bytes: Binary)
    | RemoveDownload(file: string)
    | Workers(running: bool)

  function Written(s: State, save: Save): Journal {
    Journal(s.original.Some?, save.Commit?)
  }

  /** `Reload` by anybody else may start and stop workers unless the manager has
      paused them or has not recovered yet. */
  predicate WorkersFree(s: State) {
    && !s.paused && !s.step.Off?
    && !(Recovering(s.step) && s.step.context.AtStart?)
  }

  predicate Recovering(step: Step) {
    || step.ReadJournal? || step.UndoExchange? || step.RemovePrevious? || step.RemoveJournal?
    || step.RemoveTemps? || step.Recovered?
  }

  /** Where a failed journal write leads: nothing to roll back before the workers
      have been paused. */
  function AfterFailedSave(s: State, save: Save): State {
    if save.First? then s.(step := Idle, fs := DownloadRemoved(s.fs, s.name)) else s.(step := RollBack)
  }

  function Advanced(s: State): State {
    match s.step
    case Downloading => s.(step := OpenJournal(First), fs := s.fs.(downloads := s.fs.downloads[s.name := s.program]))
    case OpenJournal(save) => s.(step := RenameJournal(save), fs := JournalOpened(s.fs))
    case RenameJournal(save) =>
      s.(step := SyncJournal(save), fs := JournalRenamed(s.fs, Written(s, save)), durable := Some(Written(s, save)))
    case SyncJournal(save) =>
      s.(step := if save.First? then PauseWorkers else if save.Commit? then RecordSuccess else RollBack)
    case PauseWorkers => s.(step := BackUp, paused := true, running := false)
    case BackUp =>
      s.(step := Place, fs := if s.original.Some? then s.fs.(target := None, previous := s.fs.target) else s.fs)
    case Place =>
      if s.name in s.fs.downloads then
        s.(step := SyncDir, fs := DownloadRemoved(s.fs, s.name).(target := Some(s.fs.downloads[s.name])))
      else s.(step := RollBack)
    case SyncDir => s.(step := ResumeWorkers)
    case ResumeWorkers => s.(step := Confirm, paused := false)
    case Confirm => s.(step := OpenJournal(Commit))
    case RecordSuccess => s.(step := ReadJournal(AtSuccess))
    case RollBack => s.(step := ReadJournal(InRollback), paused := true, running := false)
    case ReadJournal(context) =>
      s.(step := match s.fs.journal case None => RemoveTemps(context) case Some(j) => UndoExchange(context, j))
    case UndoExchange(context, j) => s.(step := RemovePrevious(context), fs := Undone(s.fs, j))
    case RemovePrevious(context) => s.(step := RemoveJournal(context), fs := PreviousRemoved(s.fs))
    case RemoveJournal(context) => s.(step := RemoveTemps(context), fs := JournalRemoved(s.fs))
    case RemoveTemps(context) => s.(step := Recovered(context), fs := TmpRemoved(s.fs))
    case Recovered(_) => s.(step := Idle, paused := false)
    case _ => s
  }

  function Failed(s: State): State {
    match s.step
    case Downloading => s.(step := Idle, fs := DownloadRemoved(s.fs, s.name))
    case OpenJournal(save) => AfterFailedSave(s, save)
    case RenameJournal(save) => AfterFailedSave(s, save)
    case SyncJournal(save) => AfterFailedSave(s, save)
    case RecordSuccess => s.(step := OpenJournal(Undo))
    case _ => s.(step := RollBack)
  }

  /** Errors are reported by the steps of the install itself. */
  predicate MayFail(step: Step) {
    || step.Downloading? || step.OpenJournal? || step.RenameJournal? || step.SyncJournal?
    || step.BackUp? || step.Place? || step.SyncDir? || step.Confirm? || step.RecordSuccess?
  }

  predicate Enabled(s: State, e: Event) {
    match e
    case Crash => true
    case Boot => s.step.Off?
    case Begin(name, _) => s.step.Idle? && name !in s.fs.downloads
    case Advance => !s.step.Off? && !s.step.Idle? && (s.step.RemoveTemps? ==> s.fs.downloads == map[])
    case RemoveDownload(name) => s.step.RemoveTemps? && name in s.fs.downloads
    case Fail => MayFail(s.step)
    case Partial(_) => s.step.Downloading?
    case Workers(_) => WorkersFree(s)
  }

  /** A crash takes the workers down with the manager (process_linux.go). */
  function Next(s: State, e: Event): State {
    match e
    case Crash => s.(step := Off, running := false, paused := false)
    case Boot => s.(step := ReadJournal(AtStart))
    case Begin(name, program) =>
      s.(step := Downloading, name := name, program := program, original := s.fs.target, durable := None)
    case Advance => Advanced(s)
    case RemoveDownload(name) => s.(fs := DownloadRemoved(s.fs, name))
    case Fail => Failed(s)
    case Partial(bytes) => s.(fs := s.fs.(downloads := s.fs.downloads[s.name := bytes]))
    case Workers(running) => s.(running := running)
  }

  // ---- What every step keeps -----------------------------------------------

  /** The program that has to be in place once recovery is through: the new one when
      the last journal made durable is a commit, otherwise the original. */
  function Promised(s: State): Option<Binary> {
    if s.durable.Some? && s.durable.value.committed then Some(s.program) else s.original
  }

  predicate JournalOK(s: State) {
    match s.fs.journal
    case None => true
    case Some(j) =>
      && j.hadManaged == s.original.Some?
      && (j.committed ==> s.durable == Some(j) && s.fs.target == Some(s.program))
      && (!j.committed ==> s.durable.None? || s.durable == Some(j))
  }

  predicate Ready(s: State) {
    s.name in s.fs.downloads && s.fs.downloads[s.name] == s.program
  }

  predicate BeforeExchange(s: State) {
    s.fs.previous.None? && s.fs.target == s.original
  }

  predicate Exchanged(s: State) {
    s.fs.target == Some(s.program) && s.fs.previous == s.original
  }

  predicate Holds(s: State, committed: bool) {
    s.fs.journal == Some(Journal(s.original.Some?, committed)) && s.durable == s.fs.journal
  }

  predicate Stopped(s: State) {
    s.paused && !s.running
  }

  predicate ContextOK(s: State, context: Context) {
    match context
    case AtStart => !s.running && !s.paused
    case InRollback => Stopped(s)
    case AtSuccess => !s.paused && s.durable.Some? && s.durable.value.committed
  }

  predicate StepOK(s: State) {
    match s.step
    case Off => !s.running && !s.paused
    case Idle =>
      && !s.paused && s.fs.previous.None? && s.fs.target == Promised(s)
      && (s.fs.journal.Some? ==> !s.fs.journal.value.committed)
    case Downloading =>
      && !s.paused && BeforeExchange(s) && s.durable.None?
      && (s.fs.journal.Some? ==> !s.fs.journal.value.committed)
    case OpenJournal(save) => !s.paused && SaveOK(s, save)
    case RenameJournal(save) => !s.paused && SaveOK(s, save)
    case SyncJournal(save) =>
      && !s.paused && Holds(s, save.Commit?)
      && (save.First? ==> BeforeExchange(s) && Ready(s)) && (save.Commit? ==> Exchanged(s))
    case PauseWorkers => !s.paused && Holds(s, false) && BeforeExchange(s) && Ready(s)
    case BackUp => Stopped(s) && Holds(s, false) && BeforeExchange(s) && Ready(s)
    case Place => Stopped(s) && Holds(s, false) && s.fs.target.None? && s.fs.previous == s.original && Ready(s)
    case SyncDir => Stopped(s) && Holds(s, false) && Exchanged(s)
    case ResumeWorkers => Stopped(s) && Holds(s, false) && Exchanged(s)
    case Confirm => !s.paused && Holds(s, false) && Exchanged(s)
    case RecordSuccess => !s.paused && Holds(s, true) && Exchanged(s)
    case RollBack => s.fs.journal.Some?
    case ReadJournal(context) => ContextOK(s, context) && (context.AtSuccess? ==> Holds(s, true))
    case UndoExchange(context, j) =>
      ContextOK(s, context) && s.fs.journal == Some(j) && (context.AtSuccess? ==> j.committed)
    case RemovePrevious(context) =>
      && ContextOK(s, context) && s.fs.journal.Some? && s.fs.target == Promised(s)
      && (!s.fs.journal.value.committed && s.fs.journal.value.hadManaged ==> s.fs.previous.None?)
    case RemoveJournal(context) => ContextOK(s, context) && s.fs.previous.None? && s.fs.target == Promised(s)
    case RemoveTemps(context) =>
      ContextOK(s, context) && s.fs.previous.None? && s.fs.journal.None? && s.fs.target == Promised(s)
    case Recovered(context) => ContextOK(s, context) && Clean(s.fs) && s.fs.target == Promised(s)
  }

  predicate SaveOK(s: State, save: Save) {
    match save
    case First =>
      && BeforeExchange(s) && s.durable.None? && Ready(s)
      && (s.fs.journal.Some? ==> !s.fs.journal.value.committed)
    case Commit => Holds(s, false) && Exchanged(s)
    case Undo => Holds(s, true) && Exchanged(s)
  }

  predicate Inv(s: State) {
    Journalled(s.fs) && Outcome(s.fs) == Promised(s) && JournalOK(s) && StepOK(s)
  }

  lemma SaveKeeps(s: State)
    requires Inv(s) && (s.step.OpenJournal? || s.step.RenameJournal? || s.step.SyncJournal?)
    ensures Inv(Advanced(s))
  {
    hide Undone, PreviousRemoved, TmpRemoved;
  }

  lemma ExchangeKeeps(s: State)
    requires Inv(s)
    requires (s.step.Downloading? || s.step.PauseWorkers? || s.step.BackUp? || s.step.Place? || s.step.SyncDir?)
    ensures Inv(Advanced(s))
  {
  }

  lemma ConfirmKeeps(s: State)
    requires Inv(s) && (s.step.ResumeWorkers? || s.step.Confirm? || s.step.RecordSuccess? || s.step.RollBack?)
    ensures Inv(Advanced(s))
  {
    hide Outcome, Journalled, Undone, PreviousRemoved, JournalRemoved, TmpRemoved;
  }

  lemma ReadKeeps(s: State)
    requires Inv(s) && s.step.ReadJournal?
    ensures Inv(Advanced(s))
  {
    hide Undone, PreviousRemoved, JournalRemoved, TmpRemoved;
  }

  lemma UndoKeeps(s: State)
    requires Inv(s) && s.step.UndoExchange?
    ensures Inv(Advanced(s))
  {
  }

  lemma RemovePreviousKeeps(s: State)
    requires Inv(s) && s.step.RemovePrevious?
    ensures Inv(Advanced(s))
  {
  }

  lemma RemoveJournalKeeps(s: State)
    requires Inv(s) && s.step.RemoveJournal?
    ensures Inv(Advanced(s))
  {
  }

  lemma ClosingKeeps(s: State)
    requires Inv(s) && (s.step.RemoveTemps? || s.step.Recovered?)
    requires s.step.RemoveTemps? ==> s.fs.downloads == map[]
    ensures Inv(Advanced(s))
  {
  }

  lemma RecoveryKeeps(s: State)
    requires Inv(s) && Recovering(s.step) && (s.step.RemoveTemps? ==> s.fs.downloads == map[])
    ensures Inv(Advanced(s))
  {
    hide Inv, Advanced;
    if s.step.ReadJournal? {
      ReadKeeps(s);
    } else if s.step.UndoExchange? {
      UndoKeeps(s);
    } else if s.step.RemovePrevious? {
      RemovePreviousKeeps(s);
    } else if s.step.RemoveJournal? {
      RemoveJournalKeeps(s);
    } else {
      ClosingKeeps(s);
    }
  }

  lemma FirstSaveFails(s: State)
    requires Inv(s) && (s.step.OpenJournal? || s.step.RenameJournal? || s.step.SyncJournal?) && s.step.save.First?
    ensures Inv(Failed(s))
  {
  }

  lemma LaterSaveFails(s: State)
    requires Inv(s) && (s.step.OpenJournal? || s.step.RenameJournal? || s.step.SyncJournal?) && !s.step.save.First?
    ensures Inv(Failed(s))
  {
  }

  lemma StepFails(s: State)
    requires Inv(s)
    requires || s.step.Downloading? || s.step.BackUp? || s.step.Place?
             || s.step.SyncDir? || s.step.Confirm? || s.step.RecordSuccess?
    ensures Inv(Failed(s))
  {
  }

  lemma FailKeeps(s: State)
    requires Inv(s) && MayFail(s.step)
    ensures Inv(Failed(s))
  {
    hide Inv, Failed;
    if s.step.OpenJournal? || s.step.RenameJournal? || s.step.SyncJournal? {
      if s.step.save.First? {
        FirstSaveFails(s);
      } else {
        LaterSaveFails(s);
      }
    } else {
      StepFails(s);
    }
  }

  lemma ProcessKeeps(s: State, e: Event)
    requires Inv(s) && Enabled(s, e) && (e.Crash? || e.Boot? || e.Begin?)
    ensures Inv(Next(s, e))
  {
  }

  lemma OtherKeeps(s: State, e: Event)
    requires Inv(s) && Enabled(s, e) && (e.RemoveDownload? || e.Partial? || e.Workers?)
    ensures Inv(Next(s, e))
  {
  }

  lemma AdvanceKeeps(s: State)
    requires Inv(s) && Enabled(s, Advance)
    ensures Inv(Advanced(s))
  {
    hide Inv, Advanced;
    if Recovering(s.step) {
      RecoveryKeeps(s);
    } else if s.step.OpenJournal? || s.step.RenameJournal? || s.step.SyncJournal? {
      SaveKeeps(s);
    } else if s.step.ResumeWorkers? || s.step.Confirm? || s.step.RecordSuccess? || s.step.RollBack? {
      ConfirmKeeps(s);
    } else {
      ExchangeKeeps(s);
    }
  }

  /** Main result 1. Every step, error and crash keeps the invariant. */
  lemma StepKeeps(s: State, e: Event)
    requires Inv(s) && Enabled(s, e)
    ensures Inv(Next(s, e))
  {
    hide Inv, Advanced, Failed;
    if e.Advance? {
      AdvanceKeeps(s);
    } else if e.Fail? {
      FailKeeps(s);
    } else if e.Crash? || e.Boot? || e.Begin? {
      ProcessKeeps(s, e);
    } else {
      OtherKeeps(s, e);
    }
  }

  // ---- Whole runs ----------------------------------------------------------

  /** A process about to start over a directory in which nothing is pending. */
  predicate Start(s: State) {
    s.step.Off? && !s.running && !s.paused && Clean(s.fs) && s.original == s.fs.target && s.durable.None?
  }

  ghost predicate Reaches(start: State, events: seq<Event>, s: State) {
    if events == [] then s == start
    else
      var n := |events| - 1;
      exists before: State {:trigger Reaches(start, events[..n], before)} ::
        Reaches(start, events[..n], before) && Enabled(before, events[n]) && s == Next(before, events[n])
  }

  lemma {:induction false} ReachesInv(start: State, events: seq<Event>, s: State)
    requires Start(start) && Reaches(start, events, s)
    ensures Inv(s)
  {
    if events != [] {
      hide Inv, Enabled, Next;
      var n := |events| - 1;
      var before: State :| Reaches(start, events[..n], before) && Enabled(before, events[n])
                           && s == Next(before, events[n]);
      ReachesInv(start, events[..n], before);
      StepKeeps(before, events[n]);
    }
  }

  /** Main result 2. Wherever and however often the run crashed, a completed recovery
      leaves the new program when the last journal made durable is a commit and the
      original one (or none) otherwise, and nothing else; and the manager is idle
      only over that program. */
  lemma CrashSafe(start: State, events: seq<Event>, s: State)
    requires Start(start) && Reaches(start, events, s)
    ensures s.step.Recovered? ==> Clean(s.fs) && s.fs.target == Promised(s)
    ensures s.step.Idle? ==> s.fs.previous.None? && s.fs.target == Promised(s)
    ensures Journalled(s.fs) && Outcome(s.fs) == Promised(s)
  {
    hide Inv, Reaches, Journalled, Outcome, Promised;
    ReachesInv(start, events, s);
    RecoveredMeans(s);
  }

  lemma RecoveredMeans(s: State)
    requires Inv(s)
    ensures s.step.Recovered? ==> Clean(s.fs) && s.fs.target == Promised(s)
    ensures s.step.Idle? ==> s.fs.previous.None? && s.fs.target == Promised(s)
    ensures Journalled(s.fs) && Outcome(s.fs) == Promised(s)
  {
  }

  /** The operation reports a success only over a durable commit, and once its closing
      recovery is through the new program is in place. */
  lemma SuccessIsDurable(start: State, events: seq<Event>, s: State)
    requires Start(start) && Reaches(start, events, s)
    ensures s.step == Recovered(AtSuccess) ==> s.fs.target == Some(s.program)
    ensures s.step == ReadJournal(AtSuccess) ==> s.durable.Some? && s.durable.value.committed
  {
    hide Reaches;
    ReachesInv(start, events, s);
  }

  /** The converse does not hold. When the success cannot be recorded and taking the
      commit back fails before its journal is renamed, the operation reports an error
      while the commit stands: recovery keeps the new program. After the renaming it
      brings the original one back. */
  lemma FailedUndo(start: State, events: seq<Event>, s: State)
    requires Start(start) && Reaches(start, events, s)
    requires s.step == OpenJournal(Undo) || s.step == RenameJournal(Undo) || s.step == SyncJournal(Undo)
    ensures Enabled(s, Fail) && Next(s, Fail).step.RollBack?
    ensures Outcome(Next(s, Fail).fs) == if s.step == SyncJournal(Undo) then s.original else Some(s.program)
  {
    hide Reaches, Inv, Outcome;
    ReachesInv(start, events, s);
    FailedUndoAt(s);
  }

  lemma FailedUndoAt(s: State)
    requires Inv(s) && (s.step == OpenJournal(Undo) || s.step == RenameJournal(Undo) || s.step == SyncJournal(Undo))
    ensures Outcome(Failed(s).fs) == if s.step == SyncJournal(Undo) then s.original else Some(s.program)
  {
  }

  // ---- The steps of recovery and the method --------------------------------

  function Played(s: State, events: seq<Event>): State {
    if events == [] then s
    else Next(Played(s, events[..|events| - 1]), events[|events| - 1])
  }

  /** Events that happen while one recovery runs. */
  ghost predicate DuringRecovery(s: State, events: seq<Event>) {
    forall n :: 0 <= n < |events| ==>
                  && Recovering(Played(s, events[..n]).step)
                  && Enabled(Played(s, events[..n]), events[n])
  }

  lemma {:induction false} PromiseStays(s: State, events: seq<Event>, n: nat)
    requires Inv(s) && DuringRecovery(s, events) && n <= |events|
    ensures Inv(Played(s, events[..n])) && Promised(Played(s, events[..n])) == Promised(s)
  {
    hide Inv, Promised, Next, Enabled;
    if n == 0 {
      assert events[..0] == [];
    } else {
      PromiseStays(s, events, n - 1);
      assert events[..n][..n - 1] == events[..n - 1];
      var before := Played(s, events[..n - 1]);
      StepKeeps(before, events[n - 1]);
      PromiseStep(before, events[n - 1]);
    }
  }

  lemma PromiseStep(s: State, e: Event)
    requires Recovering(s.step) && Enabled(s, e)
    ensures Promised(Next(s, e)) == Promised(s)
  {
    hide Undone, PreviousRemoved, JournalRemoved, TmpRemoved, DownloadRemoved;
  }

  /** A recovery that completes step by step ends in the very files in which
      `RuntimeDir.RecoverRuntime` ends from the same beginning. */
  lemma RecoversLikeTheMethod(s: State, events: seq<Event>)
    requires Inv(s) && s.step.ReadJournal? && DuringRecovery(s, events) && Played(s, events).step.Recovered?
    ensures Played(s, events).fs == RecoveredFiles(s.fs)
  {
    hide Inv, Promised, Outcome, Played, DuringRecovery;
    PromiseStays(s, events, |events|);
    assert events[..|events|] == events;
    RecoveredMeans(s);
    RecoveredMeans(Played(s, events));
  }

  /** Main result 3. The program file is replaced or removed only while no worker
      runs, and none can start. */
  lemma TargetChangesOnlyWhileStopped(start: State, events: seq<Event>, s: State, e: Event)
    requires Start(start) && Reaches(start, events, s) && Enabled(s, e)
    requires Next(s, e).fs.target != s.fs.target
    ensures !s.running && !Next(s, e).running && !WorkersFree(s) && !WorkersFree(Next(s, e))
  {
    hide Inv, Reaches, Enabled, Next, WorkersFree;
    ReachesInv(start, events, s);
    TargetStep(s, e);
  }

  lemma TargetStep(s: State, e: Event)
    requires Inv(s) && Enabled(s, e) && Next(s, e).fs.target != s.fs.target
    ensures !s.running && !Next(s, e).running && !WorkersFree(s) && !WorkersFree(Next(s, e))
  {
    hide Inv, Advanced, WorkersFree;
    TargetSteps(s, e);
    StoppedThere(s);
  }

  lemma TargetSteps(s: State, e: Event)
    requires Enabled(s, e) && Next(s, e).fs.target != s.fs.target
    ensures e.Advance? && (s.step.BackUp? || s.step.Place? || (s.step.UndoExchange? && !s.step.journal.committed))
  {
  }

  lemma StoppedThere(s: State)
    requires Inv(s) && (s.step.BackUp? || s.step.Place? || (s.step.UndoExchange? && !s.step.journal.committed))
    ensures !s.running && !Advanced(s).running && !WorkersFree(s) && !WorkersFree(Advanced(s))
  {
  }
}
