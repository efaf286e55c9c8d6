/** What an install achieves: undisturbed it installs, after one failed step it restores
    the program there was, and the manager always becomes idle again. */
module RuntimeProgress {
  import opened RuntimeFiles
  import opened RuntimeSwitch
  import opened Wrappers

  /** No crash, no error and no other install: the manager goes on, and workers come and
      go as they may. */
  predicate Undisturbed(e: Event) {
    e.Advance? || e.RemoveDownload? || e.Workers?
  }

  /** A run of such events from s. */
  ghost predicate Quiet(s: State, events: seq<Event>) {
    forall n :: 0 <= n < |events| ==> Undisturbed(events[n]) && Enabled(Played(s, events[..n]), events[n])
  }

  lemma QuietPrefix(s: State, events: seq<Event>)
    requires events != [] && Quiet(s, events)
    ensures var n := |events| - 1;
            && Quiet(s, events[..n]) && Undisturbed(events[n]) && Enabled(Played(s, events[..n]), events[n])
            && Played(s, events) == Next(Played(s, events[..n]), events[n])
  {
    hide Enabled, Next, Played;
    var n := |events| - 1;
    forall k | 0 <= k < n ensures Undisturbed(events[..n][k]) && Enabled(Played(s, events[..n][..k]), events[..n][k]) {
      assert events[..n][..k] == events[..k];
    }
    LastEvent(s, events);
  }

  lemma LastEvent(s: State, events: seq<Event>)
    requires events != []
    ensures var n := |events| - 1; Played(s, events) == Next(Played(s, events[..n]), events[n])
  {
    hide Next;
  }

  /** What the safety results are about: a crash can come at any time, an error from every
      step of an install that can report one, a restart whenever the manager is down, an
      install whenever it is idle, and workers come and go unless the manager has paused
      them or has not recovered yet. */
  lemma AnythingCanHappen(s: State)
    ensures Enabled(s, Crash) && (Enabled(s, Boot) <==> s.step.Off?)
    ensures forall name, program :: Enabled(s, Begin(name, program)) <==> s.step.Idle? && name !in s.fs.downloads
    ensures s.step in {Downloading, BackUp, Place, SyncDir, Confirm, RecordSuccess} ==> Enabled(s, Fail)
    ensures s.step.OpenJournal? || s.step.RenameJournal? || s.step.SyncJournal? ==> Enabled(s, Fail)
    ensures s.step.Downloading? ==> forall bytes :: Enabled(s, Partial(bytes))
    ensures s.step.Idle? && !s.paused ==> forall running :: Enabled(s, Workers(running))
  {
  }

  // ---- The way of an undisturbed install -----------------------------------

  /** The steps of an install that has met no error. */
  predicate Installing(step: Step) {
    match step
    case OpenJournal(save) => !save.Undo?
    case RenameJournal(save) => !save.Undo?
    case SyncJournal(save) => !save.Undo?
    case ReadJournal(context) => context.AtSuccess?
    case UndoExchange(context, _) => context.AtSuccess?
    case RemovePrevious(context) => context.AtSuccess?
    case RemoveJournal(context) => context.AtSuccess?
    case RemoveTemps(context) => context.AtSuccess?
    case Recovered(context) => context.AtSuccess?
    case RollBack => false
    case Off => false
    case Idle => false
    case _ => true
  }

  lemma StepsInstall(s: State)
    requires Installing(s.step) && Enabled(s, Advance)
    requires s.step.Place? ==> s.name in s.fs.downloads
    ensures Advanced(s).program == s.program
    ensures if s.step == Recovered(AtSuccess) then Advanced(s).step.Idle? && Advanced(s).fs == s.fs
            else Installing(Advanced(s).step)
  {
    hide Undone, PreviousRemoved, JournalRemoved, TmpRemoved, DownloadRemoved, JournalRenamed, JournalOpened;
  }

  lemma InstallAdvances(s: State)
    requires Inv(s) && Installing(s.step) && Enabled(s, Advance)
    ensures Advanced(s).program == s.program
    ensures if s.step == Recovered(AtSuccess) then Advanced(s).step.Idle? && Clean(Advanced(s).fs)
                                                   && Advanced(s).fs.target == Some(s.program)
            else Installing(Advanced(s).step)
  {
    hide Advanced, Enabled, Installing, Outcome, Journalled;
    StepsInstall(s);
  }

  lemma OthersLeaveTheStep(s: State, e: Event)
    requires Enabled(s, e) && (e.RemoveDownload? || e.Workers?)
    ensures Next(s, e).step == s.step && Next(s, e).program == s.program && Next(s, e).original == s.original
    ensures Next(s, e).fs.target == s.fs.target && Next(s, e).durable == s.durable
    ensures Next(s, e).fs.journal == s.fs.journal
    ensures e.Workers? ==> Next(s, e).fs == s.fs
    ensures e.RemoveDownload? ==> !s.step.Idle?
  {
  }

  /** The install is on its way, or it is over and its program in place. */
  ghost predicate InstallsOrDone(s: State, program: Binary, done: bool) {
    && Inv(s) && s.program == program
    && if done then s.step.Idle? && Clean(s.fs) && s.fs.target == Some(program) else Installing(s.step)
  }

  lemma InstallStep(s: State, program: Binary, done: bool, e: Event) returns (now: bool)
    requires InstallsOrDone(s, program, done) && Undisturbed(e) && Enabled(s, e)
    ensures InstallsOrDone(Next(s, e), program, now) && (now && !done ==> s.step == Recovered(AtSuccess))
    ensures done ==> now
  {
    hide Inv, Enabled, Next, Advanced;
    StepKeeps(s, e);
    if e.Advance? {
      NotAtRest(s);
      InstallAdvances(s);
      AdvanceIsNext(s);
      now := s.step == Recovered(AtSuccess);
    } else {
      OthersLeaveTheStep(s, e);
      now := done;
    }
  }

  lemma NotAtRest(s: State)
    requires Enabled(s, Advance)
    ensures !s.step.Idle? && !s.step.Off?
  {
  }

  lemma AdvanceIsNext(s: State)
    ensures Next(s, Advance) == Advanced(s)
  {
    hide Advanced;
  }

  lemma {:induction false} InstallGoesOn(s: State, events: seq<Event>) returns (done: bool)
    requires InstallsOrDone(s, s.program, false) && Quiet(s, events)
    ensures InstallsOrDone(Played(s, events), s.program, done)
    ensures done ==> exists k :: 0 <= k < |events| && Played(s, events[..k]).step == Recovered(AtSuccess)
  {
    hide InstallsOrDone, Next, Enabled, Quiet, Undisturbed;
    if events == [] {
      done := false;
    } else {
      var n := |events| - 1;
      QuietPrefix(s, events);
      var before := InstallGoesOn(s, events[..n]);
      done := InstallStep(Played(s, events[..n]), s.program, before, events[n]);
      if done && before {
        var k :| 0 <= k < n && Played(s, events[..n][..k]).step == Recovered(AtSuccess);
        assert events[..n][..k] == events[..k];
      }
    }
  }

  /** Main result 1. An install that nothing disturbs installs: it is never rolled back,
      and the manager is idle again only after it has recorded the success, with the new
      program in place and nothing else left. */
  lemma UndisturbedInstalls(start: State, before: seq<Event>, s: State, name: string, program: Binary,
                            events: seq<Event>)
    requires Start(start) && Reaches(start, before, s) && Enabled(s, Begin(name, program))
    requires Quiet(Next(s, Begin(name, program)), events)
    ensures var begun := Next(s, Begin(name, program));
            var t := Played(begun, events);
            && !t.step.RollBack? && t.program == program
            && (t.step.Idle? ==>
                  && t.fs.target == Some(program) && Clean(t.fs)
                  && exists k :: 0 <= k < |events| && Played(begun, events[..k]).step == Recovered(AtSuccess))
  {
    hide Inv, Reaches, Played, Quiet, Clean, Enabled;
    ReachesInv(start, before, s);
    StepKeeps(s, Begin(name, program));
    var done := InstallGoesOn(Next(s, Begin(name, program)), events);
  }

  // ---- The manager becomes idle --------------------------------------------

  /** How many steps there are at most until the manager is idle, apart from the
      removal of downloads. */
  function StepsLeft(step: Step): nat {
    match step
    case Off => 0
    case Idle => 0
    case Downloading => 21
    case OpenJournal(save) => if save.First? then 19 else 10
    case RenameJournal(save) => if save.First? then 18 else 9
    case SyncJournal(save) => if save.First? then 17 else 8
    case PauseWorkers => 16
    case BackUp => 15
    case Place => 14
    case SyncDir => 13
    case ResumeWorkers => 12
    case Confirm => 11
    case RecordSuccess => 7
    case RollBack => 7
    case ReadJournal(_) => 6
    case UndoExchange(_, _) => 5
    case RemovePrevious(_) => 4
    case RemoveJournal(_) => 3
    case RemoveTemps(_) => 2
    case Recovered(_) => 1
  }

  function Rank(s: State): nat {
    StepsLeft(s.step) + |s.fs.downloads|
  }

  lemma OneMoreDownload(downloads: map<string, Binary>, name: string, b: Binary)
    ensures |downloads[name := b]| <= |downloads| + 1
  {
    if name in downloads {
      assert downloads[name := b].Keys == downloads.Keys;
    } else {
      assert downloads[name := b].Keys == downloads.Keys + {name};
    }
    assert |downloads| == |downloads.Keys| && |downloads[name := b]| == |downloads[name := b].Keys|;
  }

  lemma FewerDownloads(downloads: map<string, Binary>, name: string)
    ensures |downloads - {name}| <= |downloads|
  {
    if name in downloads {
      OneFewer(downloads, name);
    } else {
      assert downloads - {name} == downloads;
    }
  }

  lemma RecoveryStepsFall(s: State)
    requires Recovering(s.step)
    ensures StepsLeft(Advanced(s).step) + 1 <= StepsLeft(s.step)
  {
    hide Undone, PreviousRemoved, JournalRemoved, TmpRemoved;
  }

  lemma StepsFall(s: State)
    requires Enabled(s, Advance)
    ensures StepsLeft(Advanced(s).step) + (if s.step.Downloading? then 2 else 1) <= StepsLeft(s.step)
  {
    hide Undone, PreviousRemoved, JournalRemoved, TmpRemoved, DownloadRemoved, JournalRenamed, JournalOpened, Written;
    if Recovering(s.step) {
      RecoveryStepsFall(s);
      hide Advanced, StepsLeft;
    }
  }

  lemma RankFalls(s: State, e: Event)
    requires Enabled(s, e) && (e.Advance? || e.RemoveDownload?)
    ensures Rank(Next(s, e)) < Rank(s)
  {
    if e.RemoveDownload? {
      OneFewer(s.fs.downloads, e.file);
    } else {
      hide Advanced, StepsLeft, Enabled;
      StepsFall(s);
      OneMoreDownload(s.fs.downloads, s.name, s.program);
      FewerDownloads(s.fs.downloads, s.name);
      AdvanceKeepsDownloads(s);
    }
  }

  lemma AdvanceKeepsDownloads(s: State)
    ensures Advanced(s).fs.downloads == s.fs.downloads
            || (s.step.Downloading? && Advanced(s).fs.downloads == s.fs.downloads[s.name := s.program])
            || (s.step.Place? && Advanced(s).fs.downloads == s.fs.downloads - {s.name})
  {
  }

  /** How many events are steps of the manager. */
  function Steps(events: seq<Event>): nat {
    if events == [] then 0
    else Steps(events[..|events| - 1]) + if events[|events| - 1].Workers? then 0 else 1
  }

  /** Main result 2. Whatever has happened, while nothing else disturbs it the manager
      takes a bounded number of steps. */
  lemma {:induction false} StepsAreBounded(s: State, events: seq<Event>)
    requires Quiet(s, events)
    ensures Steps(events) + Rank(Played(s, events)) <= Rank(s)
  {
    hide Next, Enabled, Rank, Quiet;
    if events != [] {
      var n := |events| - 1;
      QuietPrefix(s, events);
      StepsAreBounded(s, events[..n]);
      var t, e := Played(s, events[..n]), events[n];
      if e.Workers? {
        WorkersKeepRank(t, e);
      } else {
        RankFalls(t, e);
      }
    }
  }

  lemma WorkersKeepRank(s: State, e: Event)
    requires e.Workers?
    ensures Rank(Next(s, e)) == Rank(s)
  {
  }

  /** And unless it is idle there is a step that it can take. */
  lemma SomeStepIsEnabled(s: State) returns (e: Event)
    requires !s.step.Idle? && !s.step.Off?
    ensures Undisturbed(e) && !e.Workers? && Enabled(s, e)
  {
    if s.step.RemoveTemps? && s.fs.downloads != map[] {
      assert s.fs.downloads.Keys != {};
      var name :| name in s.fs.downloads;
      e := RemoveDownload(name);
    } else {
      e := Advance;
    }
  }

  lemma QuietOn(s: State, events: seq<Event>, e: Event)
    requires Quiet(s, events) && Undisturbed(e) && Enabled(Played(s, events), e)
    ensures Quiet(s, events + [e]) && Played(s, events + [e]) == Next(Played(s, events), e)
  {
    hide Enabled, Next, Played, Undisturbed;
    var now := events + [e];
    assert now[..|events|] == events;
    forall k | 0 <= k < |now| ensures Undisturbed(now[k]) && Enabled(Played(s, now[..k]), now[k]) {
      if k < |events| {
        assert now[..k] == events[..k];
      }
    }
    LastEvent(s, now);
  }

  /** Main result 3. So from every state of a running manager undisturbed steps lead to
      an idle one. */
  lemma BecomesIdle(s: State) returns (events: seq<Event>)
    requires !s.step.Off?
    ensures Quiet(s, events) && Played(s, events).step.Idle?
  {
    hide Enabled, Next, Quiet, Rank, Played;
    events := [];
    assert Quiet(s, events) && Played(s, []) == s by {
      NothingHappens(s);
    }
    while !Played(s, events).step.Idle?
      invariant Quiet(s, events) && !Played(s, events).step.Off?
      decreases Rank(Played(s, events))
    {
      var t := Played(s, events);
      var e := SomeStepIsEnabled(t);
      RankFalls(t, e);
      StaysOn(t, e);
      QuietOn(s, events, e);
      events := events + [e];
    }
  }

  lemma NothingHappens(s: State)
    ensures Quiet(s, []) && Played(s, []) == s
  {
  }

  lemma StaysOn(s: State, e: Event)
    requires Undisturbed(e) && Enabled(s, e) && !s.step.Off?
    ensures !Next(s, e).step.Off?
  {
  }

  /** An install can be begun when the manager is idle, and it can succeed. */
  lemma InstallCanSucceed(start: State, before: seq<Event>, s: State, name: string, program: Binary)
    returns (events: seq<Event>)
    requires Start(start) && Reaches(start, before, s) && s.step.Idle? && name !in s.fs.downloads
    ensures Enabled(s, Begin(name, program)) && Quiet(Next(s, Begin(name, program)), events)
    ensures var t := Played(Next(s, Begin(name, program)), events);
            t.step.Idle? && t.fs.target == Some(program) && Clean(t.fs)
  {
    hide Reaches, Quiet, Played, Clean;
    events := BecomesIdle(Next(s, Begin(name, program)));
    UndisturbedInstalls(start, before, s, name, program, events);
  }

  // ---- One failed step -----------------------------------------------------

  /** The manager rolls back only after an error, or when the download has gone, or to
      take a commit back that could not be recorded. */
  lemma RollBackHasAReason(s: State, e: Event)
    requires Enabled(s, e) && Next(s, e).step.RollBack? && !s.step.RollBack?
    ensures || e.Fail?
            || (e.Advance? && s.step.Place? && s.name !in s.fs.downloads)
            || (e.Advance? && s.step == SyncJournal(Undo))
  {
  }

  /** The way back after an error: rolling back to the program `want`, or taking a commit
      back first. */
  ghost predicate Returning(s: State, want: Option<Binary>) {
    && Inv(s)
    && match s.step
       case Idle => s.fs.target == want
       case RollBack => Promised(s) == want
       case OpenJournal(save) => save.Undo? && s.original == want
       case RenameJournal(save) => save.Undo? && s.original == want
       case SyncJournal(save) => save.Undo? && s.original == want
       case ReadJournal(context) => context.InRollback? && Promised(s) == want
       case UndoExchange(context, _) => context.InRollback? && Promised(s) == want
       case RemovePrevious(context) => context.InRollback? && Promised(s) == want
       case RemoveJournal(context) => context.InRollback? && Promised(s) == want
       case RemoveTemps(context) => context.InRollback? && Promised(s) == want
       case Recovered(context) => context.InRollback? && Promised(s) == want
       case _ => false
  }

  lemma RecoveryAdvances(s: State)
    requires Recovering(s.step) && s.step.context.InRollback? && Enabled(s, Advance)
    ensures Advanced(s).step.Idle? || (Recovering(Advanced(s).step) && Advanced(s).step.context.InRollback?)
    ensures Advanced(s).step.Idle? ==> s.step.Recovered? && Advanced(s).fs == s.fs
    ensures Promised(Advanced(s)) == Promised(s)
  {
    hide Undone, PreviousRemoved, JournalRemoved, TmpRemoved, DownloadRemoved;
    PromiseStep(s, Advance);
  }

  lemma ReturnAdvances(s: State, want: Option<Binary>)
    requires Returning(s, want) && Enabled(s, Advance)
    ensures Returning(Advanced(s), want)
  {
    AdvanceKeeps(s);
    if Recovering(s.step) {
      RecoveryAdvances(s);
      RecoveredMeans(s);
      hide Inv, Advanced, Promised, Enabled;
    } else {
      SavedAtLast(s);
      hide Inv, JournalRenamed, JournalOpened;
    }
  }

  lemma SavedAtLast(s: State)
    requires Inv(s)
    ensures s.step == SyncJournal(Undo) ==> Promised(s) == s.original
  {
    hide Journalled, Outcome;
  }

  lemma ReturnOthers(s: State, want: Option<Binary>, e: Event)
    requires Returning(s, want) && Enabled(s, e) && (e.RemoveDownload? || e.Workers?)
    ensures Returning(Next(s, e), want)
  {
    hide Inv, Enabled, Next;
    StepKeeps(s, e);
    OthersLeaveTheStep(s, e);
  }

  lemma {:induction false} ReturnGoesOn(s: State, want: Option<Binary>, events: seq<Event>)
    requires Returning(s, want) && Quiet(s, events)
    ensures Returning(Played(s, events), want)
  {
    hide Returning, Next, Enabled, Quiet;
    if events != [] {
      var n := |events| - 1;
      QuietPrefix(s, events);
      ReturnGoesOn(s, want, events[..n]);
      var t, e := Played(s, events[..n]), events[n];
      if e.Advance? {
        ReturnAdvances(t, want);
        AdvanceIsNext(t);
      } else {
        ReturnOthers(t, want, e);
      }
    }
  }

  lemma FailReturns(s: State)
    requires Inv(s) && Installing(s.step) && Enabled(s, Fail)
    ensures Returning(Next(s, Fail), if s.step == SyncJournal(Commit) then Some(s.program) else s.original)
  {
    FailKeeps(s);
    FailureKeepsPromise(s);
    RecoveredMeans(Failed(s));
    hide Inv, DownloadRemoved, Promised;
  }

  lemma FailureKeepsPromise(s: State)
    requires Inv(s) && Installing(s.step) && Enabled(s, Fail)
    ensures !s.step.RecordSuccess? ==>
              Promised(Failed(s)) == if s.step == SyncJournal(Commit) then Some(s.program) else s.original
    ensures Failed(s).original == s.original
  {
    hide DownloadRemoved, Journalled, Outcome, JournalOK;
  }

  /** Main result 4. When one step of an otherwise undisturbed install fails, the manager
      becomes idle with the program there was before the install, or none; only when the
      commit's journal is already in place, and merely making that durable failed, is
      the new program kept. */
  lemma FailedInstallRestores(start: State, before: seq<Event>, s: State, name: string, program: Binary,
                              first: seq<Event>, rest: seq<Event>)
    requires Start(start) && Reaches(start, before, s) && Enabled(s, Begin(name, program))
    requires Quiet(Next(s, Begin(name, program)), first)
    requires var failing := Played(Next(s, Begin(name, program)), first);
             Enabled(failing, Fail) && Quiet(Next(failing, Fail), rest)
    ensures var failing := Played(Next(s, Begin(name, program)), first);
            var t := Played(Next(failing, Fail), rest);
            t.step.Idle? ==>
              t.fs.target == if failing.step == SyncJournal(Commit) then Some(program) else s.fs.target
  {
    hide Inv, Reaches, Quiet, Enabled, Installing;
    ReachesInv(start, before, s);
    StepKeeps(s, Begin(name, program));
    BeginInstalls(s, name, program);
    var begun := Next(s, Begin(name, program));
    var done := InstallGoesOn(begun, first);
    OriginalStays(begun, first);
    var failing := Played(begun, first);
    NothingFailsAtRest(failing);
    FailReturns(failing);
    ReturnGoesOn(Next(failing, Fail), if failing.step == SyncJournal(Commit) then Some(program) else s.fs.target, rest);
  }

  lemma BeginInstalls(s: State, name: string, program: Binary)
    ensures var t := Next(s, Begin(name, program));
            Installing(t.step) && t.program == program && t.original == s.fs.target
  {
  }

  lemma NothingFailsAtRest(s: State)
    requires Enabled(s, Fail)
    ensures !s.step.Idle?
  {
  }

  lemma {:induction false} OriginalStays(s: State, events: seq<Event>)
    requires Quiet(s, events)
    ensures Played(s, events).original == s.original
  {
    hide Quiet, Enabled, Next;
    if events != [] {
      var n := |events| - 1;
      QuietPrefix(s, events);
      OriginalStays(s, events[..n]);
      SameOriginal(Played(s, events[..n]), events[n]);
    }
  }

  lemma SameOriginal(s: State, e: Event)
    requires Undisturbed(e)
    ensures Next(s, e).original == s.original
  {
    hide Undone, PreviousRemoved, JournalRemoved, TmpRemoved, DownloadRemoved;
  }
}
