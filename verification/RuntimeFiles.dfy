/** The files of a managed program and the recovery of an interrupted exchange
    (internal/tunnel/runtime_files.go). */
module RuntimeFiles {
  import opened Wrappers

  /** The contents of a program file. */
  type Binary = nat

  datatype Journal = Journal(hadManaged: bool, committed: bool)

  /** `downloads` are the files whose names start with `.download-`, `tmp` says that
      the temporary file of the journal exists. */
  datatype Files = Files(target: Option<Binary>, previous: Option<Binary>, downloads: map<string, Binary>,
                         journal: Option<Journal>, tmp: bool)

  /** The program that recovery brings about from these files. */
  function Outcome(fs: Files): Option<Binary> {
    match fs.journal
    case None => fs.target
    case Some(j) =>
      if j.committed then fs.target
      else if !j.hadManaged then None
      else if fs.previous.Some? then fs.previous
      else fs.target
  }

  /** A copy of the old program exists only while there is a journal. */
  predicate Journalled(fs: Files) {
    fs.journal.None? ==> fs.previous.None?
  }

  predicate Clean(fs: Files) {
    fs.previous.None? && fs.journal.None? && !fs.tmp && fs.downloads == map[]
  }

  /** What a completed recovery leaves. */
  function RecoveredFiles(fs: Files): Files {
    Files(Outcome(fs), None, map[], None, false)
  }

  // ---- The single file operations ------------------------------------------

  function JournalOpened(fs: Files): Files {
    fs.(tmp := true)
  }

  function JournalRenamed(fs: Files, j: Journal): Files {
    fs.(tmp := false, journal := Some(j))
  }

  /** Undoing the exchange: the old program back in place, or none. */
  function Undone(fs: Files, j: Journal): Files {
    if j.committed then fs
    else if !j.hadManaged then fs.(target := None)
    else if fs.previous.Some? then fs.(target := fs.previous, previous := None)
    else fs
  }

  function PreviousRemoved(fs: Files): Files {
    fs.(previous := None)
  }

  function JournalRemoved(fs: Files): Files {
    fs.(journal := None)
  }

  function DownloadRemoved(fs: Files, name: string): Files {
    fs.(downloads := fs.downloads - {name})
  }

  function TmpRemoved(fs: Files): Files {
    fs.(tmp := false)
  }

  /** The program directory; `budget` file operations happen before the power goes. */
  class RuntimeDir {
    var files: Files
    var budget: nat

    constructor (fs: Files, budget: nat)
      ensures files == fs && this.budget == budget
    {
      files, this.budget := fs, budget;
    }

    /** Whether the next file operation still happens. */
    method Powered() returns (on: bool)
      modifies `budget
      ensures on == (old(budget) > 0) && budget == if on then old(budget) - 1 else 0
    {
      on := budget > 0;
      if on {
        budget := budget - 1;
      }
    }

    /** `saveRuntimeJournal`: a crash leaves the old journal or the new one, whole. */
    method SaveJournal(j: Journal) returns (done: bool)
      modifies this
      ensures files == if old(budget) == 0 then old(files)
                       else if old(budget) == 1 then old(files).(tmp := true)
                       else old(files).(tmp := false, journal := Some(j))
      ensures done <==> old(budget) >= 2
    {
      done := Powered();
      if !done {
        return;
      }
      files := JournalOpened(files);
      done := Powered();
      if done {
        files := JournalRenamed(files, j);
      }
    }

    /** `recoverRuntime`. However early it stops, recovery from where it stopped
        brings about the same program; when it completes, that program is in place
        and nothing else is left. */
    method RecoverRuntime() returns (done: bool)
      requires Journalled(files)
      modifies this
      ensures Journalled(files) && Outcome(files) == old(Outcome(files))
      ensures done ==> files == old(RecoveredFiles(files))
      ensures !done ==> budget == 0
      ensures old(budget) > 3 + |old(files.downloads)| ==> done
      ensures files.target != old(files.target) ==> old(files.journal.Some?) && !old(files.journal).value.committed
    {
      if files.journal.None? {
        done := CleanupTemps();
        return;
      }
      var j := files.journal.value;
      if !j.committed {
        done := Powered();
        if !done {
          return;
        }
        files := Undone(files, j);
      }
      done := Powered();
      if !done {
        return;
      }
      files := PreviousRemoved(files);
      done := Powered();
      if !done {
        return;
      }
      files := JournalRemoved(files);
      done := CleanupTemps();
    }

    /** `cleanupRuntimeTemps`. */
    method CleanupTemps() returns (done: bool)
      modifies this
      ensures files == old(files).(downloads := files.downloads, tmp := files.tmp)
      ensures done ==> files.downloads == map[] && !files.tmp
      ensures !done ==> budget == 0
      ensures old(budget) > |old(files.downloads)| ==> done
    {
      while files.downloads != map[]
        invariant files == old(files).(downloads := files.downloads)
        invariant old(budget) - budget == |old(files.downloads)| - |files.downloads|
        decreases |files.downloads|
      {
        assert files.downloads.Keys != {};
        var name :| name in files.downloads;
        done := Powered();
        if !done {
          return;
        }
        OneFewer(files.downloads, name);
        files := DownloadRemoved(files, name);
      }
      done := Powered();
      if done {
        files := TmpRemoved(files);
      }
    }

    /** Recovery started again after every crash. */
    method RecoverAgain(budgets: seq<nat>) returns (done: bool)
      requires Journalled(files)
      modifies this
      ensures Journalled(files) && Outcome(files) == old(Outcome(files))
      ensures done ==> files == old(RecoveredFiles(files))
    {
      done := false;
      for i := 0 to |budgets|
        invariant Journalled(files) && Outcome(files) == old(Outcome(files)) && !done
      {
        budget := budgets[i];
        done := RecoverRuntime();
        if done {
          return;
        }
      }
    }
  }

  lemma OneFewer(downloads: map<string, Binary>, name: string)
    requires name in downloads
    ensures |downloads - {name}| == |downloads| - 1
  {
    assert |downloads.Keys - {name}| == |downloads.Keys| - 1;
    assert (downloads - {name}).Keys == downloads.Keys - {name};
    assert |downloads| == |downloads.Keys| && |downloads - {name}| == |(downloads - {name}).Keys|;
  }
}
