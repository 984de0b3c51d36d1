/** Reconciling scanned files against the protected names: a file whose
    basename is protected is left alone, every other file (an orphan) is
    handled exactly once according to the dry-run and recycle flags. */
module Cleanup {
  import opened Paths

  /** The two command-line flags that steer handle_file. */
  datatype Options = Options(dryRun: bool, recycle: bool)

  /** What handling an orphan finally amounts to. */
  datatype Outcome = Report | Trash | Warn | Remove

  /** An observable effect, in the order it happens: a line written to
      standard output or a filesystem call. Each names the file whose
      handling produced it (the "not available" line itself prints no path). */
  datatype Action =
    | DryRunReport(path: Path)        // Dry run: File "<path>" will be deleted
    | DeletingNotice(path: Path)      // Deleting: File "<path>"
    | SentToTrash(path: Path)         // send2trash(path)
    | RecycleUnavailable(path: Path)  // Send to recycle bin option is not available.
    | Removed(path: Path)             // os.remove(path)

  /** The decision handle_file takes: dry run first, whatever recycle says;
      then recycle (the trash if it is there, a warning if not); otherwise
      permanent removal. */
  function Choose(opts: Options, trashAvailable: bool): (o: Outcome)
    ensures opts.dryRun <==> o == Report
    ensures o == Remove <==> !opts.dryRun && !opts.recycle
    ensures o == Trash <==> !opts.dryRun && opts.recycle && trashAvailable
    ensures o == Warn <==> !opts.dryRun && opts.recycle && !trashAvailable
  {
    if opts.dryRun then Report
    else if opts.recycle then (if trashAvailable then Trash else Warn)
    else Remove
  }

  function OutcomeAction(o: Outcome, path: Path): Action
  {
    match o
    case Report => DryRunReport(path)
    case Trash => SentToTrash(path)
    case Warn => RecycleUnavailable(path)
    case Remove => Removed(path)
  }

  /** Actions that change the filesystem. */
  predicate Mutates(a: Action) {
    a.SentToTrash? || a.Removed?
  }

  /** handle_file: the effects of handling one orphan. Outside a dry run
      the "Deleting" line comes first; the chosen outcome comes last. */
  function HandleFileLog(path: Path, opts: Options, trashAvailable: bool): (log: seq<Action>)
    ensures log != [] && log[|log| - 1] == OutcomeAction(Choose(opts, trashAvailable), path)
  {
    var last := OutcomeAction(Choose(opts, trashAvailable), path);
    if opts.dryRun then [last] else [DeletingNotice(path), last]
  }

  /** Handling one orphan yields exactly one outcome, the chosen one, a
      "Deleting" line exactly when it is not a dry run, only actions about
      that orphan, and nothing that touches the disk in a dry run. */
  lemma HandleFileOutcomes(path: Path, opts: Options, trashAvailable: bool)
    ensures forall o ::
      multiset(HandleFileLog(path, opts, trashAvailable))[OutcomeAction(o, path)] == if o == Choose(opts, trashAvailable) then 1 else 0
    ensures multiset(HandleFileLog(path, opts, trashAvailable))[DeletingNotice(path)] == if opts.dryRun then 0 else 1
    ensures forall a :: a in HandleFileLog(path, opts, trashAvailable) ==> a.path == path
    ensures forall a :: a in HandleFileLog(path, opts, trashAvailable) && Mutates(a) ==> !opts.dryRun
  {
  }

  /** process_file: a file is handled exactly when its basename is not protected. */
  function ProcessFileLog(path: Path, names: set<string>, opts: Options, trashAvailable: bool): (log: seq<Action>)
    ensures log == [] <==> Basename(path) in names
  {
    if Basename(path) !in names then HandleFileLog(path, opts, trashAvailable) else []
  }

  /** The effects of processing the scanned paths one after the other. */
  function RunLog(paths: seq<Path>, names: set<string>, opts: Options, trashAvailable: bool): seq<Action>
  {
    if paths == [] then []
    else RunLog(paths[..|paths| - 1], names, opts, trashAvailable) + ProcessFileLog(paths[|paths| - 1], names, opts, trashAvailable)
  }

  /** The files a log takes off the disk. */
  function MutatedPaths(log: seq<Action>): set<Path>
  {
    set a | a in log && Mutates(a) :: a.path
  }

  /** The files a log moves to the trash. */
  function TrashedPaths(log: seq<Action>): set<Path>
  {
    set a | a in log && a.SentToTrash? :: a.path
  }

  /** The scanned paths whose basename is not protected. */
  function Orphans(paths: seq<Path>, names: set<string>): set<Path>
  {
    set p | p in paths && Basename(p) !in names
  }

  lemma MutatedPathsAppend(a: seq<Action>, b: seq<Action>)
    ensures MutatedPaths(a + b) == MutatedPaths(a) + MutatedPaths(b)
    ensures TrashedPaths(a + b) == TrashedPaths(a) + TrashedPaths(b)
  {
  }

  /** How often processing one path produces an action. */
  lemma ProcessFileCount(p: Path, names: set<string>, opts: Options, trashAvailable: bool, a: Action)
    ensures multiset(ProcessFileLog(p, names, opts, trashAvailable))[a] ==
      if a.path == p && Basename(p) !in names && a in HandleFileLog(p, opts, trashAvailable) then 1 else 0
  {
    if Basename(p) !in names {
      var h := HandleFileLog(p, opts, trashAvailable);
      var last := OutcomeAction(Choose(opts, trashAvailable), p);
      if opts.dryRun {
        assert h == [last];
        assert multiset(h) == multiset{last};
      } else {
        assert h == [DeletingNotice(p), last];
        assert multiset(h) == multiset{DeletingNotice(p), last};
      }
    }
  }

  /** How often each action occurs in a run: an action about a protected
      file never does, an action about an orphan as often as the orphan was
      scanned when handling it produces that action, and never otherwise. */
  lemma {:induction false} RunLogCounts(paths: seq<Path>, names: set<string>, opts: Options, trashAvailable: bool, a: Action)
    ensures multiset(RunLog(paths, names, opts, trashAvailable))[a] ==
      if Basename(a.path) !in names && a in HandleFileLog(a.path, opts, trashAvailable) then multiset(paths)[a.path] else 0
  {
    if paths != [] {
      var front := paths[..|paths| - 1];
      var p := paths[|paths| - 1];
      RunLogCounts(front, names, opts, trashAvailable, a);
      ProcessFileCount(p, names, opts, trashAvailable, a);
      CountSnoc(paths, a.path);
      CountAppend(RunLog(front, names, opts, trashAvailable), ProcessFileLog(p, names, opts, trashAvailable), a);
    }
  }

  lemma CountSnoc<T>(xs: seq<T>, x: T)
    requires xs != []
    ensures multiset(xs)[x] == multiset(xs[..|xs| - 1])[x] + (if xs[|xs| - 1] == x then 1 else 0)
  {
    assert xs == xs[..|xs| - 1] + [xs[|xs| - 1]];
  }

  lemma CountAppend<T>(xs: seq<T>, ys: seq<T>, x: T)
    ensures multiset(xs + ys)[x] == multiset(xs)[x] + multiset(ys)[x]
  {
  }

  /** Every orphan gets exactly one outcome per time it was scanned, the one
      the flags choose, and no other. */
  lemma ExactlyOneOutcome(paths: seq<Path>, names: set<string>, opts: Options, trashAvailable: bool, p: Path, o: Outcome)
    requires Basename(p) !in names
    ensures multiset(RunLog(paths, names, opts, trashAvailable))[OutcomeAction(o, p)] ==
      if o == Choose(opts, trashAvailable) then multiset(paths)[p] else 0
  {
    var a := OutcomeAction(o, p);
    RunLogCounts(paths, names, opts, trashAvailable, a);
    var h := HandleFileLog(p, opts, trashAvailable);
    assert a in h <==> multiset(h)[a] > 0;
  }

  /** A file whose basename is protected is never the subject of any action. */
  lemma KnownFileUntouched(paths: seq<Path>, names: set<string>, opts: Options, trashAvailable: bool, p: Path)
    requires Basename(p) in names
    ensures forall a :: a in RunLog(paths, names, opts, trashAvailable) ==> a.path != p
    ensures p !in MutatedPaths(RunLog(paths, names, opts, trashAvailable))
  {
    forall a | a in RunLog(paths, names, opts, trashAvailable)
      ensures a.path != p
    {
      RunLogCounts(paths, names, opts, trashAvailable, a);
    }
  }

  /** What processing one path takes off the disk and puts in the trash. */
  lemma ProcessFileMutations(p: Path, names: set<string>, opts: Options, trashAvailable: bool)
    ensures MutatedPaths(ProcessFileLog(p, names, opts, trashAvailable)) ==
      if Choose(opts, trashAvailable) in {Trash, Remove} && Basename(p) !in names then {p} else {}
    ensures TrashedPaths(ProcessFileLog(p, names, opts, trashAvailable)) ==
      if Choose(opts, trashAvailable) == Trash && Basename(p) !in names then {p} else {}
  {
    var log := ProcessFileLog(p, names, opts, trashAvailable);
    if Basename(p) !in names && !opts.dryRun {
      assert log == [DeletingNotice(p), OutcomeAction(Choose(opts, trashAvailable), p)];
    }
  }

  lemma OrphansSnoc(paths: seq<Path>, names: set<string>)
    requires paths != []
    ensures Orphans(paths, names) ==
      Orphans(paths[..|paths| - 1], names) + (if Basename(paths[|paths| - 1]) !in names then {paths[|paths| - 1]} else {})
  {
    assert paths == paths[..|paths| - 1] + [paths[|paths| - 1]];
  }

  /** The files a run takes off the disk are the orphans when the flags ask
      for removal or an available trash, and none otherwise. */
  lemma {:induction false} RunMutations(paths: seq<Path>, names: set<string>, opts: Options, trashAvailable: bool)
    ensures MutatedPaths(RunLog(paths, names, opts, trashAvailable)) ==
      if Choose(opts, trashAvailable) in {Trash, Remove} then Orphans(paths, names) else {}
    ensures TrashedPaths(RunLog(paths, names, opts, trashAvailable)) ==
      if Choose(opts, trashAvailable) == Trash then Orphans(paths, names) else {}
  {
    if paths != [] {
      var front := paths[..|paths| - 1];
      var p := paths[|paths| - 1];
      RunMutations(front, names, opts, trashAvailable);
      MutatedPathsAppend(RunLog(front, names, opts, trashAvailable), ProcessFileLog(p, names, opts, trashAvailable));
      ProcessFileMutations(p, names, opts, trashAvailable);
      OrphansSnoc(paths, names);
    }
  }

  /** A dry run changes nothing on disk and reports each orphan once per scan. */
  lemma DryRunOnlyReports(paths: seq<Path>, names: set<string>, opts: Options, trashAvailable: bool, p: Path)
    requires opts.dryRun
    ensures MutatedPaths(RunLog(paths, names, opts, trashAvailable)) == {}
    ensures Basename(p) !in names ==> multiset(RunLog(paths, names, opts, trashAvailable))[DryRunReport(p)] == multiset(paths)[p]
  {
    RunMutations(paths, names, opts, trashAvailable);
    if Basename(p) !in names {
      ExactlyOneOutcome(paths, names, opts, trashAvailable, p, Report);
    }
  }

  /** Recycling without a trash facility leaves every file in place; each
      orphan gets one "Deleting" line and one warning per time it was scanned
      (DeletingPrecedesOutcome puts each warning right after its "Deleting" line). */
  lemma RecycleWithoutTrashKeepsFiles(paths: seq<Path>, names: set<string>, opts: Options, p: Path)
    requires !opts.dryRun && opts.recycle
    requires Basename(p) !in names
    ensures MutatedPaths(RunLog(paths, names, opts, false)) == {}
    ensures multiset(RunLog(paths, names, opts, false))[RecycleUnavailable(p)] == multiset(paths)[p]
    ensures multiset(RunLog(paths, names, opts, false))[DeletingNotice(p)] == multiset(paths)[p]
  {
    RunMutations(paths, names, opts, false);
    ExactlyOneOutcome(paths, names, opts, false, p, Warn);
    RunLogCounts(paths, names, opts, false, DeletingNotice(p));
  }

  /** Outside a dry run, with recycle off every orphan is removed permanently,
      and with recycle on and a trash facility every orphan goes to the trash;
      each once per time it was scanned (DeletingPrecedesOutcome puts each
      right after its "Deleting" line). */
  lemma DeletionRemovesOrphans(paths: seq<Path>, names: set<string>, opts: Options, trashAvailable: bool, p: Path)
    requires !opts.dryRun && (!opts.recycle || trashAvailable)
    requires Basename(p) !in names
    ensures MutatedPaths(RunLog(paths, names, opts, trashAvailable)) == Orphans(paths, names)
    ensures multiset(RunLog(paths, names, opts, trashAvailable))[Removed(p)] == if opts.recycle then 0 else multiset(paths)[p]
    ensures multiset(RunLog(paths, names, opts, trashAvailable))[SentToTrash(p)] == if opts.recycle then multiset(paths)[p] else 0
    ensures multiset(RunLog(paths, names, opts, trashAvailable))[DeletingNotice(p)] == multiset(paths)[p]
  {
    RunMutations(paths, names, opts, trashAvailable);
    ExactlyOneOutcome(paths, names, opts, trashAvailable, p, Remove);
    ExactlyOneOutcome(paths, names, opts, trashAvailable, p, Trash);
    RunLogCounts(paths, names, opts, trashAvailable, DeletingNotice(p));
  }

  /** Every action other than a "Deleting" line comes right after the
      "Deleting" line for the same file. */
  predicate NoticeFirst(log: seq<Action>)
  {
    forall i :: 0 <= i < |log| && !log[i].DeletingNotice? ==> i > 0 && log[i - 1] == DeletingNotice(log[i].path)
  }

  lemma NoticeFirstAppend(a: seq<Action>, b: seq<Action>)
    requires NoticeFirst(a) && NoticeFirst(b)
    requires b == [] || b[0].DeletingNotice?
    ensures NoticeFirst(a + b)
  {
    var log := a + b;
    forall i | 0 <= i < |log| && !log[i].DeletingNotice?
      ensures i > 0 && log[i - 1] == DeletingNotice(log[i].path)
    {
      if i >= |a| {
        assert log[i] == b[i - |a|];
        assert log[i - 1] == b[i - |a| - 1];
      }
    }
  }

  /** Outside a dry run, every trash move, "not available" warning and
      removal in a run comes right after the "Deleting" line for its file. */
  lemma {:induction false} DeletingPrecedesOutcome(paths: seq<Path>, names: set<string>, opts: Options, trashAvailable: bool)
    requires !opts.dryRun
    ensures forall i :: 0 <= i < |RunLog(paths, names, opts, trashAvailable)| && !RunLog(paths, names, opts, trashAvailable)[i].DeletingNotice? ==>
      i > 0 && RunLog(paths, names, opts, trashAvailable)[i - 1] == DeletingNotice(RunLog(paths, names, opts, trashAvailable)[i].path)
  {
    if paths != [] {
      var front := paths[..|paths| - 1];
      var p := paths[|paths| - 1];
      DeletingPrecedesOutcome(front, names, opts, trashAvailable);
      var last := ProcessFileLog(p, names, opts, trashAvailable);
      if last != [] {
        assert last == [DeletingNotice(p), OutcomeAction(Choose(opts, trashAvailable), p)];
        assert OutcomeAction(Choose(opts, trashAvailable), p).path == p;
      }
      assert NoticeFirst(last);
      NoticeFirstAppend(RunLog(front, names, opts, trashAvailable), last);
    }
  }

  /** The order in which files are processed does not matter: any permutation
      of the scanned paths yields the same actions, each as often. */
  lemma OrderIrrelevant(paths1: seq<Path>, paths2: seq<Path>, names: set<string>, opts: Options, trashAvailable: bool)
    requires multiset(paths1) == multiset(paths2)
    ensures multiset(RunLog(paths1, names, opts, trashAvailable)) == multiset(RunLog(paths2, names, opts, trashAvailable))
  {
    var m1 := multiset(RunLog(paths1, names, opts, trashAvailable));
    var m2 := multiset(RunLog(paths2, names, opts, trashAvailable));
    forall a
      ensures m1[a] == m2[a]
    {
      RunLogCounts(paths1, names, opts, trashAvailable, a);
      RunLogCounts(paths2, names, opts, trashAvailable, a);
    }
  }

  /** Nor does it matter for what is left on disk. */
  lemma OrderIrrelevantOnDisk(paths1: seq<Path>, paths2: seq<Path>, names: set<string>, opts: Options, trashAvailable: bool)
    requires multiset(paths1) == multiset(paths2)
    ensures MutatedPaths(RunLog(paths1, names, opts, trashAvailable)) == MutatedPaths(RunLog(paths2, names, opts, trashAvailable))
    ensures TrashedPaths(RunLog(paths1, names, opts, trashAvailable)) == TrashedPaths(RunLog(paths2, names, opts, trashAvailable))
  {
    RunMutations(paths1, names, opts, trashAvailable);
    RunMutations(paths2, names, opts, trashAvailable);
    assert Orphans(paths1, names) == Orphans(paths2, names) by {
      assert forall p :: p in paths1 <==> p in multiset(paths1);
      assert forall p :: p in paths2 <==> p in multiset(paths2);
    }
  }

  /** One more processed path extends the log and the disk changes by its own. */
  lemma RunLogStep(paths: seq<Path>, i: nat, names: set<string>, opts: Options, trashAvailable: bool)
    requires i < |paths|
    ensures RunLog(paths[..i + 1], names, opts, trashAvailable) ==
      RunLog(paths[..i], names, opts, trashAvailable) + ProcessFileLog(paths[i], names, opts, trashAvailable)
    ensures MutatedPaths(RunLog(paths[..i + 1], names, opts, trashAvailable)) ==
      MutatedPaths(RunLog(paths[..i], names, opts, trashAvailable)) + MutatedPaths(ProcessFileLog(paths[i], names, opts, trashAvailable))
    ensures TrashedPaths(RunLog(paths[..i + 1], names, opts, trashAvailable)) ==
      TrashedPaths(RunLog(paths[..i], names, opts, trashAvailable)) + TrashedPaths(ProcessFileLog(paths[i], names, opts, trashAvailable))
  {
    assert paths[..i + 1][..i] == paths[..i];
    MutatedPathsAppend(RunLog(paths[..i], names, opts, trashAvailable), ProcessFileLog(paths[i], names, opts, trashAvailable));
  }

  /** The machine the checker runs on: the files on disk, the recycle bin,
      and everything written or done so far, in order. */
  class Workspace {
    var present: set<Path>
    var trash: set<Path>
    var out: seq<Action>
    /** Whether the trash facility could be loaded. */
    const trashAvailable: bool

    constructor (files: set<Path>, trashAvailable: bool)
      ensures present == files && trash == {} && out == []
      ensures this.trashAvailable == trashAvailable
    {
      present := files;
      trash := {};
      out := [];
      this.trashAvailable := trashAvailable;
    }

    /** handle_file */
    method HandleFile(path: Path, opts: Options)
      modifies this
      ensures out == old(out) + HandleFileLog(path, opts, trashAvailable)
      ensures present == old(present) - MutatedPaths(HandleFileLog(path, opts, trashAvailable))
      ensures trash == old(trash) + TrashedPaths(HandleFileLog(path, opts, trashAvailable))
    {
      if opts.dryRun {
        out := out + [DryRunReport(path)];
      } else {
        out := out + [DeletingNotice(path)];
        if opts.recycle {
          if trashAvailable {
            present := present - {path};
            trash := trash + {path};
            out := out + [SentToTrash(path)];
          } else {
            out := out + [RecycleUnavailable(path)];
          }
        } else {
          present := present - {path};
          out := out + [Removed(path)];
        }
      }
    }

    /** process_file */
    method ProcessFile(path: Path, names: set<string>, opts: Options)
      modifies this
      ensures out == old(out) + ProcessFileLog(path, names, opts, trashAvailable)
      ensures present == old(present) - MutatedPaths(ProcessFileLog(path, names, opts, trashAvailable))
      ensures trash == old(trash) + TrashedPaths(ProcessFileLog(path, names, opts, trashAvailable))
    {
      var fileNameOnly := Basename(path);
      if fileNameOnly !in names {
        HandleFile(path, opts);
      }
    }

    /** The scanned files processed one after the other. */
    method ProcessFiles(paths: seq<Path>, names: set<string>, opts: Options)
      modifies this
      ensures out == old(out) + RunLog(paths, names, opts, trashAvailable)
      ensures present == old(present) - MutatedPaths(RunLog(paths, names, opts, trashAvailable))
      ensures trash == old(trash) + TrashedPaths(RunLog(paths, names, opts, trashAvailable))
    {
      for i := 0 to |paths|
        invariant out == old(out) + RunLog(paths[..i], names, opts, trashAvailable)
        invariant present == old(present) - MutatedPaths(RunLog(paths[..i], names, opts, trashAvailable))
        invariant trash == old(trash) + TrashedPaths(RunLog(paths[..i], names, opts, trashAvailable))
      {
        ghost var done := RunLog(paths[..i], names, opts, trashAvailable);
        ProcessFile(paths[i], names, opts);
        RunLogStep(paths, i, names, opts, trashAvailable);
        AppendAssoc(old(out), done, ProcessFileLog(paths[i], names, opts, trashAvailable));
      }
      assert paths[..|paths|] == paths;
    }
  }
}
