/** The script's main flow once its inputs are in hand: the torrent listing
    becomes the dictionary and its name set, and every scanned file is
    processed against that set. */
module Checker {
  import opened Paths
  import opened Inventory
  import opened Cleanup

  /** The names that protect local files, given the torrent listing. */
  function Protected(ts: seq<Torrent>): set<string>
  {
    FileNamesSet(InventoryMap(ts))
  }

  /** Lines 87, 88 and 95 of the script: build the dictionary, take its name
      set, and process the scanned files against it. */
  method CheckFolder(ws: Workspace, ts: seq<Torrent>, paths: seq<Path>, opts: Options) returns (names: set<string>)
    modifies ws
    ensures names == Protected(ts)
    ensures ws.out == old(ws.out) + RunLog(paths, names, opts, ws.trashAvailable)
    ensures ws.present == old(ws.present) - MutatedPaths(RunLog(paths, names, opts, ws.trashAvailable))
    ensures ws.trash == old(ws.trash) + TrashedPaths(RunLog(paths, names, opts, ws.trashAvailable))
  {
    var torrentInfo := GetTorrentInfoDict(ts);
    names := FileNamesSet(torrentInfo);
    ws.ProcessFiles(paths, names, opts);
  }

  /** A scanned file that shares its name with a file of some torrent is left
      alone, whatever directory either of them sits in. */
  lemma TorrentFileKept(ts: seq<Torrent>, t: Torrent, f: FileEntry, paths: seq<Path>, opts: Options, trashAvailable: bool, p: Path)
    requires t in ts && f in t.files && IsRegularName(Basename(f.name))
    requires Basename(p) == Basename(f.name)
    ensures forall a :: a in RunLog(paths, Protected(ts), opts, trashAvailable) ==> a.path != p
    ensures p !in MutatedPaths(RunLog(paths, Protected(ts), opts, trashAvailable))
  {
    EntryNameProtected(ts, t, f);
    KnownFileUntouched(paths, Protected(ts), opts, trashAvailable, p);
  }

  /** A scanned file whose name is the name of no torrent entry gets the
      outcome the flags choose once per time it was scanned, and no other. */
  lemma ForeignFileHandled(ts: seq<Torrent>, paths: seq<Path>, opts: Options, trashAvailable: bool, p: Path, o: Outcome)
    requires forall t, f :: t in ts && f in t.files ==> Basename(Key(Entry(t, f))) != Basename(p)
    ensures multiset(RunLog(paths, Protected(ts), opts, trashAvailable))[OutcomeAction(o, p)] ==
      if o == Choose(opts, trashAvailable) then multiset(paths)[p] else 0
  {
    ProtectedNames(ts, Basename(p));
    ExactlyOneOutcome(paths, Protected(ts), opts, trashAvailable, p, o);
  }

  /** The key of an entry whose name is a plain name ends in that name. */
  lemma PlainEntryKey(t: Torrent, f: FileEntry)
    requires Sep !in f.name && IsRegularName(f.name)
    ensures Basename(Key(Entry(t, f))) == f.name
  {
    BasenameOfName(f.name);
    BasenameOfJoin(t.name, f.name);
    NormPathBasename(Join(t.name, f.name));
  }

  /** A listing of one torrent holding one file with a plain name protects
      that name and no other. */
  lemma SingleFileNames(ts: seq<Torrent>, kept: string, other: string)
    requires |ts| == 1 && |ts[0].files| == 1 && ts[0].files[0].name == kept
    requires Sep !in kept && IsRegularName(kept) && other != kept
    ensures kept in Protected(ts)
    ensures other !in Protected(ts)
  {
    var t := ts[0];
    assert ts == [t] && t.files == [t.files[0]];
    PlainEntryKey(t, t.files[0]);
    forall t', f' | t' in ts && f' in t'.files
      ensures Basename(Key(Entry(t', f'))) != other
    {
      assert t' == t && f' == t.files[0];
    }
    ProtectedNames(ts, kept);
    ProtectedNames(ts, other);
  }

  /** The basename of a file in a folder is its name. */
  lemma FileInFolder(dir: Path, name: Path)
    requires Sep !in name
    ensures Basename(dir + [Sep] + name) == name
  {
    BasenameAfterSep(dir, name);
    BasenameOfName(name);
  }

  /** A folder holds the one file of a one-file torrent (say "movie.mkv")
      and another file beside it (say "extra.nfo"): with both flags off only
      the other file is deleted, after its "Deleting" line. */
  lemma KeepOneDeleteOther(ts: seq<Torrent>, dir: Path, kept: string, other: string)
    requires |ts| == 1 && |ts[0].files| == 1 && ts[0].files[0].name == kept
    requires Sep !in kept && IsRegularName(kept) && Sep !in other && other != kept
    ensures RunLog([dir + [Sep] + kept, dir + [Sep] + other], Protected(ts), Options(false, false), false)
         == [DeletingNotice(dir + [Sep] + other), Removed(dir + [Sep] + other)]
  {
    var names := Protected(ts);
    var opts := Options(false, false);
    var keptPath := dir + [Sep] + kept;
    var otherPath := dir + [Sep] + other;
    FileInFolder(dir, kept);
    FileInFolder(dir, other);
    SingleFileNames(ts, kept, other);
    RunLogPair(keptPath, otherPath, names, opts, false);
    assert ProcessFileLog(keptPath, names, opts, false) == [];
    assert ProcessFileLog(otherPath, names, opts, false) == [DeletingNotice(otherPath), Removed(otherPath)];
  }

  /** Processing two paths is processing one, then the other. */
  lemma RunLogPair(p: Path, q: Path, names: set<string>, opts: Options, trashAvailable: bool)
    ensures RunLog([p, q], names, opts, trashAvailable) ==
      ProcessFileLog(p, names, opts, trashAvailable) + ProcessFileLog(q, names, opts, trashAvailable)
  {
    assert [p, q][..1] == [p] && [p][..0] == [];
    assert RunLog([p], names, opts, trashAvailable) == RunLog([], names, opts, trashAvailable) + ProcessFileLog(p, names, opts, trashAvailable);
  }
}
