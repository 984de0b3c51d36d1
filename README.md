# qBittorrent file checker — a Dafny model of its reconciliation core

The checker compares a folder with what a qBittorrent client knows about. It
builds a dictionary from every torrent's files. The key is the torrent name
joined with the file's name and normalised, and the value is the file's size.
From the keys it takes the set of basenames. A scanned file whose basename is
in that set is known and left alone. Every other scanned file is an orphan,
and the checker handles it according to two flags:

- with `--dry_run`, it reports the file;
- otherwise it prints a "Deleting" line, then moves the file to the trash
  (with `--recycle`, if a trash facility could be loaded), warns that the
  trash is not available (with `--recycle` and no facility), or removes it
  for good (without `--recycle`).

The model has four modules:

- `Paths` (`paths.dfy`): POSIX `os.path.join`, `os.path.basename` and
  `os.path.normpath` as string functions, with `/` as the only separator.
  `normpath` follows CPython's `posixpath.normpath` step by step, including
  its leading-slash rule: exactly two leading slashes are kept, while one or
  three and more become one.
- `Inventory` (`inventory.dfy`): `get_torrent_info_dict` as a method whose
  nested loops insert into a `map`. It is proved against the functional
  specification `InventoryMap`. `get_file_names_set` is the function
  `FileNamesSet`.
- `Cleanup` (`cleanup.dfy`): `handle_file` and `process_file` as pure
  functions giving the list of effects (`HandleFileLog`, `ProcessFileLog`).
  Each effect is an `Action`: a line written to standard output or a call to
  `send2trash` / `os.remove`. The class `Workspace` holds the files on disk,
  the trash and the output so far. Its methods `HandleFile`, `ProcessFile`
  and `ProcessFiles` update that state in place and are proved against those
  functions.
- `Checker` (`checker.dfy`): the main flow once the torrent listing and the
  scanned paths are in hand. It also holds lemmas that join the inventory
  side with the cleanup side.

The torrent listing is a `seq<Torrent>`. The scanned files are a
`seq<Path>`, processed one after the other. Whether a trash facility is
present is the `Workspace`'s `trashAvailable` constant.

The script protects the basenames of the *normalised joined* paths, not the
basenames of the entries' own names. The two agree for every entry whose own
basename is a regular name (`EntryNameProtected`). They can differ when the
entry's own basename is empty, `.` or `..`: in a torrent named `T`, both an
empty entry name and the entry name `sub/..` give the key `T`.
`ProtectedNames` states the script's behaviour exactly.

## Model

| member | source | states |
|---|---|---|
| Paths.Join | qbittorrent_file_checker.py:28 | `os.path.join` on POSIX. An absolute second part is the result. Otherwise the result starts with the first part and ends with the second, and a `/` is inserted between them (the result is one character longer than both together) if and only if the first part is non-empty and does not already end in `/`. |
| Paths.Basename | qbittorrent_file_checker.py:34 | `os.path.basename`: the text after the last `/`, found by the helper `LastSep` (the `rfind('/')` inside `basename`). The result holds no separator and is no longer than the path. |
| Paths.BasenameUnique | qbittorrent_file_checker.py:34 | Any separator-free suffix of the path that is the whole path or follows a separator is the basename, so the basename is exactly the text after the last `/`. |
| Paths.BasenameSuffix | qbittorrent_file_checker.py:34 | The basename is a suffix of the path, and the character before it, if any, is `/`. |
| Paths.BasenameAfterSep | qbittorrent_file_checker.py:52 | The basename of `a + "/" + b` is the basename of `b`. |
| Paths.BasenameOfName | qbittorrent_file_checker.py:52 | A name with no separator is its own basename. |
| Paths.BasenameOfJoin | qbittorrent_file_checker.py:28 | Joining never changes the basename of the second part, absolute or not. |
| Paths.Split | qbittorrent_file_checker.py:28 | `str.split('/')`, the first step of `normpath`, gives at least one piece, and no piece holds a separator. |
| Paths.JoinWithSplit | qbittorrent_file_checker.py:28 | `'/'.join(s.split('/')) == s` for every string. |
| Paths.SplitAtSep | qbittorrent_file_checker.py:28 | Splitting `a + "/" + b` gives the pieces of `a` followed by the pieces of `b`. |
| Paths.SplitJoinWith | qbittorrent_file_checker.py:28 | A non-empty list of separator-free pieces survives a join followed by a split unchanged (the other round trip; the empty list does not, since `'/'.join([]).split('/') == ['']`). |
| Paths.SplitOfName | qbittorrent_file_checker.py:28 | A string with no separator splits into itself alone. |
| Paths.JoinWith | qbittorrent_file_checker.py:28 | `'/'.join(comps)`, the last step of `normpath`. It has no contract of its own; `JoinWithSplit`, `SplitJoinWith`, `BasenameOfJoinWith` and `JoinWithEnds` state what it means. |
| Paths.BasenameOfJoinWith | qbittorrent_file_checker.py:28 | The basename of joined pieces is the last piece when that piece holds no separator. |
| Paths.SplitLast | qbittorrent_file_checker.py:28 | The last piece of a split is the basename. |
| Paths.JoinWithEnds | qbittorrent_file_checker.py:28 | Joined non-empty pieces start with the first piece's first character and end with the last piece's last character. |
| Paths.LeadingSlashes | qbittorrent_file_checker.py:28 | `normpath` keeps leading slashes exactly when the path is absolute, at most two of them, and two if and only if the path starts with exactly two slashes (`//` not followed by a third). |
| Paths.Step | qbittorrent_file_checker.py:28 | One pass of `normpath`'s loop over the components: empty and `.` are skipped, `..` pops unless there is nothing to pop or the top is `..` (kept when relative, dropped at the root), anything else is pushed. No contract of its own; `StepClean` states the invariant it keeps. |
| Paths.Resolve | qbittorrent_file_checker.py:28 | `normpath`'s loop over all components, left to right. No contract of its own; `ResolveClean`, `ResolveOfClean` and `ResolveSnoc` state its meaning. |
| Paths.Components | qbittorrent_file_checker.py:28 | The components `normpath` keeps for a path: its split pieces run through the loop, rooted when the path is absolute. No contract of its own; `ComponentsClean` and `ComponentsLast` state its meaning. |
| Paths.StepClean | qbittorrent_file_checker.py:28 | One step of `normpath`'s component loop keeps the stack clean. Clean means no empty, `.` or separator-holding component, no `..` under the root, and `..` only as a leading run. |
| Paths.ResolveClean | qbittorrent_file_checker.py:28 | The whole component loop keeps a clean stack clean. |
| Paths.ResolveOfClean | qbittorrent_file_checker.py:28 | Clean components pass through the loop unchanged. |
| Paths.ResolveSnoc | qbittorrent_file_checker.py:28 | The loop over `comps + [c]` is the loop over `comps` followed by one step on `c`. |
| Paths.ComponentsClean | qbittorrent_file_checker.py:28 | The components `normpath` keeps for any path are clean. |
| Paths.NormPath | qbittorrent_file_checker.py:28 | `os.path.normpath`: the kept leading slashes (written by the helper `Slashes`, the `'/' * initial_slashes` step) followed by the resolved components joined with `/`, or `"."` when that is empty. The contract states that the result is never empty. |
| Paths.NormPathShape | qbittorrent_file_checker.py:28 | After the kept leading slashes, a normalised path splits exactly into its resolved components, which are clean: no empty piece (no `//`), no `.`, and `..` only as a leading run of a relative path. A path with no component left normalises to `.`, `/` or `//`. |
| Paths.NormPathNoTrailingSep | qbittorrent_file_checker.py:28 | A normalised path ends in `/` only if it is the root `/` or `//`. |
| Paths.NormPathAbsolute | qbittorrent_file_checker.py:28 | Normalising keeps an absolute path absolute and a relative path relative. |
| Paths.ComponentsLast | qbittorrent_file_checker.py:28 | When a path's basename is a regular name (not empty, `.` or `..`), it is the last component `normpath` keeps. |
| Paths.BasenameAfterSlashes | qbittorrent_file_checker.py:28 | Leading slashes do not change a basename. |
| Paths.NormPathOfComponents | qbittorrent_file_checker.py:28 | With at least one component kept, the normalised path is the leading slashes followed by the joined components, and that join does not start with `/`. |
| Paths.NormPathBasename | qbittorrent_file_checker.py:28 | A path whose basename is a regular name keeps that basename through `normpath`. |
| Paths.ResolveJoined | qbittorrent_file_checker.py:28 | Joining clean components, splitting them again and running the loop gives them back. |
| Paths.ComponentsOfRelative | qbittorrent_file_checker.py:28 | A relative normalised path has exactly the components it was built from. |
| Paths.ComponentsOfRooted | qbittorrent_file_checker.py:28 | A path under `/` has exactly the components it was built from. |
| Paths.ComponentsOfDoubleRooted | qbittorrent_file_checker.py:28 | A path under `//` has exactly the components it was built from. |
| Paths.NormPathIdempotent | qbittorrent_file_checker.py:28 | `normpath(normpath(p)) == normpath(p)` for every path. |
| Inventory.TorrentEntries | qbittorrent_file_checker.py:27 | The inner loop visits one entry per file of the torrent, in order. |
| Inventory.Entries | qbittorrent_file_checker.py:26-27 | The nested loops visit as many entries as there are file entries in all torrents. |
| Inventory.Key | qbittorrent_file_checker.py:28 | The dictionary key of an entry, `normpath(join(torrent.name, file.name))`. No contract of its own; `PlainEntryKey`, `NormPathIdempotent` and `NormPathBasename` state what it keeps. |
| Inventory.ToMap | qbittorrent_file_checker.py:24-29 | The dictionary after assigning each entry's size under its key in order, a later key replacing an earlier one. No contract of its own; `ToMapKeys`, `ToMapSize` and `LastWriteWins` state its meaning. |
| Inventory.InventoryMap | qbittorrent_file_checker.py:22-30 | The dictionary `get_torrent_info_dict` returns: all entries of all torrents inserted in loop order. No contract of its own; `InventoryKeys` states its key set and `GetTorrentInfoDict` is proved equal to it. |
| Inventory.GetTorrentInfoDict | qbittorrent_file_checker.py:22-30 | The dictionary the nested loops build equals the specification `InventoryMap`: each entry, in visiting order, stores its size under the normalised join of the torrent name and the file name. |
| Inventory.InnerStep | qbittorrent_file_checker.py:27-29 | One pass of the inner loop stores one more entry under its key. |
| Inventory.OuterStep | qbittorrent_file_checker.py:26-27 | One pass of the outer loop adds the entries of one more torrent. |
| Inventory.EntriesMembership | qbittorrent_file_checker.py:26-27 | The loops visit exactly the pairs of a listed torrent and one of its file entries. |
| Inventory.ToMapKeys | qbittorrent_file_checker.py:29 | The keys of the dictionary are the keys of the inserted entries. |
| Inventory.ToMapSize | qbittorrent_file_checker.py:29 | The dictionary never has more keys than inserted entries. |
| Inventory.EntryKeysSnoc | qbittorrent_file_checker.py:29 | One more entry adds exactly its own key to the key set. |
| Inventory.InventoryKeys | qbittorrent_file_checker.py:26-29 | The dictionary's keys are exactly `normpath(join(t.name, f.name))` for every torrent `t` and each of its files `f`, and there are at most as many keys as file entries. |
| Inventory.LastWriteWins | qbittorrent_file_checker.py:29 | When no later entry has the same key, the stored size is that entry's size: the last writer wins. |
| Inventory.FileNamesSet | qbittorrent_file_checker.py:32-34 | The name set holds exactly the basenames of the keys. No name holds a separator, and there are no more names than keys. |
| Inventory.ImageSize | qbittorrent_file_checker.py:34 | A set comprehension over a finite set is no larger than that set. |
| Inventory.ProtectedNames | qbittorrent_file_checker.py:26-34 | A name is in the name set if and only if it is the basename of the normalised path of some file entry of some torrent. |
| Inventory.EntryNameProtected | qbittorrent_file_checker.py:26-34 | A file entry whose own basename is a regular name protects that name, whatever directory it and its torrent name put it in. |
| Cleanup.Choose | qbittorrent_file_checker.py:38-48 | Each outcome is chosen in exactly one case. Dry run means a report, whatever `recycle` says. Otherwise recycle means the trash if it is available and a warning if not, and no recycle means removal. |
| Cleanup.OutcomeAction | qbittorrent_file_checker.py:39-48 | The effect each outcome ends with: the dry-run line, the `send2trash` call, the "not available" line or the `os.remove` call, about the given file. No contract of its own; `HandleFileOutcomes` and `ExactlyOneOutcome` count it. |
| Cleanup.HandleFileLog | qbittorrent_file_checker.py:36-48 | Handling a file always ends with the outcome `Choose` picks for that file. |
| Cleanup.HandleFileOutcomes | qbittorrent_file_checker.py:36-48 | Handling a file yields the chosen outcome exactly once and no other outcome. It prints "Deleting" exactly once outside a dry run and never in one. Every action is about that file, and nothing touches the disk in a dry run. |
| Cleanup.ProcessFileLog | qbittorrent_file_checker.py:50-54 | Processing a file does nothing exactly when its basename is in the name set. |
| Cleanup.ProcessFileCount | qbittorrent_file_checker.py:50-54 | Processing one path produces each action of its handling once, and only when its basename is not protected. |
| Cleanup.RunLog | qbittorrent_file_checker.py:56-63 | The effects of processing the scanned paths one after the other. No contract of its own; `RunLogCounts`, `RunMutations` and `OrderIrrelevant` characterise it, and `Workspace.ProcessFiles` is proved to produce it. |
| Cleanup.RunLogCounts | qbittorrent_file_checker.py:53-54 | Over a whole run, an action occurs as often as the file it is about was scanned, provided that file is an orphan and handling it yields the action. Otherwise it does not occur. |
| Cleanup.ExactlyOneOutcome | qbittorrent_file_checker.py:53-54 | Each orphan gets the chosen outcome once per time it was scanned and never any other outcome. |
| Cleanup.KnownFileUntouched | qbittorrent_file_checker.py:52-54 | A file whose basename is protected is the subject of no action and is neither removed nor trashed. |
| Cleanup.ProcessFileMutations | qbittorrent_file_checker.py:42-54 | Processing one path removes it from the disk when it is an orphan and the outcome is trash or removal, and trashes it only when the outcome is trash. |
| Cleanup.OrphansSnoc | qbittorrent_file_checker.py:52-53 | One more scanned path adds itself to the orphans exactly when its basename is not protected. |
| Cleanup.RunMutations | qbittorrent_file_checker.py:38-54 | A run takes exactly the orphans off the disk when the outcome is trash or removal, and nothing otherwise. It trashes exactly the orphans when the outcome is trash, and nothing otherwise. |
| Cleanup.DryRunOnlyReports | qbittorrent_file_checker.py:38-39 | A dry run leaves the disk alone and reports each orphan once per scan. |
| Cleanup.RecycleWithoutTrashKeepsFiles | qbittorrent_file_checker.py:41-46 | Recycling with no trash facility leaves every file in place. Each orphan gets one "Deleting" line and one "not available" warning per scan. |
| Cleanup.DeletionRemovesOrphans | qbittorrent_file_checker.py:41-48 | Outside a dry run, with the trash available or recycle off, exactly the orphans leave the disk. Each orphan is trashed (recycle) or removed (no recycle) once per scan, never the other way, and gets one "Deleting" line per scan. |
| Cleanup.DeletingPrecedesOutcome | qbittorrent_file_checker.py:40-48 | Outside a dry run, every trash move, "not available" warning and removal in a whole run comes immediately after the "Deleting" line for the same file. |
| Cleanup.OrderIrrelevant | qbittorrent_file_checker.py:58-63 | Processing the scanned files in any order gives the same actions, each as often. |
| Cleanup.OrderIrrelevantOnDisk | qbittorrent_file_checker.py:58-63 | Processing the scanned files in any order removes and trashes the same files. |
| Cleanup.RunLogStep | qbittorrent_file_checker.py:58-60 | Processing one more path extends the run's actions and its changes on disk by that path's own. |
| Cleanup.Workspace.constructor | qbittorrent_file_checker.py:6-9 | The workspace starts with the given files, an empty trash and no output, and with the trash facility available or not. |
| Cleanup.Workspace.HandleFile | qbittorrent_file_checker.py:36-48 | Handling a file appends its actions to the output. The file leaves the disk when it is trashed or removed, and enters the trash only when trashed. |
| Cleanup.Workspace.ProcessFile | qbittorrent_file_checker.py:50-54 | Processing a file appends `ProcessFileLog` to the output and changes the disk and trash as that log says. |
| Cleanup.Workspace.ProcessFiles | qbittorrent_file_checker.py:56-63 | Processing the scanned files one after the other appends the whole run's actions to the output. The disk loses and the trash gains exactly the files that run removes and trashes. |
| Checker.CheckFolder | qbittorrent_file_checker.py:87-95 | The main flow builds the name set of the listing and processes every scanned file against it, with the effects of `ProcessFiles`. |
| Checker.Protected | qbittorrent_file_checker.py:87-88 | The name set the main flow computes from the torrent listing. No contract of its own; `ProtectedNames`, `TorrentFileKept` and `SingleFileNames` state its meaning. |
| Checker.TorrentFileKept | qbittorrent_file_checker.py:26-54 | A scanned file that shares its name with a file of any torrent, in any directory, is never touched. |
| Checker.ForeignFileHandled | qbittorrent_file_checker.py:26-54 | A scanned file whose name is the basename of no torrent entry's key gets the chosen outcome once per scan, and no other. |
| Checker.PlainEntryKey | qbittorrent_file_checker.py:28 | The key of an entry whose name is a plain file name ends in that name. |
| Checker.SingleFileNames | qbittorrent_file_checker.py:26-34 | A listing of one torrent with one plainly named file protects that name and no other. |
| Checker.FileInFolder | qbittorrent_file_checker.py:52 | The basename of a file in a folder is the file's name. |
| Checker.KeepOneDeleteOther | qbittorrent_file_checker.py:26-54 | Take a folder holding a torrent's file (say `movie.mkv`) and another file (say `extra.nfo`), with both flags off. The only actions are the "Deleting" line and the removal of the other file. |
| Checker.RunLogPair | qbittorrent_file_checker.py:59-60 | Processing two paths is processing one, then the other. |

## Left out

- Connecting and logging in to the client (`establish_qbittorrent_connection`, lines 11-20) and fetching the torrents (line 25) are network calls into a foreign library. The listing is an input `seq<Torrent>`.
- Argument parsing, the `os.getcwd()` default and the `os.path.exists` check with its exit (lines 68-95) are process plumbing. `CheckFolder` starts once the options, the listing and the scanned paths are known.
- The directory walk (`os.walk`, lines 59-60) is filesystem I/O. The scanned paths are an input `seq<Path>`.
- The thread pool (lines 58-63) is replaced by a sequential loop. The tasks share only the read-only name set, and `OrderIrrelevant` and `OrderIrrelevantOnDisk` show that the order does not matter. The interleaving of output lines from different threads is not modelled.
- The final "Processing finished!" line (line 65) is not part of the action log.
- Exceptions from `os.remove` and `send2trash` are not modelled: a missing file, missing permissions, or a directory. A removal is a set difference on the files present.
- Whether `send2trash` imports (lines 6-9) is the constructor parameter `trashAvailable`.
- File sizes are kept in the dictionary as unbounded integers. Nothing reads them.
- Windows path semantics (drive letters, `\` separators) are not modelled. Paths are POSIX.
- Cleanup.Action: the "Send to recycle bin option is not available" line prints no path, but the model's `RecycleUnavailable` records the file whose handling printed it, so that counts can be stated per file.
- Strings are sequences of characters: no encoding, case folding or Unicode normalisation takes place, which matches the code-point comparisons Python makes on `str` paths.
- File names that are not valid in the file-system encoding are not modelled: Python decodes their bytes to lone surrogates (U+DC80 to U+DCFF), which a Dafny `char` cannot hold.
