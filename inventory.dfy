/** The torrent inventory: every file entry of every torrent, keyed by its
    normalised path, and the set of basenames that protects local files. */
module Inventory {
  import opened Paths

  /** One file entry of a torrent: its path inside the torrent and its size in bytes. */
  datatype FileEntry = FileEntry(name: string, size: int)

  /** A torrent as the client lists it: its display name and its file entries. */
  datatype Torrent = Torrent(name: string, files: seq<FileEntry>)

  /** One file entry together with the torrent it belongs to, as the inner loop sees it. */
  datatype Entry = Entry(torrent: Torrent, file: FileEntry)

  /** The key under which an entry is stored: the torrent name joined with
      the entry's name, normalised. */
  function Key(e: Entry): Path
  {
    NormPath(Join(e.torrent.name, e.file.name))
  }

  /** The entries of one torrent, in iteration order. */
  function TorrentEntries(t: Torrent, files: seq<FileEntry>): (es: seq<Entry>)
    ensures |es| == |files|
    ensures forall j :: 0 <= j < |files| ==> es[j] == Entry(t, files[j])
  {
    if files == [] then []
    else TorrentEntries(t, files[..|files| - 1]) + [Entry(t, files[|files| - 1])]
  }

  function FileCount(ts: seq<Torrent>): nat
  {
    if ts == [] then 0 else FileCount(ts[..|ts| - 1]) + |ts[|ts| - 1].files|
  }

  /** The entries of all torrents, in the order the nested loops visit them. */
  function Entries(ts: seq<Torrent>): (es: seq<Entry>)
    ensures |es| == FileCount(ts)
  {
    if ts == [] then []
    else Entries(ts[..|ts| - 1]) + TorrentEntries(ts[|ts| - 1], ts[|ts| - 1].files)
  }

  /** Inserting the entries one by one into a dictionary: a later entry
      with the same key replaces an earlier one. */
  function ToMap(es: seq<Entry>): map<Path, int>
  {
    if es == [] then map[]
    else ToMap(es[..|es| - 1])[Key(es[|es| - 1]) := es[|es| - 1].file.size]
  }

  /** The dictionary get_torrent_info_dict returns. */
  function InventoryMap(ts: seq<Torrent>): map<Path, int>
  {
    ToMap(Entries(ts))
  }

  /** get_torrent_info_dict: the nested loops over torrents and their file entries. */
  method GetTorrentInfoDict(ts: seq<Torrent>) returns (m: map<Path, int>)
    ensures m == InventoryMap(ts)
  {
    m := map[];
    for i := 0 to |ts|
      invariant m == ToMap(Entries(ts[..i]))
    {
      var t := ts[i];
      assert t.files[..0] == [] && Entries(ts[..i]) + [] == Entries(ts[..i]);
      for j := 0 to |t.files|
        invariant m == ToMap(Entries(ts[..i]) + TorrentEntries(t, t.files[..j]))
      {
        var f := t.files[j];
        var key := NormPath(Join(t.name, f.name));
        InnerStep(Entries(ts[..i]), t, j);
        m := m[key := f.size];
      }
      OuterStep(ts, i);
    }
    assert ts[..|ts|] == ts;
  }

  /** One iteration of the inner loop stores one more entry. */
  lemma InnerStep(done: seq<Entry>, t: Torrent, j: nat)
    requires j < |t.files|
    ensures ToMap(done + TorrentEntries(t, t.files[..j + 1]))
         == ToMap(done + TorrentEntries(t, t.files[..j]))[NormPath(Join(t.name, t.files[j].name)) := t.files[j].size]
  {
    var before := done + TorrentEntries(t, t.files[..j]);
    assert t.files[..j + 1][..j] == t.files[..j];
    var after := done + TorrentEntries(t, t.files[..j + 1]);
    assert after == before + [Entry(t, t.files[j])];
    assert after[..|before|] == before;
  }

  /** One iteration of the outer loop adds all entries of one torrent. */
  lemma OuterStep(ts: seq<Torrent>, i: nat)
    requires i < |ts|
    ensures Entries(ts[..i + 1]) == Entries(ts[..i]) + TorrentEntries(ts[i], ts[i].files[..|ts[i].files|])
  {
    assert ts[..i + 1][..i] == ts[..i];
    assert ts[i].files[..|ts[i].files|] == ts[i].files;
  }

  /** The listing holds exactly the pairs of a torrent and one of its file entries. */
  lemma {:induction false} EntriesMembership(ts: seq<Torrent>, e: Entry)
    ensures e in Entries(ts) <==> e.torrent in ts && e.file in e.torrent.files
  {
    if ts != [] {
      var front := ts[..|ts| - 1];
      var last := ts[|ts| - 1];
      EntriesMembership(front, e);
      assert ts == front + [last];
      var lastEs := TorrentEntries(last, last.files);
      if e in lastEs {
        var j :| 0 <= j < |lastEs| && lastEs[j] == e;
      }
      if e.torrent == last && e.file in last.files {
        var j :| 0 <= j < |last.files| && last.files[j] == e.file;
        assert lastEs[j] == e;
      }
    }
  }

  /** The keys of a list of entries. */
  function EntryKeys(es: seq<Entry>): set<Path>
  {
    SeqImage(es, Key)
  }

  function SeqImage<A(==), B>(xs: seq<A>, f: A -> B): set<B>
  {
    set x | x in xs :: f(x)
  }

  lemma SeqImageSnoc<A, B>(front: seq<A>, last: A, f: A -> B)
    ensures SeqImage(front + [last], f) == SeqImage(front, f) + {f(last)}
  {
    var xs := front + [last];
    forall y | y in SeqImage(xs, f) ensures y in SeqImage(front, f) + {f(last)} {
      var x :| x in xs && f(x) == y;
      if x != last {
        assert x in front;
      }
    }
  }

  /** The dictionary's keys are the keys of the entries. */
  lemma {:induction false} ToMapKeys(es: seq<Entry>)
    ensures ToMap(es).Keys == EntryKeys(es)
  {
    if es != [] {
      var front := es[..|es| - 1];
      var last := es[|es| - 1];
      ToMapKeys(front);
      EntryKeysSnoc(es);
    }
  }

  lemma EntryKeysSnoc(es: seq<Entry>)
    requires es != []
    ensures EntryKeys(es) == EntryKeys(es[..|es| - 1]) + {Key(es[|es| - 1])}
  {
    assert es == es[..|es| - 1] + [es[|es| - 1]];
    SeqImageSnoc(es[..|es| - 1], es[|es| - 1], Key);
  }

  /** Inserting entries never yields more keys than entries. */
  lemma {:induction false} ToMapSize(es: seq<Entry>)
    ensures |ToMap(es)| <= |es|
  {
    if es != [] {
      var front := es[..|es| - 1];
      var last := es[|es| - 1];
      ToMapSize(front);
      var m := ToMap(front);
      assert ToMap(es).Keys == m.Keys + {Key(last)};
    }
  }

  /** The dictionary's keys are exactly the normalised paths of all entries,
      and there are at most as many keys as entries. */
  lemma InventoryKeys(ts: seq<Torrent>)
    ensures InventoryMap(ts).Keys == set t, f | t in ts && f in t.files :: Key(Entry(t, f))
    ensures |InventoryMap(ts)| <= FileCount(ts)
  {
    ToMapKeys(Entries(ts));
    ToMapSize(Entries(ts));
    var keys := set t, f | t in ts && f in t.files :: Key(Entry(t, f));
    forall k | k in InventoryMap(ts)
      ensures k in keys
    {
      var e :| e in Entries(ts) && Key(e) == k;
      EntriesMembership(ts, e);
    }
    forall k | k in keys
      ensures k in InventoryMap(ts)
    {
      var t, f :| t in ts && f in t.files && k == Key(Entry(t, f));
      EntriesMembership(ts, Entry(t, f));
    }
  }

  /** Last write wins: the stored size is the one of the last entry with that key. */
  lemma {:induction false} LastWriteWins(es: seq<Entry>, j: nat)
    requires j < |es|
    requires forall k :: j < k < |es| ==> Key(es[k]) != Key(es[j])
    ensures Key(es[j]) in ToMap(es) && ToMap(es)[Key(es[j])] == es[j].file.size
  {
    if j < |es| - 1 {
      var front := es[..|es| - 1];
      LastWriteWins(front, j);
    }
  }

  /** get_file_names_set: exactly the basenames of the dictionary's keys.
      None of them holds a separator and there are no more of them than keys. */
  function FileNamesSet(m: map<Path, int>): (names: set<string>)
    ensures forall k :: k in m ==> Basename(k) in names
    ensures forall n :: n in names ==> Sep !in n && exists k :: k in m && Basename(k) == n
    ensures |names| <= |m|
  {
    ImageSize(m.Keys, Basename);
    Image(m.Keys, Basename)
  }

  function Image<A, B>(xs: set<A>, f: A -> B): set<B>
  {
    set x | x in xs :: f(x)
  }

  /** The image of a finite set under a function is no larger than the set. */
  lemma {:induction false} ImageSize<A, B>(xs: set<A>, f: A -> B)
    ensures |Image(xs, f)| <= |xs|
    decreases |xs|
  {
    if xs != {} {
      var x :| x in xs;
      var rest := xs - {x};
      ImageSize(rest, f);
      assert Image(xs, f) == Image(rest, f) + {f(x)};
    }
  }

  /** A name is protected exactly when it is the basename of the normalised
      path of some entry of some torrent. */
  lemma ProtectedNames(ts: seq<Torrent>, n: string)
    ensures n in FileNamesSet(InventoryMap(ts)) <==>
      exists t, f :: t in ts && f in t.files && Basename(Key(Entry(t, f))) == n
  {
    InventoryKeys(ts);
    if n in FileNamesSet(InventoryMap(ts)) {
      var k :| k in InventoryMap(ts) && Basename(k) == n;
      var t, f :| t in ts && f in t.files && k == Key(Entry(t, f));
    }
    if exists t, f :: t in ts && f in t.files && Basename(Key(Entry(t, f))) == n {
      var t, f :| t in ts && f in t.files && Basename(Key(Entry(t, f))) == n;
      assert Key(Entry(t, f)) in InventoryMap(ts);
    }
  }

  /** Any file entry whose own basename is a regular name protects that name,
      whatever directory the entry and the torrent sit in. */
  lemma EntryNameProtected(ts: seq<Torrent>, t: Torrent, f: FileEntry)
    requires t in ts && f in t.files
    requires IsRegularName(Basename(f.name))
    ensures Basename(f.name) in FileNamesSet(InventoryMap(ts))
  {
    BasenameOfJoin(t.name, f.name);
    NormPathBasename(Join(t.name, f.name));
    ProtectedNames(ts, Basename(f.name));
  }
}
