/** POSIX path helpers used to normalise torrent file paths: the behaviour of
    os.path.join, os.path.basename and os.path.normpath on a POSIX system,
    where '/' is the only separator. */
module Paths {

  type Path = string

  const Sep: char := '/'

  predicate IsAbsolute(p: Path) {
    |p| > 0 && p[0] == Sep
  }

  /** os.path.join(a, b): an absolute b discards a; otherwise b is appended to a,
      with one separator in between unless a is empty or already ends with one. */
  function Join(a: Path, b: Path): (r: Path)
    ensures IsAbsolute(b) ==> r == b
    ensures !IsAbsolute(b) ==> a <= r && |a| + |b| <= |r| <= |a| + 1 + |b| && r[|r| - |b|..] == b
    ensures !IsAbsolute(b) && |r| > |a| + |b| ==> r[|a|] == Sep
    ensures !IsAbsolute(b) ==> (|r| == |a| + 1 + |b| <==> a != [] && a[|a| - 1] != Sep)
  {
    if IsAbsolute(b) then b
    else if a == [] || a[|a| - 1] == Sep then a + b
    else a + [Sep] + b
  }

  /** os.path.basename(p): the text after the last separator. The contract
      pins it down as the longest suffix of p that holds no separator. */
  function Basename(p: Path): (r: Path)
    ensures Sep !in r
    ensures |r| <= |p|
  {
    p[LastSep(p, |p|) + 1..]
  }

  /** The basename is the end of the path, and what precedes it, if
      anything, is a separator. */
  lemma BasenameSuffix(p: Path)
    ensures Basename(p) == p[|p| - |Basename(p)|..]
    ensures |Basename(p)| < |p| ==> p[|p| - |Basename(p)| - 1] == Sep
  {
  }

  /** The index of the last separator among the first n characters of p, or -1. */
  function LastSep(p: Path, n: nat): (i: int)
    requires n <= |p|
    ensures -1 <= i < n
    ensures i >= 0 ==> p[i] == Sep
    ensures forall j :: i < j < n ==> p[j] != Sep
  {
    if n == 0 then -1
    else if p[n - 1] == Sep then n - 1
    else LastSep(p, n - 1)
  }

  /** str.split('/'): the pieces between separators, empty ones included. */
  function Split(s: Path): (r: seq<string>)
    ensures |r| >= 1
    ensures forall i :: 0 <= i < |r| ==> Sep !in r[i]
  {
    if s == [] then [[]]
    else
      var rest := Split(s[1..]);
      if s[0] == Sep then [[]] + rest
      else [[s[0]] + rest[0]] + rest[1..]
  }

  /** '/'.join(cs) */
  function JoinWith(cs: seq<string>): Path
  {
    if |cs| == 0 then []
    else if |cs| == 1 then cs[0]
    else cs[0] + [Sep] + JoinWith(cs[1..])
  }

  /** The number of leading separators normpath keeps: POSIX gives exactly two
      leading slashes an implementation-defined meaning, so "//" is kept, while
      one or three and more collapse to a single "/". */
  function LeadingSlashes(p: Path): (n: nat)
    ensures n <= 2 && n <= |p|
    ensures n > 0 <==> IsAbsolute(p)
    ensures n == 2 <==> |p| >= 2 && p[0] == Sep && p[1] == Sep && (|p| == 2 || p[2] != Sep)
  {
    if IsAbsolute(p) then
      if |p| > 1 && p[1] == Sep && !(|p| > 2 && p[2] == Sep) then 2 else 1
    else 0
  }

  function Slashes(n: nat): (r: Path)
    ensures |r| == n && forall i :: 0 <= i < n ==> r[i] == Sep
  {
    if n == 0 then [] else Slashes(n - 1) + [Sep]
  }

  /** One iteration of normpath's loop over the components: empty and "."
      components vanish, ".." pops the previous component unless there is
      none to pop (kept in a relative path, dropped at the root) or the
      previous one is itself an unresolved "..". */
  function Step(stack: seq<string>, comp: string, rooted: bool): seq<string>
  {
    if comp == [] || comp == "." then stack
    else if comp != ".." || (!rooted && stack == []) || (stack != [] && stack[|stack| - 1] == "..") then stack + [comp]
    else if stack != [] then stack[..|stack| - 1]
    else stack
  }

  /** normpath's loop: the components folded into the stack from left to right. */
  function Resolve(stack: seq<string>, comps: seq<string>, rooted: bool): seq<string>
    decreases |comps|
  {
    if comps == [] then stack
    else Resolve(Step(stack, comps[0], rooted), comps[1..], rooted)
  }

  /** The resolved components of p. */
  function Components(p: Path): seq<string>
  {
    Resolve([], Split(p), IsAbsolute(p))
  }

  /** os.path.normpath(p) */
  function NormPath(p: Path): (r: Path)
    ensures r != []
  {
    if p == [] then "."
    else
      var joined := Slashes(LeadingSlashes(p)) + JoinWith(Components(p));
      if joined == [] then "." else joined
  }

  /** A stack normpath can produce: no empty, "." or separator-holding
      component, and ".." only as a run at the front of a relative path. */
  predicate Clean(stack: seq<string>, rooted: bool)
  {
    && (forall i :: 0 <= i < |stack| ==> stack[i] != [] && stack[i] != "." && Sep !in stack[i])
    && (rooted ==> forall i :: 0 <= i < |stack| ==> stack[i] != "..")
    && (forall i, j :: 0 <= j < i < |stack| && stack[i] == ".." ==> stack[j] == "..")
  }

  /** A file name that survives normalisation as the last component. */
  predicate IsRegularName(n: string) {
    n != [] && n != "." && n != ".."
  }

  // ---------------------------------------------------------------------
  // Basename

  /** Any separator-free suffix that is the whole path or follows a separator is the basename. */
  lemma BasenameUnique(p: Path, r: Path)
    requires Sep !in r && |r| <= |p| && r == p[|p| - |r|..]
    requires |r| < |p| ==> p[|p| - |r| - 1] == Sep
    ensures r == Basename(p)
  {
  }

  lemma BasenameAfterSep(a: Path, b: Path)
    ensures Basename(a + [Sep] + b) == Basename(b)
  {
    var p := a + [Sep] + b;
    var r := Basename(b);
    assert p[|p| - |b|..] == b;
    assert r == p[|p| - |r|..];
    if |r| == |b| {
      assert p[|p| - |r| - 1] == Sep;
    } else {
      assert p[|p| - |r| - 1] == b[|b| - |r| - 1];
    }
    BasenameUnique(p, r);
  }

  lemma BasenameOfName(n: Path)
    requires Sep !in n
    ensures Basename(n) == n
  {
    BasenameUnique(n, n);
  }

  /** Joining never changes the basename of the second argument. */
  lemma BasenameOfJoin(a: Path, b: Path)
    ensures Basename(Join(a, b)) == Basename(b)
  {
    if IsAbsolute(b) {
    } else if a == [] {
      assert Join(a, b) == b;
    } else if a[|a| - 1] == Sep {
      assert Join(a, b) == a[..|a| - 1] + [Sep] + b;
      BasenameAfterSep(a[..|a| - 1], b);
    } else {
      BasenameAfterSep(a, b);
    }
  }

  // ---------------------------------------------------------------------
  // Split and JoinWith

  /** '/'.join(s.split('/')) == s */
  lemma {:induction false} JoinWithSplit(s: Path)
    ensures JoinWith(Split(s)) == s
  {
    if s != [] {
      var rest := Split(s[1..]);
      JoinWithSplit(s[1..]);
      if s[0] == Sep {
        assert Split(s) == [[]] + rest;
        assert JoinWith([[]] + rest) == [] + [Sep] + JoinWith(rest);
      } else if |rest| == 1 {
        assert Split(s) == [[s[0]] + rest[0]];
      } else {
        var r0 := [[s[0]] + rest[0]] + rest[1..];
        assert r0[1..] == rest[1..];
        assert JoinWith(r0) == [s[0]] + rest[0] + [Sep] + JoinWith(rest[1..]);
        assert JoinWith(rest) == rest[0] + [Sep] + JoinWith(rest[1..]);
      }
    }
  }

  lemma {:induction false} SplitOfName(n: Path)
    requires Sep !in n
    ensures Split(n) == [n]
  {
    if n != [] {
      SplitOfName(n[1..]);
      assert [n[0]] + n[1..] == n;
    }
  }

  /** Splitting distributes over a separator. */
  lemma SplitCons(c: char, s: Path)
    ensures Split([c] + s) == if c == Sep then [[]] + Split(s) else [[c] + Split(s)[0]] + Split(s)[1..]
  {
    assert ([c] + s)[1..] == s;
  }

  lemma {:induction false} SplitAtSep(a: Path, b: Path)
    ensures Split(a + [Sep] + b) == Split(a) + Split(b)
  {
    if a == [] {
      assert a + [Sep] + b == [Sep] + b;
      SplitCons(Sep, b);
    } else {
      SplitAtSep(a[1..], b);
      if a[0] == Sep {
        SplitAtSepSepHead(a, b);
      } else {
        SplitAtSepCharHead(a, b);
      }
    }
  }

  /** The inductive step of SplitAtSep when a starts with a separator. */
  lemma SplitAtSepSepHead(a: Path, b: Path)
    requires a != [] && a[0] == Sep
    requires Split(a[1..] + [Sep] + b) == Split(a[1..]) + Split(b)
    ensures Split(a + [Sep] + b) == Split(a) + Split(b)
  {
    var rest := a[1..] + [Sep] + b;
    assert a + [Sep] + b == [Sep] + rest;
    assert [Sep] + a[1..] == a;
    SplitCons(Sep, rest);
    SplitCons(Sep, a[1..]);
    var x := Split(a[1..]);
    var y := Split(b);
    AppendAssoc([[]], x, y);
  }

  lemma AppendAssoc<T>(x: seq<T>, y: seq<T>, z: seq<T>)
    ensures x + (y + z) == (x + y) + z
  {
  }

  /** The inductive step of SplitAtSep when a starts with another character. */
  lemma SplitAtSepCharHead(a: Path, b: Path)
    requires a != [] && a[0] != Sep
    requires Split(a[1..] + [Sep] + b) == Split(a[1..]) + Split(b)
    ensures Split(a + [Sep] + b) == Split(a) + Split(b)
  {
    var rest := a[1..] + [Sep] + b;
    assert a + [Sep] + b == [a[0]] + rest;
    assert [a[0]] + a[1..] == a;
    SplitCons(a[0], rest);
    SplitCons(a[0], a[1..]);
    var x := Split(a[1..]);
    var y := Split(b);
    ExtendFirstAppend([a[0]], x, y);
  }

  /** Extending the first piece of a list of pieces commutes with appending more pieces. */
  lemma ExtendFirstAppend<T>(h: seq<T>, x: seq<seq<T>>, y: seq<seq<T>>)
    requires |x| >= 1
    ensures [h + (x + y)[0]] + (x + y)[1..] == ([h + x[0]] + x[1..]) + y
  {
    assert (x + y)[0] == x[0];
    assert (x + y)[1..] == x[1..] + y;
  }

  /** s.split('/') inverts '/'.join(cs) for separator-free components. */
  lemma {:induction false} SplitJoinWith(cs: seq<string>)
    requires |cs| >= 1
    requires forall i :: 0 <= i < |cs| ==> Sep !in cs[i]
    ensures Split(JoinWith(cs)) == cs
  {
    if |cs| == 1 {
      SplitOfName(cs[0]);
    } else {
      SplitJoinWith(cs[1..]);
      SplitAtSep(cs[0], JoinWith(cs[1..]));
      SplitOfName(cs[0]);
      assert [cs[0]] + cs[1..] == cs;
    }
  }

  lemma {:induction false} BasenameOfJoinWith(cs: seq<string>)
    requires |cs| >= 1 && Sep !in cs[|cs| - 1]
    ensures Basename(JoinWith(cs)) == cs[|cs| - 1]
  {
    if |cs| == 1 {
      BasenameOfName(cs[0]);
    } else {
      BasenameOfJoinWith(cs[1..]);
      BasenameAfterSep(cs[0], JoinWith(cs[1..]));
    }
  }

  /** The last piece of s.split('/') is basename(s). */
  lemma SplitLast(s: Path)
    ensures Split(s)[|Split(s)| - 1] == Basename(s)
  {
    JoinWithSplit(s);
    BasenameOfJoinWith(Split(s));
  }

  lemma {:induction false} JoinWithEnds(cs: seq<string>)
    requires |cs| >= 1 && forall i :: 0 <= i < |cs| ==> cs[i] != []
    ensures JoinWith(cs) != []
    ensures JoinWith(cs)[0] == cs[0][0]
    ensures JoinWith(cs)[|JoinWith(cs)| - 1] == cs[|cs| - 1][|cs[|cs| - 1]| - 1]
  {
    if |cs| > 1 {
      JoinWithEnds(cs[1..]);
    }
  }

  // ---------------------------------------------------------------------
  // Resolve

  lemma StepClean(stack: seq<string>, comp: string, rooted: bool)
    requires Clean(stack, rooted) && Sep !in comp
    ensures Clean(Step(stack, comp, rooted), rooted)
  {
    var r := Step(stack, comp, rooted);
    if comp == ".." && !(comp == [] || comp == ".") && ((!rooted && stack == []) || (stack != [] && stack[|stack| - 1] == "..")) {
      assert r == stack + [comp];
      forall i | 0 <= i < |r| && r[i] == ".."
        ensures !rooted && forall j :: 0 <= j < i ==> r[j] == ".."
      {
        if i == |stack| && stack != [] {
          assert stack[|stack| - 1] == "..";
        }
      }
    }
  }

  /** Whatever normpath's loop produces from a clean stack is clean. */
  lemma {:induction false} ResolveClean(stack: seq<string>, comps: seq<string>, rooted: bool)
    requires Clean(stack, rooted)
    requires forall i :: 0 <= i < |comps| ==> Sep !in comps[i]
    ensures Clean(Resolve(stack, comps, rooted), rooted)
    decreases |comps|
  {
    if comps != [] {
      StepClean(stack, comps[0], rooted);
      ResolveClean(Step(stack, comps[0], rooted), comps[1..], rooted);
    }
  }

  /** A clean sequence of components passes through normpath's loop unchanged. */
  lemma {:induction false} ResolveOfClean(stack: seq<string>, comps: seq<string>, rooted: bool)
    requires Clean(stack + comps, rooted)
    ensures Resolve(stack, comps, rooted) == stack + comps
    decreases |comps|
  {
    if comps != [] {
      var all := stack + comps;
      assert all[|stack|] == comps[0];
      if comps[0] == ".." && stack != [] {
        assert all[|stack| - 1] == stack[|stack| - 1];
      }
      assert Step(stack, comps[0], rooted) == stack + [comps[0]];
      assert (stack + [comps[0]]) + comps[1..] == all;
      ResolveOfClean(stack + [comps[0]], comps[1..], rooted);
    }
  }

  lemma {:induction false} ResolveSnoc(stack: seq<string>, comps: seq<string>, c: string, rooted: bool)
    ensures Resolve(stack, comps + [c], rooted) == Step(Resolve(stack, comps, rooted), c, rooted)
    decreases |comps|
  {
    if comps == [] {
      assert [] + [c] == [c];
    } else {
      assert (comps + [c])[0] == comps[0] && (comps + [c])[1..] == comps[1..] + [c];
      ResolveSnoc(Step(stack, comps[0], rooted), comps[1..], c, rooted);
    }
  }

  // ---------------------------------------------------------------------
  // NormPath

  lemma ComponentsClean(p: Path)
    ensures Clean(Components(p), IsAbsolute(p))
  {
    ResolveClean([], Split(p), IsAbsolute(p));
  }

  /** After the kept leading slashes, the normalised path splits into clean
      pieces: no empty piece (so no "//"), no ".", no separator inside a
      piece, and ".." only as a leading run of a relative path. A path with
      no component left normalises to ".", "/" or "//". */
  lemma NormPathShape(p: Path)
    ensures Components(p) != [] ==>
      var body := NormPath(p)[LeadingSlashes(p)..];
      body != [] && Split(body) == Components(p) && Clean(Split(body), IsAbsolute(p))
    ensures Components(p) == [] ==> NormPath(p) in {".", "/", "//"}
  {
    var k := LeadingSlashes(p);
    var cs := Components(p);
    ComponentsClean(p);
    if cs != [] {
      NormPathOfComponents(p);
      assert NormPath(p)[k..] == JoinWith(cs);
      SplitJoinWith(cs);
    } else if p != [] {
      assert JoinWith(cs) == [];
      assert Slashes(k) + [] == Slashes(k);
      if k == 1 {
        assert Slashes(1) == "/";
      } else if k == 2 {
        assert Slashes(2) == "//";
      }
    }
  }

  /** normpath strips trailing separators: only the roots "/" and "//" end with one. */
  lemma NormPathNoTrailingSep(p: Path)
    ensures NormPath(p)[|NormPath(p)| - 1] == Sep ==> NormPath(p) == "/" || NormPath(p) == "//"
  {
    var n := NormPath(p);
    if p != [] && n != "." {
      var cs := Components(p);
      ComponentsClean(p);
      var lead := LeadingSlashes(p);
      assert n == Slashes(lead) + JoinWith(cs);
      if cs != [] {
        JoinWithEnds(cs);
        assert Sep !in cs[|cs| - 1];
      } else {
        assert n == Slashes(lead);
        assert lead == 1 || lead == 2;
        assert Slashes(1) == "/";
        assert Slashes(2) == "//";
      }
    }
  }

  /** normpath keeps an absolute path absolute and a relative one relative. */
  lemma NormPathAbsolute(p: Path)
    ensures IsAbsolute(NormPath(p)) <==> IsAbsolute(p)
  {
    var cs := Components(p);
    ComponentsClean(p);
    if p != [] && !IsAbsolute(p) && cs != [] {
      JoinWithEnds(cs);
      assert NormPath(p) == JoinWith(cs);
    }
  }

  lemma ComponentsLast(p: Path)
    requires IsRegularName(Basename(p))
    ensures Components(p) != [] && Components(p)[|Components(p)| - 1] == Basename(p)
  {
    var c := Basename(p);
    var parts := Split(p);
    var rooted := IsAbsolute(p);
    SplitLast(p);
    var front := parts[..|parts| - 1];
    assert parts == front + [c];
    ResolveSnoc([], front, c, rooted);
    var x := Resolve([], front, rooted);
    assert Step(x, c, rooted) == x + [c];
    assert Components(p) == x + [c];
  }

  lemma BasenameAfterSlashes(k: nat, body: Path)
    ensures Basename(Slashes(k) + body) == Basename(body)
  {
    if k > 0 {
      assert Slashes(k) + body == Slashes(k - 1) + [Sep] + body;
      BasenameAfterSep(Slashes(k - 1), body);
    } else {
      assert Slashes(k) + body == body;
    }
  }

  /** With at least one component left, normpath is the leading slashes and the joined components. */
  lemma NormPathOfComponents(p: Path)
    requires Components(p) != []
    ensures NormPath(p) == Slashes(LeadingSlashes(p)) + JoinWith(Components(p))
    ensures JoinWith(Components(p)) != [] && JoinWith(Components(p))[0] != Sep
  {
    var cs := Components(p);
    ComponentsClean(p);
    JoinWithEnds(cs);
    assert p != [] by {
      assert Split([]) == [[]];
    }
  }

  /** A last component that is a regular name is the basename of the normalised path. */
  lemma NormPathBasename(p: Path)
    requires IsRegularName(Basename(p))
    ensures Basename(NormPath(p)) == Basename(p)
  {
    var cs := Components(p);
    ComponentsLast(p);
    BasenameOfJoinWith(cs);
    NormPathOfComponents(p);
    BasenameAfterSlashes(LeadingSlashes(p), JoinWith(cs));
  }

  /** Splitting the joined clean components and resolving them again gives them back. */
  lemma ResolveJoined(cs: seq<string>, rooted: bool)
    requires Clean(cs, rooted)
    ensures Resolve([], Split(JoinWith(cs)), rooted) == cs
  {
    if cs == [] {
      assert Split([]) == [[]];
    } else {
      SplitJoinWith(cs);
      assert [] + cs == cs;
      ResolveOfClean([], cs, rooted);
    }
  }

  lemma ComponentsOfRelative(cs: seq<string>)
    requires Clean(cs, false) && cs != []
    ensures JoinWith(cs) != [] && LeadingSlashes(JoinWith(cs)) == 0
    ensures Components(JoinWith(cs)) == cs
  {
    JoinWithEnds(cs);
    ResolveJoined(cs, false);
  }

  lemma ComponentsOfRooted(cs: seq<string>)
    requires Clean(cs, true)
    ensures LeadingSlashes([Sep] + JoinWith(cs)) == 1
    ensures Components([Sep] + JoinWith(cs)) == cs
  {
    var body := JoinWith(cs);
    if cs != [] {
      JoinWithEnds(cs);
    }
    assert ([Sep] + body)[1..] == body;
    ResolveJoined(cs, true);
  }

  lemma ComponentsOfDoubleRooted(cs: seq<string>)
    requires Clean(cs, true)
    ensures LeadingSlashes([Sep, Sep] + JoinWith(cs)) == 2
    ensures Components([Sep, Sep] + JoinWith(cs)) == cs
  {
    var body := JoinWith(cs);
    if cs != [] {
      JoinWithEnds(cs);
    }
    var n := [Sep, Sep] + body;
    assert n[1..] == [Sep] + body;
    assert ([Sep] + body)[1..] == body;
    assert Split(n) == [[]] + ([[]] + Split(body));
    assert Resolve([], Split(n), true) == Resolve([], [[]] + Split(body), true);
    assert Resolve([], [[]] + Split(body), true) == Resolve([], Split(body), true);
    ResolveJoined(cs, true);
  }

  /** normpath is idempotent. */
  lemma NormPathIdempotent(p: Path)
    ensures NormPath(NormPath(p)) == NormPath(p)
  {
    var n := NormPath(p);
    if p == [] || n == "." {
      assert "." == ['.'] && ['.'][1..] == [];
      assert Split(['.']) == [['.'] + []] + [];
    } else {
      var lead := LeadingSlashes(p);
      var cs := Components(p);
      ComponentsClean(p);
      assert n == Slashes(lead) + JoinWith(cs);
      if lead == 0 {
        assert cs != [];
        assert n == JoinWith(cs);
        ComponentsOfRelative(cs);
        assert NormPath(n) == Slashes(0) + JoinWith(cs);
      } else if lead == 1 {
        assert Slashes(1) == [Sep];
        ComponentsOfRooted(cs);
      } else {
        assert Slashes(2) == [Sep, Sep];
        ComponentsOfDoubleRooted(cs);
      }
    }
  }
}
