/**
 * The POSIX `os.path` and `pathlib` operations the scripts use to build file
 * names: `join`, `splitext`, `basename`, `dirname` and `Path.stem`.
 * Paths are plain strings; nothing touches a file system.
 */
module Paths {
  import opened Strings

  /** `s.rfind(c)`: the last index holding `c`, or -1. */
  function RFind(s: string, c: char): (r: int)
    ensures -1 <= r < |s|
    ensures r >= 0 ==> s[r] == c
    ensures forall k :: r < k < |s| ==> s[k] != c
  {
    if s == [] then -1 else if s[|s| - 1] == c then |s| - 1 else RFind(s[..|s| - 1], c)
  }

  /** `os.path.join(a, b)` with two arguments. */
  function JoinPath(a: string, b: string): string
  {
    if StartsWith(b, "/") then b
    else if a == [] || EndsWith(a, "/") then a + b
    else a + "/" + b
  }

  /** `os.path.basename(p)`: everything after the last `/`. */
  function Basename(p: string): string
  {
    p[RFind(p, '/') + 1..]
  }

  /** `os.path.dirname(p)`: everything before the last `/`, without trailing slashes unless it is all slashes. */
  function Dirname(p: string): string
  {
    var head := p[..RFind(p, '/') + 1];
    if head != [] && exists k :: 0 <= k < |head| && head[k] != '/' then RStrip(head, {'/'}) else head
  }

  /**
   * `os.path.splitext(p)`: the extension starts at the last `.` of the last path component,
   * provided some character other than `.` precedes it in that component; otherwise it is empty.
   */
  function SplitExt(p: string): (string, string)
  {
    var sepIndex := RFind(p, '/');
    var dotIndex := RFind(p, '.');
    if dotIndex > sepIndex && exists k :: sepIndex + 1 <= k < dotIndex && p[k] != '.'
    then (p[..dotIndex], p[dotIndex..])
    else (p, "")
  }

  /** `splitext` splits its argument: root and extension concatenate back to the path. */
  lemma SplitExtRoundTrip(p: string)
    ensures SplitExt(p).0 + SplitExt(p).1 == p
    ensures var ext := SplitExt(p).1; ext == "" || (ext[0] == '.' && '/' !in ext && '.' !in ext[1..])
    ensures SplitExt(p).1 != "" ==> SplitExt(p).0 != "" && SplitExt(p).0[|SplitExt(p).0| - 1] != '/'
  {
    var sepIndex := RFind(p, '/');
    var dotIndex := RFind(p, '.');
    if dotIndex > sepIndex && exists k :: sepIndex + 1 <= k < dotIndex && p[k] != '.' {
      var ext := p[dotIndex..];
      assert p[..dotIndex] + ext == p;
      forall k | 0 <= k < |ext| ensures ext[k] != '/' && (k > 0 ==> ext[k] != '.') {
        assert ext[k] == p[dotIndex + k];
      }
      assert p[dotIndex - 1] != '/';
    }
  }

  /** `pathlib.PurePath(name).stem` for a file name: drops the final suffix when a `.` sits strictly inside it. */
  function Stem(name: string): (r: string)
    ensures StartsWith(name, r)
  {
    var i := RFind(name, '.');
    if 0 < i < |name| - 1 then name[..i] else name
  }

  /** A name ending in a dot-suffix without further dots has that suffix as its only suffix. */
  lemma StemOfSuffix(name: string, suffix: string)
    requires |suffix| >= 2 && suffix[0] == '.' && '.' !in suffix[1..]
    requires EndsWith(name, suffix) && |name| > |suffix|
    ensures Stem(name) == name[..|name| - |suffix|]
  {
    var i := |name| - |suffix|;
    assert name[i] == suffix[0];
    forall k | i < k < |name| ensures name[k] != '.' {
      assert name[k] == suffix[1..][k - i - 1];
    }
  }

  /** The base name of a path joined onto a directory is the joined name, when that name is a plain name. */
  lemma BasenameJoin(dir: string, name: string)
    requires '/' !in name
    ensures Basename(JoinPath(dir, name)) == name
  {
    assert |name| >= 1 ==> name[0] != '/';
    assert !StartsWith(name, "/");
    var prefix := if dir == [] || EndsWith(dir, "/") then dir else dir + "/";
    assert JoinPath(dir, name) == prefix + name;
    BasenameAfterSlash(prefix, name);
  }

  /** A plain name after an empty prefix or one ending in `/` is the base name. */
  lemma BasenameAfterSlash(prefix: string, name: string)
    requires '/' !in name
    requires prefix == [] || prefix[|prefix| - 1] == '/'
    ensures Basename(prefix + name) == name
  {
    var p := prefix + name;
    var i := RFind(p, '/');
    forall k | |prefix| <= k < |p| ensures p[k] != '/' {
      assert p[k] == name[k - |prefix|];
    }
    if prefix != [] {
      assert p[|prefix| - 1] == '/';
      assert i == |prefix| - 1;
    } else {
      assert i == -1;
    }
  }

  /** Joining a fixed directory with plain names is injective. */
  lemma JoinPathInjective(dir: string, a: string, b: string)
    requires '/' !in a && '/' !in b
    requires JoinPath(dir, a) == JoinPath(dir, b)
    ensures a == b
  {
    BasenameJoin(dir, a);
    BasenameJoin(dir, b);
  }

  /** The last occurrence of `c` is at `i` when `s[i]` is `c` and no later character is. */
  lemma RFindAt(s: string, c: char, i: int)
    requires 0 <= i < |s| && s[i] == c
    requires forall j :: i < j < |s| ==> s[j] != c
    ensures RFind(s, c) == i
  {
  }

  /** A string without `c` has no last occurrence of it. */
  lemma RFindAbsent(s: string, c: char)
    requires c !in s
    ensures RFind(s, c) == -1
  {
  }

  /** Appending text without `c` leaves the last occurrence of `c` where it was. */
  lemma RFindAppend(p: string, t: string, c: char)
    requires c !in t
    ensures RFind(p + t, c) == RFind(p, c)
  {
    var q := p + t;
    var r := RFind(p, c);
    forall k | r < k < |q| ensures q[k] != c {
      if k < |p| { assert q[k] == p[k]; } else { assert q[k] == t[k - |p|]; }
    }
    if r >= 0 {
      assert q[r] == c;
    }
  }

  /** The base name of a path never contains a `/`. */
  lemma BasenameHasNoSlash(p: string)
    ensures '/' !in Basename(p)
  {
    var i := RFind(p, '/');
    var b := p[i + 1..];
    assert Basename(p) == b;
    forall k | 0 <= k < |b| ensures b[k] != '/' {
      assert b[k] == p[i + 1 + k];
      assert i < i + 1 + k < |p|;
    }
  }

  /** The root `splitext` gives a path without `/` has no `/` either. */
  lemma SplitExtRootHasNoSlash(p: string)
    requires '/' !in p
    ensures '/' !in SplitExt(p).0
  {
    SplitExtRoundTrip(p);
    var root := SplitExt(p).0;
    forall k | 0 <= k < |root| ensures root[k] != '/' {
      assert root[k] == (root + SplitExt(p).1)[k];
    }
  }

  /**
   * Inserting text without `.` and `/` between the root and the extension of a path keeps the
   * extension: `splitext(root + infix + ext) == (root + infix, ext)`.
   */
  lemma SplitExtInsert(p: string, infix: string)
    requires '.' !in infix && '/' !in infix
    ensures SplitExt(SplitExt(p).0 + infix + SplitExt(p).1) == (SplitExt(p).0 + infix, SplitExt(p).1)
  {
    var sepIndex := RFind(p, '/');
    var dotIndex := RFind(p, '.');
    if dotIndex > sepIndex && exists k :: sepIndex + 1 <= k < dotIndex && p[k] != '.' {
      var k :| sepIndex + 1 <= k < dotIndex && p[k] != '.';
      InsertBeforeExtension(p, infix, sepIndex, dotIndex, k);
    } else {
      assert SplitExt(p) == (p, "");
      assert p + infix + "" == p + infix;
      InsertWithoutExtension(p, infix, sepIndex, dotIndex);
    }
  }

  lemma InsertBeforeExtension(p: string, infix: string, sepIndex: int, dotIndex: int, k: int)
    requires '.' !in infix && '/' !in infix
    requires sepIndex == RFind(p, '/') && dotIndex == RFind(p, '.')
    requires sepIndex + 1 <= k < dotIndex && p[k] != '.'
    ensures SplitExt(p) == (p[..dotIndex], p[dotIndex..])
    ensures SplitExt(p[..dotIndex] + infix + p[dotIndex..]) == (p[..dotIndex] + infix, p[dotIndex..])
  {
    var q := p[..dotIndex] + infix + p[dotIndex..];
    var d := dotIndex + |infix|;
    SplitExtAt(p, sepIndex, dotIndex, k);
    InsertedLastDot(p, infix, dotIndex);
    InsertedLastSlash(p, infix, sepIndex, dotIndex);
    assert q[k] == p[k];
    SplitExtAt(q, sepIndex, d, k);
    assert q[..d] == p[..dotIndex] + infix;
    assert q[d..] == p[dotIndex..];
  }

  /** A last `.` after the last `/`, with a non-dot between them, starts the extension. */
  lemma SplitExtAt(p: string, sepIndex: int, dotIndex: int, k: int)
    requires sepIndex == RFind(p, '/') && dotIndex == RFind(p, '.')
    requires sepIndex + 1 <= k < dotIndex && p[k] != '.'
    ensures SplitExt(p) == (p[..dotIndex], p[dotIndex..])
  {
  }

  /** Text without `.` inserted before the last `.` of a path shifts that dot by the text's length. */
  lemma InsertedLastDot(p: string, infix: string, dotIndex: int)
    requires '.' !in infix && 0 <= dotIndex == RFind(p, '.')
    ensures RFind(p[..dotIndex] + infix + p[dotIndex..], '.') == dotIndex + |infix|
  {
    var head := p[..dotIndex] + infix;
    RFindTail(p, '.', dotIndex);
    RFindConcatHit(head, p[dotIndex..], '.');
    assert |head| == dotIndex + |infix|;
  }

  /** The suffix starting at the last `c` has its last `c` at its start. */
  lemma RFindTail(p: string, c: char, i: int)
    requires 0 <= i == RFind(p, c)
    ensures RFind(p[i..], c) == 0
  {
    var tail := p[i..];
    forall j | 0 < j < |tail| ensures tail[j] != c {
      assert tail[j] == p[i + j];
    }
    RFindAt(tail, c, 0);
  }

  /** When `b` holds `c`, the last `c` of `a + b` is the last `c` of `b`, shifted by `|a|`. */
  lemma RFindConcatHit(a: string, b: string, c: char)
    requires RFind(b, c) >= 0
    ensures RFind(a + b, c) == |a| + RFind(b, c)
  {
    var r := RFind(b, c);
    var q := a + b;
    assert q[|a| + r] == b[r];
    forall j | |a| + r < j < |q| ensures q[j] != c {
      assert q[j] == b[j - |a|];
    }
    RFindAt(q, c, |a| + r);
  }

  /** Text without `/` inserted after the last `/` of a path leaves that slash in place. */
  lemma InsertedLastSlash(p: string, infix: string, sepIndex: int, dotIndex: int)
    requires '/' !in infix && sepIndex == RFind(p, '/') && sepIndex < dotIndex < |p|
    ensures RFind(p[..dotIndex] + infix + p[dotIndex..], '/') == sepIndex
  {
    var q := p[..dotIndex] + infix + p[dotIndex..];
    var d := dotIndex + |infix|;
    forall j | sepIndex < j < |q| ensures q[j] != '/' {
      if j < dotIndex {
        assert q[j] == p[j];
      } else if j < d {
        assert q[j] == infix[j - dotIndex];
      } else {
        assert q[j] == p[j - |infix|];
      }
    }
    if sepIndex >= 0 {
      assert q[sepIndex] == p[sepIndex];
    }
  }

  lemma InsertWithoutExtension(p: string, infix: string, sepIndex: int, dotIndex: int)
    requires '.' !in infix && '/' !in infix
    requires sepIndex == RFind(p, '/') && dotIndex == RFind(p, '.')
    requires !(dotIndex > sepIndex && exists k :: sepIndex + 1 <= k < dotIndex && p[k] != '.')
    ensures SplitExt(p + infix) == (p + infix, "")
  {
    var q := p + infix;
    RFindAppend(p, infix, '/');
    RFindAppend(p, infix, '.');
    forall k | sepIndex + 1 <= k < dotIndex ensures q[k] == p[k] { }
  }

  // ---------------------------------------------------------------- pathlib

  /** Path components as `pathlib` keeps them: empty and `.` components are dropped. */
  function KeepParts(xs: seq<string>): (parts: seq<string>)
    ensures forall k :: 0 <= k < |parts| ==> parts[k] != "" && parts[k] != "."
    ensures forall k :: 0 <= k < |parts| ==> parts[k] in xs
  {
    if xs == [] then []
    else
      var rest := KeepParts(xs[1..]);
      if xs[0] == "" || xs[0] == "." then rest else [xs[0]] + rest
  }

  /** The components of `PurePosixPath(p)`. */
  function PathParts(p: string): seq<string>
  {
    KeepParts(Split(p, "/"))
  }

  /** The root `pathlib` keeps: `//` for exactly two leading slashes, `/` for one or three and more, none for a relative path. */
  function PathRoot(p: string): (root: string)
    ensures root == "" || root == "/" || root == "//"
    ensures root != "" <==> StartsWith(p, "/")
  {
    if |p| >= 2 && p[0] == '/' && p[1] == '/' && (|p| == 2 || p[2] != '/') then "//"
    else if |p| >= 1 && p[0] == '/' then "/"
    else ""
  }

  /** Every component followed by `/`. */
  function Slashed(parts: seq<string>): (s: string)
    ensures parts != [] ==> s != [] && s[|s| - 1] == '/'
  {
    if parts == [] then "" else parts[0] + "/" + Slashed(parts[1..])
  }

  /**
   * `str(Path(dir) / name)` for a plain file name, as the paths `Path(dir).glob(...)` yields are
   * spelled: the root, then the kept components of `dir` each followed by `/`, then the name.
   */
  function PathChild(dir: string, name: string): string
  {
    PathRoot(dir) + Slashed(PathParts(dir)) + name
  }

  /** The base name of a child path is the child's own name. */
  lemma BasenamePathChild(dir: string, name: string)
    requires '/' !in name
    ensures Basename(PathChild(dir, name)) == name
  {
    var prefix := PathRoot(dir) + Slashed(PathParts(dir));
    assert PathChild(dir, name) == prefix + name;
    if Slashed(PathParts(dir)) == [] {
      assert prefix == PathRoot(dir);
    } else {
      assert prefix[|prefix| - 1] == Slashed(PathParts(dir))[|Slashed(PathParts(dir))| - 1];
    }
    BasenameAfterSlash(prefix, name);
  }

  /** A string without `/` splits on `/` into itself. */
  lemma SplitNoSlash(a: string)
    requires '/' !in a
    ensures Split(a, "/") == [a]
  {
    assert !Contains(a, "/") by {
      forall i | 0 <= i < |a| ensures !OccursAt(a, "/", i) {
        assert a[i] in a && a[i..i + 1] == [a[i]];
      }
    }
    SplitWithoutSeparator(a, "/");
  }

  /** A first component without `/` is split off at the first `/`. */
  lemma SplitSlashAfter(a: string, b: string)
    requires '/' !in a
    ensures Split(a + "/" + b, "/") == [a] + Split(b, "/")
  {
    var s := a + "/" + b;
    forall i | 0 <= i < |a| ensures !OccursAt(s, "/", i) {
      assert s[i] == a[i] && a[i] in a;
      assert s[i..i + 1] == [s[i]];
    }
    SplitSeparated(a, "/", b);
  }

  /** A plain directory name: one relative component other than `.`. */
  predicate PlainName(dir: string)
  {
    dir != "" && dir != "." && '/' !in dir
  }

  /** A plain component is kept. */
  lemma KeepPlain(dir: string)
    requires PlainName(dir)
    ensures KeepParts([dir]) == [dir] && Slashed([dir]) == dir + "/"
  {
    assert [dir][1..] == [];
  }

  /** A plain directory is kept as it is: the child path is `dir/name`, as `os.path.join` spells it. */
  lemma PathChildPlain(dir: string, name: string)
    requires PlainName(dir)
    ensures PathChild(dir, name) == dir + "/" + name
    ensures !StartsWith(name, "/") ==> PathChild(dir, name) == JoinPath(dir, name)
  {
    SplitNoSlash(dir);
    KeepPlain(dir);
    assert PathRoot(dir) == "" by { assert dir[0] in dir; }
    assert !EndsWith(dir, "/") by { assert dir[|dir| - 1] in dir; }
  }

  /** `Path("")` and `Path(".")` are the current directory, which a child's path leaves out. */
  lemma PathChildOfCurrent(name: string)
    ensures PathChild("", name) == name && PathChild(".", name) == name
  {
    SplitNoSlash("");
    SplitNoSlash(".");
  }

  /** A trailing slash is dropped: `Path("figs/") / name` is `figs/name`. */
  lemma PathChildTrailingSlash(dir: string, name: string)
    requires PlainName(dir)
    ensures PathChild(dir + "/", name) == dir + "/" + name
  {
    assert dir + "/" == dir + "/" + "";
    SplitSlashAfter(dir, "");
    SplitNoSlash("");
    assert KeepParts([dir, ""]) == [dir] by {
      assert [dir, ""][1..] == [""];
      assert KeepParts([""]) == [] by { assert [""][1..] == []; }
    }
    KeepPlain(dir);
    assert PathRoot(dir + "/") == "" by { assert (dir + "/")[0] == dir[0]; assert dir[0] in dir; }
  }

  /** A leading `./` is dropped: `Path("./figs") / name` is `figs/name`. */
  lemma PathChildDotPrefix(dir: string, name: string)
    requires PlainName(dir)
    ensures PathChild("./" + dir, name) == dir + "/" + name
  {
    assert "./" + dir == "." + "/" + dir;
    SplitSlashAfter(".", dir);
    SplitNoSlash(dir);
    assert KeepParts([".", dir]) == [dir] by {
      assert [".", dir][1..] == [dir];
      KeepPlain(dir);
    }
    assert PathRoot("./" + dir) == "";
  }

  /** The root directory keeps its slash: `Path("/") / name` is `/name`. */
  lemma PathChildOfRoot(name: string)
    ensures PathChild("/", name) == "/" + name
  {
    assert "/" == "" + "/" + "";
    SplitSlashAfter("", "");
    SplitNoSlash("");
    assert KeepParts(["", ""]) == [];
  }

  // ---------------------------------------------------------------- directory listings

  /** `[join(root, f) for f in names if want(f)]`, in listing order. */
  function SelectNames(root: string, names: seq<string>, want: string -> bool): (files: seq<string>)
    ensures |files| <= |names|
  {
    if names == [] then []
    else
      SelectNames(root, names[..|names| - 1], want)
      + (if want(names[|names| - 1]) then [JoinPath(root, names[|names| - 1])] else [])
  }

  /** The `k`-th name of the listing is wanted and joins the root into `f`. */
  predicate SelectedAt(root: string, names: seq<string>, want: string -> bool, f: string, k: int)
  {
    0 <= k < |names| && want(names[k]) && f == JoinPath(root, names[k])
  }

  /** A path is selected exactly when it joins the root with some wanted name of the listing. */
  lemma {:induction false} SelectNamesMembers(root: string, names: seq<string>, want: string -> bool, f: string)
    ensures f in SelectNames(root, names, want) <==> exists k :: SelectedAt(root, names, want, f, k)
  {
    if names != [] {
      var n := |names| - 1;
      var init := names[..n];
      SelectNamesMembers(root, init, want, f);
      var last := if want(names[n]) then [JoinPath(root, names[n])] else [];
      assert SelectNames(root, names, want) == SelectNames(root, init, want) + last;
      assert f in SelectNames(root, names, want) <==> f in SelectNames(root, init, want) || f in last;
      SelectedAtSnoc(root, names, want, f);
    }
  }

  /** A selecting index of a listing is one of its prefix without the last name, or that last name. */
  lemma SelectedAtSnoc(root: string, names: seq<string>, want: string -> bool, f: string)
    requires names != []
    ensures var n := |names| - 1;
      (exists k :: SelectedAt(root, names, want, f, k)) <==>
        (exists k :: SelectedAt(root, names[..n], want, f, k)) || (want(names[n]) && f == JoinPath(root, names[n]))
  {
    var n := |names| - 1;
    var init := names[..n];
    if want(names[n]) && f == JoinPath(root, names[n]) {
      assert SelectedAt(root, names, want, f, n);
    }
    if exists k :: SelectedAt(root, init, want, f, k) {
      var k :| SelectedAt(root, init, want, f, k);
      SelectedAtPrefix(root, names, want, f, k);
    }
    if exists k :: SelectedAt(root, names, want, f, k) {
      var k :| SelectedAt(root, names, want, f, k);
      if k < n {
        SelectedAtPrefix(root, names, want, f, k);
      }
    }
  }

  /** An index before the last name selects the same path in the listing and in its prefix. */
  lemma SelectedAtPrefix(root: string, names: seq<string>, want: string -> bool, f: string, k: int)
    requires 0 <= k < |names| - 1
    ensures SelectedAt(root, names, want, f, k) <==> SelectedAt(root, names[..|names| - 1], want, f, k)
  {
    assert names[..|names| - 1][k] == names[k];
  }

  /** The walk `for root, _, names in os.walk(d): for f in names: if want(f): files.append(join(root, f))`. */
  function WalkSelect(walk: seq<(string, seq<string>)>, want: string -> bool): seq<string>
  {
    if walk == [] then []
    else WalkSelect(walk[..|walk| - 1], want) + SelectNames(walk[|walk| - 1].0, walk[|walk| - 1].1, want)
  }

  /** The `i`-th directory of the walk selects `f`. */
  predicate WalkSelectedAt(walk: seq<(string, seq<string>)>, want: string -> bool, f: string, i: int)
  {
    0 <= i < |walk| && f in SelectNames(walk[i].0, walk[i].1, want)
  }

  /** A walk selects exactly the wanted names of every visited directory, joined to that directory. */
  lemma {:induction false} WalkSelectMembers(walk: seq<(string, seq<string>)>, want: string -> bool, f: string)
    ensures f in WalkSelect(walk, want) <==> exists i :: WalkSelectedAt(walk, want, f, i)
  {
    if walk != [] {
      var n := |walk| - 1;
      var init := walk[..n];
      WalkSelectMembers(init, want, f);
      assert WalkSelect(walk, want) == WalkSelect(init, want) + SelectNames(walk[n].0, walk[n].1, want);
      if f in SelectNames(walk[n].0, walk[n].1, want) {
        assert WalkSelectedAt(walk, want, f, n);
      }
      if exists i :: WalkSelectedAt(init, want, f, i) {
        var i :| WalkSelectedAt(init, want, f, i);
        assert WalkSelectedAt(walk, want, f, i);
      }
      if exists i :: WalkSelectedAt(walk, want, f, i) {
        var i :| WalkSelectedAt(walk, want, f, i);
        if i < n {
          assert WalkSelectedAt(init, want, f, i);
        }
      }
    }
  }

  /** The files a batch run processes: the recursive walk, or the wanted names of the top directory. */
  function FilesMatching(directory: string, recursive: bool, walk: seq<(string, seq<string>)>,
                         listing: seq<string>, want: string -> bool): seq<string>
  {
    if recursive then WalkSelect(walk, want) else SelectNames(directory, listing, want)
  }

  /** Builds the file list as the batch scripts do: a nested loop over the walk, or a comprehension. */
  method CollectMatching(directory: string, recursive: bool, walk: seq<(string, seq<string>)>,
                         listing: seq<string>, want: string -> bool) returns (files: seq<string>)
    ensures files == FilesMatching(directory, recursive, walk, listing, want)
  {
    if !recursive {
      return SelectNames(directory, listing, want);
    }
    files := [];
    var i := 0;
    while i < |walk|
      invariant 0 <= i <= |walk|
      invariant files == WalkSelect(walk[..i], want)
    {
      var root := walk[i].0;
      var names := walk[i].1;
      var j := 0;
      while j < |names|
        invariant 0 <= j <= |names|
        invariant files == WalkSelect(walk[..i], want) + SelectNames(root, names[..j], want)
      {
        if want(names[j]) {
          files := files + [JoinPath(root, names[j])];
        }
        assert names[..j + 1][..j] == names[..j];
        j := j + 1;
      }
      assert names[..j] == names;
      assert walk[..i + 1][..i] == walk[..i];
      i := i + 1;
    }
    assert walk[..i] == walk;
  }
}
