/** The abstract filesystem the modelled code reads, and the path arithmetic of
    Go's path/filepath package on it. */
module FileSystem {
  import opened Wrappers
  import Text

  newtype byte = x: int | 0 <= x < 256

  /** A filesystem tree. A directory's entries are in the order os.ReadDir returns them,
      which is name order; the model does not rely on that order. `readable` says whether
      reading them succeeds. */
  datatype Node =
    | File(content: seq<byte>, executable: bool)
    | Dir(entries: seq<(string, Node)>, readable: bool)

  /** A canonical absolute path as its components; `[]` is "/". */
  type Path = seq<string>

  /** A name that can be a directory entry. */
  predicate ValidName(s: string) {
    s != "" && s != "." && s != ".." && '/' !in s
  }

  predicate ValidPath(p: Path) {
    forall k :: 0 <= k < |p| ==> ValidName(p[k])
  }

  /** Every name in the tree is a valid entry name and unique within its directory. */
  predicate WellFormed(n: Node) {
    match n
    case File(_, _) => true
    case Dir(es, _) =>
      && (forall i :: 0 <= i < |es| ==> ValidName(es[i].0))
      && (forall i, j :: 0 <= i < j < |es| ==> es[i].0 != es[j].0)
      && (forall i :: 0 <= i < |es| ==> WellFormed(es[i].1))
  }

  /** The first entry called `name`. */
  function Child(es: seq<(string, Node)>, name: string): (r: Option<Node>)
    ensures r.Some? <==> exists i :: 0 <= i < |es| && es[i].0 == name
    ensures r.Some? ==> exists i :: 0 <= i < |es| && es[i] == (name, r.value)
  {
    if |es| == 0 then None
    else if es[0].0 == name then Some(es[0].1)
    else Child(es[1..], name)
  }

  /** os.Stat: the node at a path, if there is one. */
  function Lookup(fs: Node, p: Path): Option<Node>
    decreases |p|
  {
    if |p| == 0 then Some(fs)
    else match fs
      case File(_, _) => None
      case Dir(es, _) =>
        match Child(es, p[0])
        case None => None
        case Some(n) => Lookup(n, p[1..])
  }

  /** helper.IsDirectoryEmpty with its error ignored, as every caller does: true exactly
      for an existing, readable directory without entries (hidden ones included). */
  predicate IsDirectoryEmpty(fs: Node, p: Path) {
    match Lookup(fs, p)
    case Some(Dir(es, readable)) => readable && |es| == 0
    case _ => false
  }

  function Parent(p: Path): Path {
    if |p| == 0 then [] else p[..|p| - 1]
  }

  /** filepath.Base of a canonical path. */
  function Base(p: Path): string {
    if |p| == 0 then "/" else p[|p| - 1]
  }

  /** filepath.Clean of `base` extended by `comps`: empty pieces and "." vanish, ".."
      removes the last component and stops at the root. */
  function Normalize(base: Path, comps: seq<string>): Path
    decreases |comps|
  {
    if |comps| == 0 then base
    else
      var c := comps[0];
      var next :=
        if c == "" || c == "." then base
        else if c == ".." then Parent(base)
        else base + [c];
      Normalize(next, comps[1..])
  }

  /** The path written as Go writes it. */
  function PathString(p: Path): string {
    if |p| == 0 then "/" else "/" + Text.Join(p, '/')
  }

  /** filepath.Abs of a string: absolute strings are cleaned, relative ones are resolved
      against the process's working directory `cwd`. */
  function ParsePath(s: string, cwd: Path): Path {
    var pieces := Text.Split(s, '/');
    Normalize(if |s| > 0 && s[0] == '/' then [] else cwd, pieces)
  }

  /** filepath.Join(p, name) of a canonical path and a relative name. */
  function JoinName(p: Path, name: string): Path {
    Normalize(p, Text.Split(name, '/'))
  }

  /** filepath.Abs(filepath.Dir(s)). */
  function DirPath(s: string, cwd: Path): Path {
    var pieces := Text.Split(s, '/');
    if |pieces| == 1 then cwd
    else Normalize(if |s| > 0 && s[0] == '/' then [] else cwd, pieces[..|pieces| - 1])
  }

  function StripTrailingSlashes(s: string): (r: string)
    ensures |r| <= |s|
  {
    if |s| > 0 && s[|s| - 1] == '/' then StripTrailingSlashes(s[..|s| - 1]) else s
  }

  /** filepath.Base of a string. */
  function BaseString(s: string): string {
    if |s| == 0 then "."
    else
      var t := StripTrailingSlashes(s);
      if |t| == 0 then "/"
      else
        var pieces := Text.Split(t, '/');
        pieces[|pieces| - 1]
  }

  /** Extending a valid path by valid components just appends them. */
  lemma {:induction false} NormalizeValid(base: Path, comps: seq<string>)
    requires ValidPath(comps)
    ensures Normalize(base, comps) == base + comps
    decreases |comps|
  {
    if |comps| > 0 {
      NormalizeValid(base + [comps[0]], comps[1..]);
      assert base + [comps[0]] + comps[1..] == base + comps;
    }
  }

  /** Joining a valid name appends it. */
  lemma JoinValidName(p: Path, name: string)
    requires ValidName(name)
    ensures JoinName(p, name) == p + [name]
  {
    Text.SplitNoSep(name, '/');
    NormalizeValid(p, [name]);
  }

  /** Joining ".." goes to the parent, and "/" is its own parent. */
  lemma JoinDotDot(p: Path)
    ensures JoinName(p, "..") == Parent(p)
  {
    Text.SplitNoSep("..", '/');
    assert Normalize(p, [".."]) == Normalize(Parent(p), []);
  }

  /** Joining the empty name changes nothing (filepath.Join ignores empty elements). */
  lemma JoinEmpty(p: Path)
    ensures JoinName(p, "") == p
  {
    assert Text.Split("", '/') == [""];
    assert Normalize(p, [""]) == Normalize(p, []);
  }

  lemma PathStringPieces(p: Path)
    requires ValidPath(p) && |p| > 0
    ensures Text.Split(PathString(p), '/') == [""] + p
  {
    Text.JoinCons("", p, '/');
    assert forall k :: 0 <= k < |[""] + p| ==> '/' !in ([""] + p)[k] by {
      forall k | 0 <= k < |[""] + p| ensures '/' !in ([""] + p)[k] {
        if k > 0 { assert ([""] + p)[k] == p[k - 1]; }
      }
    }
    Text.SplitJoin([""] + p, '/');
  }

  /** Parsing the written form of a valid path gives the path back. */
  lemma ParsePathString(p: Path, cwd: Path)
    requires ValidPath(p)
    ensures ParsePath(PathString(p), cwd) == p
  {
    if |p| == 0 {
      assert Text.Split("", '/') == [""];
      assert "/"[1..] == "";
      assert Text.Split("/", '/') == ["", ""];
      assert Normalize([], ["", ""]) == Normalize([], [""]) == Normalize([], []);
    } else {
      PathStringPieces(p);
      assert PathString(p)[0] == '/';
      NormalizeValid([], p);
    }
  }

  /** Dir and Base of the written form of a path other than "/" are its parent and its
      last component. */
  lemma DirBaseOfPathString(p: Path, cwd: Path)
    requires ValidPath(p) && |p| > 0
    ensures DirPath(PathString(p), cwd) == Parent(p)
    ensures BaseString(PathString(p)) == Base(p)
  {
    var s := PathString(p);
    PathStringPieces(p);
    assert s[0] == '/';
    var pieces := [""] + p;
    assert pieces[..|pieces| - 1] == [""] + Parent(p);
    assert ValidPath(Parent(p));
    NormalizeValid([], Parent(p));
    var last := p[|p| - 1];
    assert ValidName(last);
    LastCharOfPathString(p);
    assert StripTrailingSlashes(s) == s;
  }

  lemma LastCharOfPathString(p: Path)
    requires ValidPath(p) && |p| > 0
    ensures |PathString(p)| > 0 && PathString(p)[|PathString(p)| - 1] != '/'
  {
    var s := PathString(p);
    JoinLast(p);
  }

  lemma {:induction false} JoinLast(p: Path)
    requires ValidPath(p) && |p| > 0
    ensures |Text.Join(p, '/')| > 0
    ensures Text.Join(p, '/')[|Text.Join(p, '/')| - 1] == p[|p| - 1][|p[|p| - 1]| - 1]
  {
    if |p| > 1 {
      assert ValidPath(p[1..]) by {
        forall k | 0 <= k < |p[1..]| ensures ValidName(p[1..][k]) { assert p[1..][k] == p[k + 1]; }
      }
      JoinLast(p[1..]);
    }
  }

  /** Joining the slash-separated form of valid components appends them. */
  lemma JoinRelative(p: Path, t: Path)
    requires ValidPath(t) && |t| > 0
    ensures JoinName(p, Text.Join(t, '/')) == p + t
  {
    Text.SplitJoin(t, '/');
    NormalizeValid(p, t);
  }

  /** Looking up a longer path goes through the node at its prefix. */
  lemma {:induction false} LookupConcat(fs: Node, p: Path, t: Path)
    requires Lookup(fs, p).Some?
    ensures Lookup(fs, p + t) == Lookup(Lookup(fs, p).value, t)
    decreases |p|
  {
    if |p| == 0 {
      assert p + t == t;
    } else {
      assert fs.Dir? && Child(fs.entries, p[0]).Some?;
      assert (p + t)[0] == p[0] && (p + t)[1..] == p[1..] + t;
      var n := Child(fs.entries, p[0]).value;
      LookupConcat(n, p[1..], t);
      calc {
        Lookup(fs, p + t);
        Lookup(n, (p + t)[1..]);
        Lookup(n, p[1..] + t);
        Lookup(Lookup(n, p[1..]).value, t);
        Lookup(Lookup(fs, p).value, t);
      }
    }
  }
}
