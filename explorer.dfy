/** The explorer of internal/explorer/explorer.go: a current directory shown as a list
    with a cursor, the parent directory to its left, a preview of the selected entry to
    its right, the cursor remembered per directory, marks, yanks, anchors, the history
    of opened files and the key chords. The filesystem is a value the explorer holds;
    the filesystem calls that change it are a parameter `effect` that may fail. */
module Explorer {
  import opened Wrappers
  import Text
  import opened FileSystem
  import opened Listing
  import Naming
  import History
  import Anchors
  import Chords

  /** The most lines Ctrl-D and Ctrl-U move by. */
  const MaxScrollAmount := 20

  /** A list widget: its items and the selected index. */
  datatype ListView = ListView(items: seq<ListItem>, current: nat)

  /** The pane right of the current list. */
  datatype Preview =
    | DirectoryPreview(view: ListView)
    | FilePreview(path: Path)
    | EmptyDirectory

  /** The filesystem calls that change the filesystem. */
  datatype FsOp =
    | Remove(path: Path)
    | RemoveAll(path: Path)
    | Rename(from: Path, to: Path)
    | Copy(from: Path, to: Path)
    | MkdirAll(path: Path)
    | Create(path: Path)

  /** The filesystem after an operation, or None when the operation fails. */
  type Effects = (Node, FsOp) -> Option<Node>

  /** What the explorer shows: the current directory, its list and cursor, the parent
      pane, the preview, the remembered cursors and the search hits. */
  datatype View = View(
    currentPath: Path,
    currentList: seq<ListItem>,
    cursor: nat,
    parentPane: ListView,
    preview: Preview,
    indexMap: map<Path, int>,
    searchIndices: seq<int>)

  /** The cursor of a list widget is inside the list (0 for an empty list). */
  predicate Cursored(v: View) {
    if |v.currentList| == 0 then v.cursor == 0 else v.cursor < |v.currentList|
  }

  /** The cursor remembered for a directory; a Go map gives 0 for a missing key. */
  function Remembered(m: map<Path, int>, p: Path): int {
    if p in m then m[p] else 0
  }

  /** The runes that quit the explorer: 'q', and 'S', which also hands the directory to
      the shell. */
  predicate Stops(c: char) {
    c == 'q' || c == 'S'
  }

  /** setCurrentLine's clamping: below 0 becomes 0, from the item count on becomes the
      last index (-1 for an empty list). */
  function ClampLine(lineIndex: int, count: nat): (r: int)
    ensures count > 0 ==> 0 <= r < count
    ensures 0 <= lineIndex < count ==> r == lineIndex
    ensures lineIndex < 0 && count > 0 ==> r == 0
    ensures lineIndex >= count ==> r == count - 1
    ensures count == 0 ==> r == -1
  {
    var i := if lineIndex < 0 then 0 else lineIndex;
    if i >= count then count - 1 else i
  }

  /** What setParentDirectory finds for the directory `p`. */
  datatype ParentPane = RootPane | ParentListed(items: seq<ListItem>, index: int) | ParentUnavailable

  /** The parent pane of `p`: nothing at the root; otherwise the parent's listing with the
      index of `p`'s own entry in it. */
  function ParentOf(fs: Node, p: Path, showHidden: bool, marked: seq<Path>, find: Matcher): (r: ParentPane)
    requires SoundMatcher(find)
    ensures r.RootPane? <==> |p| == 0
    ensures r.ParentListed? ==>
      && LoadResult(fs, Parent(p), showHidden, false, marked) == Listed(r.items)
      && 0 <= r.index && (|r.items| > 0 ==> r.index < |r.items|) && (|r.items| == 0 ==> r.index == 0)
    ensures r.ParentUnavailable? <==> |p| > 0 && !LoadResult(fs, Parent(p), showHidden, false, marked).Listed?
  {
    if |p| == 0 then RootPane
    else match LoadResult(fs, Parent(p), showHidden, false, marked)
      case Listed(items) => ParentListed(items, ExactItem(items, Base(p), find(items, Base(p)), Secondary))
      case _ => ParentUnavailable
  }

  function PaneAfter(o: ParentPane, before: ListView): ListView {
    match o
    case RootPane => ListView([], 0)
    case ParentListed(items, index) => ListView(items, Clip(index, |items|))
    case ParentUnavailable => before
  }

  function MapAfter(m: map<Path, int>, p: Path, o: ParentPane): map<Path, int> {
    if o.ParentListed? then m[Parent(p) := o.index] else m
  }

  /** setSelectedDirectory's preview for `sel`: a placeholder for an empty directory, the
      listing at its remembered cursor for another directory, the file otherwise; None
      when the listing fails. */
  function PreviewOf(fs: Node, sel: Path, showHidden: bool, marked: seq<Path>, m: map<Path, int>): (r: Option<Preview>)
    ensures IsDirectoryEmpty(fs, sel) ==> r == Some(EmptyDirectory)
    ensures r.Some? && r.value.DirectoryPreview? ==>
      && LoadResult(fs, sel, showHidden, false, marked) == Listed(r.value.view.items)
      && r.value.view.current == Clip(Remembered(m, sel), |r.value.view.items|)
    ensures r.None? <==> !IsDirectoryEmpty(fs, sel) && LoadResult(fs, sel, showHidden, false, marked).Failed?
    ensures !IsDirectoryEmpty(fs, sel) && LoadResult(fs, sel, showHidden, false, marked).Listed? ==>
      var items := LoadResult(fs, sel, showHidden, false, marked).items;
      r == Some(DirectoryPreview(ListView(items, Clip(Remembered(m, sel), |items|))))
    ensures !IsDirectoryEmpty(fs, sel) && LoadResult(fs, sel, showHidden, false, marked).NotDirectory? ==>
      r == Some(FilePreview(sel))
  {
    if IsDirectoryEmpty(fs, sel) then Some(EmptyDirectory)
    else match LoadResult(fs, sel, showHidden, false, marked)
      case Failed => None
      case NotDirectory => Some(FilePreview(sel))
      case Listed(items) => Some(DirectoryPreview(ListView(items, Clip(Remembered(m, sel), |items|))))
  }

  /** searchInCurrentDirectory: the hits of the current term, unless there is none. */
  function Searched(term: string, items: seq<ListItem>, before: seq<int>, find: Matcher): seq<int> {
    if term == "" then before else find(items, term)
  }

  /** The view after setCurrentDirectory's main branch for `path`, and its error result:
      the listing at the remembered cursor (clipped), the parent pane, then the preview of
      the entry under the cursor; the new path and the search hits are taken only when
      the preview succeeds. */
  function ShowResult(v: View, fs: Node, showHidden: bool, marked: seq<Path>, term: string,
                      find: Matcher, path: Path): (r: (View, bool))
    requires SoundMatcher(find)
    ensures Cursored(v) ==> Cursored(r.0)
    ensures !LoadResult(fs, path, showHidden, false, marked).Listed? ==> r == (v, false)
    ensures LoadResult(fs, path, showHidden, false, marked).Listed? ==>
      && r.0.currentList == LoadResult(fs, path, showHidden, false, marked).items
      && r.0.cursor == Clip(Remembered(v.indexMap, path), |r.0.currentList|)
    ensures r.0.currentPath == (if r.1 then path else v.currentPath)
  {
    match LoadResult(fs, path, showHidden, false, marked)
    case Listed(items) =>
      var line := Clip(Remembered(v.indexMap, path), |items|);
      var o := ParentOf(fs, path, showHidden, marked, find);
      var m := MapAfter(v.indexMap, path, o);
      var po := PreviewOf(fs, JoinName(path, SecondaryAt(items, line)), showHidden, marked, m);
      var ok := po.Some?;
      (View(if ok then path else v.currentPath, items, line, PaneAfter(o, v.parentPane),
            po.GetOr(v.preview), m, if ok then Searched(term, items, v.searchIndices, find) else v.searchIndices),
       ok)
    case _ => (v, false)
  }

  /** ShowResult for a directory that lists, spelled out. */
  lemma ShowListed(v: View, fs: Node, showHidden: bool, marked: seq<Path>, term: string,
                   find: Matcher, path: Path, items: seq<ListItem>)
    requires SoundMatcher(find)
    requires LoadResult(fs, path, showHidden, false, marked) == Listed(items)
    ensures
      var line := Clip(Remembered(v.indexMap, path), |items|);
      var o := ParentOf(fs, path, showHidden, marked, find);
      var m := MapAfter(v.indexMap, path, o);
      var po := PreviewOf(fs, JoinName(path, SecondaryAt(items, line)), showHidden, marked, m);
      ShowResult(v, fs, showHidden, marked, term, find, path)
        == (View(if po.Some? then path else v.currentPath, items, line, PaneAfter(o, v.parentPane),
                 po.GetOr(v.preview), m, if po.Some? then Searched(term, items, v.searchIndices, find) else v.searchIndices),
            po.Some?)
  {
  }

  /** setCurrentDirectory: an empty directory is not entered; when it is the current
      directory itself, the parent is entered instead (once). */
  function EnterResult(v: View, fs: Node, showHidden: bool, marked: seq<Path>, term: string,
                       find: Matcher, path: Path): (r: (View, bool))
    requires SoundMatcher(find)
    ensures Cursored(v) ==> Cursored(r.0)
    ensures IsDirectoryEmpty(fs, path) && path != v.currentPath ==> r == (v, true)
    ensures !IsDirectoryEmpty(fs, path) ==> r == ShowResult(v, fs, showHidden, marked, term, find, path)
    ensures IsDirectoryEmpty(fs, path) && path == v.currentPath && !IsDirectoryEmpty(fs, Parent(path)) ==>
      r == (ShowResult(v, fs, showHidden, marked, term, find, Parent(path)).0, true)
    ensures IsDirectoryEmpty(fs, path) && path == v.currentPath && IsDirectoryEmpty(fs, Parent(path)) ==>
      r == (v, true)
  {
    if !IsDirectoryEmpty(fs, path) then ShowResult(v, fs, showHidden, marked, term, find, path)
    else if path == v.currentPath && !IsDirectoryEmpty(fs, Parent(path)) then
      (ShowResult(v, fs, showHidden, marked, term, find, Parent(path)).0, true)
    else (v, true)
  }

  /** setCurrentLine: the clamped line is selected and remembered for the current
      directory, then the preview follows it. */
  function LineResult(v: View, fs: Node, showHidden: bool, marked: seq<Path>, lineIndex: int): (r: (View, bool))
    ensures Cursored(r.0)
    ensures |v.currentList| > 0 ==> r.0.cursor == ClampLine(lineIndex, |v.currentList|)
    ensures r.0.indexMap == v.indexMap[v.currentPath := ClampLine(lineIndex, |v.currentList|)]
    ensures r.0.currentPath == v.currentPath && r.0.currentList == v.currentList
    ensures r.0.parentPane == v.parentPane && r.0.searchIndices == v.searchIndices
    ensures var po := PreviewOf(fs, JoinName(v.currentPath, SecondaryAt(v.currentList, ClampLine(lineIndex, |v.currentList|))),
                                showHidden, marked, r.0.indexMap);
      r.0.preview == po.GetOr(v.preview) && r.1 == po.Some?
  {
    var line := ClampLine(lineIndex, |v.currentList|);
    var m := v.indexMap[v.currentPath := line];
    var po := PreviewOf(fs, JoinName(v.currentPath, SecondaryAt(v.currentList, line)), showHidden, marked, m);
    (v.(cursor := Clip(line, |v.currentList|), indexMap := m, preview := po.GetOr(v.preview)), po.Some?)
  }

  /** The written form of the entry `name` of `dir` as the explorer builds it: the
      directory's string, a slash and the name ("//name" at the root). */
  function EntryString(dir: Path, name: string): string {
    PathString(dir) + "/" + name
  }

  /** The string of an entry reads back as the entry, its directory and its name. */
  lemma EntryStringParts(dir: Path, name: string, cwd: Path)
    requires ValidPath(dir) && ValidName(name)
    ensures ParsePath(EntryString(dir, name), cwd) == dir + [name]
    ensures DirPath(EntryString(dir, name), cwd) == dir
    ensures BaseString(EntryString(dir, name)) == name
  {
    if |dir| == 0 {
      EntryStringAtRoot(name, cwd);
    } else {
      var p := dir + [name];
      EntryStringNested(dir, name);
      ValidPathSnoc(dir, name);
      ParsePathString(p, cwd);
      DirBaseOfPathString(p, cwd);
      assert Parent(p) == dir;
    }
  }

  lemma EntryStringNested(dir: Path, name: string)
    requires |dir| > 0
    ensures EntryString(dir, name) == PathString(dir + [name])
  {
    Text.JoinSnoc(dir, name, '/');
  }

  lemma ValidPathSnoc(dir: Path, name: string)
    requires ValidPath(dir) && ValidName(name)
    ensures ValidPath(dir + [name])
  {
    forall k | 0 <= k < |dir + [name]| ensures ValidName((dir + [name])[k]) {
      if k < |dir| { assert (dir + [name])[k] == dir[k]; }
    }
  }

  lemma EntryStringAtRoot(name: string, cwd: Path)
    requires ValidName(name)
    ensures ParsePath(EntryString([], name), cwd) == [name]
    ensures DirPath(EntryString([], name), cwd) == []
    ensures BaseString(EntryString([], name)) == name
  {
    var s := EntryString([], name);
    assert s == "" + "/" + ("" + "/" + name);
    SplitRootEntry(name);
    var pieces := ["", "", name];
    assert Normalize([], pieces) == [name] by {
      assert pieces[1..] == ["", name] && pieces[1..][1..] == [name];
      NormalizeValid([], [name]);
    }
    assert pieces[..2] == ["", ""];
    assert Normalize([], ["", ""]) == [] by {
      assert ["", ""][1..] == [""];
    }
    assert s[|s| - 1] == name[|name| - 1];
    assert StripTrailingSlashes(s) == s;
  }

  lemma SplitRootEntry(name: string)
    requires ValidName(name)
    ensures Text.Split("" + "/" + ("" + "/" + name), '/') == ["", "", name]
  {
    Text.SplitNoSep(name, '/');
    Text.SplitPrefix("", name, '/');
    Text.SplitPrefix("", "" + "/" + name, '/');
  }

  /** The line setAnchor stores for `key` and the entry `name` of `dir`. */
  function AnchorLine(key: string, dir: Path, name: string): string {
    key + " > " + EntryString(dir, name)
  }

  /** jumpToAnchor's target string for a readable anchor file: the first line starting
      with `key`, without the anchor prefix ("" when there is none). */
  function AnchorTarget(anchors: Anchors.AnchorFile, key: string): string {
    var line := if anchors.Content? then Anchors.FirstWithPrefix(Text.Lines(anchors.text), key) else "";
    Text.TrimPrefix(line, key + " > ")
  }

  /** Setting an anchor for a one-character key and jumping to it leads back to the
      directory and the name it was set on. */
  lemma AnchorRoundTrip(anchors: Anchors.AnchorFile, key: string, dir: Path, name: string, cwd: Path)
    requires |key| == 1 && ValidPath(dir) && ValidName(name)
    requires '\n' !in AnchorLine(key, dir, name)
    requires !anchors.Unreadable?
    ensures var target := AnchorTarget(Anchors.Updated(anchors, AnchorLine(key, dir, name)), key);
      DirPath(target, cwd) == dir && BaseString(target) == name
  {
    var line := AnchorLine(key, dir, name);
    Anchors.SetThenGet(anchors, line);
    assert line[..1] == key;
    var prefix := key + " > ";
    assert line == prefix + EntryString(dir, name);
    assert Text.HasPrefix(line, prefix);
    assert line[|prefix|..] == EntryString(dir, name);
    EntryStringParts(dir, name, cwd);
  }

  /** Selecting the line FindExactItem gives for a name the list holds (and FindItems
      finds) puts the cursor on that name. */
  lemma SelectByName(v: View, fs: Node, showHidden: bool, marked: seq<Path>, name: string,
                     matches: seq<int>, k: nat)
    requires InRange(v.currentList, matches)
    requires k < |matches| && v.currentList[matches[k]].secondary == name
    ensures var r := LineResult(v, fs, showHidden, marked, ExactItem(v.currentList, name, matches, Secondary)).0;
      SecondaryAt(r.currentList, r.cursor) == name
  {
    ExactItemFinds(v.currentList, name, matches, Secondary, k);
  }

  /** Going up from a directory that was shown selects the directory's own entry in the
      parent: the parent pane remembered its index. */
  lemma UpSelectsChild(v: View, fs: Node, showHidden: bool, marked: seq<Path>, term: string,
                       find: Matcher, p: Path, k: nat)
    requires SoundMatcher(find) && |p| > 0
    requires LoadResult(fs, p, showHidden, false, marked).Listed?
    requires !IsDirectoryEmpty(fs, Parent(p))
    requires LoadResult(fs, Parent(p), showHidden, false, marked).Listed?
    requires var items := LoadResult(fs, Parent(p), showHidden, false, marked).items;
      k < |find(items, Base(p))| && items[find(items, Base(p))[k]].secondary == Base(p)
    ensures var w := ShowResult(v, fs, showHidden, marked, term, find, p).0;
      var u := EnterResult(w, fs, showHidden, marked, term, find, Parent(p)).0;
      SecondaryAt(u.currentList, u.cursor) == Base(p)
  {
    var items := LoadResult(fs, Parent(p), showHidden, false, marked).items;
    var matches := find(items, Base(p));
    ExactItemFinds(items, Base(p), matches, Secondary, k);
    var w := ShowResult(v, fs, showHidden, marked, term, find, p).0;
    ShowListed(v, fs, showHidden, marked, term, find, p, LoadResult(fs, p, showHidden, false, marked).items);
    assert w.indexMap[Parent(p)] == ExactItem(items, Base(p), matches, Secondary);
    ShowListed(w, fs, showHidden, marked, term, find, Parent(p), items);
  }

  /** Refreshing the current directory after a move of the cursor keeps the cursor where
      it was, as long as the listing is the same. */
  lemma RefreshKeepsLine(v: View, fs: Node, showHidden: bool, marked: seq<Path>, term: string,
                         find: Matcher, lineIndex: int)
    requires SoundMatcher(find)
    requires LoadResult(fs, v.currentPath, showHidden, false, marked) == Listed(v.currentList)
    requires !IsDirectoryEmpty(fs, v.currentPath)
    ensures var w := LineResult(v, fs, showHidden, marked, lineIndex).0;
      var u := EnterResult(w, fs, showHidden, marked, term, find, w.currentPath).0;
      u.currentList == w.currentList && u.cursor == w.cursor
  {
    var w := LineResult(v, fs, showHidden, marked, lineIndex).0;
    ShowListed(w, fs, showHidden, marked, term, find, w.currentPath, v.currentList);
  }

  /** The entry the cursor of a list preview selects; "" for any other preview. */
  function PreviewSelection(p: Preview): string {
    if p.DirectoryPreview? then SecondaryAt(p.view.items, p.view.current) else ""
  }

  /** Ctrl-H's restoring of the preview's selection: in a directory preview the entry
      called `selName` is selected again, and remembered for the entry `name` of the
      current directory. */
  function RestorePreview(v: View, name: string, selName: string, find: Matcher): (r: View)
    requires SoundMatcher(find)
    ensures r.currentPath == v.currentPath && r.currentList == v.currentList && r.cursor == v.cursor
    ensures r.parentPane == v.parentPane && r.searchIndices == v.searchIndices
    ensures !v.preview.DirectoryPreview? ==> r == v
    ensures v.preview.DirectoryPreview? ==>
      var items := v.preview.view.items;
      var j := ExactItem(items, selName, find(items, selName), Secondary);
      && r.preview == DirectoryPreview(ListView(items, Clip(j, |items|)))
      && r.indexMap == v.indexMap[JoinName(v.currentPath, name) := j]
  {
    match v.preview
    case DirectoryPreview(lv) =>
      var j := ExactItem(lv.items, selName, find(lv.items, selName), Secondary);
      v.(preview := DirectoryPreview(ListView(lv.items, Clip(j, |lv.items|))),
         indexMap := v.indexMap[JoinName(v.currentPath, name) := j])
    case _ => v
  }

  /** When the preview still lists the entry that was selected, it is selected again. */
  lemma RestoreSelects(v: View, name: string, selName: string, find: Matcher, k: nat)
    requires SoundMatcher(find) && v.preview.DirectoryPreview?
    requires var items := v.preview.view.items;
      k < |find(items, selName)| && items[find(items, selName)[k]].secondary == selName
    ensures PreviewSelection(RestorePreview(v, name, selName, find).preview) == selName
  {
    var items := v.preview.view.items;
    assert InRange(items, find(items, selName));
    ExactItemFinds(items, selName, find(items, selName), Secondary, k);
  }

  /** The index of the first hit after `current` (the number of hits when there is none). */
  function FirstAbove(hits: seq<int>, current: int): (r: nat)
    ensures r <= |hits|
    ensures forall j :: 0 <= j < r ==> hits[j] <= current
    ensures r < |hits| ==> hits[r] > current
  {
    if |hits| == 0 then 0
    else if hits[0] > current then 0
    else 1 + FirstAbove(hits[1..], current)
  }

  /** The index of the last hit before `current` (-1 when there is none). */
  function LastBelow(hits: seq<int>, current: int): (r: int)
    ensures -1 <= r < |hits|
    ensures forall j :: r < j < |hits| ==> hits[j] >= current
    ensures r >= 0 ==> hits[r] < current
  {
    if |hits| == 0 then -1
    else if hits[|hits| - 1] < current then |hits| - 1
    else LastBelow(hits[..|hits| - 1], current)
  }

  /** The 'n' key's target: the first hit after the cursor, wrapping to the first hit. */
  function NextMatch(hits: seq<int>, current: int): (r: int)
    requires |hits| > 0
    ensures r in hits
    ensures (exists j :: 0 <= j < |hits| && hits[j] > current) ==> r > current
    ensures (forall j :: 0 <= j < |hits| ==> hits[j] <= current) ==> r == hits[0]
  {
    var k := FirstAbove(hits, current);
    if k < |hits| then hits[k] else hits[0]
  }

  /** The 'N' key's target: the last hit before the cursor, wrapping to the last hit. */
  function PrevMatch(hits: seq<int>, current: int): (r: int)
    requires |hits| > 0
    ensures r in hits
    ensures (exists j :: 0 <= j < |hits| && hits[j] < current) ==> r < current
    ensures (forall j :: 0 <= j < |hits| ==> hits[j] >= current) ==> r == hits[|hits| - 1]
  {
    var k := LastBelow(hits, current);
    if k >= 0 then hits[k] else hits[|hits| - 1]
  }

  lemma FirstAboveIs(hits: seq<int>, current: int, i: nat)
    requires i <= |hits| && (forall j :: 0 <= j < i ==> hits[j] <= current)
    requires i < |hits| ==> hits[i] > current
    ensures FirstAbove(hits, current) == i
  {
  }

  lemma LastBelowIs(hits: seq<int>, current: int, i: int)
    requires -1 <= i < |hits| && (forall j :: i < j < |hits| ==> hits[j] >= current)
    requires i >= 0 ==> hits[i] < current
    ensures LastBelow(hits, current) == i
  {
  }

  /** The marks after the mark of `p` is toggled. */
  function Toggled(marks: seq<Path>, p: Path): (r: seq<Path>)
    ensures p in r <==> p !in marks
    ensures |r| <= |marks| + 1
    ensures p !in marks ==> r == marks + [p]
    ensures p in marks ==> r == Without(marks, p)
  {
    if p in marks then Without(marks, p) else marks + [p]
  }

  /** Toggling flips the path's mark and leaves every other path's mark alone. */
  lemma ToggledMarks(marks: seq<Path>, p: Path)
    ensures var r := Toggled(marks, p);
      && (p in r <==> p !in marks)
      && forall x :: x != p ==> (x in r <==> x in marks)
  {
  }

  /** toggleMarkForCurrentFile's edit of the marks. */
  method ToggleMark(marks: seq<Path>, filePath: Path) returns (r: seq<Path>)
    ensures r == Toggled(marks, filePath)
  {
    if filePath in marks {
      r := DeleteItem(marks, filePath);
    } else {
      r := marks + [filePath];
    }
  }

  /** Toggling a path's mark twice gives the marks back, when it was not marked. */
  lemma ToggleTwice(marks: seq<Path>, p: Path)
    requires p !in marks
    ensures Toggled(Toggled(marks, p), p) == marks
  {
    var t := marks + [p];
    assert t[..|t| - 1] == marks;
  }

  lemma FirstIsMember(s: seq<Path>)
    ensures |s| > 0 ==> s[0] in s
  {
  }

  /** The removal deleteCurrentFile and deleteMarkedFiles make. */
  function RemovalOp(p: Path, force: bool): FsOp {
    if force then RemoveAll(p) else Remove(p)
  }

  /** deleteMarkedFiles' removals in order, stopping at the first failure: the filesystem
      after them and whether all succeeded. */
  function RemoveEach(effect: Effects, fs: Node, files: seq<Path>, force: bool): (r: (Node, bool))
    ensures |files| == 0 ==> r == (fs, true)
    decreases |files|
  {
    if |files| == 0 then (fs, true)
    else match effect(fs, RemovalOp(files[0], force))
      case None => (fs, false)
      case Some(next) => RemoveEach(effect, next, files[1..], force)
  }

  /** One removal: its failure stops the loop with the filesystem unchanged, its success
      gives the new filesystem. */
  lemma RemoveOne(effect: Effects, fs: Node, p: Path, force: bool)
    ensures RemoveEach(effect, fs, [p], force)
      == match effect(fs, RemovalOp(p, force)) case None => (fs, false) case Some(n) => (n, true)
  {
    assert [p][1..] == [];
  }

  /** Removing one batch and then another is removing both in order: the second batch
      runs only when the first removed everything. */
  lemma {:induction false} RemoveEachConcat(effect: Effects, fs: Node, a: seq<Path>, b: seq<Path>, force: bool)
    ensures var first := RemoveEach(effect, fs, a, force);
      RemoveEach(effect, fs, a + b, force)
        == if first.1 then RemoveEach(effect, first.0, b, force) else first
    decreases |a|
  {
    if |a| == 0 {
      assert a + b == b;
    } else {
      assert (a + b)[1..] == a[1..] + b;
      match effect(fs, RemovalOp(a[0], force))
      case None =>
      case Some(next) => RemoveEachConcat(effect, next, a[1..], b, force);
    }
  }

  /** deleteMarkedFiles' removal loop: the marked files are removed in order, and the
      loop stops at the first failure. */
  method RunRemovals(effect: Effects, fs: Node, files: seq<Path>, force: bool) returns (tree: Node, ok: bool)
    ensures (tree, ok) == RemoveEach(effect, fs, files, force)
  {
    tree := fs;
    var i := 0;
    while i < |files|
      invariant 0 <= i <= |files|
      invariant RemoveEach(effect, tree, files[i..], force) == RemoveEach(effect, fs, files, force)
    {
      var file := files[i];
      assert files[i..][0] == file && files[i..][1..] == files[i + 1..];
      var r;
      if force {
        r := effect(tree, RemoveAll(file));
      } else {
        r := effect(tree, Remove(file));
      }
      assert r == effect(tree, RemovalOp(file, force));
      if r.None? {
        return tree, false;
      }
      tree := r.value;
      i := i + 1;
    }
    return tree, true;
  }

  /** deleteMarkedFiles' second loop: DeleteItem for each removed file; once every mark
      was among them, no mark is left. */
  method DeleteAll(marks: seq<Path>, removed: seq<Path>) returns (remaining: seq<Path>)
    requires forall x :: x in marks ==> x in removed
    ensures remaining == []
  {
    remaining := marks;
    var j := 0;
    while j < |removed|
      invariant 0 <= j <= |removed|
      invariant forall x :: x in remaining ==> x in removed[j..]
    {
      remaining := DeleteItem(remaining, removed[j]);
      j := j + 1;
    }
    FirstIsMember(remaining);
  }

  /** The destination CopyFile writes to for `name` pasted into `dir`: the first free
      name of generateDuplicateFileName. */
  function PasteDestination(fs: Node, dir: Path, name: string): (r: Path)
    ensures !Naming.Exists(fs, r)
    ensures !Naming.Exists(fs, JoinName(dir, name)) ==> r == JoinName(dir, name)
  {
    Naming.GenerateDuplicateFileName(fs, JoinName(dir, name), 0)
  }

  /** helper.CopyFile: the copy goes to the first free name generateDuplicateFileName
      finds for `dst`. */
  method CopyFile(effect: Effects, fs: Node, src: Path, dst: Path) returns (r: Option<Node>)
    ensures r == effect(fs, Copy(src, Naming.GenerateDuplicateFileName(fs, dst, 0)))
  {
    var dest := Naming.GenerateDuplicateFileName(fs, dst, 0);
    r := effect(fs, Copy(src, dest));
  }

  /** pasteMarkedFiles' copies in order, failures ignored. */
  function CopyEach(effect: Effects, fs: Node, dir: Path, files: seq<Path>): (r: Node)
    ensures |files| == 0 ==> r == fs
    decreases |files|
  {
    if |files| == 0 then fs
    else
      var dest := PasteDestination(fs, dir, Base(files[0]));
      CopyEach(effect, effect(fs, Copy(files[0], dest)).GetOr(fs), dir, files[1..])
  }

  /** One copy, to the first free name in the directory; a failure leaves the filesystem
      as it was. */
  lemma CopyOne(effect: Effects, fs: Node, dir: Path, p: Path)
    ensures CopyEach(effect, fs, dir, [p]) == effect(fs, Copy(p, PasteDestination(fs, dir, Base(p)))).GetOr(fs)
  {
    assert [p][1..] == [];
  }

  /** Copying one batch and then another is copying both in order. */
  lemma {:induction false} CopyEachConcat(effect: Effects, fs: Node, dir: Path, a: seq<Path>, b: seq<Path>)
    ensures CopyEach(effect, fs, dir, a + b) == CopyEach(effect, CopyEach(effect, fs, dir, a), dir, b)
    decreases |a|
  {
    if |a| == 0 {
      assert a + b == b;
    } else {
      assert (a + b)[1..] == a[1..] + b;
      var dest := PasteDestination(fs, dir, Base(a[0]));
      CopyEachConcat(effect, effect(fs, Copy(a[0], dest)).GetOr(fs), dir, a[1..], b);
    }
  }

  /** The lines of the edited file that are not empty. */
  function NonEmpty(lines: seq<string>): (r: seq<string>)
    ensures |r| <= |lines|
    ensures forall k :: 0 <= k < |r| ==> |r[k]| > 0
    decreases |lines|
  {
    if |lines| == 0 then []
    else (if |lines[0]| > 0 then [lines[0]] else []) + NonEmpty(lines[1..])
  }

  /** The rename of a marked path to a new name in the same directory. */
  function RenameOf(p: Path, line: string): (Path, Path) {
    (p, JoinName(Parent(p), line))
  }

  /** renameMarkedFiles' renames from the line whose position among the non-empty ones
      is `lineIdx` on: the k-th non-empty line renames the k-th marked path, and lines
      beyond the marks are ignored. */
  function Renames(marked: seq<Path>, lines: seq<string>, lineIdx: nat): (r: seq<(Path, Path)>)
    ensures |r| <= |lines|
    ensures forall e :: e in r ==> e.0 in marked
    decreases |lines|
  {
    if |lines| == 0 then []
    else if |lines[0]| > 0 then
      (if lineIdx < |marked| then [RenameOf(marked[lineIdx], lines[0])] else [])
        + Renames(marked, lines[1..], lineIdx + 1)
    else Renames(marked, lines[1..], lineIdx)
  }

  /** As many renames as there are non-empty lines and marks left from lineIdx. */
  lemma {:induction false} RenamesCount(marked: seq<Path>, lines: seq<string>, lineIdx: nat)
    ensures |Renames(marked, lines, lineIdx)| ==
      (if lineIdx >= |marked| then 0
       else if |marked| - lineIdx < |NonEmpty(lines)| then |marked| - lineIdx else |NonEmpty(lines)|)
    decreases |lines|
  {
    if |lines| > 0 {
      if |lines[0]| > 0 {
        RenamesCount(marked, lines[1..], lineIdx + 1);
      } else {
        RenamesCount(marked, lines[1..], lineIdx);
      }
    }
  }

  /** The k-th rename takes the k-th of the marks to the k-th name. */
  predicate Paired(r: seq<(Path, Path)>, marks: seq<Path>, names: seq<string>) {
    && |r| <= |names| && |r| <= |marks|
    && forall k :: 0 <= k < |r| ==> r[k] == RenameOf(marks[k], names[k])
  }

  /** Renaming one more mark to one more name before a pairing keeps it a pairing. */
  lemma PairedPrepend(tail: seq<(Path, Path)>, marks: seq<Path>, names: seq<string>, line: string)
    requires |marks| > 0 && Paired(tail, marks[1..], names)
    ensures Paired([RenameOf(marks[0], line)] + tail, marks, [line] + names)
  {
    var r := [RenameOf(marks[0], line)] + tail;
    forall k | 0 < k < |r| ensures r[k] == RenameOf(marks[k], ([line] + names)[k]) {
      assert r[k] == tail[k - 1] && ([line] + names)[k] == names[k - 1] && marks[k] == marks[1..][k - 1];
    }
  }

  /** The marks from lineIdx on; none once lineIdx is past them. */
  function MarksFrom(marked: seq<Path>, lineIdx: nat): seq<Path> {
    if lineIdx <= |marked| then marked[lineIdx..] else []
  }

  /** The renames from lineIdx on pair the non-empty lines with the marks from lineIdx on. */
  lemma {:induction false} RenamesPaired(marked: seq<Path>, lines: seq<string>, lineIdx: nat)
    ensures Paired(Renames(marked, lines, lineIdx), MarksFrom(marked, lineIdx), NonEmpty(lines))
    decreases |lines|
  {
    if |lines| > 0 {
      if |lines[0]| == 0 {
        RenamesPaired(marked, lines[1..], lineIdx);
        assert Renames(marked, lines, lineIdx) == Renames(marked, lines[1..], lineIdx);
        assert NonEmpty(lines) == NonEmpty(lines[1..]);
      } else if lineIdx < |marked| {
        RenamesPaired(marked, lines[1..], lineIdx + 1);
        assert MarksFrom(marked, lineIdx)[1..] == MarksFrom(marked, lineIdx + 1);
        PairedPrepend(Renames(marked, lines[1..], lineIdx + 1), MarksFrom(marked, lineIdx), NonEmpty(lines[1..]), lines[0]);
        assert NonEmpty(lines) == [lines[0]] + NonEmpty(lines[1..]);
      } else {
        RenamesCount(marked, lines[1..], lineIdx + 1);
        assert Renames(marked, lines, lineIdx) == [];
      }
    }
  }

  /** The renames pair the non-empty lines with the marks, as many as both have. */
  lemma RenamesPairLines(marked: seq<Path>, lines: seq<string>, lineIdx: nat)
    ensures var r := Renames(marked, lines, lineIdx);
      var names := NonEmpty(lines);
      && |r| == (if lineIdx >= |marked| then 0
                 else if |marked| - lineIdx < |names| then |marked| - lineIdx else |names|)
      && forall k :: 0 <= k < |r| ==> r[k] == RenameOf(marked[lineIdx + k], names[k])
  {
    RenamesCount(marked, lines, lineIdx);
    RenamesPaired(marked, lines, lineIdx);
    var r := Renames(marked, lines, lineIdx);
    forall k | 0 <= k < |r| ensures r[k] == RenameOf(marked[lineIdx + k], NonEmpty(lines)[k]) {
      assert MarksFrom(marked, lineIdx)[k] == marked[lineIdx + k];
    }
  }

  /** The filesystem after the renames in order, failures ignored. */
  function ApplyRenames(effect: Effects, fs: Node, renames: seq<(Path, Path)>): Node
    decreases |renames|
  {
    if |renames| == 0 then fs
    else ApplyRenames(effect, effect(fs, Rename(renames[0].0, renames[0].1)).GetOr(fs), renames[1..])
  }

  /** renameMarkedFiles' loop over the edited lines, with the guard corrected: each
      non-empty line renames the next marked path, failures ignored. */
  method RunRenames(effect: Effects, fs: Node, marked: seq<Path>, lines: seq<string>) returns (tree: Node)
    ensures tree == ApplyRenames(effect, fs, Renames(marked, lines, 0))
  {
    tree := fs;
    var lineIdx: nat := 0;
    var i := 0;
    while i < |lines|
      invariant 0 <= i <= |lines|
      invariant ApplyRenames(effect, tree, Renames(marked, lines[i..], lineIdx))
             == ApplyRenames(effect, fs, Renames(marked, lines, 0))
    {
      var line := lines[i];
      assert lines[i..][0] == line && lines[i..][1..] == lines[i + 1..];
      if |line| > 0 {
        var rest := Renames(marked, lines[i + 1..], lineIdx + 1);
        if lineIdx < |marked| {
          var path := marked[lineIdx];
          var rename := RenameOf(path, line);
          assert Renames(marked, lines[i..], lineIdx) == [rename] + rest;
          assert ([rename] + rest)[0] == rename && ([rename] + rest)[1..] == rest;
          tree := effect(tree, Rename(path, JoinName(Parent(path), line))).GetOr(tree);
        } else {
          assert Renames(marked, lines[i..], lineIdx) == rest;
        }
        lineIdx := lineIdx + 1;
      } else {
        assert Renames(marked, lines[i..], lineIdx) == Renames(marked, lines[i + 1..], lineIdx);
      }
      i := i + 1;
    }
  }

  /** renameMarkedFiles' loop as written, with the guard `lineIdx <= len(markedFiles)`:
      None where it indexes markedFiles at its length, which panics. */
  function RenamesAsWritten(marked: seq<Path>, lines: seq<string>, lineIdx: nat): (r: Option<seq<(Path, Path)>>)
    ensures r.None? ==> lineIdx <= |marked|
    ensures r.Some? ==> |r.value| <= |lines| && forall e :: e in r.value ==> e.0 in marked
    decreases |lines|
  {
    if |lines| == 0 then Some([])
    else if |lines[0]| > 0 then
      if lineIdx <= |marked| then
        if lineIdx == |marked| then None
        else match RenamesAsWritten(marked, lines[1..], lineIdx + 1)
          case None => None
          case Some(rest) => Some([RenameOf(marked[lineIdx], lines[0])] + rest)
      else RenamesAsWritten(marked, lines[1..], lineIdx + 1)
    else RenamesAsWritten(marked, lines[1..], lineIdx)
  }

  /** The loop as written panics exactly when the edited file has more non-empty lines
      than there are marks left; otherwise it makes the renames of the corrected guard. */
  lemma {:induction false} AsWrittenPanics(marked: seq<Path>, lines: seq<string>, lineIdx: nat)
    ensures RenamesAsWritten(marked, lines, lineIdx).None?
        <==> lineIdx <= |marked| < lineIdx + |NonEmpty(lines)|
    ensures RenamesAsWritten(marked, lines, lineIdx).Some? ==>
      RenamesAsWritten(marked, lines, lineIdx).value == Renames(marked, lines, lineIdx)
    decreases |lines|
  {
    if |lines| > 0 {
      AsWrittenPanics(marked, lines[1..], if |lines[0]| > 0 then lineIdx + 1 else lineIdx);
    }
  }

  /** One marked file and an edited file with two names: the second name reaches
      markedFiles[1]. */
  lemma ExtraLinePanics()
    ensures RenamesAsWritten([["a"]], Text.Split("b\nc", '\n'), 0).None?
  {
    assert Text.Split("b\nc", '\n') == ["b", "c"] by {
      Text.SplitNoSep("c", '\n');
      Text.SplitPrefix("b", "c", '\n');
      assert "b\nc" == "b" + ['\n'] + "c";
    }
    AsWrittenPanics([["a"]], ["b", "c"], 0);
    assert NonEmpty(["b", "c"]) == ["b", "c"] by {
      assert ["b", "c"][1..] == ["c"];
      assert ["c"][1..] == [];
    }
  }

  /** The filesystem call a ':' command makes: `mkdir NAME` and `touch NAME` in the current
      directory; `rename TARGET` of the entry under the cursor, with TARGET taken relative
      to the process's working directory as os.Rename takes it. */
  function FooterOp(parts: seq<string>, dir: Path, currentName: string, cwd: Path): (r: Option<FsOp>)
    requires |parts| >= 1
    ensures r.Some? ==> |parts| > 1 && parts[0] in {"mkdir", "rename", "touch"}
  {
    if |parts| <= 1 then None
    else if parts[0] == "mkdir" then Some(MkdirAll(JoinName(dir, parts[1])))
    else if parts[0] == "rename" then Some(Rename(JoinName(dir, currentName), ParsePath(parts[1], cwd)))
    else if parts[0] == "touch" then Some(Create(JoinName(dir, parts[1])))
    else None
  }

  /** Ctrl-D's and Ctrl-U's distance: half the list, at most MaxScrollAmount. */
  function ScrollAmount(count: nat): (r: nat)
    ensures r <= MaxScrollAmount && 2 * r <= count
    ensures r == count / 2 || r == MaxScrollAmount
    ensures count <= 2 * MaxScrollAmount ==> r == count / 2
  {
    if count / 2 > MaxScrollAmount then MaxScrollAmount else count / 2
  }

  /** The view before the first directory is shown: empty lists, an empty map. */
  function Initial(p: Path): View {
    View(p, [], 0, ListView([], 0), DirectoryPreview(ListView([], 0)), map[], [])
  }

  /** The view initialize leaves: the start directory shown, or the directory of the
      selected file shown with the cursor set on the file's entry. */
  function Started(fs: Node, showHidden: bool, find: Matcher, cwd: Path, start: Path,
                   selected: Option<string>): (r: View)
    requires SoundMatcher(find)
    ensures Cursored(r)
  {
    match selected
    case None => EnterResult(Initial(start), fs, showHidden, [], "", find, start).0
    case Some(sel) =>
      var d := DirPath(sel, cwd);
      var w := EnterResult(Initial(d), fs, showHidden, [], "", find, d).0;
      var base := BaseString(sel);
      w.(cursor := Clip(ExactItem(w.currentList, base, find(w.currentList, base), Secondary), |w.currentList|))
  }

  /** A selected file whose name the list holds is under the cursor at the start. */
  lemma StartSelects(fs: Node, showHidden: bool, find: Matcher, cwd: Path, start: Path, sel: string, k: nat)
    requires SoundMatcher(find)
    requires var d := DirPath(sel, cwd);
      var w := EnterResult(Initial(d), fs, showHidden, [], "", find, d).0;
      var base := BaseString(sel);
      k < |find(w.currentList, base)| && w.currentList[find(w.currentList, base)[k]].secondary == base
    ensures var r := Started(fs, showHidden, find, cwd, start, Some(sel));
      SecondaryAt(r.currentList, r.cursor) == BaseString(sel)
  {
    var d := DirPath(sel, cwd);
    var w := EnterResult(Initial(d), fs, showHidden, [], "", find, d).0;
    var base := BaseString(sel);
    ExactItemFinds(w.currentList, base, find(w.currentList, base), Secondary, k);
  }

  class FileExplorer {
    /** The list widget's FindItems. */
    const find: Matcher
    /** The filesystem calls that change the filesystem. */
    const effect: Effects
    /** The process's working directory, against which relative strings are resolved. */
    const cwd: Path
    /** Config.HistoryLen. */
    const historyLen: nat

    var fs: Node
    var showHidden: bool
    var currentPath: Path
    var currentList: seq<ListItem>
    var cursor: nat
    var parentPane: ListView
    var preview: Preview
    var indexMap: map<Path, int>
    var currentSearchTerm: string
    var currentSearchIndices: seq<int>
    var keyBuffer: string
    var yankedFile: string
    var markedFiles: seq<Path>
    var yankedMarkedFiles: seq<Path>
    var cycleRecentPosition: int
    /** The content of the history file, None when it cannot be read. */
    var history: Option<string>
    /** The anchor file: missing, unreadable, or its content. */
    var anchors: Anchors.AnchorFile
    /** The application has been stopped. */
    var stopped: bool
    /** The content of the file the shell reads the last directory from. */
    var lastDirectory: string

    /** NewFileExplorer's struct literal: nothing listed, marked, yanked or typed yet. The
        explorer is then started by Initialize. */
    constructor (find: Matcher, effect: Effects, cwd: Path, historyLen: nat, fs: Node, showHidden: bool,
                 start: Path, history: Option<string>, anchors: Anchors.AnchorFile)
      requires SoundMatcher(find)
      ensures Valid()
      ensures this.find == find && this.effect == effect && this.cwd == cwd && this.historyLen == historyLen
      ensures this.fs == fs && this.showHidden == showHidden
      ensures this.history == history && this.anchors == anchors
      ensures Pristine()
      ensures Snapshot() == Initial(start) && lastDirectory == ""
    {
      this.find := find;
      this.effect := effect;
      this.cwd := cwd;
      this.historyLen := historyLen;
      this.fs := fs;
      this.showHidden := showHidden;
      this.history := history;
      this.anchors := anchors;
      currentPath := start;
      currentList := [];
      cursor := 0;
      parentPane := ListView([], 0);
      preview := DirectoryPreview(ListView([], 0));
      indexMap := map[];
      currentSearchTerm := "";
      currentSearchIndices := [];
      keyBuffer := "";
      yankedFile := "";
      markedFiles := [];
      yankedMarkedFiles := [];
      cycleRecentPosition := 0;
      stopped := false;
      lastDirectory := "";
    }

    /** initialize, from the view the constructor leaves: the explorer starts in `start`,
        or in the directory of `selected` with that file selected; the directory is then
        written for the shell. */
    method Initialize(start: Path, selected: Option<string>)
      requires Valid() && Snapshot() == Initial(start) && markedFiles == [] && currentSearchTerm == ""
      modifies this`currentPath, this`currentList, this`cursor, this`parentPane, this`preview,
               this`indexMap, this`currentSearchIndices, this`lastDirectory
      ensures Valid()
      ensures Snapshot() == Started(fs, showHidden, find, cwd, start, selected)
      ensures lastDirectory == PathString(currentPath)
    {
      if selected.Some? {
        currentPath := DirPath(selected.value, cwd);
        var shown := SetCurrentDirectory(currentPath);
        var base := BaseString(selected.value);
        var selectedFileIndex := FindExactItem(currentList, base, find(currentList, base));
        cursor := Clip(selectedFileIndex, |currentList|);
      } else {
        var shown := SetCurrentDirectory(start);
      }
      SetLastDirectory();
    }

    ghost predicate Valid()
      reads this`currentPath, this`currentList, this`cursor, this`parentPane, this`preview, this`indexMap,
               this`currentSearchIndices, this`keyBuffer, this`cycleRecentPosition
    {
      && SoundMatcher(find)
      && Cursored(Snapshot())
      && |keyBuffer| <= 5
      && cycleRecentPosition >= 0
    }

    /** Nothing marked, yanked, typed or searched yet, and not stopped. */
    ghost predicate Pristine()
      reads this`markedFiles, this`yankedMarkedFiles, this`yankedFile, this`keyBuffer,
            this`currentSearchTerm, this`cycleRecentPosition, this`stopped
    {
      && markedFiles == [] && yankedMarkedFiles == [] && yankedFile == "" && keyBuffer == ""
      && currentSearchTerm == "" && cycleRecentPosition == 0 && !stopped
    }

    ghost function Snapshot(): View
      reads this`currentPath, this`currentList, this`cursor, this`parentPane, this`preview, this`indexMap,
               this`currentSearchIndices
    {
      View(currentPath, currentList, cursor, parentPane, preview, indexMap, currentSearchIndices)
    }

    /** EnterResult in the explorer's present filesystem, settings and marks. */
    ghost function Entered(v: View, path: Path): (View, bool)
      reads this`fs, this`showHidden, this`markedFiles, this`currentSearchTerm
      requires SoundMatcher(find)
    {
      EnterResult(v, fs, showHidden, markedFiles, currentSearchTerm, find, path)
    }

    ghost function Lined(v: View, lineIndex: int): (View, bool)
      reads this`fs, this`showHidden, this`markedFiles
    {
      LineResult(v, fs, showHidden, markedFiles, lineIndex)
    }

    /** The secondary text of the item under the cursor ("" for an empty list). */
    function CurrentName(): string
      reads this`currentList, this`cursor
    {
      SecondaryAt(currentList, cursor)
    }

    /** setSelectedDirectory. */
    method SetSelectedDirectory(selectedPath: Path) returns (ok: bool)
      modifies this`preview
      ensures var o := PreviewOf(fs, selectedPath, showHidden, markedFiles, indexMap);
        ok == o.Some? && preview == o.GetOr(old(preview))
    {
      if IsDirectoryEmpty(fs, selectedPath) {
        preview := EmptyDirectory;
        return true;
      }
      var index := if selectedPath in indexMap then indexMap[selectedPath] else 0;
      var loaded := LoadDirectory(fs, selectedPath, showHidden, false, markedFiles);
      match loaded {
        case Failed =>
          return false;
        case NotDirectory =>
          preview := FilePreview(selectedPath);
          return true;
        case Listed(items) =>
          preview := DirectoryPreview(ListView(items, Clip(index, |items|)));
          return true;
      }
    }

    /** setParentDirectory. */
    method SetParentDirectory(path: Path) returns (ok: bool)
      requires SoundMatcher(find)
      modifies this`parentPane, this`indexMap
      ensures var o := ParentOf(fs, path, showHidden, markedFiles, find);
        && ok == !o.ParentUnavailable?
        && parentPane == PaneAfter(o, old(parentPane))
        && indexMap == MapAfter(old(indexMap), path, o)
    {
      if path == [] {
        parentPane := ListView([], 0);
        return true;
      }
      var parentPath := JoinName(path, "..");
      JoinDotDot(path);
      var loaded := LoadDirectory(fs, parentPath, showHidden, false, markedFiles);
      match loaded {
        case Listed(items) =>
          var index := FindExactItem(items, Base(path), find(items, Base(path)));
          indexMap := indexMap[parentPath := index];
          parentPane := ListView(items, Clip(index, |items|));
          return true;
        case _ =>
          return false;
      }
    }

    /** searchInCurrentDirectory. */
    method SearchInCurrentDirectory()
      modifies this`currentSearchIndices
      ensures currentSearchIndices == Searched(currentSearchTerm, currentList, old(currentSearchIndices), find)
    {
      if currentSearchTerm == "" {
        return;
      }
      currentSearchIndices := find(currentList, currentSearchTerm);
    }

    /** The main branch of setCurrentDirectory, for a path that is not an empty directory.
        A path that is a file is refused (the source would dereference a nil list). */
    method ShowDirectory(path: Path) returns (ok: bool)
      requires SoundMatcher(find)
      modifies this`currentPath, this`currentList, this`cursor, this`parentPane, this`preview,
               this`indexMap, this`currentSearchIndices
      ensures (Snapshot(), ok) == ShowResult(old(Snapshot()), fs, showHidden, markedFiles, currentSearchTerm, find, path)
    {
      var loaded := LoadDirectory(fs, path, showHidden, false, markedFiles);
      if !loaded.Listed? {
        return false;
      }
      ShowListed(Snapshot(), fs, showHidden, markedFiles, currentSearchTerm, find, path, loaded.items);
      ok := ShowItems(path, loaded.items);
    }

    /** ShowDirectory once the listing of `path` is `items`. */
    method ShowItems(path: Path, items: seq<ListItem>) returns (ok: bool)
      requires SoundMatcher(find)
      modifies this`currentPath, this`currentList, this`cursor, this`parentPane, this`preview,
               this`indexMap, this`currentSearchIndices
      ensures
        var v := old(Snapshot());
        var line := Clip(Remembered(v.indexMap, path), |items|);
        var o := ParentOf(fs, path, showHidden, markedFiles, find);
        var m := MapAfter(v.indexMap, path, o);
        var po := PreviewOf(fs, JoinName(path, SecondaryAt(items, line)), showHidden, markedFiles, m);
        && ok == po.Some?
        && Snapshot() == View(if ok then path else v.currentPath, items, line, PaneAfter(o, v.parentPane),
                              po.GetOr(v.preview), m,
                              if ok then Searched(currentSearchTerm, items, v.searchIndices, find) else v.searchIndices)
    {
      ListItems(path, items);
      ok := PreviewItems(path);
    }

    /** The first half of ShowItems: the list at the remembered line, then the parent
        pane. */
    method ListItems(path: Path, items: seq<ListItem>)
      requires SoundMatcher(find)
      modifies this`currentList, this`cursor, this`parentPane, this`indexMap
      ensures currentList == items && cursor == Clip(Remembered(old(indexMap), path), |items|)
      ensures var o := ParentOf(fs, path, showHidden, markedFiles, find);
        parentPane == PaneAfter(o, old(parentPane)) && indexMap == MapAfter(old(indexMap), path, o)
    {
      var index := if path in indexMap then indexMap[path] else 0;
      currentList := items;
      cursor := Clip(index, |currentList|);
      var parentOk := SetParentDirectory(path);
    }

    /** The second half of ShowItems: the preview of the entry under the cursor, and only
        when it succeeds the search hits and the new path. */
    method PreviewItems(path: Path) returns (ok: bool)
      modifies this`preview, this`currentSearchIndices, this`currentPath
      ensures var po := PreviewOf(fs, JoinName(path, SecondaryAt(currentList, cursor)), showHidden, markedFiles, indexMap);
        && ok == po.Some? && preview == po.GetOr(old(preview))
        && currentPath == (if ok then path else old(currentPath))
        && currentSearchIndices == (if ok then Searched(currentSearchTerm, currentList, old(currentSearchIndices), find)
                                    else old(currentSearchIndices))
    {
      var selectedName := SecondaryAt(currentList, cursor);
      ok := SetSelectedDirectory(JoinName(path, selectedName));
      if !ok {
        return;
      }
      SearchInCurrentDirectory();
      currentPath := path;
    }

    /** setCurrentDirectory. */
    method SetCurrentDirectory(path: Path) returns (ok: bool)
      requires Valid()
      modifies this`currentPath, this`currentList, this`cursor, this`parentPane, this`preview,
               this`indexMap, this`currentSearchIndices
      ensures Valid()
      ensures (Snapshot(), ok) == Entered(old(Snapshot()), path)
    {
      if IsDirectoryEmpty(fs, path) {
        if currentPath == path {
          var parentPath := Parent(path);
          if !IsDirectoryEmpty(fs, parentPath) {
            var retried := ShowDirectory(parentPath);
          }
        }
        return true;
      }
      ok := ShowDirectory(path);
    }

    /** setCurrentLine. */
    method SetCurrentLine(lineIndex: int) returns (ok: bool)
      requires Valid()
      modifies this`cursor, this`indexMap, this`preview
      ensures Valid()
      ensures (Snapshot(), ok) == Lined(old(Snapshot()), lineIndex)
    {
      var line := lineIndex;
      if line < 0 {
        line := 0;
      }
      if line >= |currentList| {
        line := |currentList| - 1;
      }
      cursor := Clip(line, |currentList|);
      indexMap := indexMap[currentPath := line];
      var selectedName := SecondaryAt(currentList, line);
      ok := SetSelectedDirectory(JoinName(currentPath, selectedName));
    }

    /** deleteCurrentFile: the entry under the cursor is removed (with everything in it
        when forced); the directory is shown again unless the removal fails. */
    method DeleteCurrentFile(force: bool)
      requires Valid()
      modifies this`fs, this`currentPath, this`currentList, this`cursor, this`parentPane, this`preview,
               this`indexMap, this`currentSearchIndices
      ensures Valid()
      ensures var r := effect(old(fs), RemovalOp(JoinName(old(currentPath), old(CurrentName())), force));
        && (r.None? ==> fs == old(fs) && Snapshot() == old(Snapshot()))
        && (r.Some? ==> fs == r.value && Snapshot() == Entered(old(Snapshot()), old(currentPath)).0)
    {
      var currentName := CurrentName();
      var path := JoinName(currentPath, currentName);
      var r;
      if force {
        r := effect(fs, RemoveAll(path));
      } else {
        r := effect(fs, Remove(path));
      }
      if r.None? {
        return;
      }
      fs := r.value;
      var shown := SetCurrentDirectory(currentPath);
    }

    /** yankCurrentFile: the written form of the entry under the cursor is kept. */
    method YankCurrentFile()
      modifies this`yankedFile
      ensures yankedFile == EntryString(currentPath, CurrentName())
    {
      var currentName := CurrentName();
      yankedFile := PathString(currentPath) + "/" + currentName;
    }

    /** pasteYankedFile: the yanked file is copied into the current directory under the
        first free name; the directory is shown again unless the copy fails. */
    method PasteYankedFile()
      requires Valid()
      modifies this`fs, this`currentPath, this`currentList, this`cursor, this`parentPane, this`preview,
               this`indexMap, this`currentSearchIndices
      ensures Valid()
      ensures yankedFile == "" ==> fs == old(fs) && Snapshot() == old(Snapshot())
      ensures yankedFile != "" ==>
        var dest := PasteDestination(old(fs), old(currentPath), BaseString(yankedFile));
        var r := effect(old(fs), Copy(ParsePath(yankedFile, cwd), dest));
        && (r.None? ==> fs == old(fs) && Snapshot() == old(Snapshot()))
        && (r.Some? ==> fs == r.value && Snapshot() == Entered(old(Snapshot()), old(currentPath)).0)
    {
      if yankedFile == "" {
        return;
      }
      ghost var v := Snapshot();
      var destinationPath := JoinName(currentPath, BaseString(yankedFile));
      var r := CopyFile(effect, fs, ParsePath(yankedFile, cwd), destinationPath);
      assert r == effect(old(fs), Copy(ParsePath(yankedFile, cwd), PasteDestination(old(fs), old(currentPath), BaseString(yankedFile))));
      if r.None? {
        return;
      }
      fs := r.value;
      assert Snapshot() == v;
      var shown := SetCurrentDirectory(currentPath);
    }

    /** renameMarkedFiles with the guard corrected to `lineIdx < len(markedFiles)`: the
        marked files are listed by name in a file the user edits (`edited` is its content
        afterwards); its k-th non-empty line renames the k-th marked file within its
        directory. The marks are then cleared and the directory shown again. */
    method RenameMarkedFiles(edited: string)
      requires Valid()
      modifies this`fs, this`markedFiles, this`currentPath, this`currentList, this`cursor, this`parentPane,
               this`preview, this`indexMap, this`currentSearchIndices
      ensures Valid()
      ensures |old(markedFiles)| == 0 ==>
        fs == old(fs) && markedFiles == old(markedFiles) && Snapshot() == old(Snapshot())
      ensures |old(markedFiles)| > 0 ==>
        && fs == ApplyRenames(effect, old(fs), Renames(old(markedFiles), Text.Split(edited, '\n'), 0))
        && markedFiles == []
        && Snapshot() == Entered(old(Snapshot()), old(currentPath)).0
    {
      if |markedFiles| == 0 {
        return;
      }
      var tree := RunRenames(effect, fs, markedFiles, Text.Split(edited, '\n'));
      fs := tree;
      markedFiles := [];
      var shown := SetCurrentDirectory(currentPath);
    }

    /** deleteMarkedFiles: the marked files are removed in order; at the first failure
        nothing more happens, otherwise the marks are cleared and the directory shown
        again. */
    method DeleteMarkedFiles(force: bool)
      requires Valid()
      modifies this`fs, this`markedFiles, this`currentPath, this`currentList, this`cursor, this`parentPane,
               this`preview, this`indexMap, this`currentSearchIndices
      ensures Valid()
      ensures var r := RemoveEach(effect, old(fs), old(markedFiles), force);
        && fs == r.0
        && (!r.1 ==> markedFiles == old(markedFiles) && Snapshot() == old(Snapshot()))
        && (r.1 ==> markedFiles == [] && Snapshot() == Entered(old(Snapshot()), old(currentPath)).0)
    {
      var tree, ok := RunRemovals(effect, fs, markedFiles, force);
      fs := tree;
      if !ok {
        return;
      }
      var remaining := DeleteAll(markedFiles, markedFiles);
      markedFiles := remaining;
      var shown := SetCurrentDirectory(currentPath);
    }

    /** toggleMarkForCurrentFile: the entry under the cursor is marked or unmarked, the
        directory is shown again and the cursor moves one line down. */
    method ToggleMarkForCurrentFile()
      requires Valid()
      modifies this`markedFiles, this`currentPath, this`currentList, this`cursor, this`parentPane,
               this`preview, this`indexMap, this`currentSearchIndices
      ensures Valid()
      ensures markedFiles == Toggled(old(markedFiles), JoinName(old(currentPath), old(CurrentName())))
      ensures var w := Entered(old(Snapshot()), old(currentPath)).0;
        Snapshot() == Lined(w, w.cursor + 1).0
    {
      var currentName := CurrentName();
      var filePath := JoinName(currentPath, currentName);
      markedFiles := ToggleMark(markedFiles, filePath);
      ShowAndStepDown();
    }

    /** The directory shown again, then the cursor one line further down. */
    method ShowAndStepDown()
      requires Valid()
      modifies this`currentPath, this`currentList, this`cursor, this`parentPane, this`preview,
               this`indexMap, this`currentSearchIndices
      ensures Valid()
      ensures var w := Entered(old(Snapshot()), old(currentPath)).0;
        Snapshot() == Lined(w, w.cursor + 1).0
    {
      var shown := SetCurrentDirectory(currentPath);
      var moved := SetCurrentLine(cursor + 1);
    }

    /** unmarkAllFiles. */
    method UnmarkAllFiles()
      requires Valid()
      modifies this`markedFiles, this`currentPath, this`currentList, this`cursor, this`parentPane,
               this`preview, this`indexMap, this`currentSearchIndices
      ensures Valid()
      ensures markedFiles == []
      ensures Snapshot() == Entered(old(Snapshot()), old(currentPath)).0
    {
      markedFiles := [];
      var shown := SetCurrentDirectory(currentPath);
    }

    /** yankMarkedFiles. */
    method YankMarkedFiles()
      modifies this`yankedMarkedFiles
      ensures yankedMarkedFiles == markedFiles
    {
      yankedMarkedFiles := markedFiles;
    }

    /** pasteMarkedFiles: every yanked file is copied into the current directory under
        its first free name, failures ignored; then the directory is shown again. */
    method PasteMarkedFiles()
      requires Valid()
      modifies this`fs, this`currentPath, this`currentList, this`cursor, this`parentPane, this`preview,
               this`indexMap, this`currentSearchIndices
      ensures Valid()
      ensures fs == CopyEach(effect, old(fs), old(currentPath), yankedMarkedFiles)
      ensures Snapshot() == Entered(old(Snapshot()), old(currentPath)).0
    {
      var tree := fs;
      var i := 0;
      while i < |yankedMarkedFiles|
        invariant 0 <= i <= |yankedMarkedFiles|
        invariant Valid() && Snapshot() == old(Snapshot()) && fs == old(fs)
        invariant CopyEach(effect, tree, currentPath, yankedMarkedFiles[i..])
               == CopyEach(effect, fs, currentPath, yankedMarkedFiles)
      {
        var file := yankedMarkedFiles[i];
        assert yankedMarkedFiles[i..][0] == file && yankedMarkedFiles[i..][1..] == yankedMarkedFiles[i + 1..];
        var destinationPath := JoinName(currentPath, Base(file));
        var r := CopyFile(effect, tree, file, destinationPath);
        tree := r.GetOr(tree);
        i := i + 1;
      }
      fs := tree;
      var shown := SetCurrentDirectory(currentPath);
    }

    /** setAnchor: the anchor file's line for the key's first byte becomes the
        anchor of the entry under the cursor. */
    method SetAnchor(key: string)
      modifies this`anchors
      ensures anchors == Anchors.Updated(old(anchors), AnchorLine(key, currentPath, CurrentName()))
    {
      var currentName := CurrentName();
      var anchor := key + " > " + PathString(currentPath) + "/" + currentName;
      assert anchor == AnchorLine(key, currentPath, currentName);
      anchors := Anchors.AppendOrReplaceLineInFile(anchors, anchor);
    }

    /** jumpToAnchor: the directory of the anchor's target is entered and its name
        selected; an anchor file that cannot be read changes nothing. */
    method JumpToAnchor(key: string)
      requires Valid()
      modifies this`currentPath, this`currentList, this`cursor, this`parentPane, this`preview,
               this`indexMap, this`currentSearchIndices
      ensures Valid()
      ensures anchors.Unreadable? ==> Snapshot() == old(Snapshot())
      ensures !anchors.Unreadable? ==>
        var target := AnchorTarget(anchors, key);
        var w := Entered(old(Snapshot()), DirPath(target, cwd)).0;
        var base := BaseString(target);
        Snapshot() == Lined(w, ExactItem(w.currentList, base, find(w.currentList, base), Secondary)).0
    {
      var anchor := Anchors.GetLineWithKey(anchors, key);
      if anchor.Err? {
        return;
      }
      var anchorPath := Text.TrimPrefix(anchor.value, key + " > ");
      assert anchorPath == AnchorTarget(anchors, key);
      var anchorBase := BaseString(anchorPath);
      var anchorDir := DirPath(anchorPath, cwd);
      EnterAndSelect(anchorDir, anchorBase);
    }

    /** setCurrentDirectory(dir) followed by setCurrentLine(FindExactItem(name)), as
        jumpToAnchor and cycleRecent do. */
    method EnterAndSelect(dir: Path, name: string)
      requires Valid()
      modifies this`currentPath, this`currentList, this`cursor, this`parentPane, this`preview,
               this`indexMap, this`currentSearchIndices
      ensures Valid()
      ensures var w := Entered(old(Snapshot()), dir).0;
        Snapshot() == Lined(w, ExactItem(w.currentList, name, find(w.currentList, name), Secondary)).0
    {
      var entered := SetCurrentDirectory(dir);
      var index := FindExactItem(currentList, name, find(currentList, name));
      var shown := SetCurrentLine(index);
    }

    /** cycleRecent: one step back or forth through the history of opened files (the
        position never goes below 0), entering the file's directory and selecting it; a
        step past the end is undone; stepping back at the end puts it to 0. The history
        file is trimmed on the way. */
    method CycleRecent(backward: bool)
      requires Valid()
      modifies this`cycleRecentPosition, this`history, this`currentPath, this`currentList, this`cursor,
               this`parentPane, this`preview, this`indexMap, this`currentSearchIndices
      ensures Valid()
      ensures history == History.TrimmedHistoryFile(old(history), historyLen)
      ensures var step := if backward then old(cycleRecentPosition) - 1 else old(cycleRecentPosition) + 1;
        var pos := if step < 0 then 0 else step;
        var r := History.GetRecentFile(old(history), pos, historyLen);
        && (r.Err? ==>
              && cycleRecentPosition == (if backward then 0 else old(cycleRecentPosition))
              && Snapshot() == old(Snapshot()))
        && (r.Ok? ==>
              var w := Entered(old(Snapshot()), DirPath(r.value, cwd)).0;
              var base := BaseString(r.value);
              && cycleRecentPosition == pos
              && Snapshot() == Lined(w, ExactItem(w.currentList, base, find(w.currentList, base), Secondary)).0)
    {
      if backward {
        cycleRecentPosition := cycleRecentPosition - 1;
      } else {
        cycleRecentPosition := cycleRecentPosition + 1;
      }
      if cycleRecentPosition < 0 {
        cycleRecentPosition := 0;
      }
      var recentFile := History.GetRecentFile(history, cycleRecentPosition, historyLen);
      history := History.TrimmedHistoryFile(history, historyLen);
      if recentFile.Err? {
        if backward {
          cycleRecentPosition := 0;
        } else {
          cycleRecentPosition := cycleRecentPosition - 1;
        }
        return;
      }
      EnterAndSelect(DirPath(recentFile.value, cwd), BaseString(recentFile.value));
    }

    /** The 'n' key: the first search hit after the cursor, or the first hit. */
    method CycleSearchForward()
      requires Valid()
      modifies this`cursor, this`indexMap, this`preview
      ensures Valid()
      ensures |currentSearchIndices| == 0 ==> Snapshot() == old(Snapshot())
      ensures |currentSearchIndices| > 0 ==>
        Snapshot() == Lined(old(Snapshot()), NextMatch(currentSearchIndices, old(cursor))).0
    {
      if |currentSearchIndices| > 0 {
        var currentIndex := cursor;
        var i := 0;
        while i < |currentSearchIndices|
          invariant 0 <= i <= |currentSearchIndices|
          invariant Snapshot() == old(Snapshot())
          invariant forall j :: 0 <= j < i ==> currentSearchIndices[j] <= currentIndex
        {
          if currentSearchIndices[i] > currentIndex {
            FirstAboveIs(currentSearchIndices, currentIndex, i);
            var shown := SetCurrentLine(currentSearchIndices[i]);
            return;
          }
          i := i + 1;
        }
        FirstAboveIs(currentSearchIndices, currentIndex, i);
        var shown := SetCurrentLine(currentSearchIndices[0]);
      }
    }

    /** The 'N' key: the last search hit before the cursor, or the last hit. */
    method CycleSearchBackward()
      requires Valid()
      modifies this`cursor, this`indexMap, this`preview
      ensures Valid()
      ensures |currentSearchIndices| == 0 ==> Snapshot() == old(Snapshot())
      ensures |currentSearchIndices| > 0 ==>
        Snapshot() == Lined(old(Snapshot()), PrevMatch(currentSearchIndices, old(cursor))).0
    {
      if |currentSearchIndices| > 0 {
        var currentIndex := cursor;
        var i := |currentSearchIndices| - 1;
        while i >= 0
          invariant -1 <= i < |currentSearchIndices|
          invariant Snapshot() == old(Snapshot())
          invariant forall j :: i < j < |currentSearchIndices| ==> currentSearchIndices[j] >= currentIndex
        {
          if currentSearchIndices[i] < currentIndex {
            LastBelowIs(currentSearchIndices, currentIndex, i);
            var shown := SetCurrentLine(currentSearchIndices[i]);
            return;
          }
          i := i - 1;
        }
        LastBelowIs(currentSearchIndices, currentIndex, -1);
        var shown := SetCurrentLine(currentSearchIndices[|currentSearchIndices| - 1]);
      }
    }


    /** Ctrl-H: hidden files are shown or hidden, the directory is shown again, and the
        entry under the cursor and the preview's selection are selected again by name. */
    method ToggleHiddenFiles()
      requires Valid()
      modifies this`showHidden, this`currentPath, this`currentList, this`cursor, this`parentPane,
               this`preview, this`indexMap, this`currentSearchIndices
      ensures Valid()
      ensures showHidden == !old(showHidden)
      ensures var name := old(CurrentName());
        var e := Entered(old(Snapshot()), old(currentPath));
        var w := e.0;
        var idx := ExactItem(w.currentList, name, find(w.currentList, name), Secondary);
        Snapshot() == if !e.1 then w else RestorePreview(Lined(w, idx).0, name, PreviewSelection(old(preview)), find)
    {
      showHidden := !showHidden;
      var currentName := CurrentName();
      var selectedName := "";
      if preview.DirectoryPreview? {
        selectedName := SecondaryAt(preview.view.items, preview.view.current);
      }
      var ok := SetCurrentDirectory(currentPath);
      if !ok {
        return;
      }
      RestoreSelection(currentName, selectedName);
    }

    /** The restoring half of Ctrl-H: `name` is selected in the current list, `selName` in
        a directory preview. */
    method RestoreSelection(name: string, selName: string)
      requires Valid()
      modifies this`cursor, this`preview, this`indexMap
      ensures Valid()
      ensures var v := old(Snapshot());
        var idx := ExactItem(v.currentList, name, find(v.currentList, name), Secondary);
        Snapshot() == RestorePreview(Lined(v, idx).0, name, selName, find)
    {
      var idx := FindExactItem(currentList, name, find(currentList, name));
      if idx >= 0 {
        var shown := SetCurrentLine(idx);
      }
      if preview.DirectoryPreview? {
        var items := preview.view.items;
        var j := FindExactItem(items, selName, find(items, selName));
        if j >= 0 {
          preview := DirectoryPreview(ListView(items, Clip(j, |items|)));
          indexMap := indexMap[JoinName(currentPath, name) := j];
        }
      }
    }

    /** setLastDirectory: the current directory is written where the shell can read it. */
    method SetLastDirectory()
      modifies this`lastDirectory
      ensures lastDirectory == PathString(currentPath)
    {
      lastDirectory := PathString(currentPath);
    }

    /** quitAndChangeDirectory. */
    method QuitAndChangeDirectory()
      modifies this`lastDirectory, this`stopped
      ensures lastDirectory == PathString(currentPath) && stopped
    {
      SetLastDirectory();
      stopped := true;
    }

    /** runFooterCommand for the text entered in the footer: "/term" searches, ":command"
        runs a command; `edited` is what the user leaves in the file ":mrename" opens. */
    method RunFooterCommand(inputText: string, edited: string)
      requires Valid() && |inputText| > 0
      modifies this`fs, this`markedFiles, this`currentSearchTerm, this`stopped, this`currentPath,
               this`currentList, this`cursor, this`parentPane, this`preview, this`indexMap,
               this`currentSearchIndices
      ensures Valid()
      ensures currentSearchTerm == (if inputText[0] == '/' then inputText[1..] else old(currentSearchTerm))
      ensures stopped == (old(stopped) || (inputText[0] == ':' && Text.Split(inputText[1..], ' ')[0] == "q"))
      ensures inputText[0] == '/' ==>
        && fs == old(fs) && markedFiles == old(markedFiles)
        && var hits := Searched(inputText[1..], old(currentList), old(currentSearchIndices), find);
           var v := old(Snapshot()).(searchIndices := hits);
           Snapshot() == if |hits| > 0 then Lined(v, hits[0]).0 else v
      ensures inputText[0] == ':' ==>
        var parts := Text.Split(inputText[1..], ' ');
        var op := FooterOp(parts, old(currentPath), old(CurrentName()), cwd);
        && (op.Some? ==>
              && fs == effect(old(fs), op.value).GetOr(old(fs)) && markedFiles == old(markedFiles)
              && Snapshot() == Entered(old(Snapshot()), old(currentPath)).0)
        && (parts[0] == "mrename" && |old(markedFiles)| > 0 ==>
              && fs == ApplyRenames(effect, old(fs), Renames(old(markedFiles), Text.Split(edited, '\n'), 0))
              && markedFiles == []
              && Snapshot() == Entered(old(Snapshot()), old(currentPath)).0)
        && (op.None? && (parts[0] != "mrename" || |old(markedFiles)| == 0) ==>
              fs == old(fs) && markedFiles == old(markedFiles) && Snapshot() == old(Snapshot()))
      ensures inputText[0] != '/' && inputText[0] != ':' ==>
        fs == old(fs) && markedFiles == old(markedFiles) && Snapshot() == old(Snapshot())
    {
      if inputText[0] == '/' {
        SearchAndSelect(inputText[1..]);
      } else if inputText[0] == ':' {
        RunCommand(inputText[1..], edited);
      }
    }

    /** The '/' footer: the term is searched and the first hit selected. */
    method SearchAndSelect(term: string)
      requires Valid()
      modifies this`currentSearchTerm, this`cursor, this`preview, this`indexMap, this`currentSearchIndices
      ensures Valid()
      ensures currentSearchTerm == term
      ensures var hits := Searched(term, old(currentList), old(currentSearchIndices), find);
        var v := old(Snapshot()).(searchIndices := hits);
        Snapshot() == if |hits| > 0 then Lined(v, hits[0]).0 else v
    {
      currentSearchTerm := term;
      SearchInCurrentDirectory();
      if |currentSearchIndices| > 0 {
        var shown := SetCurrentLine(currentSearchIndices[0]);
      }
    }

    /** The ':' footer. */
    method RunCommand(command: string, edited: string)
      requires Valid()
      modifies this`fs, this`markedFiles, this`stopped, this`currentPath, this`currentList, this`cursor,
               this`parentPane, this`preview, this`indexMap, this`currentSearchIndices
      ensures Valid()
      ensures var parts := Text.Split(command, ' ');
        var op := FooterOp(parts, old(currentPath), old(CurrentName()), cwd);
        && stopped == (old(stopped) || parts[0] == "q")
        && (op.Some? ==>
              && fs == effect(old(fs), op.value).GetOr(old(fs)) && markedFiles == old(markedFiles)
              && Snapshot() == Entered(old(Snapshot()), old(currentPath)).0)
        && (parts[0] == "mrename" && |old(markedFiles)| > 0 ==>
              && fs == ApplyRenames(effect, old(fs), Renames(old(markedFiles), Text.Split(edited, '\n'), 0))
              && markedFiles == []
              && Snapshot() == Entered(old(Snapshot()), old(currentPath)).0)
        && (op.None? && (parts[0] != "mrename" || |old(markedFiles)| == 0) ==>
              fs == old(fs) && markedFiles == old(markedFiles) && Snapshot() == old(Snapshot()))
    {
      var parts := Text.Split(command, ' ');
      if parts[0] == "q" {
        stopped := true;
      } else if parts[0] == "mrename" {
        RenameMarkedFiles(edited);
      } else {
        // mkdir, rename and touch with their second word
        var op := FooterOp(parts, currentPath, CurrentName(), cwd);
        if op.Some? {
          CallAndRefresh(op.value);
        }
      }
    }

    /** A filesystem call whose failure is ignored, then the directory shown again. */
    method CallAndRefresh(op: FsOp)
      requires Valid()
      modifies this`fs, this`currentPath, this`currentList, this`cursor, this`parentPane, this`preview,
               this`indexMap, this`currentSearchIndices
      ensures Valid()
      ensures fs == effect(old(fs), op).GetOr(old(fs))
      ensures Snapshot() == Entered(old(Snapshot()), old(currentPath)).0
    {
      fs := effect(fs, op).GetOr(fs);
      var shown := SetCurrentDirectory(currentPath);
    }

    /** The chord branch of the key handler: the command the key buffer selected. */
    method RunChord(command: Chords.Command)
      requires Valid()
      modifies this`fs, this`markedFiles, this`yankedFile, this`yankedMarkedFiles, this`anchors,
               this`currentPath, this`currentList, this`cursor, this`parentPane, this`preview,
               this`indexMap, this`currentSearchIndices
      ensures Valid()
      ensures ChordRan(command)
      ensures history == old(history) && cycleRecentPosition == old(cycleRecentPosition)
      ensures lastDirectory == old(lastDirectory)
    {
      if command.GoTop? || command.Yank? || command.UnmarkAll? || command.YankMarked? || command.SetAnchor? {
        RunPlainChord(command);
      } else {
        EditByChord(command);
      }
    }

    /** The chords that move the cursor, yank, unmark or set an anchor. */
    method RunPlainChord(command: Chords.Command)
      requires Valid()
      requires command.GoTop? || command.Yank? || command.UnmarkAll? || command.YankMarked? || command.SetAnchor?
      modifies this`markedFiles, this`yankedFile, this`yankedMarkedFiles, this`anchors,
               this`currentPath, this`currentList, this`cursor, this`parentPane, this`preview,
               this`indexMap, this`currentSearchIndices
      ensures Valid()
      ensures ChordRan(command)
    {
      match command {
        case GoTop =>
          var shown := SetCurrentLine(0);
        case Yank =>
          YankCurrentFile();
        case UnmarkAll =>
          UnmarkAllFiles();
        case YankMarked =>
          YankMarkedFiles();
        case SetAnchor(key) =>
          SetAnchor(key);
      }
    }

    /** What no chord touches: the history, its position and the last directory. */
    twostate predicate ChordKept()
      reads this
    {
      history == old(history) && cycleRecentPosition == old(cycleRecentPosition) && lastDirectory == old(lastDirectory)
    }

    /** What the chord the key buffer selected leaves behind: "gg" selects line 0, the yanks
        and unmarking do what their methods do, only an anchor chord writes the anchor
        file, and every other chord is one of ChordEdited's. */
    twostate predicate ChordRan(command: Chords.Command)
      requires SoundMatcher(find)
      reads this
    {
      && (command == Chords.GoTop ==> Snapshot() == Lined(old(Snapshot()), 0).0)
      && (command == Chords.Yank ==> yankedFile == EntryString(currentPath, CurrentName()))
      && (command == Chords.YankMarked ==> yankedMarkedFiles == markedFiles)
      && (command == Chords.UnmarkAll ==> markedFiles == [])
      && (command.SetAnchor? ==>
            anchors == Anchors.Updated(old(anchors), AnchorLine(command.key, currentPath, CurrentName())))
      && (!command.SetAnchor? ==> anchors == old(anchors))
      && (!(command.GoTop? || command.Yank? || command.UnmarkAll? || command.YankMarked? || command.SetAnchor?) ==>
            ChordEdited(command))
    }

    /** What a chord that changes the filesystem, the marks or the directory shown leaves
        behind: "dd" and "DD" remove the entry under the cursor, "pp" pastes the yanked
        file, "mm" toggles the entry's mark, "md" and "mD" remove the marked files, "mp"
        pastes them, and an anchor jump enters the anchor's directory. */
    twostate predicate ChordEdited(command: Chords.Command)
      requires SoundMatcher(find)
      reads this
    {
      if command.Delete? || command.ForceDelete? then
        var r := effect(old(fs), RemovalOp(JoinName(old(currentPath), old(CurrentName())), command.ForceDelete?));
        && markedFiles == old(markedFiles)
        && (r.None? ==> fs == old(fs) && Snapshot() == old(Snapshot()))
        && (r.Some? ==> fs == r.value && Snapshot() == Entered(old(Snapshot()), old(currentPath)).0)
      else if command.Paste? then
        && markedFiles == old(markedFiles)
        && (yankedFile == "" ==> fs == old(fs) && Snapshot() == old(Snapshot()))
        && (yankedFile != "" ==>
              var dest := PasteDestination(old(fs), old(currentPath), BaseString(yankedFile));
              var r := effect(old(fs), Copy(ParsePath(yankedFile, cwd), dest));
              && (r.None? ==> fs == old(fs) && Snapshot() == old(Snapshot()))
              && (r.Some? ==> fs == r.value && Snapshot() == Entered(old(Snapshot()), old(currentPath)).0))
      else if command.ToggleMark? then
        var w := Entered(old(Snapshot()), old(currentPath)).0;
        && fs == old(fs)
        && markedFiles == Toggled(old(markedFiles), JoinName(old(currentPath), old(CurrentName())))
        && Snapshot() == Lined(w, w.cursor + 1).0
      else if command.DeleteMarked? || command.ForceDeleteMarked? then
        var r := RemoveEach(effect, old(fs), old(markedFiles), command.ForceDeleteMarked?);
        && fs == r.0
        && (!r.1 ==> markedFiles == old(markedFiles) && Snapshot() == old(Snapshot()))
        && (r.1 ==> markedFiles == [] && Snapshot() == Entered(old(Snapshot()), old(currentPath)).0)
      else if command.PasteMarked? then
        && markedFiles == old(markedFiles)
        && fs == CopyEach(effect, old(fs), old(currentPath), yankedMarkedFiles)
        && Snapshot() == Entered(old(Snapshot()), old(currentPath)).0
      else if command.JumpToAnchor? then
        var target := AnchorTarget(anchors, command.key);
        var w := Entered(old(Snapshot()), DirPath(target, cwd)).0;
        var base := BaseString(target);
        && fs == old(fs) && markedFiles == old(markedFiles)
        && (anchors.Unreadable? ==> Snapshot() == old(Snapshot()))
        && (!anchors.Unreadable? ==>
              Snapshot() == Lined(w, ExactItem(w.currentList, base, find(w.currentList, base), Secondary)).0)
      else
        true
    }

    /** The chords that change the filesystem, the marks or the directory shown. */
    method EditByChord(command: Chords.Command)
      requires Valid()
      requires !(command.GoTop? || command.Yank? || command.UnmarkAll? || command.YankMarked? || command.SetAnchor?)
      modifies this`fs, this`markedFiles, this`currentPath, this`currentList, this`cursor, this`parentPane,
               this`preview, this`indexMap, this`currentSearchIndices
      ensures Valid()
      ensures ChordEdited(command)
      ensures ChordRan(command)
    {
      match command {
        case Delete =>
          DeleteCurrentFile(false);
        case ForceDelete =>
          DeleteCurrentFile(true);
        case Paste =>
          PasteYankedFile();
        case ToggleMark =>
          ToggleMarkForCurrentFile();
        case DeleteMarked =>
          DeleteMarkedFiles(false);
        case ForceDeleteMarked =>
          DeleteMarkedFiles(true);
        case PasteMarked =>
          PasteMarkedFiles();
        case JumpToAnchor(key) =>
          JumpToAnchor(key);
      }
    }

    /** What the binding of a rune that completed no chord leaves behind: 'j', 'k' and 'G'
        move through setCurrentLine, 'h' and 'l' enter a directory, 'r' and 'R' recall a
        file of the history, 'M' toggles the mark under the cursor, 'n' and 'N' cycle the
        search hits, 'S' writes the path for the shell, and no other rune changes the
        view; only 'M' changes the marks, and only 'r' and 'R' the history. */
    twostate predicate RuneRan(c: char)
      requires SoundMatcher(find)
      reads this
    {
      && (!(c == 'r' || c == 'R') ==> history == old(history) && cycleRecentPosition == old(cycleRecentPosition))
      && (c != 'M' ==> markedFiles == old(markedFiles))
      && if c == 'j' then Snapshot() == Lined(old(Snapshot()), old(cursor) + 1).0
         else if c == 'k' then Snapshot() == Lined(old(Snapshot()), old(cursor) - 1).0
         else if c == 'G' then Snapshot() == Lined(old(Snapshot()), |old(currentList)| - 1).0
         else if c == 'h' then Snapshot() == Entered(old(Snapshot()), Parent(old(currentPath))).0
         else if c == 'l' then
           var target := JoinName(old(currentPath), old(CurrentName()));
           var info := Lookup(fs, target);
           Snapshot() == if info.Some? && info.value.Dir? then Entered(old(Snapshot()), target).0 else old(Snapshot())
         else if c == 'r' || c == 'R' then
           && history == History.TrimmedHistoryFile(old(history), historyLen)
           && var step := if c == 'R' then old(cycleRecentPosition) - 1 else old(cycleRecentPosition) + 1;
              var pos := if step < 0 then 0 else step;
              var r := History.GetRecentFile(old(history), pos, historyLen);
              && (r.Err? ==>
                    && cycleRecentPosition == (if c == 'R' then 0 else old(cycleRecentPosition))
                    && Snapshot() == old(Snapshot()))
              && (r.Ok? ==>
                    var w := Entered(old(Snapshot()), DirPath(r.value, cwd)).0;
                    var base := BaseString(r.value);
                    && cycleRecentPosition == pos
                    && Snapshot() == Lined(w, ExactItem(w.currentList, base, find(w.currentList, base), Secondary)).0)
         else if c == 'M' then
           && markedFiles == Toggled(old(markedFiles), JoinName(old(currentPath), old(CurrentName())))
           && var w := Entered(old(Snapshot()), old(currentPath)).0;
              Snapshot() == Lined(w, w.cursor + 1).0
         else if c == 'n' then
           Snapshot() == if |currentSearchIndices| > 0
             then Lined(old(Snapshot()), NextMatch(currentSearchIndices, old(cursor))).0 else old(Snapshot())
         else if c == 'N' then
           Snapshot() == if |currentSearchIndices| > 0
             then Lined(old(Snapshot()), PrevMatch(currentSearchIndices, old(cursor))).0 else old(Snapshot())
         else
           && (c == 'S' ==> lastDirectory == PathString(currentPath))
           && Snapshot() == old(Snapshot())
    }

    /** What a rune's binding never touches: the filesystem, the anchors and the yanks, and
        the last directory unless the rune is 'S'. */
    twostate predicate RuneKept(c: char)
      reads this
    {
      && fs == old(fs) && anchors == old(anchors)
      && yankedFile == old(yankedFile) && yankedMarkedFiles == old(yankedMarkedFiles)
      && (c != 'S' ==> lastDirectory == old(lastDirectory))
    }

    /** The switch on the rune of a key that completed no chord. */
    method RunRune(c: char)
      requires Valid()
      modifies this`markedFiles, this`cycleRecentPosition, this`history, this`lastDirectory, this`stopped,
               this`currentPath, this`currentList, this`cursor, this`parentPane, this`preview,
               this`indexMap, this`currentSearchIndices
      ensures Valid()
      ensures stopped == (old(stopped) || Stops(c))
      ensures RuneRan(c) && RuneKept(c)
    {
      if c == 'j' || c == 'k' || c == 'G' {
        MoveByRune(c);
      } else if c == 'h' || c == 'l' {
        EnterByRune(c);
      } else if c == 'r' || c == 'R' {
        RecallByRune(c);
      } else if c == 'M' {
        MarkByRune();
      } else {
        OtherRune(c);
      }
    }

    /** 'M': toggle the mark under the cursor, then step one line down. */
    method MarkByRune()
      requires Valid()
      modifies this`markedFiles, this`currentPath, this`currentList, this`cursor, this`parentPane,
               this`preview, this`indexMap, this`currentSearchIndices
      ensures Valid()
      ensures RuneRan('M') && RuneKept('M')
    {
      ToggleMarkForCurrentFile();
    }

    /** 'j', 'k' and 'G': one line down, one line up, the last line. */
    method MoveByRune(c: char)
      requires Valid() && (c == 'j' || c == 'k' || c == 'G')
      modifies this`cursor, this`indexMap, this`preview
      ensures Valid()
      ensures RuneRan(c) && RuneKept(c)
    {
      if c == 'G' {
        var shown := SetCurrentLine(|currentList| - 1);
      } else if c == 'j' {
        var shown := SetCurrentLine(cursor + 1);
      } else {
        var shown := SetCurrentLine(cursor - 1);
      }
    }

    /** 'h' enters the parent directory; 'l' enters the directory under the cursor. */
    method EnterByRune(c: char)
      requires Valid() && (c == 'h' || c == 'l')
      modifies this`currentPath, this`currentList, this`cursor, this`parentPane, this`preview,
               this`indexMap, this`currentSearchIndices
      ensures Valid()
      ensures RuneRan(c) && RuneKept(c)
    {
      if c == 'l' {
        var fileName := CurrentName();
        var filePath := JoinName(currentPath, fileName);
        var info := Lookup(fs, filePath);
        if info.None? {
          return;
        }
        if info.value.Dir? {
          var entered := SetCurrentDirectory(filePath);
        }
        // a file is opened in the editor, which is not part of this model
      } else {
        var dirPath := JoinName(currentPath, "..");
        JoinDotDot(currentPath);
        var entered := SetCurrentDirectory(dirPath);
      }
    }

    /** 'r' moves one file further back into the history of opened files (the position
        grows), 'R' one file towards the newest (the position shrinks). */
    method RecallByRune(c: char)
      requires Valid() && (c == 'r' || c == 'R')
      modifies this`cycleRecentPosition, this`history, this`currentPath, this`currentList, this`cursor,
               this`parentPane, this`preview, this`indexMap, this`currentSearchIndices
      ensures Valid()
      ensures RuneRan(c) && RuneKept(c)
    {
      CycleRecent(c == 'R');
    }

    /** The remaining runes: quitting and search cycling; any other rune is unbound. */
    method OtherRune(c: char)
      requires Valid() && !(c == 'j' || c == 'k' || c == 'G' || c == 'h' || c == 'l' || c == 'r' || c == 'R' || c == 'M')
      modifies this`lastDirectory, this`stopped, this`cursor, this`preview, this`indexMap
      ensures Valid()
      ensures stopped == (old(stopped) || Stops(c))
      ensures RuneRan(c) && RuneKept(c)
    {
      if c == 'S' {
        QuitAndChangeDirectory();
      } else if c == 'q' {
        stopped := true;
      } else if c == 'n' {
        CycleSearchForward();
      } else if c == 'N' {
        CycleSearchBackward();
      }
      // '/' and ':' open the footer, whose editing is not part of this model
    }

    /** The key handler: the control keys first; any other key's rune goes to the key
        buffer, whose chord runs when it completes one and otherwise the rune's own
        binding. */
    method HandleKey(key: Chords.Key)
      requires Valid()
      modifies this`fs, this`markedFiles, this`yankedFile, this`yankedMarkedFiles, this`anchors,
               this`keyBuffer, this`cycleRecentPosition, this`history, this`lastDirectory, this`stopped,
               this`showHidden, this`currentPath, this`currentList, this`cursor, this`parentPane, this`preview,
               this`indexMap, this`currentSearchIndices
      ensures Valid()
      ensures keyBuffer == Chords.Step(old(keyBuffer), key).0
      ensures Chords.Quiet(old(keyBuffer)) ==> Chords.Quiet(keyBuffer)
      ensures stopped == (old(stopped) || (key.Rune? && Chords.Step(old(keyBuffer), key).1.None? && Stops(key.c)))
      ensures !key.Rune? ==> ControlKeyRan(key)
      ensures key.Rune? ==> showHidden == old(showHidden)
    {
      if key.Rune? {
        HandleRune(key.c);
      } else {
        assert Chords.Step(keyBuffer, key) == (keyBuffer, None);
        HandleControlKey(key);
      }
    }

    /** What a control key leaves behind: Ctrl-D and Ctrl-U scroll by ScrollAmount; Ctrl-H
        flips hidden files, shows the directory again, selects the old entry again by name
        and restores the preview's selection; none of them changes the filesystem, the
        marks, the yanks, the anchors, the history or the last directory. */
    twostate predicate ControlKeyRan(key: Chords.Key)
      requires SoundMatcher(find)
      reads this
    {
      && (key == Chords.CtrlD ==>
        Snapshot() == Lined(old(Snapshot()), old(cursor) + ScrollAmount(|old(currentList)|)).0)
      && (key == Chords.CtrlU ==>
        Snapshot() == Lined(old(Snapshot()), old(cursor) - ScrollAmount(|old(currentList)|)).0)
      && showHidden == (if key == Chords.CtrlH then !old(showHidden) else old(showHidden))
      && fs == old(fs) && markedFiles == old(markedFiles)
      && yankedFile == old(yankedFile) && yankedMarkedFiles == old(yankedMarkedFiles)
      && anchors == old(anchors) && history == old(history)
      && cycleRecentPosition == old(cycleRecentPosition) && lastDirectory == old(lastDirectory)
      && (key == Chords.CtrlH ==>
        var name := old(CurrentName());
        var e := Entered(old(Snapshot()), old(currentPath));
        var w := e.0;
        var idx := ExactItem(w.currentList, name, find(w.currentList, name), Secondary);
        Snapshot() == if !e.1 then w else RestorePreview(Lined(w, idx).0, name, PreviewSelection(old(preview)), find))
    }

    /** Ctrl-H, Ctrl-D and Ctrl-U. */
    method HandleControlKey(key: Chords.Key)
      requires Valid() && !key.Rune?
      modifies this`showHidden, this`currentPath, this`currentList, this`cursor, this`parentPane,
               this`preview, this`indexMap, this`currentSearchIndices
      ensures Valid()
      ensures ControlKeyRan(key)
    {
      if key == Chords.CtrlH {
        ToggleHiddenFiles();
      } else {
        Scroll(key);
      }
    }

    /** Ctrl-D and Ctrl-U: the cursor moves by half the list, at most MaxScrollAmount. */
    method Scroll(key: Chords.Key)
      requires Valid() && !key.Rune? && key != Chords.CtrlH
      modifies this`cursor, this`preview, this`indexMap
      ensures Valid()
      ensures ControlKeyRan(key)
    {
      var scrollAmount := |currentList| / 2;
      if scrollAmount > MaxScrollAmount {
        scrollAmount := MaxScrollAmount;
      }
      if key == Chords.CtrlD {
        var shown := SetCurrentLine(cursor + scrollAmount);
      } else {
        var shown := SetCurrentLine(cursor - scrollAmount);
      }
    }

    /** A key with a rune: the chord it completes, or else the rune's binding. */
    method HandleRune(c: char)
      requires Valid()
      modifies this`fs, this`markedFiles, this`yankedFile, this`yankedMarkedFiles, this`anchors,
               this`keyBuffer, this`cycleRecentPosition, this`history, this`lastDirectory, this`stopped,
               this`currentPath, this`currentList, this`cursor, this`parentPane, this`preview,
               this`indexMap, this`currentSearchIndices
      ensures Valid()
      ensures keyBuffer == Chords.Step(old(keyBuffer), Chords.Rune(c)).0
      ensures stopped == (old(stopped) || (Chords.Step(old(keyBuffer), Chords.Rune(c)).1.None? && Stops(c)))
    {
      var command := BufferKey(c);
      RunKey(command, c);
    }

    /** The chord the key completed, or else the rune's own binding. */
    method RunKey(command: Option<Chords.Command>, c: char)
      requires Valid()
      modifies this`fs, this`markedFiles, this`yankedFile, this`yankedMarkedFiles, this`anchors,
               this`cycleRecentPosition, this`history, this`lastDirectory, this`stopped,
               this`currentPath, this`currentList, this`cursor, this`parentPane, this`preview,
               this`indexMap, this`currentSearchIndices
      ensures Valid()
      ensures stopped == (old(stopped) || (command.None? && Stops(c)))
      ensures command.Some? ==> ChordRan(command.value)
      ensures command.Some? ==> ChordKept()
      ensures command.None? ==> RuneRan(c) && RuneKept(c)
    {
      if command.Some? {
        RunChord(command.value);
      } else {
        RunRune(c);
      }
    }

    /** The rune goes to the key buffer, which is cleared when it completes a chord. */
    method BufferKey(c: char) returns (command: Option<Chords.Command>)
      requires |keyBuffer| <= 5
      modifies this`keyBuffer
      ensures (keyBuffer, command) == Chords.Step(old(keyBuffer), Chords.Rune(c))
    {
      var buffer := keyBuffer + [c];
      if |buffer| > 5 {
        buffer := buffer[4..];
      }
      assert buffer == Chords.Buffered(old(keyBuffer), c);
      command := Chords.Recognize(buffer);
      if command.Some? {
        keyBuffer := "";
        return;
      }
      keyBuffer := buffer;
    }
  }
}
