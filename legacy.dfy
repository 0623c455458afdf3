/** The earlier copies of the explorer's helpers: the lookup and the loader of
    internal/explorer/helper.go, and the first explorer of gofileyourself.go with its
    cursor memory, its own copies of those helpers and its key bindings. Their lookup
    compares main texts and their loaders keep the directory's order. */
module Legacy {
  import opened Wrappers
  import Text
  import opened FileSystem
  import opened Listing
  import Explorer

  /** findExactItem of both files: a single match, else the first match whose main text
      is the term, else 0. */
  method FindExactMain(items: seq<ListItem>, term: string, matches: seq<int>) returns (r: int)
    requires InRange(items, matches)
    ensures r == ExactItem(items, term, matches, Main)
  {
    if |matches| == 1 {
      return matches[0];
    }
    var i := 0;
    while i < |matches|
      invariant 0 <= i <= |matches|
      invariant FirstWithText(items, term, matches, Main) == FirstWithText(items, term, matches[i..], Main)
    {
      assert matches[i..][1..] == matches[i + 1..];
      if items[matches[i]].main == term {
        return matches[i];
      }
      i := i + 1;
    }
    return 0;
  }

  /** The two lookups disagree when a main text and a secondary text collide: among the
      matches of "a" in [("a/", "a"), ("a", "b")], the helper's lookup picks the first
      item and the legacy lookup the second. */
  lemma LookupsDiffer()
    ensures var items := [ListItem("a/", "a"), ListItem("a", "b")];
      && ExactItem(items, "a", [0, 1], Secondary) == 0
      && ExactItem(items, "a", [0, 1], Main) == 1
  {
    var items := [ListItem("a/", "a"), ListItem("a", "b")];
    assert TextOf(items[0], Main) != "a";
    assert FirstWithText(items, "a", [1], Main) == 1;
    assert [0, 1][1..] == [1];
  }

  /** The items of the earlier loaders: the bare name, no secondary text. */
  function PlainItems(es: seq<Entry>): (r: seq<ListItem>)
    ensures |r| == |es|
    ensures forall k :: 0 <= k < |es| ==> r[k] == ListItem(es[k].0, "")
  {
    seq(|es|, k requires 0 <= k < |es| => ListItem(es[k].0, ""))
  }

  /** What the earlier loadDirectory returns: an error for a missing or unreadable path,
      "not a directory" (nil list, nil error) for a file, and otherwise one item per entry
      kept by the hidden-file filter, in the directory's order. */
  function PlainListing(fs: Node, p: Path, showHidden: bool): (r: Loaded)
    ensures Lookup(fs, p).None? ==> r == Failed
    ensures Lookup(fs, p).Some? && Lookup(fs, p).value.File? ==> r == NotDirectory
    ensures r.Listed? ==>
      && Lookup(fs, p).Some? && Lookup(fs, p).value.Dir? && Lookup(fs, p).value.readable
      && r.items == PlainItems(Visible(Lookup(fs, p).value.entries, showHidden))
  {
    match Lookup(fs, p)
    case None => Failed
    case Some(n) =>
      if n.File? then NotDirectory
      else if !n.readable then Failed
      else Listed(PlainItems(Visible(n.entries, showHidden)))
  }

  /** loadDirectory of internal/explorer/helper.go. */
  method LoadFiltered(fs: Node, p: Path, showHidden: bool) returns (r: Loaded)
    ensures r == PlainListing(fs, p, showHidden)
  {
    var info := Lookup(fs, p);
    if info.None? {
      return Failed;
    }
    if info.value.File? {
      return NotDirectory;
    }
    if !info.value.readable {
      return Failed;
    }
    var files := info.value.entries;
    var list := [];
    ghost var kept := [];
    var i := 0;
    while i < |files|
      invariant 0 <= i <= |files|
      invariant kept == Visible(files[..i], showHidden) && list == PlainItems(kept)
    {
      var f := files[i];
      assert files[..i + 1] == files[..i] + [f];
      VisibleSnoc(files[..i], f, showHidden);
      var fileName := f.0;
      if !showHidden && |fileName| > 0 && fileName[0] == '.' {
        i := i + 1;
        continue;
      }
      PlainItemsSnoc(kept, f);
      kept := kept + [f];
      list := list + [ListItem(fileName, "")];
      i := i + 1;
    }
    assert files[..i] == files;
    return Listed(list);
  }

  lemma PlainItemsSnoc(es: seq<Entry>, e: Entry)
    ensures PlainItems(es + [e]) == PlainItems(es) + [ListItem(e.0, "")]
  {
    assert forall k :: 0 <= k < |es| ==> (es + [e])[k] == es[k];
  }

  /** loadDirectory of gofileyourself.go, which has no hidden-file filter. */
  method LoadAll(fs: Node, p: Path) returns (r: Loaded)
    ensures r == PlainListing(fs, p, true)
  {
    var info := Lookup(fs, p);
    if info.None? {
      return Failed;
    }
    if info.value.File? {
      return NotDirectory;
    }
    if !info.value.readable {
      return Failed;
    }
    var files := info.value.entries;
    var list := [];
    var i := 0;
    while i < |files|
      invariant 0 <= i <= |files|
      invariant list == PlainItems(files[..i])
    {
      list := list + [ListItem(files[i].0, "")];
      i := i + 1;
    }
    assert files[..i] == files;
    VisibleKeeps(files, true);
    return Listed(list);
  }

  /** The names of entries, in order. */
  function Names(es: seq<Entry>): (r: seq<string>)
    ensures |r| == |es|
  {
    if |es| == 0 then [] else Names(es[..|es| - 1]) + [es[|es| - 1].0]
  }

  lemma {:induction false} NamesAt(es: seq<Entry>)
    ensures forall k :: 0 <= k < |es| ==> Names(es)[k] == es[k].0
    decreases |es|
  {
    if |es| > 0 {
      NamesAt(es[..|es| - 1]);
    }
  }

  lemma {:induction false} NamesConcat(a: seq<Entry>, b: seq<Entry>)
    ensures Names(a + b) == Names(a) + Names(b)
    decreases |b|
  {
    if |b| > 0 {
      assert (a + b)[..|a + b| - 1] == a + b[..|b| - 1];
      NamesConcat(a, b[..|b| - 1]);
    } else {
      assert a + b == a;
    }
  }

  lemma {:induction false} NamesPermutation(s: seq<Entry>, t: seq<Entry>)
    requires multiset(s) == multiset(t)
    ensures multiset(Names(s)) == multiset(Names(t))
    decreases |s|
  {
    if |s| == 0 {
      assert |multiset(t)| == 0;
      assert t == [];
    } else {
      var x := s[|s| - 1];
      var s' := s[..|s| - 1];
      assert s == s' + [x];
      assert x in multiset(t);
      var i :| 0 <= i < |t| && t[i] == x;
      var t' := t[..i] + t[i + 1..];
      assert t == t[..i] + [x] + t[i + 1..];
      assert multiset(t') == multiset(t) - multiset{x};
      assert multiset(s') == multiset(s) - multiset{x};
      NamesPermutation(s', t');
      NamesRemove(t[..i], x, t[i + 1..]);
    }
  }

  /** Taking one entry out takes its name out of the names. */
  lemma NamesRemove(u: seq<Entry>, x: Entry, v: seq<Entry>)
    ensures multiset(Names(u + [x] + v)) == multiset(Names(u + v)) + multiset{x.0}
  {
    NamesConcat(u + [x], v);
    NamesConcat(u, [x]);
    NamesConcat(u, v);
    var a, b := Names(u), Names(v);
    assert Names([x]) == [x.0];
    assert multiset(a + [x.0] + b) == multiset(a) + multiset{x.0} + multiset(b);
  }

  function MainTexts(items: seq<ListItem>): (r: seq<string>)
    ensures |r| == |items| && forall k :: 0 <= k < |items| ==> r[k] == items[k].main
  {
    seq(|items|, k requires 0 <= k < |items| => items[k].main)
  }

  function SecondaryTexts(items: seq<ListItem>): (r: seq<string>)
    ensures |r| == |items| && forall k :: 0 <= k < |items| ==> r[k] == items[k].secondary
  {
    seq(|items|, k requires 0 <= k < |items| => items[k].secondary)
  }

  /** The earlier items' main texts are the entries' names. */
  lemma PlainNames(es: seq<Entry>)
    ensures MainTexts(PlainItems(es)) == Names(es)
  {
    NamesAt(es);
  }

  /** The sorted loader's secondary texts are the entries' names. */
  lemma FlatNames(path: Path, s: seq<Entry>)
    ensures SecondaryTexts(Items(path, [], Flat([], s))) == Names(s)
  {
    FlatItems(path, [], s);
    NamesAt(s);
  }

  /** The earlier loader lists the same names as the sorted one, in the directory's
      order instead of sorted. */
  lemma SameNamesUnsorted(fs: Node, p: Path, showHidden: bool)
    requires PlainListing(fs, p, showHidden).Listed?
    ensures LoadResult(fs, p, showHidden, false, []).Listed?
    ensures multiset(MainTexts(PlainListing(fs, p, showHidden).items))
         == multiset(SecondaryTexts(LoadResult(fs, p, showHidden, false, []).items))
  {
    var v := Visible(Lookup(fs, p).value.entries, showHidden);
    FlatListing(fs, p, showHidden, []);
    var s := SortEntries(v);
    assert PlainListing(fs, p, showHidden).items == PlainItems(v);
    assert LoadResult(fs, p, showHidden, false, []).items == Items(p, [], Flat([], s));
    PlainNames(v);
    FlatNames(p, s);
    NamesPermutation(s, v);
  }

  /** The text GetItemText gives for item `i`, "" where there is none. */
  function MainAt(items: seq<ListItem>, i: int): string {
    if 0 <= i < |items| then items[i].main else ""
  }

  /** The first explorer's panes: the current directory, its list and cursor, the parent
      list, the pane of the selected entry (None while there is none), the cursor
      remembered per directory, and the header text. */
  datatype Panes = Panes(currentPath: Path, currentList: seq<ListItem>, cursor: nat,
                         parentPane: Explorer.ListView, selected: Option<Explorer.Preview>,
                         indexMap: map<Path, int>, header: string)

  predicate Cursored(v: Panes) {
    if |v.currentList| == 0 then v.cursor == 0 else v.cursor < |v.currentList|
  }

  /** updateSelectedDirectory: the listing of a directory at its remembered index, or a
      file's preview; an unreadable path changes nothing and reports an error. */
  function SelectedResult(v: Panes, fs: Node, sel: Path): (r: (Panes, bool))
    ensures r.0 == v.(selected := r.0.selected)
    ensures !r.1 <==> PlainListing(fs, sel, true).Failed?
    ensures !r.1 ==> r.0 == v
    ensures r.1 && Lookup(fs, sel).value.File? ==> r.0.selected == Some(Explorer.FilePreview(sel))
    ensures r.1 && Lookup(fs, sel).value.Dir? ==>
      var items := PlainListing(fs, sel, true).items;
      r.0.selected == Some(Explorer.DirectoryPreview(Explorer.ListView(items, Clip(Explorer.Remembered(v.indexMap, sel), |items|))))
  {
    match PlainListing(fs, sel, true)
    case Failed => (v, false)
    case NotDirectory => (v.(selected := Some(Explorer.FilePreview(sel))), true)
    case Listed(items) =>
      (v.(selected := Some(Explorer.DirectoryPreview(Explorer.ListView(items, Clip(Explorer.Remembered(v.indexMap, sel), |items|))))), true)
  }

  /** The parent pane of changeCurrentDirectory: empty at the root; otherwise the parent's
      listing with the directory's own entry selected, that index remembered for the
      parent. An unreadable parent changes nothing and reports an error. */
  function ParentResult(v: Panes, fs: Node, find: Matcher, path: Path): (r: (Panes, bool))
    requires SoundMatcher(find)
    ensures r.0 == v.(parentPane := r.0.parentPane, indexMap := r.0.indexMap)
    ensures path == [] ==> r == (v.(parentPane := Explorer.ListView([], 0)), true)
    ensures path != [] && r.1 ==>
      && PlainListing(fs, Parent(path), true).Listed?
      && var items := PlainListing(fs, Parent(path), true).items;
      var b := Base(path);
      var i := ExactItem(items, b, find(items, b), Main);
      && r.0.indexMap == v.indexMap[Parent(path) := i]
      && r.0.parentPane == Explorer.ListView(items, Clip(i, |items|))
    ensures path != [] && !r.1 ==> r.0 == v && !PlainListing(fs, Parent(path), true).Listed?
  {
    if path == [] then (v.(parentPane := Explorer.ListView([], 0)), true)
    else match PlainListing(fs, Parent(path), true)
      case Listed(items) =>
        var b := Base(path);
        var i := ExactItem(items, b, find(items, b), Main);
        (v.(indexMap := v.indexMap[Parent(path) := i], parentPane := Explorer.ListView(items, Clip(i, |items|))), true)
      case _ => (v, false)
  }

  /** changeCurrentDirectory: the new list at its remembered index, then the parent pane,
      then the selected entry's pane, then the header and the path. Each step that fails
      returns with the steps before it done; a target that cannot be listed changes
      nothing. */
  function ChangeResult(v: Panes, fs: Node, find: Matcher, path: Path): (r: (Panes, bool))
    requires SoundMatcher(find)
    ensures Cursored(v) ==> Cursored(r.0)
    ensures !PlainListing(fs, path, true).Listed? ==> r == (v, false)
    ensures !r.1 ==> r.0.currentPath == v.currentPath
    ensures r.1 ==>
      && PlainListing(fs, path, true).Listed?
      && r.0.currentPath == path && r.0.header == PathString(path)
      && r.0.currentList == PlainListing(fs, path, true).items
      && r.0.cursor == Clip(Explorer.Remembered(v.indexMap, path), |r.0.currentList|)
      && (path == [] ==> r.0.parentPane == Explorer.ListView([], 0) && r.0.indexMap == v.indexMap)
      && (path != [] ==> Parent(path) in r.0.indexMap
                         && r.0.parentPane.current == Clip(r.0.indexMap[Parent(path)], |r.0.parentPane.items|))
    ensures r.1 && path != [] ==>
      PlainListing(fs, Parent(path), true).Listed? &&
      var pitems := PlainListing(fs, Parent(path), true).items;
      var b := Base(path);
      && r.0.parentPane.items == pitems
      && r.0.indexMap[Parent(path)] == ExactItem(pitems, b, find(pitems, b), Main)
    ensures r.1 ==>
      var sel := JoinName(path, MainAt(r.0.currentList, Explorer.Remembered(v.indexMap, path)));
      && !PlainListing(fs, sel, true).Failed?
      && r.0.selected == SelectedResult(r.0, fs, sel).0.selected
    ensures forall p :: p !in {Parent(path)} || path == [] ==>
      Explorer.Remembered(r.0.indexMap, p) == Explorer.Remembered(v.indexMap, p)
  {
    match PlainListing(fs, path, true)
    case Listed(items) =>
      var idx := Explorer.Remembered(v.indexMap, path);
      var w := v.(currentList := items, cursor := Clip(idx, |items|));
      var (w2, ok2) := ParentResult(w, fs, find, path);
      if !ok2 then (w2, false)
      else
        var (w3, ok3) := SelectedResult(w2, fs, JoinName(path, MainAt(items, idx)));
        if !ok3 then (w3, false)
        else (w3.(header := PathString(path), currentPath := path), true)
    case _ => (v, false)
  }

  /** updateCurrentLine: an index outside the list changes nothing; otherwise it becomes
      the cursor, is remembered for the current directory, and the entry's pane is
      shown. */
  function LineResult(v: Panes, fs: Node, lineIndex: int): (r: (Panes, bool))
    ensures !(0 <= lineIndex < |v.currentList|) ==> r == (v, true)
    ensures 0 <= lineIndex < |v.currentList| ==>
      && r.0.cursor == lineIndex
      && r.0.indexMap == v.indexMap[v.currentPath := lineIndex]
      && r.0 == v.(cursor := lineIndex, indexMap := r.0.indexMap, selected := r.0.selected)
    ensures 0 <= lineIndex < |v.currentList| ==>
      var w := v.(cursor := lineIndex, indexMap := v.indexMap[v.currentPath := lineIndex]);
      var sel := JoinName(v.currentPath, v.currentList[lineIndex].main);
      && (r.1 <==> !PlainListing(fs, sel, true).Failed?)
      && r.0.selected == SelectedResult(w, fs, sel).0.selected
  {
    if lineIndex < 0 || lineIndex >= |v.currentList| then (v, true)
    else
      var w := v.(cursor := lineIndex, indexMap := v.indexMap[v.currentPath := lineIndex]);
      SelectedResult(w, fs, JoinName(v.currentPath, MainAt(v.currentList, lineIndex)))
  }

  /** Leaving a directory for one that is not its child and coming back lists it at the
      line last chosen there, when its listing has not changed. */
  lemma ReturnRestoresLine(v: Panes, fs: Node, find: Matcher, lineIndex: int, elsewhere: Path)
    requires SoundMatcher(find)
    requires 0 <= lineIndex < |v.currentList|
    requires PlainListing(fs, v.currentPath, true) == Listed(v.currentList)
    requires elsewhere == [] || Parent(elsewhere) != v.currentPath
    ensures var w := LineResult(v, fs, lineIndex).0;
      var u := ChangeResult(w, fs, find, elsewhere).0;
      var back := ChangeResult(u, fs, find, v.currentPath);
      back.1 ==> back.0.cursor == lineIndex
  {
    var w := LineResult(v, fs, lineIndex).0;
    var u := ChangeResult(w, fs, find, elsewhere).0;
    assert Explorer.Remembered(w.indexMap, v.currentPath) == lineIndex;
    assert v.currentPath !in {Parent(elsewhere)} || elsewhere == [];
    assert Explorer.Remembered(u.indexMap, v.currentPath) == lineIndex;
  }

  /** initialize: the working directory's list from its first line, the parent listed
      with the directory's own entry selected and that index remembered for the parent,
      the first entry's listing beside them when it is a directory (nothing when it is a
      file), and the header. It stops at the first load that fails. */
  function InitResult(v: Panes, fs: Node, find: Matcher): (r: (Panes, bool))
    requires SoundMatcher(find)
    ensures Cursored(r.0) || r.0 == v
    ensures r.0.currentPath == v.currentPath
    ensures r.1 ==>
      && PlainListing(fs, v.currentPath, true).Listed?
      && r.0.currentList == PlainListing(fs, v.currentPath, true).items && r.0.cursor == 0
      && PlainListing(fs, Parent(v.currentPath), true).Listed?
      && var items := PlainListing(fs, Parent(v.currentPath), true).items;
         var b := Base(v.currentPath);
         var i := ExactItem(items, b, find(items, b), Main);
         && r.0.parentPane == Explorer.ListView(items, Clip(i, |items|))
         && r.0.indexMap == v.indexMap[Parent(v.currentPath) := i]
         && r.0.header == PathString(v.currentPath)
         && var first := PlainListing(fs, JoinName(v.currentPath, MainAt(r.0.currentList, 0)), true);
            && !first.Failed?
            && r.0.selected == (if first.Listed? then Some(Explorer.DirectoryPreview(Explorer.ListView(first.items, 0))) else None)
  {
    match PlainListing(fs, v.currentPath, true)
    case Listed(items) =>
      var w := v.(currentList := items, cursor := 0);
      var (w2, ok) := InitParent(w, fs, find);
      if !ok then (w2, false) else InitSelected(w2, fs)
    case _ => (v, false)
  }

  /** initialize's parent pane: the directory's own entry selected and remembered. */
  function InitParent(w: Panes, fs: Node, find: Matcher): (r: (Panes, bool))
    requires SoundMatcher(find)
  {
    var pp := Parent(w.currentPath);
    match PlainListing(fs, pp, true)
    case Listed(pitems) =>
      var b := Base(w.currentPath);
      var i := ExactItem(pitems, b, find(pitems, b), Main);
      (w.(parentPane := Explorer.ListView(pitems, Clip(i, |pitems|)), indexMap := w.indexMap[pp := i]), true)
    case _ => (w, false)
  }

  /** initialize's pane beside the list: the first entry's listing, or nothing. */
  function InitSelected(w: Panes, fs: Node): (r: (Panes, bool))
  {
    var first := PlainListing(fs, JoinName(w.currentPath, MainAt(w.currentList, 0)), true);
    if first.Failed? then (w, false)
    else
      (w.(selected := if first.Listed? then Some(Explorer.DirectoryPreview(Explorer.ListView(first.items, 0))) else None,
          header := PathString(w.currentPath)), true)
  }

  /** The key of a rune the first explorer handles: moving, quitting, entering, going up
      and opening the footer; other runes are passed on. */
  /** What the `l` binding leaves: the directory under the cursor entered, a file or a
      missing name leaving the panes alone, handled unless the name could not be looked up. */
  function Entering(v: Panes, fs: Node, find: Matcher): (Panes, bool)
    requires SoundMatcher(find)
  {
    var path := JoinName(v.currentPath, MainAt(v.currentList, v.cursor));
    match Lookup(fs, path)
    case None => (v, false)
    case Some(n) => if n.Dir? then ChangeResult(v, fs, find, path) else (v, true)
  }

  predicate Handled(c: char) {
    c == 'j' || c == 'k' || c == 'q' || c == 'l' || c == 'h' || c == '/' || c == ':'
  }

  class FileExplorer {
    const fs: Node
    /** The list widget's FindItems. */
    const find: Matcher
    var currentPath: Path
    var currentList: seq<ListItem>
    var cursor: nat
    var parentPane: Explorer.ListView
    var selected: Option<Explorer.Preview>
    var indexMap: map<Path, int>
    var header: string
    var stopped: bool

    ghost predicate Valid()
      reads this`currentPath, this`currentList, this`cursor, this`parentPane, this`selected, this`indexMap,
               this`header
    {
      SoundMatcher(find) && Cursored(Snapshot())
    }

    ghost function Snapshot(): Panes
      reads this`currentPath, this`currentList, this`cursor, this`parentPane, this`selected, this`indexMap,
               this`header
    {
      Panes(currentPath, currentList, cursor, parentPane, selected, indexMap, header)
    }

    /** NewFileExplorer's struct: the working directory, an empty index map, nothing
        listed yet. */
    constructor (fs: Node, find: Matcher, cwd: Path)
      requires SoundMatcher(find)
      ensures Valid()
      ensures this.fs == fs && this.find == find && !stopped
      ensures Snapshot() == Panes(cwd, [], 0, Explorer.ListView([], 0), None, map[], "")
    {
      this.fs := fs;
      this.find := find;
      currentPath := cwd;
      currentList := [];
      cursor := 0;
      parentPane := Explorer.ListView([], 0);
      selected := None;
      indexMap := map[];
      header := "";
      stopped := false;
    }

    /** initialize. */
    method Initialize() returns (ok: bool)
      requires Valid()
      modifies this`currentList, this`cursor, this`parentPane, this`selected, this`indexMap, this`header
      ensures Valid()
      ensures (Snapshot(), ok) == InitResult(old(Snapshot()), fs, find)
    {
      ghost var v := Snapshot();
      var loaded := LoadAll(fs, currentPath);
      if !loaded.Listed? {
        return false;
      }
      currentList := loaded.items;
      cursor := 0;
      ok := LoadParentPane();
      if !ok {
        return;
      }
      ok := LoadSelectedPane();
    }

    /** initialize's parent pane. */
    method LoadParentPane() returns (ok: bool)
      requires Valid()
      modifies this`parentPane, this`indexMap
      ensures Valid()
      ensures (Snapshot(), ok) == InitParent(old(Snapshot()), fs, find)
    {
      var parentPath := Parent(currentPath);
      var newParentList := LoadAll(fs, parentPath);
      if !newParentList.Listed? {
        return false;
      }
      var parentItems := newParentList.items;
      var b := Base(currentPath);
      var parentDirectoryIndex := FindExactMain(parentItems, b, find(parentItems, b));
      parentPane := Explorer.ListView(parentItems, Clip(parentDirectoryIndex, |parentItems|));
      indexMap := indexMap[parentPath := parentDirectoryIndex];
      return true;
    }

    /** initialize's pane beside the list, and the header. */
    method LoadSelectedPane() returns (ok: bool)
      requires Valid()
      modifies this`selected, this`header
      ensures Valid()
      ensures (Snapshot(), ok) == InitSelected(old(Snapshot()), fs)
    {
      var selectedName := MainAt(currentList, 0);
      var first := LoadAll(fs, JoinName(currentPath, selectedName));
      if first.Failed? {
        return false;
      }
      selected := if first.Listed? then Some(Explorer.DirectoryPreview(Explorer.ListView(first.items, 0))) else None;
      header := PathString(currentPath);
      return true;
    }

    /** updateSelectedDirectory. */
    method UpdateSelectedDirectory(selectedPath: Path) returns (ok: bool)
      requires Valid()
      modifies this`selected
      ensures Valid()
      ensures (Snapshot(), ok) == SelectedResult(old(Snapshot()), fs, selectedPath)
    {
      var selectedDirectoryIndex := Explorer.Remembered(indexMap, selectedPath);
      var newSelectedList := LoadAll(fs, selectedPath);
      match newSelectedList
      case Failed =>
        return false;
      case NotDirectory =>
        selected := Some(Explorer.FilePreview(selectedPath));
        return true;
      case Listed(items) =>
        selected := Some(Explorer.DirectoryPreview(Explorer.ListView(items, Clip(selectedDirectoryIndex, |items|))));
        return true;
    }

    /** changeCurrentDirectory. */
    method ChangeCurrentDirectory(path: Path) returns (ok: bool)
      requires Valid()
      modifies this`currentPath, this`currentList, this`cursor, this`parentPane, this`selected,
               this`indexMap, this`header
      ensures Valid()
      ensures (Snapshot(), ok) == ChangeResult(old(Snapshot()), fs, find, path)
    {
      ghost var v := Snapshot();
      var currentDirectoryIndex := Explorer.Remembered(indexMap, path);
      var newCurrentList := LoadAll(fs, path);
      if !newCurrentList.Listed? {
        return false;
      }
      currentList := newCurrentList.items;
      cursor := Clip(currentDirectoryIndex, |currentList|);
      ghost var w := Snapshot();
      assert w == v.(currentList := newCurrentList.items, cursor := Clip(currentDirectoryIndex, |currentList|));
      ok := UpdateParent(path);
      ghost var w2 := Snapshot();
      assert (w2, ok) == ParentResult(w, fs, find, path);
      if !ok {
        return;
      }
      var selectedName := MainAt(currentList, currentDirectoryIndex);
      ok := UpdateSelectedDirectory(JoinName(path, selectedName));
      ghost var w3 := Snapshot();
      assert (w3, ok) == SelectedResult(w2, fs, JoinName(path, MainAt(newCurrentList.items, currentDirectoryIndex)));
      if !ok {
        return;
      }
      header := PathString(path);
      currentPath := path;
      assert Snapshot() == w3.(header := PathString(path), currentPath := path);
    }

    /** The parent pane's part of changeCurrentDirectory. */
    method UpdateParent(path: Path) returns (ok: bool)
      requires Valid()
      modifies this`parentPane, this`indexMap
      ensures Valid()
      ensures (Snapshot(), ok) == ParentResult(old(Snapshot()), fs, find, path)
    {
      if path == [] {
        parentPane := Explorer.ListView([], 0);
        return true;
      }
      var parentPath := Parent(path);
      var newParentList := LoadAll(fs, parentPath);
      if !newParentList.Listed? {
        return false;
      }
      var items := newParentList.items;
      var b := Base(path);
      var parentDirectoryIndex := FindExactMain(items, b, find(items, b));
      indexMap := indexMap[parentPath := parentDirectoryIndex];
      parentPane := Explorer.ListView(items, Clip(parentDirectoryIndex, |items|));
      return true;
    }

    /** updateCurrentLine. */
    method UpdateCurrentLine(lineIndex: int) returns (ok: bool)
      requires Valid()
      modifies this`cursor, this`indexMap, this`selected
      ensures Valid()
      ensures (Snapshot(), ok) == LineResult(old(Snapshot()), fs, lineIndex)
    {
      if lineIndex < 0 || lineIndex >= |currentList| {
        return true;
      }
      cursor := lineIndex;
      indexMap := indexMap[currentPath := lineIndex];
      var selectedName := MainAt(currentList, lineIndex);
      ok := UpdateSelectedDirectory(JoinName(currentPath, selectedName));
    }

    /** runFooterCommand: "/term" moves to the first item FindItems reports, ":q" quits. */
    method RunFooterCommand(inputText: string)
      requires Valid() && |inputText| > 0
      modifies this`cursor, this`indexMap, this`selected, this`stopped
      ensures Valid()
      ensures var hits := find(currentList, inputText[1..]);
        if inputText[0] == '/' && |hits| > 0 then Snapshot() == LineResult(old(Snapshot()), fs, hits[0]).0
        else Snapshot() == old(Snapshot())
      ensures stopped == (old(stopped) || inputText == ":q")
    {
      match inputText[0]
      case '/' =>
        var searchTerm := inputText[1..];
        var matchingIndeces := find(currentList, searchTerm);
        if |matchingIndeces| > 0 {
          var ok := UpdateCurrentLine(matchingIndeces[0]);
        }
      case ':' =>
        var command := inputText[1..];
        if command == "q" {
          stopped := true;
        }
      case _ =>
    }

    /** The `l` binding: a directory under the cursor is entered; a file is left to the
        editor (handled, nothing changes); a name that cannot be looked up is passed on. */
    method EnterUnderCursor() returns (handled: bool)
      requires Valid()
      modifies this`currentPath, this`currentList, this`cursor, this`parentPane, this`selected,
               this`indexMap, this`header
      ensures Valid()
      ensures (Snapshot(), handled) == Entering(old(Snapshot()), fs, find)
    {
      var fileName := MainAt(currentList, cursor);
      var filePath := JoinName(currentPath, fileName);
      var fileInfo := Lookup(fs, filePath);
      if fileInfo.None? {
        return false;
      }
      if fileInfo.value.Dir? {
        handled := ChangeCurrentDirectory(filePath);
        return;
      }
      return true;
    }

    /** The `h` binding: the parent directory becomes current. */
    method GoUp() returns (handled: bool)
      requires Valid()
      modifies this`currentPath, this`currentList, this`cursor, this`parentPane, this`selected,
               this`indexMap, this`header
      ensures Valid()
      ensures (Snapshot(), handled) == ChangeResult(old(Snapshot()), fs, find, Parent(old(currentPath)))
    {
      var dirPath := JoinName(currentPath, "..");
      JoinDotDot(currentPath);
      handled := ChangeCurrentDirectory(dirPath);
    }

    /** setupKeyBindings: j and k move through updateCurrentLine, q quits, l enters the
        directory under the cursor, h goes up. A key whose step fails is passed on, as is
        every rune without a binding. A file under the cursor is opened in the editor and
        "/" and ":" open the footer, which are not part of this model. */
    method HandleRune(c: char) returns (handled: bool)
      requires Valid()
      modifies this`currentPath, this`currentList, this`cursor, this`parentPane, this`selected,
               this`indexMap, this`header, this`stopped
      ensures Valid()
      ensures stopped == (old(stopped) || c == 'q')
      ensures !Handled(c) ==> !handled && Snapshot() == old(Snapshot())
      ensures c == 'j' ==> handled && Snapshot() == LineResult(old(Snapshot()), fs, old(cursor) + 1).0
      ensures c == 'k' ==> handled && Snapshot() == LineResult(old(Snapshot()), fs, old(cursor) - 1).0
      ensures c == 'h' ==> (Snapshot(), handled) == ChangeResult(old(Snapshot()), fs, find, Parent(old(currentPath)))
      ensures c == 'l' ==> (Snapshot(), handled) == Entering(old(Snapshot()), fs, find)
      ensures (c == 'q' || c == '/' || c == ':') ==> handled && Snapshot() == old(Snapshot())
    {
      match c
      case 'j' =>
        var ok := UpdateCurrentLine(cursor + 1);
        return true;
      case 'k' =>
        var ok := UpdateCurrentLine(cursor - 1);
        return true;
      case 'q' =>
        stopped := true;
        return true;
      case 'l' =>
        handled := EnterUnderCursor();
      case 'h' =>
        handled := GoUp();
      case '/' =>
        return true;
      case ':' =>
        return true;
      case _ =>
        return false;
    }
  }
}
