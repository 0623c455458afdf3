/** The finder of internal/finder/finder.go: the whole tree below the current directory
    as one list, filtered and ordered by the fuzzy rank of the query typed in the footer,
    with a preview of the selected entry. The rank is a parameter. */
module Finder {
  import opened Wrappers
  import Text
  import opened FileSystem
  import opened Listing
  import Explorer

  /** fuzzy.RankMatch(source, target): how well the query matches the target, -1 when
      it does not match at all. */
  type Ranker = (string, string) -> int

  /** An item of the list with its position and the rank of its secondary text. */
  datatype RankedItem = RankedItem(index: int, rank: int, displayText: string, text: string)

  /** The collecting loop's items: every list item, ranked on its secondary text. */
  function Ranked(list: seq<ListItem>, query: string, rank: Ranker): (r: seq<RankedItem>)
    ensures |r| == |list|
    ensures forall i :: 0 <= i < |list| ==>
      r[i] == RankedItem(i, rank(query, list[i].secondary), list[i].main, list[i].secondary)
  {
    seq(|list|, i requires 0 <= i < |list| =>
      RankedItem(i, rank(query, list[i].secondary), list[i].main, list[i].secondary))
  }

  /** The items ranked on their own text for the query. */
  predicate RankedOn(s: seq<RankedItem>, query: string, rank: Ranker) {
    forall x :: x in s ==> x.rank == rank(query, x.text)
  }

  /** The rebuilt list: the items ranked above -1 as (display, text) pairs, in order. */
  function Shown(s: seq<RankedItem>): (r: seq<ListItem>)
    ensures |r| <= |s|
  {
    if |s| == 0 then []
    else
      var last := s[|s| - 1];
      Shown(s[..|s| - 1]) + (if last.rank > -1 then [ListItem(last.displayText, last.text)] else [])
  }

  /** Every rebuilt item comes from an item of the ranked items ranked above -1. */
  lemma {:induction false} ShownFrom(s: seq<RankedItem>)
    ensures forall y :: y in Shown(s) ==> exists x :: x in s && x.rank > -1 && y == ListItem(x.displayText, x.text)
    decreases |s|
  {
    if |s| > 0 {
      ShownFrom(s[..|s| - 1]);
      assert forall x :: x in s[..|s| - 1] ==> x in s;
    }
  }

  /** The items of the list the query matches, in list order. */
  function Matching(list: seq<ListItem>, query: string, rank: Ranker): (r: seq<ListItem>)
    ensures |r| <= |list|
    ensures forall y :: y in r <==> y in list && rank(query, y.secondary) > -1
  {
    if |list| == 0 then []
    else
      var last := list[|list| - 1];
      assert list == list[..|list| - 1] + [last];
      Matching(list[..|list| - 1], query, rank) + (if rank(query, last.secondary) > -1 then [last] else [])
  }

  /** Ranks that never increase along the sequence. */
  predicate Descending(s: seq<RankedItem>) {
    forall i, j :: 0 <= i < j < |s| ==> s[i].rank >= s[j].rank
  }

  /** The finder's list is ordered by rank, highest first. */
  predicate RanksDescending(list: seq<ListItem>, query: string, rank: Ranker) {
    forall i, j :: 0 <= i < j < |list| ==> rank(query, list[i].secondary) >= rank(query, list[j].secondary)
  }

  lemma {:induction false} ShownConcat(a: seq<RankedItem>, b: seq<RankedItem>)
    ensures Shown(a + b) == Shown(a) + Shown(b)
    decreases |b|
  {
    if |b| > 0 {
      var b' := b[..|b| - 1];
      assert (a + b)[..|a + b| - 1] == a + b';
      ShownConcat(a, b');
    } else {
      assert a + b == a;
    }
  }

  /** Filtering the ranked list keeps exactly the matching items, in list order. */
  lemma {:induction false} ShownRanked(list: seq<ListItem>, query: string, rank: Ranker)
    ensures Shown(Ranked(list, query, rank)) == Matching(list, query, rank)
    decreases |list|
  {
    if |list| > 0 {
      var init := list[..|list| - 1];
      var r := Ranked(list, query, rank);
      assert r[..|r| - 1] == Ranked(init, query, rank);
      ShownRanked(init, query, rank);
    }
  }

  /** Taking one item out of the ranked items takes its rebuilt item (if any) out of
      the rebuilt list. */
  lemma ShownRemove(u: seq<RankedItem>, x: RankedItem, v: seq<RankedItem>)
    ensures multiset(Shown(u + [x] + v)) == multiset(Shown(u + v)) + multiset(Shown([x]))
  {
    ShownConcat(u + [x], v);
    ShownConcat(u, [x]);
    ShownConcat(u, v);
    var a, m, b := Shown(u), Shown([x]), Shown(v);
    assert multiset(a + m + b) == multiset(a) + multiset(m) + multiset(b);
  }

  /** Reordering the ranked items reorders the rebuilt list the same way. */
  lemma {:induction false} ShownPermutation(s: seq<RankedItem>, t: seq<RankedItem>)
    requires multiset(s) == multiset(t)
    ensures multiset(Shown(s)) == multiset(Shown(t))
    decreases |s|
  {
    if |s| == 0 {
      assert |multiset(t)| == 0;
      assert t == [];
    } else {
      var x := s[|s| - 1];
      var s' := s[..|s| - 1];
      assert s == s' + [x];
      assert x in multiset(t);
      var i :| 0 <= i < |t| && t[i] == x;
      var t' := t[..i] + t[i + 1..];
      assert t == t[..i] + [x] + t[i + 1..];
      assert multiset(t') == multiset(t) - multiset{x};
      ShownPermutation(s', t');
      ShownConcat(s', [x]);
      ShownRemove(t[..i], x, t[i + 1..]);
    }
  }

  /** Filtering a list sorted by rank keeps it sorted, stated on the texts' ranks. */
  lemma {:induction false} ShownDescending(s: seq<RankedItem>, query: string, rank: Ranker)
    requires Descending(s) && RankedOn(s, query, rank)
    ensures RanksDescending(Shown(s), query, rank)
    decreases |s|
  {
    if |s| > 0 {
      var last := s[|s| - 1];
      var init := s[..|s| - 1];
      assert Descending(init) && RankedOn(init, query, rank);
      ShownDescending(init, query, rank);
      var rest := Shown(init);
      ShownFrom(init);
      if last.rank > -1 {
        forall y | y in rest ensures rank(query, y.secondary) >= rank(query, last.text) {
          var x :| x in init && x.rank > -1 && y == ListItem(x.displayText, x.text);
          var k :| 0 <= k < |init| && init[k] == x;
          assert s[k] == x;
        }
        var r := rest + [ListItem(last.displayText, last.text)];
        forall i, j | 0 <= i < j < |r| ensures rank(query, r[i].secondary) >= rank(query, r[j].secondary) {
          if j == |r| - 1 {
            assert r[i] in rest;
          }
        }
      }
    }
  }

  /** The outcome of fuzzySearch on a list: the items the query matches, each carried over
      unchanged and each once, ordered by rank, highest first; items of equal rank may come
      in any order. */
  predicate SearchedFrom(result: seq<ListItem>, list: seq<ListItem>, query: string, rank: Ranker)
    ensures SearchedFrom(result, list, query, rank) ==> |result| <= |list|
  {
    assert |multiset(result)| == |result|;
    assert |multiset(Matching(list, query, rank))| == |Matching(list, query, rank)|;
    && multiset(result) == multiset(Matching(list, query, rank))
    && RanksDescending(result, query, rank)
  }

  /** Every item of a search's outcome is an item of the list the query matches. */
  lemma SearchedItems(result: seq<ListItem>, list: seq<ListItem>, query: string, rank: Ranker)
    requires SearchedFrom(result, list, query, rank)
    ensures forall y :: y in result <==> y in list && rank(query, y.secondary) > -1
  {
    forall y ensures y in result <==> y in multiset(Matching(list, query, rank)) {
      assert y in result <==> y in multiset(result);
    }
  }

  /** The ranks of s[lo..hi] never increase. */
  ghost predicate DescendingBetween(s: seq<RankedItem>, lo: int, hi: int)
    requires 0 <= lo <= hi <= |s|
  {
    forall k, m :: lo <= k < m < hi ==> s[k].rank >= s[m].rank
  }

  /** The state of one insertion pass: s[j] is the item moving left, everything else
      of s[..i + 1] is in order, and nothing left of j ranks below anything right of j. */
  ghost predicate Inserting(s: seq<RankedItem>, j: int, i: int) {
    && 0 <= j <= i < |s|
    && DescendingBetween(s, 0, j) && DescendingBetween(s, j, i + 1)
    && forall k, m :: 0 <= k < j < m <= i ==> s[k].rank >= s[m].rank
  }

  /** Exchanging the moving item with a smaller left neighbour moves the pass one place left. */
  lemma InsertingStep(s: seq<RankedItem>, j: int, i: int)
    requires Inserting(s, j, i) && j > 0 && s[j - 1].rank < s[j].rank
    ensures Inserting(s[j - 1 := s[j]][j := s[j - 1]], j - 1, i)
  {
    var t := s[j - 1 := s[j]][j := s[j - 1]];
    forall k, m | j - 1 <= k < m <= i ensures t[k].rank >= t[m].rank {
      if k == j - 1 && m > j {
        assert t[k] == s[j] && t[m] == s[m];
      }
    }
  }

  /** The pass ends in order once the moving item meets a left neighbour of no smaller rank. */
  lemma InsertingDone(s: seq<RankedItem>, j: int, i: int)
    requires Inserting(s, j, i) && (j == 0 || s[j - 1].rank >= s[j].rank)
    ensures DescendingBetween(s, 0, i + 1)
  {
    forall k, m | 0 <= k < m <= i ensures s[k].rank >= s[m].rank {
      if k < j - 1 && m == j {
        assert s[k].rank >= s[j - 1].rank;
      }
    }
  }

  /** sort.Slice by descending rank, as an in-place insertion sort. */
  method SortByRank(a: array<RankedItem>)
    modifies a
    ensures Descending(a[..])
    ensures multiset(a[..]) == multiset(old(a[..]))
  {
    var i := 0;
    while i < a.Length
      invariant 0 <= i <= a.Length
      invariant DescendingBetween(a[..], 0, i)
      invariant multiset(a[..]) == multiset(old(a[..]))
    {
      InsertLast(a, i);
      i := i + 1;
    }
  }

  /** One pass of the insertion sort: a[i] moves left past every smaller rank. */
  method InsertLast(a: array<RankedItem>, i: int)
    requires 0 <= i < a.Length && DescendingBetween(a[..], 0, i)
    modifies a
    ensures DescendingBetween(a[..], 0, i + 1)
    ensures multiset(a[..]) == multiset(old(a[..]))
  {
    var j := i;
    while j > 0 && a[j - 1].rank < a[j].rank
      invariant Inserting(a[..], j, i)
      invariant multiset(a[..]) == multiset(old(a[..]))
    {
      InsertingStep(a[..], j, i);
      Swap(a, j);
      j := j - 1;
    }
    InsertingDone(a[..], j, i);
  }

  /** Exchange a[j - 1] and a[j]. */
  method Swap(a: array<RankedItem>, j: int)
    requires 0 < j < a.Length
    modifies a
    ensures a[..] == old(a[..])[j - 1 := old(a[j])][j := old(a[j - 1])]
    ensures multiset(a[..]) == multiset(old(a[..]))
  {
    a[j - 1], a[j] := a[j], a[j - 1];
  }

  /** An array of every item with its rank on its secondary text, in list order. */
  method RankAll(list: seq<ListItem>, text: string, rank: Ranker) returns (items: array<RankedItem>)
    ensures fresh(items) && items[..] == Ranked(list, text, rank)
  {
    items := new RankedItem[|list|];
    var i := 0;
    while i < |list|
      invariant 0 <= i <= |list| && items.Length == |list|
      invariant items[..i] == Ranked(list, text, rank)[..i]
    {
      var itemDisplayName, itemName := list[i].main, list[i].secondary;
      items[i] := RankedItem(i, rank(text, itemName), itemDisplayName, itemName);
      assert items[..i + 1] == items[..i] + [items[i]];
      i := i + 1;
    }
    assert items[..] == items[..i];
  }

  /** The items ranked above -1 rebuilt as list items, in array order. */
  method KeepRanked(items: array<RankedItem>) returns (r: seq<ListItem>)
    ensures r == Shown(items[..])
  {
    r := [];
    var i := 0;
    while i < items.Length
      invariant 0 <= i <= items.Length
      invariant Shown(items[..i]) == r
    {
      assert items[..i + 1][..i] == items[..i];
      if items[i].rank > -1 {
        r := r + [ListItem(items[i].displayText, items[i].text)];
      }
      i := i + 1;
    }
    assert items[..i] == items[..];
  }

  /** A rank-sorted permutation of the ranked list, filtered, is a search's outcome. */
  lemma SortedShown(sorted: seq<RankedItem>, list: seq<ListItem>, text: string, rank: Ranker)
    requires multiset(sorted) == multiset(Ranked(list, text, rank)) && Descending(sorted)
    ensures SearchedFrom(Shown(sorted), list, text, rank)
  {
    var ranked := Ranked(list, text, rank);
    ShownPermutation(sorted, ranked);
    ShownRanked(list, text, rank);
    assert RankedOn(sorted, text, rank) by {
      forall x | x in sorted ensures x.rank == rank(text, x.text) {
        assert x in multiset(ranked);
      }
    }
    ShownDescending(sorted, text, rank);
  }

  /** The ranking and ordering of fuzzySearch: every item is ranked on its secondary
      text, the ranked items are sorted by rank, highest first, and those ranked above -1
      are kept. */
  method SearchOrder(list: seq<ListItem>, text: string, rank: Ranker) returns (r: seq<ListItem>)
    ensures SearchedFrom(r, list, text, rank)
  {
    var items := RankAll(list, text, rank);
    SortByRank(items);
    r := KeepRanked(items);
    SortedShown(items[..], list, text, rank);
  }

  /** What setCurrentLine leaves: an index outside the list changes nothing; otherwise
      the index becomes current and the preview shows its entry, unless that entry cannot
      be read, which keeps the preview and reports the error. */
  function LineResult(fs: Node, root: Path, showHidden: bool, list: seq<ListItem>, current: nat,
                      preview: Explorer.Preview, lineIndex: int): (r: (nat, Explorer.Preview, bool))
    ensures !(0 <= lineIndex < |list|) ==> r == (current, preview, true)
    ensures 0 <= lineIndex < |list| ==>
      var sel := JoinName(root, list[lineIndex].secondary);
      && r.0 == lineIndex
      && (IsDirectoryEmpty(fs, sel) ==> r.1 == Explorer.EmptyDirectory && r.2)
      && (!IsDirectoryEmpty(fs, sel) && LoadResult(fs, sel, showHidden, false, []).Listed? ==>
            var items := LoadResult(fs, sel, showHidden, false, []).items;
            r.1 == Explorer.DirectoryPreview(Explorer.ListView(items, 0)) && r.2)
      && (!IsDirectoryEmpty(fs, sel) && LoadResult(fs, sel, showHidden, false, []).NotDirectory? ==>
            r.1 == Explorer.FilePreview(sel) && r.2)
      && (!r.2 <==> !IsDirectoryEmpty(fs, sel) && LoadResult(fs, sel, showHidden, false, []).Failed?)
      && (!r.2 ==> r.1 == preview)
  {
    if lineIndex < 0 || lineIndex >= |list| then (current, preview, true)
    else
      var p := Explorer.PreviewOf(fs, JoinName(root, list[lineIndex].secondary), showHidden, [], map[]);
      (lineIndex, p.GetOr(preview), p.Some?)
  }

  /** What resetFileList leaves: the recursive listing of the directory, with nothing
      marked; an error (or a path that is not a directory) leaves the cleared list. */
  function ListingOf(fs: Node, root: Path, showHidden: bool): (r: (seq<ListItem>, bool))
    ensures r.1 <==> !LoadResult(fs, root, showHidden, true, []).Failed?
    ensures LoadResult(fs, root, showHidden, true, []).Listed? ==> r.0 == LoadResult(fs, root, showHidden, true, []).items
    ensures !LoadResult(fs, root, showHidden, true, []).Listed? ==> r.0 == []
  {
    match LoadResult(fs, root, showHidden, true, [])
    case Listed(items) => (items, true)
    case NotDirectory => ([], true)
    case Failed => ([], false)
  }

  /** The keys the finder handles; every other key is passed on. */
  datatype FinderKey = Up | Down | Enter | Other

  class Finder {
    /** The fuzzy matcher's rank. */
    const rank: Ranker
    /** The filesystem the finder reads. */
    const fs: Node
    /** context.CurrentPath, the directory whose tree the finder lists. */
    const root: Path
    /** showHiddenFiles, set once by NewFinder. */
    const showHiddenFiles: bool
    /** The file list's items and its current item. */
    var fileList: seq<ListItem>
    var current: nat
    /** The pane beside the list. */
    var preview: Explorer.Preview

    /** The current item is an item of the list, or 0 for an empty list. */
    ghost predicate Valid()
      reads this`fileList, this`current
    {
      if |fileList| == 0 then current == 0 else current < |fileList|
    }

    /** NewFinder and searchInDirectory: the whole tree listed, its first entry selected. */
    constructor (rank: Ranker, fs: Node, root: Path)
      ensures Valid()
      ensures this.rank == rank && this.fs == fs && this.root == root && !showHiddenFiles
      ensures fileList == ListingOf(fs, root, false).0
      ensures var r := LineResult(fs, root, false, fileList, 0, Explorer.DirectoryPreview(Explorer.ListView([], 0)), 0);
        current == r.0 && preview == r.1
    {
      this.rank := rank;
      this.fs := fs;
      this.root := root;
      showHiddenFiles := false;
      fileList := [];
      current := 0;
      preview := Explorer.DirectoryPreview(Explorer.ListView([], 0));
      new;
      var loaded := ResetFileList();
      var ok := SetCurrentLine(0);
    }

    /** setCurrentLine. */
    method SetCurrentLine(lineIndex: int) returns (ok: bool)
      requires Valid()
      modifies this`current, this`preview
      ensures Valid()
      ensures (current, preview, ok) == LineResult(fs, root, showHiddenFiles, fileList, old(current), old(preview), lineIndex)
    {
      if lineIndex < 0 || lineIndex >= |fileList| {
        return true;
      }
      current := lineIndex;
      var selectedName := fileList[lineIndex].secondary;
      ok := SetSelectedDirectory(JoinName(root, selectedName));
    }

    /** setSelectedDirectory: a placeholder for an empty directory, the listing of a
        directory from its first entry, the preview of a file. */
    method SetSelectedDirectory(selectedPath: Path) returns (ok: bool)
      modifies this`preview
      ensures var p := Explorer.PreviewOf(fs, selectedPath, showHiddenFiles, [], map[]);
        preview == p.GetOr(old(preview)) && ok == p.Some?
    {
      if IsDirectoryEmpty(fs, selectedPath) {
        preview := Explorer.EmptyDirectory;
        return true;
      }
      var selectedDirectoryIndex := 0;
      var newSelectedList := LoadDirectory(fs, selectedPath, showHiddenFiles, false, []);
      match newSelectedList
      case Failed =>
        return false;
      case NotDirectory =>
        preview := Explorer.FilePreview(selectedPath);
        return true;
      case Listed(items) =>
        preview := Explorer.DirectoryPreview(Explorer.ListView(items, Clip(selectedDirectoryIndex, |items|)));
        return true;
    }

    /** resetFileList. */
    method ResetFileList() returns (ok: bool)
      modifies this`fileList, this`current
      ensures Valid()
      ensures (fileList, ok) == ListingOf(fs, root, showHiddenFiles) && current == 0
    {
      fileList := [];
      current := 0;
      var loaded := LoadDirectory(fs, root, showHiddenFiles, true, []);
      if loaded.Failed? {
        return false;
      }
      if loaded.Listed? {
        fileList := loaded.items;
      }
      return true;
    }

    /** fuzzySearch: the list rebuilt from the items that match, highest rank first, and its
        first line selected. */
    method FuzzySearch(text: string)
      requires Valid()
      modifies this`fileList, this`current, this`preview
      ensures Valid()
      ensures SearchedFrom(fileList, old(fileList), text, rank)
      ensures var r := LineResult(fs, root, showHiddenFiles, fileList, 0, old(preview), 0);
        current == r.0 && preview == r.1
    {
      fileList := SearchOrder(fileList, text, rank);
      current := 0;
      var ok := SetCurrentLine(0);
    }

    /** The footer's change handler: the query without its leading "/", searched in a
        freshly listed tree. */
    method OnQueryChanged(text: string)
      requires Valid()
      modifies this`fileList, this`current, this`preview
      ensures Valid()
      ensures SearchedFrom(fileList, ListingOf(fs, root, showHiddenFiles).0, Text.TrimPrefix(text, "/"), rank)
      ensures var r := LineResult(fs, root, showHiddenFiles, fileList, 0, old(preview), 0);
        current == r.0 && preview == r.1
    {
      var currentInput := Text.TrimPrefix(text, "/");
      var loaded := ResetFileList();
      FuzzySearch(currentInput);
    }

    /** The key bindings: Up and Down move through setCurrentLine; Enter opens the
        selected file in the editor, which is not part of this model. */
    method HandleKey(key: FinderKey) returns (handled: bool)
      requires Valid()
      modifies this`current, this`preview
      ensures Valid()
      ensures handled <==> !key.Other?
      ensures key.Up? ==> var r := LineResult(fs, root, showHiddenFiles, fileList, old(current), old(preview), old(current) - 1);
        current == r.0 && preview == r.1
      ensures key.Down? ==> var r := LineResult(fs, root, showHiddenFiles, fileList, old(current), old(preview), old(current) + 1);
        current == r.0 && preview == r.1
      ensures key.Enter? || key.Other? ==> current == old(current) && preview == old(preview)
    {
      match key
      case Up =>
        var ok := SetCurrentLine(current - 1);
        return true;
      case Down =>
        var ok := SetCurrentLine(current + 1);
        return true;
      case Enter =>
        return true;
      case Other =>
        return false;
    }
  }

  /** Every entry a search lists after a query change is an entry of the tree below the
      directory that the query matches. */
  lemma FoundEntriesExist(fs: Node, root: Path, showHidden: bool, query: string, rank: Ranker,
                          result: seq<ListItem>)
    requires WellFormed(fs) && LoadResult(fs, root, showHidden, true, []).Listed?
    requires SearchedFrom(result, ListingOf(fs, root, showHidden).0, query, rank)
    ensures forall y :: y in result ==>
      rank(query, y.secondary) > -1 && Lookup(fs, JoinName(root, y.secondary)).Some?
  {
    var items := ListingOf(fs, root, showHidden).0;
    SearchedItems(result, items, query, rank);
    RecursiveListing(fs, root, showHidden, []);
    forall y | y in result ensures Lookup(fs, JoinName(root, y.secondary)).Some? {
      var k :| 0 <= k < |items| && items[k] == y;
    }
  }

  /** Two equal items at different places are counted twice. */
  lemma CountTwice(s: seq<ListItem>, i: int, j: int)
    requires 0 <= i < j < |s|
    ensures s[i] == s[j] ==> multiset(s)[s[i]] >= 2
  {
    assert s == s[..j] + s[j..];
    assert s[..j][i] == s[i] && s[j..][0] == s[j];
  }

  /** In a list whose secondary texts differ, every item occurs at most once. */
  lemma {:induction false} DistinctCountsOnce(s: seq<ListItem>, y: ListItem)
    requires DistinctTexts(s)
    ensures multiset(s)[y] <= 1
  {
    if |s| > 0 {
      var init := s[..|s| - 1];
      assert s == init + [s[|s| - 1]];
      assert DistinctTexts(init) by {
        forall i, j | 0 <= i < j < |init| ensures init[i].secondary != init[j].secondary {
          assert init[i] == s[i] && init[j] == s[j];
        }
      }
      DistinctCountsOnce(init, y);
      if s[|s| - 1] == y {
        forall k | 0 <= k < |init| ensures init[k] != y {
          assert init[k] == s[k];
        }
      }
    }
  }

  /** Keeping the matching items keeps the secondary texts distinct. */
  lemma {:induction false} MatchingDistinct(list: seq<ListItem>, query: string, rank: Ranker)
    requires DistinctTexts(list)
    ensures DistinctTexts(Matching(list, query, rank))
  {
    if |list| > 0 {
      var init := list[..|list| - 1];
      var last := list[|list| - 1];
      assert DistinctTexts(init) by {
        forall i, j | 0 <= i < j < |init| ensures init[i].secondary != init[j].secondary {
          assert init[i] == list[i] && init[j] == list[j];
        }
      }
      MatchingDistinct(init, query, rank);
      var m := Matching(init, query, rank);
      forall k | 0 <= k < |m| ensures m[k].secondary != last.secondary {
        assert m[k] in init;
        var q :| 0 <= q < |init| && init[q] == m[k];
        assert list[q] == m[k];
      }
    }
  }

  /** A search of a list with distinct secondary texts lists each of them at most once. */
  lemma SearchedDistinct(result: seq<ListItem>, list: seq<ListItem>, query: string, rank: Ranker)
    requires SearchedFrom(result, list, query, rank) && DistinctTexts(list)
    ensures DistinctTexts(result)
  {
    SearchedItems(result, list, query, rank);
    MatchingDistinct(list, query, rank);
    forall i, j | 0 <= i < j < |result| ensures result[i].secondary != result[j].secondary {
      CountTwice(result, i, j);
      DistinctCountsOnce(Matching(list, query, rank), result[i]);
      assert result[i] in list && result[j] in list;
      var ki :| 0 <= ki < |list| && list[ki] == result[i];
      var kj :| 0 <= kj < |list| && list[kj] == result[j];
    }
  }

  /** A search after a query change is complete: every entry below the directory whose
      names the filter keeps is listed, exactly when the query matches its relative path,
      and no relative path is listed twice. */
  lemma FoundEntriesComplete(fs: Node, root: Path, showHidden: bool, query: string, rank: Ranker,
                             result: seq<ListItem>)
    requires WellFormed(fs) && LoadResult(fs, root, showHidden, true, []).Listed?
    requires SearchedFrom(result, ListingOf(fs, root, showHidden).0, query, rank)
    ensures DistinctTexts(result)
    ensures forall t :: |t| > 0 && VisiblePath(t, showHidden) && Lookup(fs, root + t).Some? ==>
      (MakeItem(root, [], (t, Lookup(fs, root + t).value)) in result <==> rank(query, Text.Join(t, '/')) > -1)
  {
    var items := ListingOf(fs, root, showHidden).0;
    RecursiveTextsDistinct(fs, root, showHidden, []);
    SearchedDistinct(result, items, query, rank);
    SearchedItems(result, items, query, rank);
    RecursiveListingComplete(fs, root, showHidden, []);
    var w := Walk([], Lookup(fs, root).value, showHidden, true).value;
    forall t | |t| > 0 && VisiblePath(t, showHidden) && Lookup(fs, root + t).Some?
      ensures MakeItem(root, [], (t, Lookup(fs, root + t).value)) in items
    {
      var x := (t, Lookup(fs, root + t).value);
      assert x in w;
      var k :| 0 <= k < |w| && w[k] == x;
      assert items[k] == MakeItem(root, [], x);
    }
  }
}
