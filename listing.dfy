/** The list helpers of internal/helper/helper.go: the list widget's items, the exact-item
    lookup used to restore cursors, DeleteItem, and LoadDirectory. */
module Listing {
  import opened Wrappers
  import Text
  import opened FileSystem

  /** One row of a list widget: the displayed text and the hidden secondary text. */
  datatype ListItem = ListItem(main: string, secondary: string)

  /** The index a list widget selects when asked for `index` (SetCurrentItem): inside the
      list, an index inside the list is kept and everything else lands somewhere inside. */
  function Clip(index: int, count: nat): (r: nat)
    ensures count > 0 ==> r < count
    ensures count == 0 ==> r == 0
    ensures 0 <= index < count ==> r == index
  {
    var i := if index < 0 then count + index else index;
    var j := if i >= count then count - 1 else i;
    if j < 0 then 0 else j
  }

  /** The secondary text of item `i`, or "" where there is no such item. */
  function SecondaryAt(items: seq<ListItem>, i: int): string {
    if 0 <= i < |items| then items[i].secondary else ""
  }

  /** Which text of an item a lookup compares with the search term. */
  datatype TextField = Main | Secondary

  function TextOf(item: ListItem, field: TextField): string {
    if field.Main? then item.main else item.secondary
  }

  /** Every index FindItems reports is an index of the list. */
  predicate InRange(items: seq<ListItem>, matches: seq<int>) {
    forall k :: 0 <= k < |matches| ==> 0 <= matches[k] < |items|
  }

  /** The list widget's FindItems for a search term, as the indices it returns. Its
      matching rule belongs to the widget library; the model only relies on it
      returning indices of the list. */
  type Matcher = (seq<ListItem>, string) -> seq<int>

  ghost predicate SoundMatcher(find: Matcher) {
    forall items, term :: InRange(items, find(items, term))
  }

  /** The first of `matches` whose text is `term`, or 0 when there is none. */
  function FirstWithText(items: seq<ListItem>, term: string, matches: seq<int>, field: TextField): (r: int)
    requires InRange(items, matches)
    ensures r >= 0
    ensures || (exists k :: 0 <= k < |matches| && r == matches[k] && TextOf(items[r], field) == term
                            && forall j :: 0 <= j < k ==> TextOf(items[matches[j]], field) != term)
            || (r == 0 && forall j :: 0 <= j < |matches| ==> TextOf(items[matches[j]], field) != term)
  {
    if |matches| == 0 then 0
    else if TextOf(items[matches[0]], field) == term then matches[0]
    else
      var r := FirstWithText(items, term, matches[1..], field);
      assert forall j :: 1 <= j < |matches| ==> matches[j] == matches[1..][j - 1];
      r
  }

  /** The index an exact-item lookup picks among the indices FindItems returned for
      `term`: a single match wins whatever its text; otherwise the first match whose
      text is `term`; otherwise 0. */
  function ExactItem(items: seq<ListItem>, term: string, matches: seq<int>, field: TextField): (r: int)
    requires InRange(items, matches)
    ensures r >= 0
    ensures |matches| == 1 ==> r == matches[0]
    ensures |matches| != 1 ==>
      || (exists k :: 0 <= k < |matches| && r == matches[k] && TextOf(items[r], field) == term
                      && forall j :: 0 <= j < k ==> TextOf(items[matches[j]], field) != term)
      || (r == 0 && forall j :: 0 <= j < |matches| ==> TextOf(items[matches[j]], field) != term)
    ensures |items| == 0 ==> r == 0
  {
    if |matches| == 1 then matches[0] else FirstWithText(items, term, matches, field)
  }

  /** When FindItems reports an item whose text is the term, the lookup lands on an item
      with that text (not necessarily the same one when several have it). */
  lemma ExactItemFinds(items: seq<ListItem>, term: string, matches: seq<int>, field: TextField, k: nat)
    requires InRange(items, matches)
    requires k < |matches| && TextOf(items[matches[k]], field) == term
    ensures 0 <= ExactItem(items, term, matches, field) < |items|
    ensures TextOf(items[ExactItem(items, term, matches, field)], field) == term
  {
  }

  /** helper.FindExactItem, which compares secondary texts. */
  method FindExactItem(items: seq<ListItem>, term: string, matches: seq<int>) returns (r: int)
    requires InRange(items, matches)
    ensures r == ExactItem(items, term, matches, Secondary)
  {
    if |matches| == 1 {
      return matches[0];
    }
    var i := 0;
    while i < |matches|
      invariant 0 <= i <= |matches| && InRange(items, matches[i..])
      invariant FirstWithText(items, term, matches, Secondary) == FirstWithText(items, term, matches[i..], Secondary)
    {
      assert matches[i..][0] == matches[i];
      if items[matches[i]].secondary == term {
        return matches[i];
      }
      FirstWithTextSkip(items, term, matches[i..], Secondary);
      assert matches[i..][1..] == matches[i + 1..];
      i := i + 1;
    }
    return 0;
  }

  /** A first match without the term is skipped. */
  lemma FirstWithTextSkip(items: seq<ListItem>, term: string, m: seq<int>, field: TextField)
    requires InRange(items, m) && |m| > 0 && TextOf(items[m[0]], field) != term
    ensures InRange(items, m[1..])
    ensures FirstWithText(items, term, m, field) == FirstWithText(items, term, m[1..], field)
  {
    assert forall k :: 0 <= k < |m| - 1 ==> m[1..][k] == m[k + 1];
  }

  /** The sequence with every occurrence of `e` removed, order kept. */
  function Without<T(==, !new)>(s: seq<T>, e: T): (r: seq<T>)
    ensures e !in r
    ensures forall x :: x in r <==> x in s && x != e
    ensures e !in s ==> r == s
    ensures |r| <= |s|
  {
    if |s| == 0 then []
    else
      var rest := Without(s[..|s| - 1], e);
      assert s == s[..|s| - 1] + [s[|s| - 1]];
      if s[|s| - 1] == e then rest else rest + [s[|s| - 1]]
  }

  /** Removing an element distributes over concatenation, so the kept elements keep
      their order. */
  lemma {:induction false} WithoutConcat<T(!new)>(a: seq<T>, b: seq<T>, e: T)
    ensures Without(a + b, e) == Without(a, e) + Without(b, e)
    decreases |b|
  {
    if |b| == 0 {
      assert a + b == a;
    } else {
      var b' := b[..|b| - 1];
      assert (a + b)[..|a + b| - 1] == a + b';
      assert (a + b)[|a + b| - 1] == b[|b| - 1];
      WithoutConcat(a, b', e);
    }
  }

  /** A single element is kept exactly when it differs from the removed one. */
  lemma WithoutSingle<T(!new)>(x: T, e: T)
    ensures Without([x], e) == if x == e then [] else [x]
  {
    assert [x][..0] == [];
  }

  /** helper.DeleteItem. */
  method DeleteItem<T(==, !new)>(s: seq<T>, e: T) returns (r: seq<T>)
    ensures r == Without(s, e)
  {
    r := [];
    var i := 0;
    while i < |s|
      invariant 0 <= i <= |s|
      invariant r == Without(s[..i], e)
    {
      assert s[..i + 1][..i] == s[..i];
      if s[i] != e {
        r := r + [s[i]];
      }
      i := i + 1;
    }
    assert s[..|s|] == s;
  }

  /** A directory entry as os.ReadDir gives it. */
  type Entry = (string, Node)

  predicate Hidden(name: string) {
    |name| > 0 && name[0] == '.'
  }

  predicate NoDupNames(es: seq<Entry>) {
    forall i, j :: 0 <= i < j < |es| ==> es[i].0 != es[j].0
  }

  /** The entries kept by the hidden-file filter, in their order. */
  function Visible(es: seq<Entry>, showHidden: bool): (r: seq<Entry>)
    ensures |r| <= |es|
  {
    if |es| == 0 then []
    else
      var last := es[|es| - 1];
      var rest := Visible(es[..|es| - 1], showHidden);
      if !showHidden && Hidden(last.0) then rest else rest + [last]
  }

  /** The filter keeps exactly the entries whose name does not start with '.', or every
      entry when hidden files are shown, and unique names stay unique. */
  lemma {:induction false} VisibleKeeps(es: seq<Entry>, showHidden: bool)
    ensures var r := Visible(es, showHidden);
      && (forall x :: x in r <==> x in es && (showHidden || !Hidden(x.0)))
      && (showHidden ==> r == es)
      && (NoDupNames(es) ==> NoDupNames(r))
  {
    VisibleMembers(es, showHidden);
    if showHidden {
      VisibleAll(es);
    }
    if NoDupNames(es) {
      VisibleNoDup(es, showHidden);
    }
  }

  lemma {:induction false} VisibleMembers(es: seq<Entry>, showHidden: bool)
    ensures forall x :: x in Visible(es, showHidden) <==> x in es && (showHidden || !Hidden(x.0))
  {
    if |es| > 0 {
      VisibleMembers(es[..|es| - 1], showHidden);
      assert es == es[..|es| - 1] + [es[|es| - 1]];
    }
  }

  lemma {:induction false} VisibleAll(es: seq<Entry>)
    ensures Visible(es, true) == es
  {
    if |es| > 0 {
      VisibleAll(es[..|es| - 1]);
      assert es == es[..|es| - 1] + [es[|es| - 1]];
    }
  }

  lemma {:induction false} VisibleNoDup(es: seq<Entry>, showHidden: bool)
    requires NoDupNames(es)
    ensures NoDupNames(Visible(es, showHidden))
  {
    if |es| > 0 {
      var last := es[|es| - 1];
      var init := es[..|es| - 1];
      assert es == init + [last];
      assert NoDupNames(init) && forall x :: x in init ==> x.0 != last.0;
      VisibleNoDup(init, showHidden);
      VisibleMembers(init, showHidden);
    }
  }

  /** The order sort.Slice is asked for: directories first, then by name. */
  predicate EntryLess(a: Entry, b: Entry) {
    if a.1.Dir? == b.1.Dir? then Text.Less(a.0, b.0) else a.1.Dir?
  }

  lemma EntryLessAsymmetric(a: Entry, b: Entry)
    requires EntryLess(a, b)
    ensures !EntryLess(b, a)
  {
    if a.1.Dir? == b.1.Dir? { Text.LessAsymmetric(a.0, b.0); }
  }

  /** "Not less" is transitive. */
  lemma EntryNotLessTransitive(a: Entry, b: Entry, c: Entry)
    requires !EntryLess(b, a) && !EntryLess(c, b)
    ensures !EntryLess(c, a)
  {
    if a.1.Dir? == b.1.Dir? && b.1.Dir? == c.1.Dir? {
      if Text.Less(c.0, a.0) {
        if a.0 != b.0 {
          Text.LessTotal(a.0, b.0);
          if b.0 != c.0 {
            Text.LessTotal(b.0, c.0);
            Text.LessTransitive(a.0, b.0, c.0);
            Text.LessAsymmetric(a.0, c.0);
          } else {
            Text.LessAsymmetric(a.0, c.0);
          }
        } else if b.0 != c.0 {
          Text.LessTotal(b.0, c.0);
          Text.LessAsymmetric(b.0, c.0);
        } else {
          Text.LessIrreflexive(a.0);
        }
      }
    }
  }

  /** Ordered by EntryLess: no later entry is less than an earlier one. */
  predicate SortedEntries(s: seq<Entry>) {
    forall i, j :: 0 <= i < j < |s| ==> !EntryLess(s[j], s[i])
  }

  function Insert(x: Entry, s: seq<Entry>): (r: seq<Entry>)
    ensures multiset(r) == multiset(s) + multiset{x}
    ensures forall y :: y in r <==> y == x || y in s
  {
    if |s| == 0 then [x]
    else if EntryLess(s[0], x) then
      assert s == [s[0]] + s[1..];
      [s[0]] + Insert(x, s[1..])
    else [x] + s
  }

  lemma {:induction false} InsertSorted(x: Entry, s: seq<Entry>)
    requires SortedEntries(s)
    ensures SortedEntries(Insert(x, s))
  {
    if |s| > 0 {
      if EntryLess(s[0], x) {
        InsertSorted(x, s[1..]);
        var t := Insert(x, s[1..]);
        assert s == [s[0]] + s[1..];
        EntryLessAsymmetric(s[0], x);
        assert forall y :: y in t ==> !EntryLess(y, s[0]);
        assert Insert(x, s) == [s[0]] + t;
      } else {
        forall j | 0 <= j < |s| ensures !EntryLess(s[j], x) {
          if j > 0 { EntryNotLessTransitive(x, s[0], s[j]); }
        }
      }
    }
  }

  lemma {:induction false} InsertNoDup(x: Entry, s: seq<Entry>)
    requires NoDupNames(s) && forall y :: y in s ==> y.0 != x.0
    ensures NoDupNames(Insert(x, s))
  {
    if |s| > 0 && EntryLess(s[0], x) {
      assert s == [s[0]] + s[1..];
      InsertNoDup(x, s[1..]);
      var t := Insert(x, s[1..]);
      assert forall y :: y in t ==> y.0 != s[0].0;
      assert Insert(x, s) == [s[0]] + t;
    }
  }

  /** The model of the in-place sort.Slice call: an insertion sort; its result is a sorted
      permutation of its input. */
  function SortEntries(es: seq<Entry>): (r: seq<Entry>)
    ensures multiset(r) == multiset(es)
    ensures forall y :: y in r <==> y in es
  {
    if |es| == 0 then []
    else
      assert es == [es[0]] + es[1..];
      Insert(es[0], SortEntries(es[1..]))
  }

  /** The sort's result is ordered, and keeps names distinct. */
  lemma {:induction false} SortEntriesSorted(es: seq<Entry>)
    ensures SortedEntries(SortEntries(es))
    ensures NoDupNames(es) ==> NoDupNames(SortEntries(es))
  {
    SortEntriesOrdered(es);
    if NoDupNames(es) {
      SortEntriesNoDup(es);
    }
  }

  lemma {:induction false} SortEntriesOrdered(es: seq<Entry>)
    ensures SortedEntries(SortEntries(es))
  {
    if |es| > 0 {
      SortEntriesOrdered(es[1..]);
      InsertSorted(es[0], SortEntries(es[1..]));
    }
  }

  lemma {:induction false} SortEntriesNoDup(es: seq<Entry>)
    requires NoDupNames(es)
    ensures NoDupNames(SortEntries(es))
  {
    if |es| > 0 {
      assert es == [es[0]] + es[1..];
      assert NoDupNames(es[1..]);
      SortEntriesNoDup(es[1..]);
      InsertNoDup(es[0], SortEntries(es[1..]));
    }
  }

  /** What processDir emits, as (path relative to the scan root, node) pairs, in the order
      of the list it fills: sorted visible entries, a subdirectory's contents (in recursive
      mode) right before the subdirectory itself. Err when a directory cannot be read. */
  function Walk(rel: Path, node: Node, showHidden: bool, recursive: bool): (r: Result<seq<(Path, Node)>>)
    ensures r.Ok? && node.Dir? ==> |r.value| >= |Visible(node.entries, showHidden)|
    decreases node, 1
  {
    match node
    case File(_, _) => Ok([])
    case Dir(es, readable) =>
      if !readable then Err
      else
        VisibleKeeps(es, showHidden);
        WalkEntries(rel, node, SortEntries(Visible(es, showHidden)), showHidden, recursive)
  }

  function WalkEntries(rel: Path, parent: Node, es: seq<Entry>, showHidden: bool, recursive: bool)
    : (r: Result<seq<(Path, Node)>>)
    requires parent.Dir? && forall x :: x in es ==> x in parent.entries
    ensures r.Ok? ==> |r.value| >= |es|
    decreases parent, 0, |es|
  {
    if |es| == 0 then Ok([])
    else
      var e := es[0];
      assert e in parent.entries;
      var sub := if e.1.Dir? && recursive then Walk(rel + [e.0], e.1, showHidden, recursive) else Ok([]);
      Around(sub, (rel + [e.0], e.1), WalkEntries(rel, parent, es[1..], showHidden, recursive))
  }

  /** `before`, then `x`, then `after`; Err if either part failed. */
  function Around<W>(before: Result<seq<W>>, x: W, after: Result<seq<W>>): Result<seq<W>> {
    if before.Err? || after.Err? then Err else Ok(before.value + [x] + after.value)
  }

  /** The display suffix: "/" for a directory, "*" for an executable file. */
  function Suffix(n: Node): string {
    if n.Dir? then "/" else if n.executable then "*" else ""
  }

  /** The list item for the entry at `root + rel`. */
  function MakeItem(root: Path, marked: seq<Path>, w: (Path, Node)): (r: ListItem)
    ensures r.secondary == Text.Join(w.0, '/')
    ensures r.main == (if root + w.0 in marked then "m> " else "") + r.secondary + Suffix(w.1)
  {
    var rel := Text.Join(w.0, '/');
    var display := if root + w.0 in marked then "m> " + rel else rel;
    ListItem(display + Suffix(w.1), rel)
  }

  function Items(root: Path, marked: seq<Path>, w: seq<(Path, Node)>): (r: seq<ListItem>)
    ensures |r| == |w|
    ensures forall k :: 0 <= k < |w| ==> r[k] == MakeItem(root, marked, w[k])
  {
    seq(|w|, k requires 0 <= k < |w| => MakeItem(root, marked, w[k]))
  }

  lemma ItemsConcat(root: Path, marked: seq<Path>, a: seq<(Path, Node)>, b: seq<(Path, Node)>)
    ensures Items(root, marked, a + b) == Items(root, marked, a) + Items(root, marked, b)
  {
  }

  /** `acc` followed by the items of a walk, or Err. */
  function Prepend(acc: seq<ListItem>, root: Path, marked: seq<Path>, w: Result<seq<(Path, Node)>>)
    : Result<seq<ListItem>>
  {
    match w
    case Err => Err
    case Ok(x) => Ok(acc + Items(root, marked, x))
  }

  lemma PrependAround(root: Path, marked: seq<Path>, list: seq<ListItem>,
                      before: Result<seq<(Path, Node)>>, x: (Path, Node), after: Result<seq<(Path, Node)>>)
    ensures Prepend(list, root, marked, Around(before, x, after)) ==
      match Prepend(list, root, marked, before)
      case Err => Err
      case Ok(l2) => Prepend(l2 + [MakeItem(root, marked, x)], root, marked, after)
  {
    if before.Ok? && after.Ok? {
      var b, a := before.value, after.value;
      ItemsConcat(root, marked, b + [x], a);
      ItemsConcat(root, marked, b, [x]);
      assert Items(root, marked, [x]) == [MakeItem(root, marked, x)];
      assert Around(before, x, after) == Ok(b + [x] + a);
      assert Prepend(list, root, marked, before) == Ok(list + Items(root, marked, b));
      assert list + Items(root, marked, b + [x] + a)
          == list + Items(root, marked, b) + [MakeItem(root, marked, x)] + Items(root, marked, a);
    }
  }

  /** One step of processDir's loop: the first entry's subdirectory items (if any), then
      its own item, then the rest. */
  lemma PrependStep(root: Path, marked: seq<Path>, rel: Path, node: Node, es: seq<Entry>,
                    showHidden: bool, recursive: bool, list: seq<ListItem>)
    requires node.Dir? && |es| > 0 && forall x :: x in es ==> x in node.entries
    ensures
      var e := es[0];
      var sub := if e.1.Dir? && recursive then Walk(rel + [e.0], e.1, showHidden, recursive) else Ok([]);
      Prepend(list, root, marked, WalkEntries(rel, node, es, showHidden, recursive)) ==
        match Prepend(list, root, marked, sub)
        case Err => Err
        case Ok(l2) =>
          Prepend(l2 + [MakeItem(root, marked, (rel + [e.0], e.1))], root, marked,
                  WalkEntries(rel, node, es[1..], showHidden, recursive))
  {
    var e := es[0];
    var sub := if e.1.Dir? && recursive then Walk(rel + [e.0], e.1, showHidden, recursive) else Ok([]);
    PrependAround(root, marked, list, sub, (rel + [e.0], e.1), WalkEntries(rel, node, es[1..], showHidden, recursive));
  }

  lemma ProcessStep(root: Path, marked: seq<Path>, rel: Path, node: Node, es: seq<Entry>,
                    showHidden: bool, recursive: bool, list: seq<ListItem>, l2: seq<ListItem>)
    requires node.Dir? && |es| > 0 && forall x :: x in es ==> x in node.entries
    requires es[0].1.Dir? && recursive ==>
      Prepend(list, root, marked, Walk(rel + [es[0].0], es[0].1, showHidden, recursive)) == Ok(l2)
    requires !(es[0].1.Dir? && recursive) ==> l2 == list
    ensures Prepend(list, root, marked, WalkEntries(rel, node, es, showHidden, recursive))
         == Prepend(l2 + [MakeItem(root, marked, (rel + [es[0].0], es[0].1))], root, marked,
                    WalkEntries(rel, node, es[1..], showHidden, recursive))
  {
    PrependStep(root, marked, rel, node, es, showHidden, recursive, list);
    if !(es[0].1.Dir? && recursive) {
      assert Items(root, marked, []) == [] && list + [] == list;
      assert Prepend(list, root, marked, Ok([])) == Ok(list);
    }
  }

  lemma ProcessStepErr(root: Path, marked: seq<Path>, rel: Path, node: Node, es: seq<Entry>,
                       showHidden: bool, recursive: bool, list: seq<ListItem>)
    requires node.Dir? && |es| > 0 && forall x :: x in es ==> x in node.entries
    requires es[0].1.Dir? && recursive
    requires Prepend(list, root, marked, Walk(rel + [es[0].0], es[0].1, showHidden, recursive)).Err?
    ensures Prepend(list, root, marked, WalkEntries(rel, node, es, showHidden, recursive)).Err?
  {
    PrependStep(root, marked, rel, node, es, showHidden, recursive, list);
  }

  /** What LoadDirectory returns: an error, "not a directory" (nil list, nil error), or a list. */
  datatype Loaded = Failed | NotDirectory | Listed(items: seq<ListItem>)

  /** The reference definition of LoadDirectory. */
  function LoadResult(fs: Node, path: Path, showHidden: bool, recursive: bool, marked: seq<Path>): (r: Loaded)
    ensures r.Listed? ==> Lookup(fs, path).Some? && Lookup(fs, path).value.Dir? && Lookup(fs, path).value.readable
    ensures r.NotDirectory? <==> Lookup(fs, path).Some? && Lookup(fs, path).value.File?
  {
    match Lookup(fs, path)
    case None => Failed
    case Some(n) =>
      if !n.Dir? then NotDirectory
      else match Walk([], n, showHidden, recursive)
        case Err => Failed
        case Ok(w) => Listed(Items(path, marked, w))
  }

  /** helper.LoadDirectory. */
  method LoadDirectory(fs: Node, path: Path, showHidden: bool, recursive: bool, marked: seq<Path>)
    returns (r: Loaded)
    ensures r == LoadResult(fs, path, showHidden, recursive, marked)
  {
    var info := Lookup(fs, path);
    if info.None? {
      return Failed;
    }
    if !info.value.Dir? {
      return NotDirectory;
    }
    var res := ProcessDir(path, [], info.value, showHidden, recursive, marked, []);
    if res.Err? {
      return Failed;
    }
    return Listed(res.value);
  }

  /** The hidden-file filter loop of processDir. */
  method FilterHidden(files: seq<Entry>, showHidden: bool) returns (fileSlice: seq<Entry>)
    ensures fileSlice == Visible(files, showHidden)
  {
    fileSlice := [];
    var i := 0;
    while i < |files|
      invariant 0 <= i <= |files|
      invariant fileSlice == Visible(files[..i], showHidden)
    {
      var file := files[i];
      assert files[..i + 1] == files[..i] + [file];
      VisibleSnoc(files[..i], file, showHidden);
      var name := file.0;
      if !(!showHidden && |name| > 0 && name[0] == '.') {
        fileSlice := fileSlice + [file];
      }
      i := i + 1;
    }
    assert files[..|files|] == files;
  }

  /** The filter takes one more entry when it is kept. */
  lemma VisibleSnoc(es: seq<Entry>, e: Entry, showHidden: bool)
    ensures Visible(es + [e], showHidden) ==
      if !showHidden && Hidden(e.0) then Visible(es, showHidden) else Visible(es, showHidden) + [e]
  {
    assert (es + [e])[..|es|] == es;
  }

  /** The processDir closure: appends the items below `root + rel` to `acc`. */
  method ProcessDir(root: Path, rel: Path, node: Node, showHidden: bool, recursive: bool,
                    marked: seq<Path>, acc: seq<ListItem>)
    returns (r: Result<seq<ListItem>>)
    requires node.Dir?
    ensures r == Prepend(acc, root, marked, Walk(rel, node, showHidden, recursive))
    decreases node, 1
  {
    if !node.readable {
      return Err;
    }
    var fileSlice := FilterHidden(node.entries, showHidden);
    VisibleKeeps(node.entries, showHidden);
    var sorted := SortEntries(fileSlice);
    assert forall x :: x in sorted ==> x in node.entries;
    assert Walk(rel, node, showHidden, recursive) == WalkEntries(rel, node, sorted, showHidden, recursive);
    r := ProcessEntries(root, rel, node, sorted, showHidden, recursive, marked, acc);
  }

  /** processDir's loop over the sorted entries: each directory's items (when recursive)
      come before its own item; an unreadable directory below stops the walk. */
  method ProcessEntries(root: Path, rel: Path, node: Node, sorted: seq<Entry>, showHidden: bool,
                        recursive: bool, marked: seq<Path>, acc: seq<ListItem>)
    returns (r: Result<seq<ListItem>>)
    requires node.Dir? && forall x :: x in sorted ==> x in node.entries
    ensures r == Prepend(acc, root, marked, WalkEntries(rel, node, sorted, showHidden, recursive))
    decreases node, 0
  {
    var list := acc;
    var i := 0;
    assert sorted[0..] == sorted;
    while i < |sorted|
      invariant 0 <= i <= |sorted|
      invariant forall x :: x in sorted[i..] ==> x in node.entries
      invariant Prepend(list, root, marked, WalkEntries(rel, node, sorted[i..], showHidden, recursive))
             == Prepend(acc, root, marked, WalkEntries(rel, node, sorted, showHidden, recursive))
    {
      var e := sorted[i];
      assert sorted[i..][0] == e && sorted[i..][1..] == sorted[i + 1..];
      var l2 := list;
      if e.1.Dir? && recursive {
        assert e in node.entries;
        var sub := ProcessDir(root, rel + [e.0], e.1, showHidden, recursive, marked, list);
        if sub.Err? {
          ProcessStepErr(root, marked, rel, node, sorted[i..], showHidden, recursive, list);
          return Err;
        }
        l2 := sub.value;
      }
      ProcessStep(root, marked, rel, node, sorted[i..], showHidden, recursive, list, l2);
      list := l2 + [MakeItem(root, marked, (rel + [e.0], e.1))];
      i := i + 1;
    }
    assert sorted[i..] == [];
    assert WalkEntries(rel, node, sorted[i..], showHidden, recursive) == Ok([]);
    assert Items(root, marked, []) == [];
    assert list + [] == list;
    return Ok(list);
  }

  /** `p` lies strictly below `q`. */
  predicate Below(p: Path, q: Path) {
    |q| < |p| && p[..|q|] == q
  }

  function NamesOf(es: seq<Entry>): set<string> {
    set x | x in es :: x.0
  }

  /** With names unique within the directory, an entry is what looking its name up finds. */
  lemma {:induction false} ChildOfEntry(es: seq<Entry>, x: Entry)
    requires x in es && forall i, j :: 0 <= i < j < |es| ==> es[i].0 != es[j].0
    ensures Child(es, x.0) == Some(x.1)
  {
    if es[0] != x {
      assert x in es[1..];
      assert es[0].0 != x.0 by {
        var j :| 0 <= j < |es| && es[j] == x;
      }
      ChildOfEntry(es[1..], x);
    }
  }

  lemma LookupStep(n: Node, name: string, child: Node, t: Path)
    requires n.Dir? && Child(n.entries, name) == Some(child)
    ensures Lookup(n, [name] + t) == Lookup(child, t)
  {
    assert ([name] + t)[1..] == t;
  }

  /** `x.0` extends `rel` by valid names that lead, from `from`, to `x.1`. */
  predicate Emitted(rel: Path, from: Node, x: (Path, Node)) {
    && |x.0| > |rel| && x.0[..|rel|] == rel && ValidPath(x.0[|rel|..])
    && Lookup(from, x.0[|rel|..]) == Some(x.1)
  }

  /** What a walk of a child emits, seen from its parent. */
  lemma EmittedBelowChild(rel: Path, parent: Node, e: Entry, x: (Path, Node))
    requires parent.Dir? && ValidName(e.0) && Child(parent.entries, e.0) == Some(e.1)
    requires Emitted(rel + [e.0], e.1, x) || x == (rel + [e.0], e.1)
    ensures Emitted(rel, parent, x) && x.0[|rel|] == e.0
  {
    var rel', p := rel + [e.0], x.0;
    var t := if x == (rel', e.1) then [] else p[|rel'|..];
    assert Lookup(e.1, t) == Some(x.1);
    assert ValidPath(t);
    assert p[..|rel'|] == rel';
    assert p == rel' + t;
    assert p[|rel|..] == [e.0] + t;
    LookupStep(parent, e.0, e.1, t);
    assert p[..|rel|] == rel;
    assert ValidPath([e.0] + t) by {
      forall j | 0 <= j < |[e.0] + t| ensures ValidName(([e.0] + t)[j]) {
        if j > 0 { assert ([e.0] + t)[j] == t[j - 1]; }
      }
    }
  }

  /** Every path a walk of `node` emits extends `rel` by valid names and leads, from
      `node`, to the node emitted with it. */
  lemma {:induction false} WalkResolves(rel: Path, node: Node, showHidden: bool, recursive: bool)
    requires WellFormed(node)
    ensures Walk(rel, node, showHidden, recursive).Ok? ==>
      forall x :: x in Walk(rel, node, showHidden, recursive).value ==> Emitted(rel, node, x)
    decreases node, 1
  {
    if node.Dir? && node.readable {
      VisibleKeeps(node.entries, showHidden);
      var es := SortEntries(Visible(node.entries, showHidden));
      assert Walk(rel, node, showHidden, recursive) == WalkEntries(rel, node, es, showHidden, recursive);
      WalkEntriesResolves(rel, node, es, showHidden, recursive);
    }
  }

  lemma {:induction false} WalkEntriesResolves(rel: Path, parent: Node, es: seq<Entry>,
                                               showHidden: bool, recursive: bool)
    requires parent.Dir? && WellFormed(parent) && forall x :: x in es ==> x in parent.entries
    ensures WalkEntries(rel, parent, es, showHidden, recursive).Ok? ==>
      forall x :: x in WalkEntries(rel, parent, es, showHidden, recursive).value ==>
        Emitted(rel, parent, x) && x.0[|rel|] in NamesOf(es)
    decreases parent, 0, |es|
  {
    var r := WalkEntries(rel, parent, es, showHidden, recursive);
    if |es| > 0 && r.Ok? {
      var e := es[0];
      assert e in parent.entries;
      var i :| 0 <= i < |parent.entries| && parent.entries[i] == e;
      assert ValidName(e.0) && WellFormed(e.1);
      ChildOfEntry(parent.entries, e);
      var rel' := rel + [e.0];
      var sub := if e.1.Dir? && recursive then Walk(rel', e.1, showHidden, recursive) else Ok([]);
      var rest := WalkEntries(rel, parent, es[1..], showHidden, recursive);
      assert sub.Ok? && rest.Ok?;
      WalkResolves(rel', e.1, showHidden, recursive);
      WalkEntriesResolves(rel, parent, es[1..], showHidden, recursive);
      assert r.value == sub.value + [(rel', e.1)] + rest.value;
      forall x | x in r.value
        ensures Emitted(rel, parent, x) && x.0[|rel|] in NamesOf(es)
      {
        if x in sub.value {
          EmittedBelowChild(rel, parent, e, x);
        } else if x == (rel', e.1) {
          EmittedBelowChild(rel, parent, e, x);
        } else {
          assert x in rest.value;
          assert NamesOf(es[1..]) <= NamesOf(es);
        }
      }
    }
  }

  /** The post-order of a recursive listing: nothing comes after a directory that lies
      below it, and what lies below a directory forms one block that ends right before the
      directory's own entry. */
  predicate PostOrder(w: seq<(Path, Node)>) {
    && (forall k, j :: 0 <= k < j < |w| ==> !Below(w[j].0, w[k].0))
    && (forall i, j, k :: 0 <= i < j < k < |w| && Below(w[i].0, w[k].0) ==> Below(w[j].0, w[k].0))
  }

  /** The paths of `b` branch off `rel` at a name other than `m`'s. */
  predicate Branches(b: seq<(Path, Node)>, rel: Path, name: string) {
    forall x :: x in b ==> |x.0| > |rel| && x.0[..|rel|] == rel && x.0[|rel|] != name
  }

  /** Two paths that branch off `rel` at different names are never below one another. */
  lemma AcrossBranches(q: Path, p: Path, rel: Path, name: string)
    requires |q| > |rel| && q[..|rel|] == rel && q[|rel|] == name
    requires |p| > |rel| && p[..|rel|] == rel && p[|rel|] != name
    ensures !Below(p, q) && !Below(q, p)
  {
    assert |q| <= |p| ==> p[..|q|][|rel|] == p[|rel|];
    assert |p| <= |q| ==> q[..|p|][|rel|] == q[|rel|];
  }

  /** The paths of `m`'s branch (m and what is below it) branch off `rel` at m's name. */
  lemma InBranch(q: Path, m: Path, rel: Path, name: string)
    requires m == rel + [name] && (q == m || Below(q, m))
    ensures |q| > |rel| && q[..|rel|] == rel && q[|rel|] == name
  {
    if q != m {
      assert q[..|m|] == m;
      assert q[|rel|] == q[..|m|][|rel|];
      assert q[..|rel|] == q[..|m|][..|rel|];
    }
  }

  /** Paths on the two sides of `m`'s branch are never below one another. */
  lemma BranchApart(a: seq<(Path, Node)>, m: (Path, Node), b: seq<(Path, Node)>, rel: Path, name: string)
    requires m.0 == rel + [name]
    requires forall x :: x in a ==> Below(x.0, m.0)
    requires Branches(b, rel, name)
    ensures var c := a + [m] + b;
      forall t, u :: 0 <= t <= |a| < u < |c| ==> !Below(c[u].0, c[t].0) && !Below(c[t].0, c[u].0)
  {
    var c := a + [m] + b;
    var n := |a|;
    forall t, u | 0 <= t <= n < u < |c|
      ensures !Below(c[u].0, c[t].0) && !Below(c[t].0, c[u].0)
    {
      assert c[u] in b;
      if t < n {
        assert c[t] == a[t] && c[t] in a;
      }
      InBranch(c[t].0, m.0, rel, name);
      AcrossBranches(c[t].0, c[u].0, rel, name);
    }
  }

  lemma PostOrderAround(a: seq<(Path, Node)>, m: (Path, Node), b: seq<(Path, Node)>, rel: Path, name: string)
    requires m.0 == rel + [name]
    requires PostOrder(a) && PostOrder(b)
    requires forall x :: x in a ==> Below(x.0, m.0)
    requires Branches(b, rel, name)
    ensures PostOrder(a + [m] + b)
  {
    var c := a + [m] + b;
    var n := |a|;
    assert forall t :: 0 <= t < n ==> c[t] == a[t];
    assert c[n] == m;
    assert forall t :: n < t < |c| ==> c[t] == b[t - n - 1];
    BranchApart(a, m, b, rel, name);
    forall k, j | 0 <= k < j < |c| ensures !Below(c[j].0, c[k].0) {
      if j == n {
        assert c[k] in a;
      }
    }
    forall i, j, k | 0 <= i < j < k < |c| && Below(c[i].0, c[k].0) ensures Below(c[j].0, c[k].0) {
      if k == n {
        assert c[j] in a;
      } else if k > n {
        assert i > n;
      }
    }
  }

  /** Walks are in post-order. */
  lemma {:induction false} WalkPostOrder(rel: Path, node: Node, showHidden: bool, recursive: bool)
    requires WellFormed(node)
    ensures Walk(rel, node, showHidden, recursive).Ok? ==> PostOrder(Walk(rel, node, showHidden, recursive).value)
    decreases node, 1
  {
    if node.Dir? && node.readable {
      VisibleKeeps(node.entries, showHidden);
      var es := SortEntries(Visible(node.entries, showHidden));
      SortEntriesSorted(Visible(node.entries, showHidden));
      WalkEntriesPostOrder(rel, node, es, showHidden, recursive);
    }
  }

  lemma {:induction false} WalkEntriesPostOrder(rel: Path, parent: Node, es: seq<Entry>,
                                                showHidden: bool, recursive: bool)
    requires parent.Dir? && WellFormed(parent) && forall x :: x in es ==> x in parent.entries
    requires NoDupNames(es)
    ensures WalkEntries(rel, parent, es, showHidden, recursive).Ok? ==>
      PostOrder(WalkEntries(rel, parent, es, showHidden, recursive).value)
    decreases parent, 0, |es|
  {
    var r := WalkEntries(rel, parent, es, showHidden, recursive);
    if |es| > 0 && r.Ok? {
      var e := es[0];
      assert e in parent.entries;
      var i :| 0 <= i < |parent.entries| && parent.entries[i] == e;
      assert WellFormed(e.1);
      var rel' := rel + [e.0];
      var sub := if e.1.Dir? && recursive then Walk(rel', e.1, showHidden, recursive) else Ok([]);
      var rest := WalkEntries(rel, parent, es[1..], showHidden, recursive);
      assert sub.Ok? && rest.Ok?;
      WalkPostOrder(rel', e.1, showHidden, recursive);
      WalkResolves(rel', e.1, showHidden, recursive);
      assert NoDupNames(es[1..]);
      WalkEntriesPostOrder(rel, parent, es[1..], showHidden, recursive);
      WalkEntriesResolves(rel, parent, es[1..], showHidden, recursive);
      assert forall x :: x in sub.value ==> Below(x.0, rel') by {
        forall x | x in sub.value ensures Below(x.0, rel') {
          assert Emitted(rel', e.1, x);
        }
      }
      assert e.0 !in NamesOf(es[1..]) by {
        forall y | y in es[1..] ensures y.0 != e.0 {
          var j :| 0 <= j < |es[1..]| && es[1..][j] == y;
          assert es[j + 1] == y;
        }
      }
      assert Branches(rest.value, rel, e.0) by {
        forall x | x in rest.value ensures |x.0| > |rel| && x.0[..|rel|] == rel && x.0[|rel|] != e.0 {
          assert Emitted(rel, parent, x) && x.0[|rel|] in NamesOf(es[1..]);
        }
      }
      PostOrderAround(sub.value, (rel', e.1), rest.value, rel, e.0);
    }
  }

  /** LoadDirectory's outcome for a missing path, a file, an unreadable directory and an
      empty directory. */
  lemma LoadCases(fs: Node, path: Path, showHidden: bool, recursive: bool, marked: seq<Path>)
    ensures Lookup(fs, path).None? ==> LoadResult(fs, path, showHidden, recursive, marked) == Failed
    ensures Lookup(fs, path).Some? && Lookup(fs, path).value.File? ==>
      LoadResult(fs, path, showHidden, recursive, marked) == NotDirectory
    ensures Lookup(fs, path).Some? && Lookup(fs, path).value.Dir? && !Lookup(fs, path).value.readable ==>
      LoadResult(fs, path, showHidden, recursive, marked) == Failed
    ensures IsDirectoryEmpty(fs, path) ==> LoadResult(fs, path, showHidden, recursive, marked) == Listed([])
  {
    if IsDirectoryEmpty(fs, path) {
      var n := Lookup(fs, path).value;
      assert Visible(n.entries, showHidden) == [];
      assert Walk([], n, showHidden, recursive) == Ok([]);
    }
  }

  /** One pair per entry, below `rel`. */
  function Flat(rel: Path, es: seq<Entry>): (r: seq<(Path, Node)>)
    ensures |r| == |es|
    ensures forall k :: 0 <= k < |es| ==> r[k] == (rel + [es[k].0], es[k].1)
  {
    if |es| == 0 then [] else [(rel + [es[0].0], es[0].1)] + Flat(rel, es[1..])
  }

  /** A non-recursive walk emits one pair per entry, in the order given. */
  lemma {:induction false} WalkEntriesFlat(rel: Path, parent: Node, es: seq<Entry>, showHidden: bool)
    requires parent.Dir? && forall x :: x in es ==> x in parent.entries
    ensures WalkEntries(rel, parent, es, showHidden, false) == Ok(Flat(rel, es))
    decreases |es|
  {
    if |es| > 0 {
      WalkEntriesFlat(rel, parent, es[1..], showHidden);
      assert [] + [(rel + [es[0].0], es[0].1)] + Flat(rel, es[1..]) == Flat(rel, es);
    }
  }

  lemma FlatItems(path: Path, marked: seq<Path>, s: seq<Entry>)
    ensures var items := Items(path, marked, Flat([], s));
      && |items| == |s|
      && forall k :: 0 <= k < |s| ==>
           && items[k].secondary == s[k].0
           && items[k].main == (if path + [s[k].0] in marked then "m> " else "") + s[k].0 + Suffix(s[k].1)
  {
    var w := Flat([], s);
    forall k | 0 <= k < |s| ensures Text.Join(w[k].0, '/') == s[k].0 && path + w[k].0 == path + [s[k].0] {
      assert w[k].0 == [s[k].0];
    }
  }

  /** The non-recursive listing of a readable directory: one item per visible entry,
      directories before files and names ascending within each group, every visible
      entry exactly once; the secondary text is the name. */
  lemma FlatListing(fs: Node, path: Path, showHidden: bool, marked: seq<Path>)
    requires Lookup(fs, path).Some? && Lookup(fs, path).value.Dir? && Lookup(fs, path).value.readable
    ensures
      var n := Lookup(fs, path).value;
      var s := SortEntries(Visible(n.entries, showHidden));
      && SortedEntries(s)
      && multiset(s) == multiset(Visible(n.entries, showHidden))
      && (forall x :: x in s <==> x in n.entries && (showHidden || !Hidden(x.0)))
      && LoadResult(fs, path, showHidden, false, marked) == Listed(Items(path, marked, Flat([], s)))
  {
    var n := Lookup(fs, path).value;
    var v := Visible(n.entries, showHidden);
    var s := SortEntries(v);
    SortEntriesOrdered(v);
    VisibleMembers(n.entries, showHidden);
    assert Walk([], n, showHidden, false) == WalkEntries([], n, s, showHidden, false);
    assert LoadResult(fs, path, showHidden, false, marked) == Listed(Items(path, marked, Flat([], s))) by {
      WalkEntriesFlat([], n, s, showHidden);
    }
  }

  /** The recursive listing: the items follow a walk that is in post-order (what lies
      below a directory is one block right before the directory's own item, after
      everything of its earlier siblings), and every item's secondary text, joined to
      the scan root, names the entry the item was made from. */
  lemma RecursiveListing(fs: Node, path: Path, showHidden: bool, marked: seq<Path>)
    requires WellFormed(fs)
    requires LoadResult(fs, path, showHidden, true, marked).Listed?
    ensures
      var n := Lookup(fs, path).value;
      var w := Walk([], n, showHidden, true).value;
      var items := LoadResult(fs, path, showHidden, true, marked).items;
      && items == Items(path, marked, w)
      && PostOrder(w)
      && forall k :: 0 <= k < |w| ==>
           Lookup(fs, JoinName(path, items[k].secondary)) == Some(w[k].1)
  {
    var n := Lookup(fs, path).value;
    WellFormedLookup(fs, path);
    var w := Walk([], n, showHidden, true).value;
    WalkPostOrder([], n, showHidden, true);
    WalkResolves([], n, showHidden, true);
    var items := Items(path, marked, w);
    forall k | 0 <= k < |w| ensures Lookup(fs, JoinName(path, items[k].secondary)) == Some(w[k].1) {
      assert Emitted([], n, w[k]);
      assert w[k].0[0..] == w[k].0;
      JoinRelative(path, w[k].0);
      LookupConcat(fs, path, w[k].0);
    }
  }

  /** Every node of a well-formed tree is well-formed. */
  lemma {:induction false} WellFormedLookup(fs: Node, p: Path)
    requires WellFormed(fs) && Lookup(fs, p).Some?
    ensures WellFormed(Lookup(fs, p).value)
    decreases |p|
  {
    if |p| > 0 {
      var es := fs.entries;
      var c := Child(es, p[0]).value;
      var i :| 0 <= i < |es| && es[i] == (p[0], c);
      WellFormedLookup(c, p[1..]);
    }
  }

  /** Marks change the display texts only. */
  lemma MarkingKeepsSecondary(fs: Node, path: Path, showHidden: bool, recursive: bool,
                              m1: seq<Path>, m2: seq<Path>)
    requires LoadResult(fs, path, showHidden, recursive, m1).Listed?
    ensures LoadResult(fs, path, showHidden, recursive, m2).Listed?
    ensures
      var a := LoadResult(fs, path, showHidden, recursive, m1).items;
      var b := LoadResult(fs, path, showHidden, recursive, m2).items;
      |a| == |b| && forall k :: 0 <= k < |a| ==> a[k].secondary == b[k].secondary
  {
  }

  /** Every name along `q` is one the hidden-file filter keeps. */
  predicate VisiblePath(q: Path, showHidden: bool) {
    forall k :: 0 <= k < |q| ==> showHidden || !Hidden(q[k])
  }

  /** A recursive walk reaches every visible path below the directory it starts at. */
  lemma {:induction false} WalkComplete(rel: Path, node: Node, showHidden: bool, t: Path)
    requires Walk(rel, node, showHidden, true).Ok?
    requires |t| > 0 && VisiblePath(t, showHidden) && Lookup(node, t).Some?
    ensures (rel + t, Lookup(node, t).value) in Walk(rel, node, showHidden, true).value
    decreases node, 1
  {
    var x, t' := FirstVisibleEntry(node, showHidden, t);
    WalkUnfold(rel, node, showHidden, true);
    WalkEntriesComplete(rel, node, SortEntries(Visible(node.entries, showHidden)), showHidden, x, t');
  }

  /** A walk that succeeds on a directory is the walk of its sorted visible entries. */
  lemma WalkUnfold(rel: Path, node: Node, showHidden: bool, recursive: bool)
    requires node.Dir? && Walk(rel, node, showHidden, recursive).Ok?
    ensures node.readable
    ensures forall y :: y in SortEntries(Visible(node.entries, showHidden)) ==> y in node.entries
    ensures Walk(rel, node, showHidden, recursive)
         == WalkEntries(rel, node, SortEntries(Visible(node.entries, showHidden)), showHidden, recursive)
  {
    VisibleKeeps(node.entries, showHidden);
  }

  /** The entry a visible path starts with, among the sorted visible entries, and the rest
      of the path below it. */
  lemma FirstVisibleEntry(node: Node, showHidden: bool, t: Path) returns (x: Entry, t': Path)
    requires |t| > 0 && VisiblePath(t, showHidden) && Lookup(node, t).Some?
    ensures node.Dir? && t == [x.0] + t'
    ensures x in SortEntries(Visible(node.entries, showHidden))
    ensures forall y :: y in SortEntries(Visible(node.entries, showHidden)) ==> y in node.entries
    ensures VisiblePath(t', showHidden) && Lookup(x.1, t') == Lookup(node, t)
  {
    LookupFirst(node, t);
    VisiblePathTail(t, showHidden);
    x := (t[0], Child(node.entries, t[0]).value);
    t' := t[1..];
    assert t == [x.0] + t';
    SortedVisibleHas(node.entries, x, showHidden);
  }

  /** The first step of a lookup goes through an entry of the directory. */
  lemma LookupFirst(node: Node, t: Path)
    requires |t| > 0 && Lookup(node, t).Some?
    ensures node.Dir? && Child(node.entries, t[0]).Some?
    ensures (t[0], Child(node.entries, t[0]).value) in node.entries
    ensures Lookup(node, t) == Lookup(Child(node.entries, t[0]).value, t[1..])
  {
    var c := Child(node.entries, t[0]).value;
    var i :| 0 <= i < |node.entries| && node.entries[i] == (t[0], c);
  }

  lemma VisiblePathTail(t: Path, showHidden: bool)
    requires |t| > 0 && VisiblePath(t, showHidden)
    ensures VisiblePath(t[1..], showHidden) && (showHidden || !Hidden(t[0]))
  {
    forall k | 0 <= k < |t[1..]| ensures showHidden || !Hidden(t[1..][k]) {
      assert t[1..][k] == t[k + 1];
    }
  }

  /** A visible entry is among the sorted visible entries, which are all entries. */
  lemma SortedVisibleHas(es: seq<Entry>, x: Entry, showHidden: bool)
    requires x in es && (showHidden || !Hidden(x.0))
    ensures x in SortEntries(Visible(es, showHidden))
    ensures forall y :: y in SortEntries(Visible(es, showHidden)) ==> y in es
  {
    VisibleMembers(es, showHidden);
  }

  lemma {:induction false} WalkEntriesComplete(rel: Path, parent: Node, es: seq<Entry>, showHidden: bool,
                                               x: Entry, t: Path)
    requires parent.Dir? && forall y :: y in es ==> y in parent.entries
    requires WalkEntries(rel, parent, es, showHidden, true).Ok?
    requires x in es && VisiblePath(t, showHidden) && Lookup(x.1, t).Some?
    ensures (rel + ([x.0] + t), Lookup(x.1, t).value) in WalkEntries(rel, parent, es, showHidden, true).value
    decreases parent, 0, |es|
  {
    if x == es[0] {
      WalkHeadComplete(rel, parent, es, showHidden, t);
    } else {
      WalkEntriesParts(rel, parent, es, showHidden, true);
      assert x in es[1..];
      WalkEntriesComplete(rel, parent, es[1..], showHidden, x, t);
    }
  }

  /** The first entry, and everything below it, is emitted. */
  lemma {:induction false} WalkHeadComplete(rel: Path, parent: Node, es: seq<Entry>, showHidden: bool, t: Path)
    requires parent.Dir? && |es| > 0 && forall y :: y in es ==> y in parent.entries
    requires WalkEntries(rel, parent, es, showHidden, true).Ok?
    requires VisiblePath(t, showHidden) && Lookup(es[0].1, t).Some?
    ensures (rel + ([es[0].0] + t), Lookup(es[0].1, t).value) in WalkEntries(rel, parent, es, showHidden, true).value
    decreases parent, 0, |es|, 0
  {
    var e := es[0];
    assert e in parent.entries;
    var rel' := rel + [e.0];
    WalkEntriesParts(rel, parent, es, showHidden, true);
    PathRegroup(rel, e.0, t);
    if |t| > 0 {
      assert e.1.Dir?;
      WalkComplete(rel', e.1, showHidden, t);
    }
  }

  lemma PathRegroup(rel: Path, name: string, t: Path)
    ensures rel + ([name] + t) == (rel + [name]) + t
    ensures |t| == 0 ==> rel + ([name] + t) == rel + [name]
  {
  }

  /** Everything the walk of the first entry, the entry itself, and the walk of the others
      emit is emitted. */
  lemma WalkEntriesParts(rel: Path, parent: Node, es: seq<Entry>, showHidden: bool, recursive: bool)
    requires parent.Dir? && |es| > 0 && forall y :: y in es ==> y in parent.entries
    requires WalkEntries(rel, parent, es, showHidden, recursive).Ok?
    ensures var e := es[0];
      var r := WalkEntries(rel, parent, es, showHidden, recursive).value;
      var rest := WalkEntries(rel, parent, es[1..], showHidden, recursive);
      && (rel + [e.0], e.1) in r
      && rest.Ok? && (forall y :: y in rest.value ==> y in r)
      && (e.1.Dir? && recursive ==>
            Walk(rel + [e.0], e.1, showHidden, recursive).Ok?
            && forall y :: y in Walk(rel + [e.0], e.1, showHidden, recursive).value ==> y in r)
  {
    var e := es[0];
    assert e in parent.entries;
  }

  /** `x` lies below `rel` through names the filter keeps. */
  predicate VisibleBelow(rel: Path, x: (Path, Node), showHidden: bool) {
    |x.0| > |rel| && x.0[..|rel|] == rel && VisiblePath(x.0[|rel|..], showHidden)
  }

  /** A walk emits nothing the hidden-file filter drops, at any depth. */
  lemma {:induction false} WalkVisible(rel: Path, node: Node, showHidden: bool, recursive: bool)
    ensures Walk(rel, node, showHidden, recursive).Ok? ==>
      forall x :: x in Walk(rel, node, showHidden, recursive).value ==> VisibleBelow(rel, x, showHidden)
    decreases node, 1
  {
    if node.Dir? && node.readable {
      VisibleMembers(node.entries, showHidden);
      var es := SortEntries(Visible(node.entries, showHidden));
      assert forall y :: y in es ==> y in node.entries;
      WalkEntriesVisible(rel, node, es, showHidden, recursive);
    }
  }

  lemma {:induction false} WalkEntriesVisible(rel: Path, parent: Node, es: seq<Entry>,
                                              showHidden: bool, recursive: bool)
    requires parent.Dir? && forall y :: y in es ==> y in parent.entries
    requires forall y :: y in es ==> showHidden || !Hidden(y.0)
    ensures WalkEntries(rel, parent, es, showHidden, recursive).Ok? ==>
      forall x :: x in WalkEntries(rel, parent, es, showHidden, recursive).value ==> VisibleBelow(rel, x, showHidden)
    decreases parent, 0, |es|
  {
    var r := WalkEntries(rel, parent, es, showHidden, recursive);
    if |es| > 0 && r.Ok? {
      var e := es[0];
      assert e in parent.entries;
      var rel' := rel + [e.0];
      var sub := if e.1.Dir? && recursive then Walk(rel', e.1, showHidden, recursive) else Ok([]);
      var rest := WalkEntries(rel, parent, es[1..], showHidden, recursive);
      assert sub.Ok? && rest.Ok? && r.value == sub.value + [(rel', e.1)] + rest.value;
      WalkVisible(rel', e.1, showHidden, recursive);
      WalkEntriesVisible(rel, parent, es[1..], showHidden, recursive);
      forall x | x in r.value ensures VisibleBelow(rel, x, showHidden) {
        if x in sub.value {
          VisibleThroughChild(rel, e.0, x, showHidden);
        } else if x == (rel', e.1) {
          assert x.0[|rel|..] == [e.0];
        }
      }
    }
  }

  lemma VisibleThroughChild(rel: Path, name: string, x: (Path, Node), showHidden: bool)
    requires showHidden || !Hidden(name)
    requires VisibleBelow(rel + [name], x, showHidden)
    ensures VisibleBelow(rel, x, showHidden)
  {
    var rel' := rel + [name];
    var t := x.0[|rel'|..];
    assert x.0 == rel' + t by { assert x.0[..|rel'|] == rel'; }
    assert x.0[|rel|..] == [name] + t;
    forall k | 0 <= k < |[name] + t| ensures showHidden || !Hidden(([name] + t)[k]) {
      if k > 0 { assert ([name] + t)[k] == t[k - 1]; }
    }
  }

  /** No path is emitted twice. */
  predicate DistinctPaths(w: seq<(Path, Node)>) {
    forall i, j :: 0 <= i < j < |w| ==> w[i].0 != w[j].0
  }

  lemma DistinctAround(a: seq<(Path, Node)>, m: (Path, Node), b: seq<(Path, Node)>, rel: Path, name: string)
    requires m.0 == rel + [name]
    requires DistinctPaths(a) && DistinctPaths(b)
    requires forall x :: x in a ==> Below(x.0, m.0)
    requires Branches(b, rel, name)
    ensures DistinctPaths(a + [m] + b)
  {
    var c := a + [m] + b;
    var n := |a|;
    forall i, j | 0 <= i < j < |c| ensures c[i].0 != c[j].0 {
      if j < n {
        assert c[i] == a[i] && c[j] == a[j];
      } else if j == n {
        assert c[i] in a;
      } else if i > n {
        assert c[i] == b[i - n - 1] && c[j] == b[j - n - 1];
      } else {
        assert c[j] in b;
        if i < n { assert c[i] in a; }
        InBranch(c[i].0, m.0, rel, name);
      }
    }
  }

  /** A walk of a well-formed tree emits each path once. */
  lemma {:induction false} WalkDistinct(rel: Path, node: Node, showHidden: bool, recursive: bool)
    requires WellFormed(node)
    ensures Walk(rel, node, showHidden, recursive).Ok? ==> DistinctPaths(Walk(rel, node, showHidden, recursive).value)
    decreases node, 1
  {
    if node.Dir? && node.readable {
      VisibleKeeps(node.entries, showHidden);
      var es := SortEntries(Visible(node.entries, showHidden));
      SortEntriesSorted(Visible(node.entries, showHidden));
      WalkEntriesDistinct(rel, node, es, showHidden, recursive);
    }
  }

  lemma {:induction false} WalkEntriesDistinct(rel: Path, parent: Node, es: seq<Entry>,
                                               showHidden: bool, recursive: bool)
    requires parent.Dir? && WellFormed(parent) && forall x :: x in es ==> x in parent.entries
    requires NoDupNames(es)
    ensures WalkEntries(rel, parent, es, showHidden, recursive).Ok? ==>
      DistinctPaths(WalkEntries(rel, parent, es, showHidden, recursive).value)
    decreases parent, 0, |es|
  {
    var r := WalkEntries(rel, parent, es, showHidden, recursive);
    if |es| > 0 && r.Ok? {
      var e := es[0];
      assert e in parent.entries;
      var i :| 0 <= i < |parent.entries| && parent.entries[i] == e;
      assert WellFormed(e.1);
      var rel' := rel + [e.0];
      var sub := if e.1.Dir? && recursive then Walk(rel', e.1, showHidden, recursive) else Ok([]);
      var rest := WalkEntries(rel, parent, es[1..], showHidden, recursive);
      assert sub.Ok? && rest.Ok?;
      WalkDistinct(rel', e.1, showHidden, recursive);
      WalkResolves(rel', e.1, showHidden, recursive);
      assert NoDupNames(es[1..]);
      WalkEntriesDistinct(rel, parent, es[1..], showHidden, recursive);
      WalkEntriesResolves(rel, parent, es[1..], showHidden, recursive);
      assert forall x :: x in sub.value ==> Below(x.0, rel') by {
        forall x | x in sub.value ensures Below(x.0, rel') {
          assert Emitted(rel', e.1, x);
        }
      }
      assert e.0 !in NamesOf(es[1..]) by {
        forall y | y in es[1..] ensures y.0 != e.0 {
          var j :| 0 <= j < |es[1..]| && es[1..][j] == y;
          assert es[j + 1] == y;
        }
      }
      assert Branches(rest.value, rel, e.0) by {
        forall x | x in rest.value ensures |x.0| > |rel| && x.0[..|rel|] == rel && x.0[|rel|] != e.0 {
          assert Emitted(rel, parent, x) && x.0[|rel|] in NamesOf(es[1..]);
        }
      }
      DistinctAround(sub.value, (rel', e.1), rest.value, rel, e.0);
    }
  }

  /** Two paths naming entries of the same directory. */
  predicate Siblings(p: Path, q: Path) {
    |p| == |q| > 0 && Parent(p) == Parent(q)
  }

  /** Entries of one directory are emitted in the sorted order: directories first, then
      names ascending. */
  predicate SiblingsOrdered(w: seq<(Path, Node)>) {
    forall i, j :: 0 <= i < j < |w| && Siblings(w[i].0, w[j].0) ==>
      !EntryLess((Base(w[j].0), w[j].1), (Base(w[i].0), w[i].1))
  }

  /** An emitted path one name below `rel` is the pair of an entry the walk was given. */
  lemma TopEntry(rel: Path, parent: Node, es: seq<Entry>, y: (Path, Node))
    requires parent.Dir? && WellFormed(parent) && forall x :: x in es ==> x in parent.entries
    requires Emitted(rel, parent, y) && y.0[|rel|] in NamesOf(es) && |y.0| == |rel| + 1
    ensures (Base(y.0), y.1) in es
  {
    var name := y.0[|rel|];
    var z :| z in es && z.0 == name;
    assert z in parent.entries;
    ChildOfEntry(parent.entries, z);
    assert y.0[|rel|..] == [name];
    assert Lookup(parent, [name]) == Lookup(z.1, []);
  }

  lemma SiblingsAround(a: seq<(Path, Node)>, e: Entry, b: seq<(Path, Node)>, rel: Path, later: seq<Entry>)
    requires SiblingsOrdered(a) && SiblingsOrdered(b)
    requires forall x :: x in a ==> Below(x.0, rel + [e.0])
    requires Branches(b, rel, e.0)
    requires forall y :: y in b && |y.0| == |rel| + 1 ==> (Base(y.0), y.1) in later
    requires forall z :: z in later ==> !EntryLess(z, e)
    ensures SiblingsOrdered(a + [(rel + [e.0], e.1)] + b)
  {
    var m := (rel + [e.0], e.1);
    var c := a + [m] + b;
    var n := |a|;
    forall i, j | 0 <= i < j < |c| && Siblings(c[i].0, c[j].0)
      ensures !EntryLess((Base(c[j].0), c[j].1), (Base(c[i].0), c[i].1))
    {
      if j < n {
        assert c[i] == a[i] && c[j] == a[j];
      } else if i > n {
        assert c[i] == b[i - n - 1] && c[j] == b[j - n - 1];
      } else if i == n {
        assert c[j] in b;
        assert Base(c[i].0) == e.0;
      }
    }
  }

  /** A walk of a well-formed tree lists each directory's entries in the sorted order. */
  lemma {:induction false} WalkSiblings(rel: Path, node: Node, showHidden: bool, recursive: bool)
    requires WellFormed(node)
    ensures Walk(rel, node, showHidden, recursive).Ok? ==> SiblingsOrdered(Walk(rel, node, showHidden, recursive).value)
    decreases node, 1
  {
    if node.Dir? && node.readable {
      VisibleKeeps(node.entries, showHidden);
      var es := SortEntries(Visible(node.entries, showHidden));
      SortEntriesSorted(Visible(node.entries, showHidden));
      WalkEntriesSiblings(rel, node, es, showHidden, recursive);
    }
  }

  lemma {:induction false} WalkEntriesSiblings(rel: Path, parent: Node, es: seq<Entry>,
                                               showHidden: bool, recursive: bool)
    requires parent.Dir? && WellFormed(parent) && forall x :: x in es ==> x in parent.entries
    requires NoDupNames(es) && SortedEntries(es)
    ensures WalkEntries(rel, parent, es, showHidden, recursive).Ok? ==>
      SiblingsOrdered(WalkEntries(rel, parent, es, showHidden, recursive).value)
    decreases parent, 0, |es|
  {
    var r := WalkEntries(rel, parent, es, showHidden, recursive);
    if |es| > 0 && r.Ok? {
      var e := es[0];
      assert e in parent.entries;
      var i :| 0 <= i < |parent.entries| && parent.entries[i] == e;
      assert WellFormed(e.1);
      var rel' := rel + [e.0];
      var sub := if e.1.Dir? && recursive then Walk(rel', e.1, showHidden, recursive) else Ok([]);
      var rest := WalkEntries(rel, parent, es[1..], showHidden, recursive);
      assert sub.Ok? && rest.Ok? && r.value == sub.value + [(rel', e.1)] + rest.value;
      WalkSiblings(rel', e.1, showHidden, recursive);
      WalkResolves(rel', e.1, showHidden, recursive);
      assert NoDupNames(es[1..]) && SortedEntries(es[1..]);
      WalkEntriesSiblings(rel, parent, es[1..], showHidden, recursive);
      WalkEntriesResolves(rel, parent, es[1..], showHidden, recursive);
      assert forall x :: x in sub.value ==> Below(x.0, rel') by {
        forall x | x in sub.value ensures Below(x.0, rel') {
          assert Emitted(rel', e.1, x);
        }
      }
      assert forall z :: z in es[1..] ==> z.0 != e.0 && !EntryLess(z, e) by {
        forall z | z in es[1..] ensures z.0 != e.0 && !EntryLess(z, e) {
          var j :| 0 <= j < |es[1..]| && es[1..][j] == z;
          assert es[j + 1] == z;
        }
      }
      assert Branches(rest.value, rel, e.0) by {
        forall x | x in rest.value ensures |x.0| > |rel| && x.0[..|rel|] == rel && x.0[|rel|] != e.0 {
          assert Emitted(rel, parent, x) && x.0[|rel|] in NamesOf(es[1..]);
        }
      }
      forall y | y in rest.value && |y.0| == |rel| + 1 ensures (Base(y.0), y.1) in es[1..] {
        TopEntry(rel, parent, es[1..], y);
      }
      SiblingsAround(sub.value, e, rest.value, rel, es[1..]);
    }
  }

  /** The recursive listing is complete and exact: every path below the directory whose
      names the filter keeps is emitted once, nothing else is, and each directory's
      entries come directories first, then by name. */
  lemma RecursiveListingComplete(fs: Node, path: Path, showHidden: bool, marked: seq<Path>)
    requires WellFormed(fs)
    requires LoadResult(fs, path, showHidden, true, marked).Listed?
    ensures
      var w := Walk([], Lookup(fs, path).value, showHidden, true).value;
      && LoadResult(fs, path, showHidden, true, marked).items == Items(path, marked, w)
      && (forall t :: |t| > 0 && VisiblePath(t, showHidden) && Lookup(fs, path + t).Some? ==>
            (t, Lookup(fs, path + t).value) in w)
      && (forall x :: x in w ==> |x.0| > 0 && VisiblePath(x.0, showHidden))
      && DistinctPaths(w)
      && SiblingsOrdered(w)
  {
    var n := Lookup(fs, path).value;
    WellFormedLookup(fs, path);
    var w := Walk([], n, showHidden, true).value;
    forall t | |t| > 0 && VisiblePath(t, showHidden) && Lookup(fs, path + t).Some?
      ensures (t, Lookup(fs, path + t).value) in w
    {
      LookupConcat(fs, path, t);
      WalkComplete([], n, showHidden, t);
      assert [] + t == t;
    }
    WalkVisible([], n, showHidden, true);
    forall x | x in w ensures |x.0| > 0 && VisiblePath(x.0, showHidden) {
      assert VisibleBelow([], x, showHidden);
      assert x.0[0..] == x.0;
    }
    WalkDistinct([], n, showHidden, true);
    WalkSiblings([], n, showHidden, true);
  }

  /** No two items carry the same secondary text. */
  predicate DistinctTexts(s: seq<ListItem>) {
    forall i, j :: 0 <= i < j < |s| ==> s[i].secondary != s[j].secondary
  }

  /** The recursive listing names each entry once: no two items share a relative path. */
  lemma RecursiveTextsDistinct(fs: Node, path: Path, showHidden: bool, marked: seq<Path>)
    requires WellFormed(fs)
    requires LoadResult(fs, path, showHidden, true, marked).Listed?
    ensures DistinctTexts(LoadResult(fs, path, showHidden, true, marked).items)
  {
    var n := Lookup(fs, path).value;
    WellFormedLookup(fs, path);
    RecursiveListing(fs, path, showHidden, marked);
    WalkTextsDistinct(n, showHidden);
  }

  /** The paths a recursive walk emits are written differently. */
  lemma WalkTextsDistinct(n: Node, showHidden: bool)
    requires WellFormed(n) && Walk([], n, showHidden, true).Ok?
    ensures var w := Walk([], n, showHidden, true).value;
      forall i, j :: 0 <= i < j < |w| ==> Text.Join(w[i].0, '/') != Text.Join(w[j].0, '/')
  {
    var w := Walk([], n, showHidden, true).value;
    WalkDistinct([], n, showHidden, true);
    WalkResolves([], n, showHidden, true);
    forall i, j | 0 <= i < j < |w| ensures Text.Join(w[i].0, '/') != Text.Join(w[j].0, '/') {
      assert Emitted([], n, w[i]) && Emitted([], n, w[j]);
      assert w[i].0[0..] == w[i].0 && w[j].0[0..] == w[j].0;
      JoinsDiffer(w[i].0, w[j].0);
    }
  }

  /** Different valid paths have different written forms. */
  lemma JoinsDiffer(a: Path, b: Path)
    requires ValidPath(a) && ValidPath(b) && |a| > 0 && |b| > 0 && a != b
    ensures Text.Join(a, '/') != Text.Join(b, '/')
  {
    Text.SplitJoin(a, '/');
    Text.SplitJoin(b, '/');
  }

  /** helper.IsDirectoryEmpty and the listing agree when hidden files are shown: an empty
      directory lists nothing whatever the setting, and a directory that lists nothing
      with hidden files shown is empty. */
  lemma EmptyDirectoryLists(fs: Node, path: Path, showHidden: bool, recursive: bool, marked: seq<Path>)
    ensures IsDirectoryEmpty(fs, path) ==> LoadResult(fs, path, showHidden, recursive, marked) == Listed([])
    ensures LoadResult(fs, path, true, recursive, marked) == Listed([]) ==> IsDirectoryEmpty(fs, path)
  {
    LoadCases(fs, path, showHidden, recursive, marked);
    if LoadResult(fs, path, true, recursive, marked) == Listed([]) {
      var n := Lookup(fs, path).value;
      VisibleAll(n.entries);
      assert Walk([], n, true, recursive).Ok?;
    }
  }

  /** With hidden files hidden, a directory holding only hidden entries is not empty for
      helper.IsDirectoryEmpty, yet it lists nothing. */
  lemma HiddenOnlyListsNothing()
    ensures var fs := Dir([(".h", File([], false))], true);
      && !IsDirectoryEmpty(fs, [])
      && LoadResult(fs, [], false, false, []) == Listed([])
  {
    var es := [(".h", File([], false))];
    assert es[..0] == [];
    assert Visible(es, false) == [];
  }
}
