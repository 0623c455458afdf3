/** The destination naming of helper.CopyFile: generateDuplicateFileName picks the first
    free name among `path`, `path_0`, `path_1`, ... */
module Naming {
  import opened Wrappers
  import Text
  import opened FileSystem

  /** The last component of `path` with "_k" appended, as the string `path + "_k"` names
      it; at the root that is "/_k". */
  function SuffixedName(p: Path, k: nat): string {
    (if |p| == 0 then "" else Base(p)) + "_" + Text.Itoa(k)
  }

  /** The path `path + "_" + strconv.Itoa(k)`: a sibling of `path`. */
  function Candidate(p: Path, k: nat): Path {
    Parent(p) + [SuffixedName(p, k)]
  }

  /** The names a directory holds; none if `q` is not a directory. */
  function ChildNames(fs: Node, q: Path): set<string> {
    match Lookup(fs, q)
    case Some(Dir(es, _)) => set x | x in es :: x.0
    case _ => {}
  }

  predicate Exists(fs: Node, p: Path) {
    Lookup(fs, p).Some?
  }

  lemma SuffixedInjective(p: Path, a: nat, b: nat)
    requires SuffixedName(p, a) == SuffixedName(p, b)
    ensures a == b
  {
    var stem := (if |p| == 0 then "" else Base(p)) + "_";
    assert SuffixedName(p, a) == stem + Text.Itoa(a) && SuffixedName(p, b) == stem + Text.Itoa(b);
    assert Text.Itoa(a) == SuffixedName(p, a)[|stem|..];
    assert Text.Itoa(b) == SuffixedName(p, b)[|stem|..];
    Text.ItoaInjective(a, b);
  }

  /** Something exists at `q + [name]` only if `name` is an entry of the directory at `q`. */
  lemma {:induction false} ExistsChild(fs: Node, q: Path, name: string)
    requires Exists(fs, q + [name])
    ensures name in ChildNames(fs, q)
    decreases |q|
  {
    if |q| == 0 {
      assert [] + [name] == [name];
      assert ([name])[1..] == [];
      var c := Child(fs.entries, name);
      var i :| 0 <= i < |fs.entries| && fs.entries[i] == (name, c.value);
    } else {
      assert (q + [name])[1..] == q[1..] + [name];
      var n := Child(fs.entries, q[0]).value;
      ExistsChild(n, q[1..], name);
      assert Lookup(fs, q) == Lookup(n, q[1..]);
    }
  }

  function CandidateNames(p: Path, m: nat): set<string> {
    set k: nat | k < m :: SuffixedName(p, k)
  }

  lemma {:induction false} CandidateNamesSize(p: Path, m: nat)
    ensures |CandidateNames(p, m)| == m
  {
    if m > 0 {
      CandidateNamesSize(p, m - 1);
      assert CandidateNames(p, m) == CandidateNames(p, m - 1) + {SuffixedName(p, m - 1)};
      if SuffixedName(p, m - 1) in CandidateNames(p, m - 1) {
        var k: nat :| k < m - 1 && SuffixedName(p, k) == SuffixedName(p, m - 1);
        SuffixedInjective(p, k, m - 1);
      }
    }
  }

  lemma {:induction false} SubsetSize<T>(a: set<T>, b: set<T>)
    requires a <= b
    ensures |a| <= |b|
  {
    if a != {} {
      var x :| x in a;
      SubsetSize(a - {x}, b - {x});
    }
  }

  /** There are no more taken candidates than entries in the directory. */
  lemma CandidatesBound(fs: Node, p: Path, m: nat)
    requires forall k: nat :: k < m ==> Exists(fs, Candidate(p, k))
    ensures m <= |ChildNames(fs, Parent(p))|
  {
    forall k: nat | k < m ensures SuffixedName(p, k) in ChildNames(fs, Parent(p)) {
      assert Exists(fs, Candidate(p, k));
      ExistsChild(fs, Parent(p), SuffixedName(p, k));
    }
    CandidateNamesSize(p, m);
    SubsetSize(CandidateNames(p, m), ChildNames(fs, Parent(p)));
  }

  /** generateDuplicateFileName(path, n), called with n = 0 by CopyFile: `path` itself when
      nothing is there, otherwise the first free candidate from `n` on. The result never
      names an existing entry. */
  function GenerateDuplicateFileName(fs: Node, p: Path, n: nat): (r: Path)
    requires forall k: nat :: k < n ==> Exists(fs, Candidate(p, k))
    ensures !Exists(fs, r)
    ensures !Exists(fs, p) ==> r == p
    ensures Exists(fs, p) ==>
      exists k: nat :: n <= k && r == Candidate(p, k) && forall j: nat :: n <= j < k ==> Exists(fs, Candidate(p, j))
    decreases |ChildNames(fs, Parent(p))| - n
  {
    if Exists(fs, p) then
      if Exists(fs, Candidate(p, n)) then
        CandidatesBound(fs, p, n + 1);
        GenerateDuplicateFileName(fs, p, n + 1)
      else Candidate(p, n)
    else p
  }
}
