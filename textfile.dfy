/** helper.IsTextFile: the first 4096 bytes of a file hold no 0 byte and are well-formed
    UTF-8. The check is Go's utf8.Valid (a lead-byte table and accept ranges), proved
    equal to the UTF-8 grammar of section 4 of RFC 3629. */
module TextFile {
  import opened Wrappers
  import opened FileSystem

  /** UTF8-tail = %x80-BF */
  predicate Tail(b: byte) {
    0x80 <= b <= 0xBF
  }

  /** `c` is exactly one UTF8-char of section 4 of RFC 3629. */
  predicate Utf8Char(c: seq<byte>) {
    if |c| == 1 then
      c[0] <= 0x7F
    else if |c| == 2 then
      0xC2 <= c[0] <= 0xDF && Tail(c[1])
    else if |c| == 3 then
      || (c[0] == 0xE0 && 0xA0 <= c[1] <= 0xBF && Tail(c[2]))
      || (0xE1 <= c[0] <= 0xEC && Tail(c[1]) && Tail(c[2]))
      || (c[0] == 0xED && 0x80 <= c[1] <= 0x9F && Tail(c[2]))
      || (0xEE <= c[0] <= 0xEF && Tail(c[1]) && Tail(c[2]))
    else if |c| == 4 then
      || (c[0] == 0xF0 && 0x90 <= c[1] <= 0xBF && Tail(c[2]) && Tail(c[3]))
      || (0xF1 <= c[0] <= 0xF3 && Tail(c[1]) && Tail(c[2]) && Tail(c[3]))
      || (c[0] == 0xF4 && 0x80 <= c[1] <= 0x8F && Tail(c[2]) && Tail(c[3]))
    else
      false
  }

  /** UTF8-octets = *( UTF8-char ) */
  predicate WellFormedUtf8(s: seq<byte>)
    decreases |s|
  {
    |s| == 0 || exists n :: 1 <= n <= 4 && n <= |s| && Utf8Char(s[..n]) && WellFormedUtf8(s[n..])
  }

  /** The lead byte decides the length of a UTF8-char. */
  lemma CharLength(s: seq<byte>, n: nat, m: nat)
    requires 1 <= n <= |s| && 1 <= m <= |s|
    requires Utf8Char(s[..n]) && Utf8Char(s[..m])
    ensures n == m
  {
    assert s[..n][0] == s[0] && s[..m][0] == s[0];
  }

  // Go's classification of a first byte: the low three bits give the length of the
  // sequence, the high four the accept range of its second byte.
  const RuneSelf: byte := 0x80
  const XX: byte := 0xF1
  const AS: byte := 0xF0
  const S1: byte := 0x02
  const S2: byte := 0x13
  const S3: byte := 0x03
  const S4: byte := 0x23
  const S5: byte := 0x34
  const S6: byte := 0x04
  const S7: byte := 0x44
  const Locb: byte := 0x80
  const Hicb: byte := 0xBF

  /** Go's `first` table. */
  function First(b: byte): byte {
    if b < 0x80 then AS
    else if b < 0xC2 then XX
    else if b < 0xE0 then S1
    else if b == 0xE0 then S2
    else if b < 0xED then S3
    else if b == 0xED then S4
    else if b < 0xF0 then S3
    else if b == 0xF0 then S5
    else if b < 0xF4 then S6
    else if b == 0xF4 then S7
    else XX
  }

  datatype AcceptRange = AcceptRange(lo: byte, hi: byte)

  /** Go's `acceptRanges` table; the entries Go leaves at their zero value are (0, 0). */
  function AcceptRanges(i: nat): AcceptRange {
    if i == 0 then AcceptRange(Locb, Hicb)
    else if i == 1 then AcceptRange(0xA0, Hicb)
    else if i == 2 then AcceptRange(Locb, 0x9F)
    else if i == 3 then AcceptRange(0x90, Hicb)
    else if i == 4 then AcceptRange(Locb, 0x8F)
    else AcceptRange(0, 0)
  }

  /** The length of the UTF8-char a byte can start, by the grammar; 0 for none. */
  function GrammarLength(b: byte): nat {
    if b <= 0x7F then 1
    else if 0xC2 <= b <= 0xDF then 2
    else if 0xE0 <= b <= 0xEF then 3
    else if 0xF0 <= b <= 0xF4 then 4
    else 0
  }

  lemma CharHasGrammarLength(c: seq<byte>)
    requires Utf8Char(c)
    ensures |c| == GrammarLength(c[0])
  {
  }

  /** A UTF-8 sequence starts with a UTF8-char of the length its first byte gives. */
  lemma WellFormedFirst(s: seq<byte>)
    requires |s| > 0
    ensures var n := GrammarLength(s[0]);
      WellFormedUtf8(s) <==> 1 <= n <= |s| && Utf8Char(s[..n]) && WellFormedUtf8(s[n..])
  {
    if WellFormedUtf8(s) {
      var n :| 1 <= n <= 4 && n <= |s| && Utf8Char(s[..n]) && WellFormedUtf8(s[n..]);
      CharHasGrammarLength(s[..n]);
      assert s[..n][0] == s[0];
    }
  }

  /** Go's table gives the grammar's lengths. */
  lemma FirstSize(b: byte)
    requires b >= RuneSelf
    ensures First(b) == XX <==> GrammarLength(b) == 0
    ensures First(b) != XX ==> (First(b) % 8) as int == GrammarLength(b)
  {
  }

  /** Go's accept ranges and continuation checks accept exactly the grammar's UTF8-chars. */
  lemma AcceptAgrees(c: seq<byte>)
    requires |c| >= 2 && c[0] >= RuneSelf && GrammarLength(c[0]) == |c|
    ensures var accept := AcceptRanges((First(c[0]) / 16) as nat);
      Utf8Char(c) <==>
        && accept.lo <= c[1] <= accept.hi
        && (|c| >= 3 ==> Locb <= c[2] <= Hicb)
        && (|c| == 4 ==> Locb <= c[3] <= Hicb)
  {
  }

  /** What utf8.Valid accepts at a non-ASCII first byte, stated on the grammar. */
  lemma LeadByte(s: seq<byte>)
    requires |s| > 0 && s[0] >= RuneSelf
    ensures
      var x := First(s[0]);
      var size := (x % 8) as int;
      var accept := AcceptRanges((x / 16) as nat);
      WellFormedUtf8(s) <==>
        && x != XX && size <= |s|
        && accept.lo <= s[1] <= accept.hi
        && (size >= 3 ==> Locb <= s[2] <= Hicb)
        && (size == 4 ==> Locb <= s[3] <= Hicb)
        && WellFormedUtf8(s[size..])
  {
    WellFormedFirst(s);
    FirstSize(s[0]);
    var n := GrammarLength(s[0]);
    if 2 <= n <= |s| {
      var c := s[..n];
      assert c[0] == s[0] && c[1] == s[1];
      assert n >= 3 ==> c[2] == s[2];
      assert n >= 4 ==> c[3] == s[3];
      AcceptAgrees(c);
    }
  }

  /** LeadByte at position `i` of `p`. */
  lemma LeadByteAt(p: seq<byte>, i: nat)
    requires i < |p| && p[i] >= RuneSelf
    ensures
      var x := First(p[i]);
      var size := (x % 8) as int;
      var accept := AcceptRanges((x / 16) as nat);
      && (x != XX ==> 2 <= size <= 4)
      && (WellFormedUtf8(p[i..]) <==>
            && x != XX && i + size <= |p|
            && accept.lo <= p[i + 1] <= accept.hi
            && (size >= 3 ==> Locb <= p[i + 2] <= Hicb)
            && (size == 4 ==> Locb <= p[i + 3] <= Hicb)
            && WellFormedUtf8(p[i + size..]))
  {
    FirstSize(p[i]);
    LeadByte(p[i..]);
    var x := First(p[i]);
    var size := (x % 8) as int;
    if x != XX && i + size <= |p| {
      assert p[i..][size..] == p[i + size..];
    }
  }

  lemma AsciiByte(s: seq<byte>)
    requires |s| > 0 && s[0] < RuneSelf
    ensures WellFormedUtf8(s) <==> WellFormedUtf8(s[1..])
  {
    assert Utf8Char(s[..1]);
    if WellFormedUtf8(s) {
      var n :| 1 <= n <= 4 && n <= |s| && Utf8Char(s[..n]) && WellFormedUtf8(s[n..]);
      CharLength(s, n, 1);
    }
  }

  /** utf8.Valid, without its eight-bytes-at-a-time ASCII shortcut (which skips only
      bytes the loop below also accepts one by one). */
  method Valid(p: seq<byte>) returns (ok: bool)
    ensures ok == WellFormedUtf8(p)
  {
    var n := |p|;
    var i := 0;
    while i < n
      invariant 0 <= i <= n
      invariant WellFormedUtf8(p) == WellFormedUtf8(p[i..])
    {
      var pi := p[i];
      if pi < RuneSelf {
        AsciiByte(p[i..]);
        assert p[i..][1..] == p[i + 1..];
        i := i + 1;
        continue;
      }
      var fits, size := LeadSequence(p, i);
      if !fits {
        return false;
      }
      i := i + size;
    }
    return true;
  }

  /** The checks of utf8.Valid at a non-ASCII first byte: the sequence's size from the
      `first` table, its second byte against the accept range, the others against the
      continuation range. */
  method LeadSequence(p: seq<byte>, i: nat) returns (fits: bool, size: nat)
    requires i < |p| && p[i] >= RuneSelf
    ensures fits ==>
      && 2 <= size <= 4 && i + size <= |p|
      && (WellFormedUtf8(p[i..]) <==> WellFormedUtf8(p[i + size..]))
    ensures !fits ==> !WellFormedUtf8(p[i..])
  {
    LeadByteAt(p, i);
    var x := First(p[i]);
    if x == XX {
      return false, 0;
    }
    size := (x % 8) as int;
    if i + size > |p| {
      return false, 0;
    }
    var accept := AcceptRanges((x / 16) as nat);
    var c := p[i + 1];
    if c < accept.lo || accept.hi < c {
      return false, 0;
    } else if size == 2 {
    } else if p[i + 2] < Locb || Hicb < p[i + 2] {
      return false, 0;
    } else if size == 3 {
    } else if p[i + 3] < Locb || Hicb < p[i + 3] {
      return false, 0;
    }
    fits := true;
  }

  /** bytes.IndexByte: the first position of `c`, or -1. */
  method IndexByte(b: seq<byte>, c: byte) returns (r: int)
    ensures -1 <= r < |b|
    ensures r == -1 <==> c !in b
    ensures r >= 0 ==> b[r] == c && c !in b[..r]
  {
    var i := 0;
    while i < |b|
      invariant 0 <= i <= |b|
      invariant c !in b[..i]
    {
      if b[i] == c {
        return i;
      }
      assert b[..i + 1] == b[..i] + [b[i]];
      i := i + 1;
    }
    assert b[..i] == b;
    return -1;
  }

  const BufferSize := 4096

  /** The bytes one Read of a 4096-byte buffer gets from the file at `p`; None when the
      file cannot be opened or read (nothing there, or a directory). */
  function FirstBlock(fs: Node, p: Path): (r: Option<seq<byte>>)
    ensures r.Some? ==> |r.value| <= BufferSize
  {
    match Lookup(fs, p)
    case Some(File(content, _)) =>
      Some(if |content| <= BufferSize then content else content[..BufferSize])
    case _ => None
  }

  /** helper.IsTextFile. */
  method IsTextFile(fs: Node, p: Path) returns (r: bool)
    ensures r <==> FirstBlock(fs, p).Some? && 0 !in FirstBlock(fs, p).value
                   && WellFormedUtf8(FirstBlock(fs, p).value)
  {
    var buffer := FirstBlock(fs, p);
    if buffer.None? {
      return false;
    }
    var z := IndexByte(buffer.value, 0);
    if z != -1 {
      return false;
    }
    r := Valid(buffer.value);
  }

  /** Text bytes without a 0 byte and files of ASCII letters are text; a lone
      continuation byte is not. */
  lemma TextExamples()
    ensures WellFormedUtf8([0x41, 0xC3, 0xA9])
    ensures !WellFormedUtf8([0x80])
    ensures !WellFormedUtf8([0xED, 0xA0, 0x80])
  {
    var s: seq<byte> := [0x41, 0xC3, 0xA9];
    assert Utf8Char(s[..1]) && s[1..] == [0xC3, 0xA9];
    var t: seq<byte> := [0xC3, 0xA9];
    assert Utf8Char(t[..2]) && t[2..] == [];
    LeadByte([0x80]);
    LeadByte([0xED, 0xA0, 0x80]);
  }
}
