/** The explorer's key buffer and its chords (internal/explorer/explorer.go): every rune
    key is appended to the buffer, which is cut back when it grows past five characters,
    and the buffer's end is matched against a fixed list of chords. */
module Chords {
  import opened Wrappers
  import Text

  /** A key event: the three control keys handled before the buffer, or any other key
      with its rune. */
  datatype Key = CtrlH | CtrlD | CtrlU | Rune(c: char)

  datatype Command =
    | GoTop | Delete | ForceDelete | Yank | Paste
    | ToggleMark | UnmarkAll | DeleteMarked | ForceDeleteMarked | YankMarked | PasteMarked
    | SetAnchor(key: string) | JumpToAnchor(key: string)

  /** The buffer after appending a rune: past five characters it keeps all but the
      first four. */
  function Buffered(buffer: string, c: char): (r: string)
    requires |buffer| <= 5
    ensures |r| <= 5
    ensures Text.HasSuffix(buffer + [c], r) && |r| >= 1 && r[|r| - 1] == c
  {
    var b := buffer + [c];
    if |b| > 5 then b[4..] else b
  }

  /** The two-character chords, in the order they are tried. */
  const Table: seq<(string, Command)> := [
    ("gg", GoTop), ("dd", Delete), ("DD", ForceDelete), ("yy", Yank), ("pp", Paste),
    ("mm", ToggleMark), ("mu", UnmarkAll), ("md", DeleteMarked), ("mD", ForceDeleteMarked),
    ("my", YankMarked), ("mp", PasteMarked)]

  /** The command of the first table entry the buffer ends with. */
  function FirstChord(buffer: string, table: seq<(string, Command)>): (r: Option<Command>)
    ensures r.None? <==> forall i :: 0 <= i < |table| ==> !Text.HasSuffix(buffer, table[i].0)
    ensures r.Some? ==>
      exists i :: 0 <= i < |table| && table[i].1 == r.value && Text.HasSuffix(buffer, table[i].0)
                  && forall j :: 0 <= j < i ==> !Text.HasSuffix(buffer, table[j].0)
  {
    if |table| == 0 then None
    else if Text.HasSuffix(buffer, table[0].0) then Some(table[0].1)
    else
      assert forall j :: 1 <= j < |table| ==> table[j] == table[1..][j - 1];
      FirstChord(buffer, table[1..])
  }

  lemma {:induction false} FirstChordAt(buffer: string, table: seq<(string, Command)>, i: nat)
    requires i < |table| && Text.HasSuffix(buffer, table[i].0)
    requires forall j :: 0 <= j < i ==> !Text.HasSuffix(buffer, table[j].0)
    ensures FirstChord(buffer, table) == Some(table[i].1)
  {
    if i > 0 {
      assert forall j :: 0 <= j < i - 1 ==> table[1..][j] == table[j + 1];
      FirstChordAt(buffer, table[1..], i - 1);
    }
  }

  predicate IsAlnum(c: char) {
    ('a' <= c <= 'z') || ('A' <= c <= 'Z') || ('0' <= c <= '9')
  }

  predicate AllAlnum(s: string) {
    forall k :: 0 <= k < |s| ==> IsAlnum(s[k])
  }

  /** The submatch of `lead([a-zA-Z0-9]+)$` (FindStringSubmatch, leftmost match). */
  function LeadMatch(s: string, lead: char): (r: Option<string>)
    ensures r.Some? ==> |r.value| >= 1 && AllAlnum(r.value) && Text.HasSuffix(s, [lead] + r.value)
  {
    if |s| < 2 then None
    else if s[0] == lead && AllAlnum(s[1..]) then
      assert s == [lead] + s[1..];
      Some(s[1..])
    else
      var r := LeadMatch(s[1..], lead);
      assert r.Some? ==> s[|s| - |[lead] + r.value|..] == s[1..][|s[1..]| - |[lead] + r.value|..];
      r
  }

  /** The regular expression matches whenever the string ends with the lead character
      followed by at least one letter or digit. */
  lemma {:induction false} LeadMatchFinds(u: string, lead: char, t: string)
    requires |t| >= 1 && AllAlnum(t)
    ensures LeadMatch(u + [lead] + t, lead).Some?
    decreases |u|
  {
    var s := u + [lead] + t;
    if |u| == 0 {
      assert s == [lead] + t && s[1..] == t;
    } else {
      assert s[1..] == u[1..] + [lead] + t;
      LeadMatchFinds(u[1..], lead, t);
    }
  }

  /** The command the buffer selects: the chords of the table in order (the source's
      chain of strings.HasSuffix tests), then the two anchor expressions. */
  method Recognize(buffer: string) returns (r: Option<Command>)
    ensures r == Chord(buffer)
  {
    var i := 0;
    while i < |Table|
      invariant 0 <= i <= |Table|
      invariant forall j :: 0 <= j < i ==> !Text.HasSuffix(buffer, Table[j].0)
    {
      if Text.HasSuffix(buffer, Table[i].0) {
        FirstChordAt(buffer, Table, i);
        return Some(Table[i].1);
      }
      i := i + 1;
    }
    var setKey := LeadMatch(buffer, 'A');
    if setKey.Some? {
      return Some(SetAnchor(setKey.value));
    }
    var jump := LeadMatch(buffer, 'a');
    if jump.Some? {
      return Some(JumpToAnchor(jump.value));
    }
    return None;
  }

  /** The reference definition of the recognition: the first table chord, else an anchor
      chord (setting before jumping). */
  function Chord(buffer: string): Option<Command> {
    match FirstChord(buffer, Table)
    case Some(c) => Some(c)
    case None =>
      match LeadMatch(buffer, 'A')
      case Some(k) => Some(SetAnchor(k))
      case None =>
        match LeadMatch(buffer, 'a')
        case Some(k) => Some(JumpToAnchor(k))
        case None => None
  }

  /** A buffer that holds no chord, as every buffer between two keys does. */
  predicate Quiet(buffer: string) {
    |buffer| <= 5 && Chord(buffer).None?
  }

  /** The buffer after a key, and the command it selects: a selected command clears the
      buffer; the control keys leave it alone. */
  function Step(buffer: string, key: Key): (r: (string, Option<Command>))
    requires |buffer| <= 5
    ensures |r.0| <= 5
    ensures !key.Rune? ==> r == (buffer, None)
    ensures r.1.Some? ==> r.0 == "" && r.1 == Chord(Buffered(buffer, key.c))
    ensures key.Rune? && r.1.None? ==> r.0 == Buffered(buffer, key.c)
    ensures Quiet(buffer) ==> Quiet(r.0)
  {
    match key
    case Rune(c) =>
      var b := Buffered(buffer, c);
      if Chord(b).Some? then ("", Chord(b)) else (b, None)
    case _ => (buffer, None)
  }

  /** Every chord of the table has two characters, and none is an anchor command. */
  lemma TableFacts()
    ensures forall i :: 0 <= i < |Table| ==>
      |Table[i].0| == 2 && !Table[i].1.SetAnchor? && !Table[i].1.JumpToAnchor?
  {
  }

  lemma AnchorChord(b: string)
    ensures Chord(b).Some? && Chord(b).value.SetAnchor? ==> LeadMatch(b, 'A') == Some(Chord(b).value.key)
    ensures Chord(b).Some? && Chord(b).value.JumpToAnchor? ==> LeadMatch(b, 'a') == Some(Chord(b).value.key)
  {
    var f := FirstChord(b, Table);
    if f.Some? {
      TableFacts();
      var i :| 0 <= i < |Table| && Table[i].1 == f.value;
      assert !f.value.SetAnchor? && !f.value.JumpToAnchor?;
    }
  }

  /** The cleared buffer is quiet. */
  lemma QuietEmpty()
    ensures Quiet("")
  {
    TableFacts();
    assert forall i :: 0 <= i < |Table| ==> !Text.HasSuffix("", Table[i].0);
  }

  /** A quiet buffer matches neither anchor expression. */
  lemma QuietHasNoAnchor(buffer: string)
    requires Quiet(buffer)
    ensures LeadMatch(buffer, 'A').None? && LeadMatch(buffer, 'a').None?
  {
  }

  /** A match of two or more characters after a key was a match before it. */
  lemma LongMatchWasThere(buffer: string, c: char, lead: char)
    requires |buffer| <= 5
    requires LeadMatch(Buffered(buffer, c), lead).Some?
    requires |LeadMatch(Buffered(buffer, c), lead).value| >= 2
    ensures LeadMatch(buffer, lead).Some?
  {
    var b := Buffered(buffer, c);
    var k := LeadMatch(b, lead).value;
    var full := buffer + [c];
    var tail := [lead] + k;
    assert Text.HasSuffix(b, tail);
    assert Text.HasSuffix(full, b);
    assert full[|full| - |tail|..] == b[|b| - |tail|..];
    var u := full[..|full| - |tail|];
    var t := k[..|k| - 1];
    assert full == u + tail;
    assert buffer == full[..|full| - 1];
    assert buffer == u + [lead] + t;
    assert AllAlnum(t);
    LeadMatchFinds(u, lead, t);
  }

  /** The buffer is quiet between keys, so an anchor chord always carries a key of one
      character: the buffer would have matched one key earlier otherwise. */
  lemma AnchorKeyIsOneChar(buffer: string, c: char)
    requires Quiet(buffer)
    ensures var r := Step(buffer, Rune(c)).1;
      (r.Some? && (r.value.SetAnchor? || r.value.JumpToAnchor?)) ==> |r.value.key| == 1
  {
    QuietHasNoAnchor(buffer);
    var b := Buffered(buffer, c);
    var r := Step(buffer, Rune(c)).1;
    if r.Some? && (r.value.SetAnchor? || r.value.JumpToAnchor?) {
      var lead := if r.value.SetAnchor? then 'A' else 'a';
      AnchorChord(b);
      if |r.value.key| >= 2 {
        LongMatchWasThere(buffer, c, lead);
      }
    }
  }
}
