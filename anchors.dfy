/** The anchor file edits of internal/helper/helper.go: GetLineWithKey finds a line by
    its prefix, AppendOrReplaceLineInFile replaces the line with the same first byte or
    appends one. The file is a value: missing, present but unreadable, or its content. */
module Anchors {
  import opened Wrappers
  import Text

  /** The anchor file as the helpers find it. */
  datatype AnchorFile = Missing | Unreadable | Content(text: string)

  /** The first line starting with `key`, or "" when there is none. */
  function FirstWithPrefix(lines: seq<string>, key: string): (r: string)
    ensures r == ""
         || exists i :: 0 <= i < |lines| && lines[i] == r && Text.HasPrefix(r, key)
                        && forall j :: 0 <= j < i ==> !Text.HasPrefix(lines[j], key)
    ensures (forall j :: 0 <= j < |lines| ==> !Text.HasPrefix(lines[j], key)) ==> r == ""
  {
    if |lines| == 0 then ""
    else if Text.HasPrefix(lines[0], key) then lines[0]
    else
      var r := FirstWithPrefix(lines[1..], key);
      assert forall j :: 1 <= j < |lines| ==> lines[j] == lines[1..][j - 1];
      r
  }

  /** GetLineWithKey: a missing file gives "", a file that cannot be read an error. */
  method GetLineWithKey(file: AnchorFile, key: string) returns (r: Result<string>)
    ensures file.Unreadable? <==> r.Err?
    ensures file.Missing? ==> r == Ok("")
    ensures file.Content? ==> r == Ok(FirstWithPrefix(Text.Lines(file.text), key))
  {
    if file.Missing? {
      return Ok("");
    }
    if file.Unreadable? {
      return Err;
    }
    var lines := Text.Lines(file.text);
    var i := 0;
    while i < |lines|
      invariant 0 <= i <= |lines|
      invariant FirstWithPrefix(lines, key) == FirstWithPrefix(lines[i..], key)
    {
      assert lines[i..][1..] == lines[i + 1..];
      if Text.HasPrefix(lines[i], key) {
        return Ok(lines[i]);
      }
      i := i + 1;
    }
    return Ok("");
  }

  /** The first byte of the UTF-8 encoding of `c` (section 3 of RFC 3629). */
  function LeadByte(c: char): (b: int)
    ensures 0 <= b < 0x100
    ensures c as int < 0x80 ==> b == c as int
    ensures c as int >= 0x80 ==> b >= 0xC0
  {
    var n := c as int;
    if n < 0x80 then n
    else if n < 0x800 then 0xC0 + n / 0x40
    else if n < 0x10000 then 0xE0 + n / 0x1000
    else 0xF0 + n / 0x40000
  }

  /** The line's first byte is `b`. */
  predicate StartsWith(line: string, b: int) {
    |line| > 0 && LeadByte(line[0]) == b
  }

  /** The index of the first line whose first byte is `c`, or -1. */
  function FirstMatch(lines: seq<string>, c: int): (r: int)
    ensures -1 <= r < |lines|
    ensures r >= 0 ==> StartsWith(lines[r], c) && forall j :: 0 <= j < r ==> !StartsWith(lines[j], c)
    ensures r == -1 ==> forall j :: 0 <= j < |lines| ==> !StartsWith(lines[j], c)
  {
    if |lines| == 0 then -1
    else if StartsWith(lines[0], c) then 0
    else
      var r := FirstMatch(lines[1..], c);
      assert forall j :: 1 <= j < |lines| ==> lines[j] == lines[1..][j - 1];
      if r == -1 then -1 else r + 1
  }

  /** The lines without one trailing empty line. */
  function DropEmptyLast(lines: seq<string>): (r: seq<string>)
    ensures r == lines || (|lines| > 0 && lines[|lines| - 1] == "" && r == lines[..|lines| - 1])
  {
    if |lines| > 0 && lines[|lines| - 1] == "" then lines[..|lines| - 1] else lines
  }

  /** The lines after the edit: the first line starting with byte `c` becomes `line`, or
      else `line` is appended after dropping one trailing empty line. */
  function NewLines(lines: seq<string>, line: string, c: int): (r: seq<string>)
    ensures |r| >= 1
  {
    var i := FirstMatch(lines, c);
    if i >= 0 then lines[i := line] else DropEmptyLast(lines) + [line]
  }

  /** The content with the newline AppendOrReplaceLineInFile ensures at its end. */
  function Terminated(content: string): (r: string)
    ensures |r| > 0 && r[|r| - 1] == '\n'
  {
    if Text.HasSuffix(content, "\n") then content else content + "\n"
  }

  /** The file after AppendOrReplaceLineInFile(path, content): a file that cannot be read
      is left as it is. */
  function Updated(file: AnchorFile, content: string): (r: AnchorFile)
    ensures file.Unreadable? <==> r.Unreadable?
    ensures !r.Missing?
    ensures r.Content? ==> |r.text| > 0 && r.text[|r.text| - 1] == '\n'
  {
    var c := Terminated(content);
    match file
    case Missing => Content(c)
    case Unreadable => Unreadable
    case Content(f) =>
      Content(Text.Join(NewLines(Text.Lines(f), Text.TrimSuffix(c, "\n"), LeadByte(c[0])), '\n') + "\n")
  }

  /** AppendOrReplaceLineInFile on the anchor file; the failures of MkdirAll and WriteFile
      are not modelled. */
  method AppendOrReplaceLineInFile(file: AnchorFile, content: string) returns (r: AnchorFile)
    ensures r == Updated(file, content)
  {
    var c := content;
    if !Text.HasSuffix(c, "\n") {
      c := c + "\n";
    }
    if file.Missing? {
      return Content(c);
    }
    if file.Unreadable? {
      return file;
    }
    var firstLetter := LeadByte(c[0]);
    var line := Text.TrimSuffix(c, "\n");
    var lines := Text.Lines(file.text);
    ghost var original := lines;
    var replaced := false;
    var i := 0;
    while i < |lines|
      invariant 0 <= i <= |lines|
      invariant lines == original
      invariant forall j :: 0 <= j < i ==> !StartsWith(original[j], firstLetter)
    {
      if |lines[i]| > 0 && LeadByte(lines[i][0]) == firstLetter {
        FirstMatchIs(original, firstLetter, i);
        lines := lines[i := line];
        replaced := true;
        break;
      }
      i := i + 1;
    }
    if !replaced {
      FirstMatchIs(original, firstLetter, -1);
      if |lines| > 0 && lines[|lines| - 1] == "" {
        lines := lines[..|lines| - 1];
      }
      lines := lines + [line];
    }
    assert lines == NewLines(original, line, firstLetter);
    return Content(Text.Join(lines, '\n') + "\n");
  }

  lemma FirstMatchIs(lines: seq<string>, c: int, i: int)
    requires -1 <= i < |lines|
    requires i >= 0 ==> StartsWith(lines[i], c)
    requires forall j :: 0 <= j < (if i < 0 then |lines| else i) ==> !StartsWith(lines[j], c)
    ensures FirstMatch(lines, c) == i
  {
    var m := FirstMatch(lines, c);
    assert m < 0 || StartsWith(lines[m], c);
  }

  /** Editing keeps every line but the one replaced. */
  lemma ReplaceKeepsOthers(lines: seq<string>, line: string, c: int)
    requires FirstMatch(lines, c) >= 0
    ensures var r := NewLines(lines, line, c);
      && |r| == |lines| && r[FirstMatch(lines, c)] == line
      && forall j :: 0 <= j < |lines| && j != FirstMatch(lines, c) ==> r[j] == lines[j]
  {
  }

  /** Without a line starting with byte `c`, the edit appends. */
  lemma AppendWhenAbsent(lines: seq<string>, line: string, c: int)
    requires forall j :: 0 <= j < |lines| ==> !StartsWith(lines[j], c)
    ensures NewLines(lines, line, c) == DropEmptyLast(lines) + [line]
  {
    FirstMatchIs(lines, c, -1);
  }

  lemma NoNewlineInLines(f: string, line: string, c: int)
    requires '\n' !in line
    ensures forall k :: 0 <= k < |NewLines(Text.Lines(f), line, c)| ==> '\n' !in NewLines(Text.Lines(f), line, c)[k]
  {
    var lines := Text.Lines(f);
    var r := NewLines(lines, line, c);
    forall k | 0 <= k < |r| ensures '\n' !in r[k] {
      var i := FirstMatch(lines, c);
      if i < 0 && k < |r| - 1 {
        assert r[k] == DropEmptyLast(lines)[k];
      }
    }
  }

  /** Setting the anchor for a one-character key and then looking the key up gives back
      the anchor's line. */
  lemma SetThenGet(file: AnchorFile, content: string)
    requires |content| >= 1 && '\n' !in content
    requires !file.Unreadable?
    ensures Updated(file, content).Content?
    ensures FirstWithPrefix(Text.Lines(Updated(file, content).text), content[..1]) == content
  {
    var key := content[..1];
    var nl := WrittenLines(file, content);
    var i := ContentIndex(file, content);
    WrittenSplits(file, content);
    FirstAt(nl + [""], key, i);
  }

  /** The lines AppendOrReplaceLineInFile joins for a content without a newline. */
  function WrittenLines(file: AnchorFile, content: string): seq<string>
    requires |content| >= 1
  {
    match file
    case Content(f) => NewLines(Text.Lines(f), content, LeadByte(content[0]))
    case _ => [content]
  }

  /** The written file splits into the joined lines and the empty piece after the last
      newline. */
  lemma WrittenSplits(file: AnchorFile, content: string)
    requires |content| >= 1 && '\n' !in content
    requires !file.Unreadable?
    ensures Updated(file, content).Content?
    ensures Text.Lines(Updated(file, content).text) == WrittenLines(file, content) + [""]
  {
    var c := Terminated(content);
    assert c == content + "\n";
    assert Text.TrimSuffix(c, "\n") == content;
    assert c[0] == content[0];
    var nl := WrittenLines(file, content);
    if file.Missing? {
      Text.SplitNoSep(content, '\n');
      assert Updated(file, content).text == content + ['\n'];
    } else {
      NoNewlineInLines(file.text, content, LeadByte(content[0]));
      Text.SplitJoin(nl, '\n');
      assert Updated(file, content).text == Text.Join(nl, '\n') + ['\n'];
    }
    Text.SplitSuffixSep(Text.Join(nl, '\n'), '\n');
  }

  /** Replacing a line of a file that ends with a newline keeps the empty piece after that
      newline and writes another newline after it: the file gains one empty line. */
  lemma ReplaceAddsEmptyLine(f: string, content: string)
    requires |content| >= 1 && '\n' !in content
    requires FirstMatch(Text.Lines(f + "\n"), LeadByte(content[0])) >= 0
    ensures var lines := Text.Lines(f + "\n");
      Text.Lines(Updated(Content(f + "\n"), content).text) == lines[FirstMatch(lines, LeadByte(content[0])) := content] + [""]
    ensures var lines := Text.Lines(f + "\n");
      Text.Lines(Updated(Content(f + "\n"), content).text)[|lines| - 1..] == ["", ""]
  {
    var lines := Text.Lines(f + "\n");
    Text.SplitSuffixSep(f, '\n');
    assert lines[|lines| - 1] == "";
    WrittenSplits(Content(f + "\n"), content);
    var i := FirstMatch(lines, LeadByte(content[0]));
    assert WrittenLines(Content(f + "\n"), content) == lines[i := content];
    LastTwoEmpty(lines, i, content);
  }

  lemma LastTwoEmpty(lines: seq<string>, i: int, line: string)
    requires 0 <= i < |lines| && lines[|lines| - 1] == "" && line != "" && lines[i] != ""
    ensures (lines[i := line] + [""])[|lines| - 1..] == ["", ""]
  {
  }

  /** Where the content sits among the written lines, with no line before it starting
      with its first character. */
  lemma ContentIndex(file: AnchorFile, content: string) returns (i: nat)
    requires |content| >= 1 && '\n' !in content
    ensures var nl := WrittenLines(file, content);
      && i < |nl| && nl[i] == content
      && forall j :: 0 <= j < i ==> !Text.HasPrefix(nl[j], content[..1])
  {
    var nl := WrittenLines(file, content);
    PrefixHasLeadByte(content[..1], content[0]);
    if !file.Content? {
      i := 0;
    } else {
      var lines := Text.Lines(file.text);
      var m := FirstMatch(lines, LeadByte(content[0]));
      if m >= 0 {
        i := m;
        assert forall j :: 0 <= j < m ==> nl[j] == lines[j];
      } else {
        var d := DropEmptyLast(lines);
        i := |d|;
        assert forall j :: 0 <= j < |d| ==> nl[j] == d[j] && d[j] == lines[j];
      }
    }
  }

  /** A line with the one-character key as prefix starts with the key's first byte. */
  lemma PrefixHasLeadByte(key: string, c: char)
    requires key == [c]
    ensures forall s :: Text.HasPrefix(s, key) ==> StartsWith(s, LeadByte(c))
  {
    forall s | Text.HasPrefix(s, key) ensures StartsWith(s, LeadByte(c)) {
      assert s[..1] == [s[0]];
    }
  }

  /** For an ASCII character, starting with its byte is starting with the character:
      the anchor keys are ASCII, so for them the byte comparison is a character one. */
  lemma AsciiStartsWith(line: string, c: char)
    requires c as int < 0x80
    ensures StartsWith(line, LeadByte(c)) <==> |line| > 0 && line[0] == c
  {
    if |line| > 0 && LeadByte(line[0]) == LeadByte(c) {
      assert line[0] as int < 0x80;
    }
  }

  /** Two different characters can share their first byte: U+00E9 and U+00E8 both
      start with 0xC3, so an anchor line starting with one replaces a line starting
      with the other. */
  lemma SharedLeadByte()
    ensures '\U{E9}' != '\U{E8}' && LeadByte('\U{E9}') == LeadByte('\U{E8}') == 0xC3
    ensures FirstMatch(["\U{E8} > /y"], LeadByte('\U{E9}')) == 0
  {
  }

  lemma {:induction false} FirstAt(lines: seq<string>, key: string, i: nat)
    requires i < |lines| && Text.HasPrefix(lines[i], key)
    requires forall j :: 0 <= j < i ==> !Text.HasPrefix(lines[j], key)
    ensures FirstWithPrefix(lines, key) == lines[i]
  {
    if i > 0 {
      FirstAt(lines[1..], key, i - 1);
    }
  }
}
