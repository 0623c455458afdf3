/** The history of opened files: helper.TrimAndGetRecentFiles and helper.GetRecentFile.
    The history file's content is a value here (None when the file cannot be read); the
    `sed` command that trims the file becomes the function TrimmedHistoryFile. */
module History {
  import opened Wrappers
  import Text

  /** TrimAndGetRecentFiles: the last min(len, max) elements; none when the file cannot
      be read. */
  function TrimAndGetRecentFiles(content: Option<string>, maxHistoryLen: nat): (r: seq<string>)
    ensures content.None? ==> r == []
    ensures content.Some? ==>
      var lines := Text.Lines(content.value);
      && |r| == (if |lines| > maxHistoryLen then maxHistoryLen else |lines|)
      && r == lines[|lines| - |r|..]
  {
    match content
    case None => []
    case Some(c) =>
      var lines := Text.Lines(c);
      if |lines| > maxHistoryLen then lines[|lines| - maxHistoryLen..] else lines
  }

  /** The file after `sed '1,Nd'` has deleted the first N = len - max lines. */
  function TrimmedHistoryFile(content: Option<string>, maxHistoryLen: nat): (r: Option<string>)
    ensures r.None? <==> content.None?
  {
    match content
    case None => None
    case Some(c) =>
      var lines := Text.Lines(c);
      if |lines| > maxHistoryLen then Some(Text.Join(lines[|lines| - maxHistoryLen..], '\n')) else content
  }

  /** The trimmed file lists the same files, and trimming it again changes nothing. */
  lemma TrimStable(content: Option<string>, maxHistoryLen: nat)
    ensures TrimAndGetRecentFiles(TrimmedHistoryFile(content, maxHistoryLen), maxHistoryLen)
         == TrimAndGetRecentFiles(content, maxHistoryLen)
    ensures TrimmedHistoryFile(TrimmedHistoryFile(content, maxHistoryLen), maxHistoryLen)
         == TrimmedHistoryFile(content, maxHistoryLen)
  {
    if content.Some? {
      var lines := Text.Lines(content.value);
      if |lines| > maxHistoryLen {
        var kept := lines[|lines| - maxHistoryLen..];
        if |kept| == 0 {
          assert Text.Join(kept, '\n') == "";
          assert Text.Lines("") == [""];
        } else {
          assert forall k :: 0 <= k < |kept| ==> '\n' !in kept[k] by {
            forall k | 0 <= k < |kept| ensures '\n' !in kept[k] {
              assert kept[k] == lines[|lines| - maxHistoryLen + k];
            }
          }
          Text.SplitJoin(kept, '\n');
        }
      }
    }
  }

  /** GetRecentFile(i): the i-th most recent element of the trimmed history, Err when
      there are not that many. */
  function GetRecentFile(content: Option<string>, fileIndex: nat, maxHistoryLen: nat): (r: Result<string>)
    ensures var lines := TrimAndGetRecentFiles(content, maxHistoryLen);
      r.Err? <==> fileIndex >= |lines|
    ensures r.Ok? ==>
      fileIndex < maxHistoryLen &&
      var all := Text.Lines(content.value);
      fileIndex < |all| && r.value == all[|all| - 1 - fileIndex]
  {
    var lines := TrimAndGetRecentFiles(content, maxHistoryLen);
    if fileIndex >= |lines| then Err else Ok(lines[|lines| - fileIndex - 1])
  }

  /** A history file that ends in a newline has an empty most recent element. */
  lemma TrailingNewline(content: string, maxHistoryLen: nat)
    requires |content| > 0 && content[|content| - 1] == '\n' && maxHistoryLen > 0
    ensures GetRecentFile(Some(content), 0, maxHistoryLen) == Ok("")
  {
    var prefix := content[..|content| - 1];
    Text.SplitSuffixSep(prefix, '\n');
    assert prefix + ['\n'] == content;
  }
}
