# gofileyourself in Dafny

A model of the navigation and listing core of gofileyourself, a terminal file explorer
with vim-like keys. The model covers these parts:

- **The listing helpers** (`Listing`, `Naming`, `TextFile`, `History`, `Anchors`). They work
  on an abstract filesystem tree.
  - LoadDirectory filters hidden files and sorts directories before files, and names
    ascending within each group. It builds each item's display text and relative path,
    and in recursive mode it lists a tree in post-order.
  - FindExactItem is the lookup that restores cursors.
  - The helpers also cover the free-name rule for pasted copies, the text-file test, the
    history of opened files, and the anchor-file edits.
- **The explorer** (`Explorer`, `Chords`). This is a class holding the current directory
  and its list and cursor. It also keeps:
  - the parent pane;
  - the preview of the selected entry;
  - the cursor remembered per directory;
  - the marks, the yanks, the search hits and the key buffer;
  - the position in the history.
  
  Every transition of the key handler is a method. Each one is proved against a
  function of the explorer's view before the call. Among them are setCurrentDirectory,
  setCurrentLine, marking, deleting, pasting, renaming, anchors, the recent-file cycle,
  search cycling, scrolling and the chord buffer.
- **The finder** (`Finder`). It lists the whole tree below the current directory: every
  entry whose path the hidden-file filter keeps is listed once, and nothing else. It keeps
  only the entries the query matches, highest rank first, and shows a preview of the
  selected entry.
- **The earlier variants** (`Legacy`). These are the lookup and loader of
  `internal/explorer/helper.go`, and the first explorer of `gofileyourself.go`. They
  differ from the helpers above: the lookup compares main texts, and the loaders keep
  the directory's order. os.ReadDir returns entries sorted by name, so that order is
  name order; the model leaves it open.

The filesystem is a value and paths are canonical sequences of names. Calls that change
the filesystem go through a parameter `effect`, which returns the new tree or `None` on
failure. The list widget's FindItems and the fuzzy matcher's RankMatch are parameters
too. The model relies only on FindItems returning indices of the list, and on a rank of
-1 meaning that nothing matched.

## Model

| member | source | states |
|---|---|---|
| Listing.Clip | internal/explorer/explorer.go:261-262 | the index a list selects: an index inside the list is kept, any other lands inside the list (0 when it is empty) |
| Listing.FirstWithText | internal/helper/helper.go:29-34 | the first match whose text equals the term, with every earlier match differing; 0 when no match has that text |
| Listing.ExactItem | internal/helper/helper.go:24-35 | a single match wins whatever its text; otherwise the first match whose text equals the term; otherwise 0; never negative |
| Listing.ExactItemFinds | internal/helper/helper.go:29-33 | when a match has the term as its text, the lookup lands on an index of the list whose text is the term |
| Listing.FindExactItem | internal/helper/helper.go:24-35 | the loop returns ExactItem on secondary texts |
| Listing.FirstWithTextSkip | internal/helper/helper.go:29-33 | a match whose text differs from the term is passed over by the lookup |
| Listing.Without | internal/helper/helper.go:280-288 | every occurrence of the element is gone, everything else is kept, and a sequence without it is unchanged |
| Listing.WithoutConcat | internal/helper/helper.go:280-288 | deleting from a concatenation is deleting from each part, so the order of the kept elements is the original order |
| Listing.WithoutSingle | internal/helper/helper.go:280-288 | a single element is dropped exactly when it is the one deleted |
| Listing.DeleteItem | internal/helper/helper.go:280-288 | the loop returns Without |
| Listing.VisibleKeeps | internal/helper/helper.go:78-85 | exactly the entries whose name does not start with '.' are kept, or all entries when hidden files are shown; unique names stay unique |
| Listing.FilterHidden | internal/helper/helper.go:78-85 | the filter loop returns Visible |
| Listing.VisibleSnoc | internal/helper/helper.go:79-85 | one more entry is appended exactly when the filter keeps it |
| Listing.EntryLessAsymmetric | internal/helper/helper.go:88-95 | the sort's comparison is asymmetric |
| Listing.EntryNotLessTransitive | internal/helper/helper.go:88-95 | "not less" under the sort's comparison is transitive, so the comparison is a strict weak order |
| Listing.SortEntries | internal/helper/helper.go:88-95 | the sorted entries are a permutation of the input |
| Listing.SortEntriesSorted | internal/helper/helper.go:88-95 | the sorted entries put directories before files and names ascending within each group, and keep names distinct |
| Listing.MakeItem | internal/helper/helper.go:104-127 | the secondary text is the path relative to the scan root; the display text is "m> " when the absolute path is marked, then the relative path, then "/" for a directory or "*" for an executable file |
| Listing.ProcessDir | internal/helper/helper.go:69-130 | the closure appends exactly the items of the walk of its directory, or fails when a directory in it cannot be read |
| Listing.ProcessEntries | internal/helper/helper.go:97-128 | the loop over the sorted entries appends each directory's items (when recursive) before its own item, and fails as soon as a directory below cannot be read |
| Listing.LoadDirectory | internal/helper/helper.go:56-138 | the loader returns the listing the walk specifies: an error for a missing path, no list and no error for a file |
| Listing.LoadCases | internal/helper/helper.go:57-76 | a missing path fails, a file gives no list, an unreadable directory fails and an empty directory gives an empty list |
| Listing.FlatItems | internal/helper/helper.go:110-127 | in non-recursive mode the k-th item's secondary text is the k-th entry's name and its display text is the mark, the name and the suffix |
| Listing.FlatListing | internal/helper/helper.go:62-127 | a non-recursive listing has one item per visible entry, each once, directories first and names ascending within each group |
| Listing.WalkResolves | internal/helper/helper.go:104-105 | every path a walk emits extends its start by valid names and leads to the node emitted with it |
| Listing.WalkPostOrder | internal/helper/helper.go:114-127 | a recursive walk is in post-order: nothing comes after a directory below it, and a directory's contents form one block right before its own entry |
| Listing.RecursiveListing | internal/helper/helper.go:114-127 | the recursive listing follows a post-order walk, and each item's secondary text joined to the scan root names the entry it was made from |
| Listing.Walk | internal/helper/helper.go:69-130 | the reference definition of processDir; a walk of a readable directory that succeeds emits at least one pair per visible entry |
| Listing.LoadResult | internal/helper/helper.go:56-138 | the reference definition of LoadDirectory: a listing comes from a readable directory, and "no list" occurs exactly for a file |
| Listing.WalkComplete | internal/helper/helper.go:97-128 | every path below the start whose names the filter keeps and that resolves is emitted, with its node |
| Listing.WalkVisible | internal/helper/helper.go:79-85 | every emitted path lies below the start through names the filter keeps |
| Listing.WalkDistinct | internal/helper/helper.go:97-128 | no path is emitted twice |
| Listing.WalkSiblings | internal/helper/helper.go:88-127 | the entries of one directory are emitted in the sort's order: directories first, then by name |
| Listing.RecursiveListingComplete | internal/helper/helper.go:56-138 | the recursive listing is the items of the walk; every resolving path below the directory whose names the filter keeps is listed, nothing else is, none twice, and each directory's entries come directories first, then by name |
| Listing.RecursiveTextsDistinct | internal/helper/helper.go:104-127 | no two items of a recursive listing carry the same relative path |
| Listing.EmptyDirectoryLists | internal/helper/helper.go:265-278 | a directory IsDirectoryEmpty calls empty lists nothing; with hidden files shown, a directory that lists nothing is empty |
| Listing.HiddenOnlyListsNothing | internal/explorer/explorer.go:269-270 | a directory holding only a hidden file is not empty for IsDirectoryEmpty, yet lists nothing while hidden files are hidden |
| Listing.MarkingKeepsSecondary | internal/helper/helper.go:110-113 | marks change display texts only: the listing with other marks has the same length and the same secondary texts |
| FileSystem.Child | internal/helper/helper.go:57 | an entry is found exactly when the directory has an entry of that name, and it is that entry's node |
| FileSystem.JoinDotDot | internal/explorer/explorer.go:226 | joining ".." gives the parent path, and the root's parent is the root |
| FileSystem.ParsePathString | internal/explorer/explorer.go:428-436 | the written form of a path reads back as the same path |
| FileSystem.DirBaseOfPathString | internal/explorer/explorer.go:549-551 | Dir and Base of a path's written form are its parent and its last name |
| FileSystem.JoinRelative | internal/helper/helper.go:104-105 | joining a relative path written with slashes to the scan root appends its names |
| Naming.SuffixedInjective | internal/helper/helper.go:39-40 | different duplication numbers give different names |
| Naming.CandidatesBound | internal/helper/helper.go:40-42 | there are no more taken candidates than entries in the directory, so the search for a free name ends |
| Naming.GenerateDuplicateFileName | internal/helper/helper.go:37-47 | the result never names an existing entry; it is the path itself when that is free, and otherwise `path_k` for the least free k from the starting number on |
| Explorer.PasteDestination | internal/explorer/explorer.go:435-436 | a pasted copy never overwrites an entry, and keeps its name when that name is free in the current directory |
| Explorer.CopyFile | internal/helper/helper.go:49-53 | the copy is made to the name generateDuplicateFileName picks |
| TextFile.CharLength | internal/helper/helper.go:160 | a UTF-8 character's length is decided by its first byte |
| TextFile.FirstSize | internal/helper/helper.go:160 | the lead-byte table of utf8.Valid gives the grammar's character length, and marks invalid lead bytes |
| TextFile.AcceptAgrees | internal/helper/helper.go:160 | the accept ranges of utf8.Valid accept exactly the characters of the grammar in section 4 of RFC 3629 |
| TextFile.Valid | internal/helper/helper.go:160 | the byte-at-a-time validation accepts exactly the well-formed UTF-8 sequences |
| TextFile.LeadSequence | internal/helper/helper.go:160 | at a non-ASCII first byte, a sequence that fits has 2 to 4 bytes and the rest is well-formed exactly when the whole is; one that does not fit is not well-formed |
| TextFile.IndexByte | internal/helper/helper.go:155 | the first position of the byte, or -1 exactly when the byte is absent |
| TextFile.FirstBlock | internal/helper/helper.go:141-152 | one read of the buffer gets at most 4096 bytes |
| TextFile.IsTextFile | internal/helper/helper.go:140-161 | a file counts as text exactly when it can be read and its first 4096 bytes hold no 0 byte and are well-formed UTF-8 |
| TextFile.TextExamples | internal/helper/helper.go:154-160 | "Aé" is well-formed; a lone continuation byte and an encoded surrogate are not |
| History.TrimAndGetRecentFiles | internal/helper/helper.go:237-253 | the last min(len, max) newline-separated elements, none when the file cannot be read |
| History.TrimmedHistoryFile | internal/helper/helper.go:244-249 | trimming the file keeps it readable exactly when it was |
| History.TrimStable | internal/helper/helper.go:244-252 | the trimmed file lists the same recent files, and trimming it again changes nothing |
| History.GetRecentFile | internal/helper/helper.go:255-263 | fails exactly when the index is at least the trimmed length; otherwise it is the file's element len-1-i |
| History.TrailingNewline | internal/helper/helper.go:242-262 | a history file ending in a newline has an empty most recent element |
| Anchors.FirstWithPrefix | internal/helper/helper.go:319-327 | the first line with the key as prefix, or "" when there is none |
| Anchors.GetLineWithKey | internal/helper/helper.go:306-328 | a file that cannot be read gives an error, and only such a file does; a missing file gives ""; otherwise the loop returns the first line with the key as prefix, or "" |
| Anchors.FirstMatch | internal/helper/helper.go:365-371 | the index of the first line whose first byte is the given one, or -1 when no line starts with it |
| Anchors.DropEmptyLast | internal/helper/helper.go:375-378 | at most one trailing empty line is dropped, and nothing else changes |
| Anchors.Terminated | internal/helper/helper.go:338-340 | the content ends with a newline |
| Anchors.Updated | internal/helper/helper.go:330-385 | a file that cannot be read stays as it is, and only such a file does; every other file is written, and ends with a newline |
| Anchors.LeadByte | internal/helper/helper.go:362-366 | the first UTF-8 byte of a character: the character itself below 0x80, at least 0xC0 above |
| Anchors.AsciiStartsWith | internal/helper/helper.go:366 | for an ASCII character, a line starts with its byte exactly when it starts with the character |
| Anchors.SharedLeadByte | internal/helper/helper.go:362-366 | U+00E9 and U+00E8 share the first byte 0xC3, so a line starting with one is the match for the other |
| Anchors.AppendOrReplaceLineInFile | internal/helper/helper.go:330-385 | the result is Updated: a missing file gets the content, a file that cannot be read is left alone, and otherwise the first line with the content's first byte is replaced, or the line appended after one trailing empty line is dropped |
| Anchors.ReplaceKeepsOthers | internal/helper/helper.go:365-371 | replacing changes exactly the first line that starts with the same byte and keeps every other line |
| Anchors.AppendWhenAbsent | internal/helper/helper.go:374-380 | without such a line, the edit drops one trailing empty line and appends |
| Anchors.SetThenGet | internal/helper/helper.go:306-385 | after writing a line for a one-character key to a file that can be read or is missing, looking that key up gives the line back |
| Anchors.WrittenSplits | internal/helper/helper.go:374-385 | the written file splits into the joined lines and one empty piece after the final newline |
| Anchors.ReplaceAddsEmptyLine | internal/helper/helper.go:361-383 | replacing a line of a file that ends with a newline changes that line, keeps the empty piece after the newline and writes one more, so the file ends with two empty pieces |
| Anchors.ContentIndex | internal/helper/helper.go:365-380 | the written line is among the joined lines, with no line before it starting with its first character |
| Chords.Buffered | internal/explorer/explorer.go:629-633 | the buffer keeps at most 5 characters, is a suffix of the old buffer plus the rune, and ends with the rune |
| Chords.FirstChord | internal/explorer/explorer.go:634-677 | the command of the first chord in the table that the buffer ends with; none exactly when it ends with no chord |
| Chords.LeadMatch | internal/explorer/explorer.go:678-687 | a submatch is at least one letter or digit, and the buffer ends with the lead character followed by it |
| Chords.LeadMatchFinds | internal/explorer/explorer.go:678-687 | whenever the buffer ends with the lead character and letters or digits, the expression matches |
| Chords.Recognize | internal/explorer/explorer.go:634-688 | the HasSuffix chain and the two expressions select Chord: the table's chords in order, then setting an anchor, then jumping |
| Chords.Step | internal/explorer/explorer.go:629-688 | the buffer keeps at most 5 characters; control keys leave it alone; a recognised chord clears it; and a buffer holding no chord still holds none after the key |
| Chords.QuietEmpty | internal/explorer/explorer.go:635 | the cleared buffer holds no chord |
| Chords.AnchorKeyIsOneChar | internal/explorer/explorer.go:678-687 | between keys the buffer holds no chord, so an anchor chord always has a one-character key |
| Explorer.ClampLine | internal/explorer/explorer.go:291-297 | below 0 becomes 0, from the count on becomes count-1, an index in range is kept, and an empty list gives -1 |
| Explorer.ParentOf | internal/explorer/explorer.go:220-240 | nothing at the root; otherwise the parent's listing with the directory's own entry found by FindExactItem; unavailable exactly when the parent does not list |
| Explorer.PreviewOf | internal/explorer/explorer.go:194-218 | an empty directory gives the placeholder; any other directory that lists gives its listing at the remembered cursor, clipped; a file gives its preview; it fails exactly when loading fails |
| Explorer.ShowResult | internal/explorer/explorer.go:252-283 | a target that does not list changes nothing; otherwise the list is the listing at the remembered cursor, clipped, and the path changes only when the preview succeeds |
| Explorer.EnterResult | internal/explorer/explorer.go:243-250 | a directory that is not empty is shown through ShowResult; an empty directory that is not the current one changes nothing; an empty current directory shows its parent instead, or, when the parent is empty too, changes nothing; both of those report success; every view keeps its cursor inside its list |
| Explorer.LineResult | internal/explorer/explorer.go:291-304 | the cursor is the clamped index; it is remembered for the current directory; the preview is PreviewOf the entry now under the cursor, or stays as it was when that entry has none, and success means it has one; the list, the path, the parent pane and the hits are unchanged |
| Explorer.EntryStringParts | internal/explorer/explorer.go:535 | the written form of an entry reads back as the entry, with its directory and its name |
| Explorer.AnchorRoundTrip | internal/explorer/explorer.go:533-554 | setting an anchor for a one-character key in an anchor file that can be read or is missing, and jumping to it, leads back to the directory and the name it was set on |
| Explorer.SelectByName | internal/explorer/explorer.go:552-553 | selecting the line FindExactItem gives for a name the list holds puts the cursor on that name |
| Explorer.UpSelectsChild | internal/explorer/explorer.go:226-236 | going up from a shown directory selects that directory's own entry in the parent |
| Explorer.RefreshKeepsLine | internal/explorer/explorer.go:254-262 | showing the current directory again keeps the cursor where setCurrentLine put it, when the listing is unchanged |
| Explorer.RestorePreview | internal/explorer/explorer.go:605-612 | in a directory preview the entry of the old selection's name is selected again and remembered for the entry under the cursor; other previews are unchanged |
| Explorer.RestoreSelects | internal/explorer/explorer.go:605-612 | when the refreshed preview still lists the old selection, it is selected again |
| Explorer.FirstAbove | internal/explorer/explorer.go:746-751 | the position of the first hit after the cursor, with every earlier hit at or before the cursor |
| Explorer.LastBelow | internal/explorer/explorer.go:757-762 | the position of the last hit before the cursor, with every later hit at or after the cursor |
| Explorer.NextMatch | internal/explorer/explorer.go:743-753 | 'n' goes to a hit after the cursor when there is one, and otherwise to the first hit |
| Explorer.PrevMatch | internal/explorer/explorer.go:754-765 | 'N' goes to a hit before the cursor when there is one, and otherwise to the last hit |
| Explorer.Toggled | internal/explorer/explorer.go:507-511 | an unmarked path is appended to the marks; a marked one is deleted from them with Without; so it is marked afterwards exactly when it was not before |
| Explorer.ToggledMarks | internal/explorer/explorer.go:507-511 | toggling flips the path's membership and leaves every other path's mark alone |
| Explorer.ToggleMark | internal/explorer/explorer.go:507-511 | the edit of the marks is Toggled |
| Explorer.ToggleTwice | internal/explorer/explorer.go:507-511 | toggling an unmarked path twice gives the marks back |
| Explorer.NonEmpty | internal/explorer/explorer.go:466 | the non-empty lines, no more of them than lines |
| Explorer.Renames | internal/explorer/explorer.go:463-472 | with the guard corrected, there are no more renames than lines, and each renames a marked path |
| Explorer.RenamesAsWritten | internal/explorer/explorer.go:463-472 | the loop as written fails only while the line position is at most the number of marks; when it does not fail, there are no more renames than lines, and each renames a marked path |
| Explorer.RenamesCount | internal/explorer/explorer.go:463-472 | with the guard corrected, there are as many renames as the fewer of the non-empty lines and the marks left |
| Explorer.RenamesPairLines | internal/explorer/explorer.go:463-472 | with the guard corrected, the k-th rename takes the k-th marked path to the k-th non-empty line, for as many lines as there are marks |
| Explorer.AsWrittenPanics | internal/explorer/explorer.go:463-472 | the loop as written fails exactly when there are more non-empty lines than remaining marks; otherwise it makes the corrected renames |
| Explorer.ExtraLinePanics | internal/explorer/explorer.go:466-468 | one mark and an edited file "b\nc" make the loop as written index past the marks |
| Explorer.RunRenames | internal/explorer/explorer.go:463-476 | the loop over the edited lines, with the guard corrected, makes exactly the renames of Renames in order, failures ignored |
| Explorer.RemoveEach | internal/explorer/explorer.go:482-497 | no files to remove leave the filesystem alone and succeed |
| Explorer.RemoveOne | internal/explorer/explorer.go:482-497 | one file is removed with RemovalOp and the given force; the loop succeeds exactly when that removal does, and a failed removal leaves the filesystem alone |
| Explorer.RemoveEachConcat | internal/explorer/explorer.go:482-497 | removing two batches in one loop is removing the first, then the second only when the first removed everything |
| Explorer.CopyEach | internal/explorer/explorer.go:525-531 | no files to copy leave the filesystem alone |
| Explorer.CopyOne | internal/explorer/explorer.go:525-531 | one file is copied to PasteDestination of its base name in the directory; a failed copy leaves the filesystem alone |
| Explorer.CopyEachConcat | internal/explorer/explorer.go:525-531 | copying two batches in one loop is copying the first, then the second into the result |
| Explorer.RunRemovals | internal/explorer/explorer.go:482-497 | the marked files are removed in order; the loop stops at the first failure and says whether all were removed |
| Explorer.DeleteAll | internal/explorer/explorer.go:498-500 | deleting every removed file from the marks leaves none, when every mark was removed |
| Explorer.FooterOp | internal/explorer/explorer.go:321-346 | only `mkdir`, `rename` and `touch` with a second word call the filesystem |
| Explorer.ScrollAmount | internal/explorer/explorer.go:615-618 | Ctrl-D and Ctrl-U move by half the list, at most 20 lines |
| Explorer.Started | internal/explorer/explorer.go:141-150 | the first view has its cursor inside its list |
| Explorer.StartSelects | internal/explorer/explorer.go:143-147 | a selected file that the list holds is under the cursor at the start |
| Explorer.FileExplorer.constructor | internal/explorer/explorer.go:112-131 | the struct literal: nothing marked, yanked, typed or searched, the recent-file position 0, the view the start directory with nothing listed, and no last directory yet |
| Explorer.FileExplorer.Initialize | internal/explorer/explorer.go:134-153 | the view becomes Started (the selected file's directory with that file under the cursor, or the working directory), and the current path is written for the shell |
| Explorer.FileExplorer.SetSelectedDirectory | internal/explorer/explorer.go:194-218 | the preview becomes PreviewOf, and a failed load keeps the old preview and reports the error |
| Explorer.FileExplorer.SetParentDirectory | internal/explorer/explorer.go:220-240 | the parent pane and the index map follow ParentOf; only an unlisted parent reports an error |
| Explorer.FileExplorer.SearchInCurrentDirectory | internal/explorer/explorer.go:306-311 | the hits are FindItems of the term, and are kept when the term is empty |
| Explorer.FileExplorer.ShowDirectory | internal/explorer/explorer.go:252-283 | the view becomes ShowResult of the target |
| Explorer.FileExplorer.ShowItems | internal/explorer/explorer.go:260-282 | the list, the cursor, the parent pane, the map, the preview, the hits and the path become what ShowResult spells out |
| Explorer.FileExplorer.ListItems | internal/explorer/explorer.go:260-268 | the list is the new items at the remembered line, clipped, and the parent pane and the index map follow ParentOf |
| Explorer.FileExplorer.PreviewItems | internal/explorer/explorer.go:269-282 | the preview follows PreviewOf of the entry under the cursor; only when it loads do the hits and the current path change |
| Explorer.FileExplorer.SetCurrentDirectory | internal/explorer/explorer.go:243-283 | the view becomes EnterResult, and the cursor stays inside the list |
| Explorer.FileExplorer.SetCurrentLine | internal/explorer/explorer.go:291-304 | the view becomes LineResult of the index |
| Explorer.FileExplorer.DeleteCurrentFile | internal/explorer/explorer.go:411-424 | the entry under the cursor is removed, with its contents when forced; a failure changes nothing, a success shows the directory again |
| Explorer.FileExplorer.YankCurrentFile | internal/explorer/explorer.go:426-429 | the yanked file is the written form of the entry under the cursor |
| Explorer.FileExplorer.PasteYankedFile | internal/explorer/explorer.go:431-440 | nothing without a yank; otherwise a copy to PasteDestination, and the directory is shown again unless the copy fails |
| Explorer.FileExplorer.RenameMarkedFiles | internal/explorer/explorer.go:442-479 | with no marks nothing changes; otherwise the renames pair non-empty lines with marks, the marks end empty and the directory is shown again |
| Explorer.FileExplorer.DeleteMarkedFiles | internal/explorer/explorer.go:481-502 | the marks are removed in order; at the first failure the marks and the view are unchanged, otherwise the marks end empty and the directory is shown again |
| Explorer.FileExplorer.ToggleMarkForCurrentFile | internal/explorer/explorer.go:504-514 | the entry under the cursor is toggled, the directory shown again, and the cursor moved one line down, clamped |
| Explorer.FileExplorer.ShowAndStepDown | internal/explorer/explorer.go:512-513 | the directory is shown again, then setCurrentLine moves one line below the cursor that showing left |
| Explorer.FileExplorer.UnmarkAllFiles | internal/explorer/explorer.go:516-519 | the marks end empty and the directory is shown again |
| Explorer.FileExplorer.YankMarkedFiles | internal/explorer/explorer.go:521-523 | the yanked files are the marks |
| Explorer.FileExplorer.PasteMarkedFiles | internal/explorer/explorer.go:525-531 | every yanked file is copied in order under its first free name, failures ignored, and the directory is shown again |
| Explorer.FileExplorer.SetAnchor | internal/explorer/explorer.go:533-539 | the anchor file becomes Updated with "key > dir/name" for the entry under the cursor, so an unreadable file is not written |
| Explorer.FileExplorer.JumpToAnchor | internal/explorer/explorer.go:541-554 | an anchor file that cannot be read changes nothing; otherwise the anchor target's directory is entered and its name selected through FindExactItem |
| Explorer.FileExplorer.EnterAndSelect | internal/explorer/explorer.go:552-553 | setCurrentDirectory followed by setCurrentLine of FindExactItem of the name |
| Explorer.FileExplorer.CycleRecent | internal/explorer/explorer.go:556-577 | the position steps back or forth and never goes below 0; a failed forward step restores it, a failed backward step resets it to 0; on success the file's directory is entered and the file selected |
| Explorer.FileExplorer.CycleSearchForward | internal/explorer/explorer.go:743-753 | no hits change nothing; otherwise the cursor goes to NextMatch |
| Explorer.FileExplorer.CycleSearchBackward | internal/explorer/explorer.go:754-765 | no hits change nothing; otherwise the cursor goes to PrevMatch |
| Explorer.FileExplorer.ToggleHiddenFiles | internal/explorer/explorer.go:583-613 | hidden files flip; the directory is shown again; when that succeeds the entry under the cursor and the preview's selection are selected again by name |
| Explorer.FileExplorer.RestoreSelection | internal/explorer/explorer.go:600-612 | the name is selected through setCurrentLine, then the preview is restored by RestorePreview |
| Explorer.FileExplorer.SetLastDirectory | internal/explorer/explorer.go:394-401 | the shell's file holds the current path |
| Explorer.FileExplorer.QuitAndChangeDirectory | internal/explorer/explorer.go:403-409 | the current path is written for the shell and the application stops |
| Explorer.FileExplorer.RunFooterCommand | internal/explorer/explorer.go:313-349 | "/term" sets the term and selects the first hit; ":q" stops; ":mkdir", ":rename" and ":touch" call the filesystem and refresh; ":mrename" renames the marks; anything else changes nothing |
| Explorer.FileExplorer.SearchAndSelect | internal/explorer/explorer.go:315-320 | the term is set, the hits searched, and the first hit selected when there is one |
| Explorer.FileExplorer.RunCommand | internal/explorer/explorer.go:321-346 | the ':' command's effect on the filesystem, the marks, the view and whether the application stops |
| Explorer.FileExplorer.CallAndRefresh | internal/explorer/explorer.go:327-345 | the filesystem call is made, its failure ignored, and the directory shown again |
| Explorer.FileExplorer.RunChord | internal/explorer/explorer.go:634-687 | "gg" selects line 0; yy yanks the current entry, my yanks the marks, mu clears the marks, an anchor-setting chord writes the current entry's anchor line into the anchor file; every other chord does what EditByChord states; only an anchor chord writes the anchor file; no chord touches the history, its position or the last directory |
| Explorer.FileExplorer.RunPlainChord | internal/explorer/explorer.go:634-682 | "gg", yy, my, mu and the anchor-setting chords do what RunChord states for them |
| Explorer.FileExplorer.EditByChord | internal/explorer/explorer.go:638-687 | "dd" and "DD" remove the entry under the cursor, "DD" with its contents, and show the directory again unless that fails; "pp" pastes the yank; "mm" toggles the mark and steps one line down; "md" and "mD" remove the marks, and clear them and refresh only when all were removed; "mp" copies every yanked mark and refreshes; "a" and a key jump to the anchor, and change nothing when the anchor file cannot be read |
| Explorer.FileExplorer.RecallByRune | internal/explorer/explorer.go:689-695 | 'r' steps one file back in the history and 'R' one towards the newest; a failed step restores ('r') or resets ('R') the position; a successful one enters the file's directory and selects the file; the history file is trimmed |
| Explorer.FileExplorer.RunRune | internal/explorer/explorer.go:689-768 | j, k and G move through setCurrentLine; h enters the parent, and l enters the directory under the cursor; r and R step through the trimmed history and select the recalled file; M toggles the mark and moves one line down; n and N move to the next or previous hit; q and S stop, and S writes the path; runes without a binding change nothing; only r and R touch the history, only S the last directory, and none the filesystem, the anchors or the yanks |
| Explorer.FileExplorer.MoveByRune | internal/explorer/explorer.go:699-710 | j and k move one line through setCurrentLine, G to the last line; nothing else changes |
| Explorer.FileExplorer.EnterByRune | internal/explorer/explorer.go:714-736 | h enters the parent; l enters the directory under the cursor and leaves a file (opened in the editor) or a missing name alone; marks and history are unchanged |
| Explorer.FileExplorer.MarkByRune | internal/explorer/explorer.go:696-698 | M toggles the mark of the current entry, shows the directory again and moves one line down; the history and the filesystem are unchanged |
| Explorer.FileExplorer.OtherRune | internal/explorer/explorer.go:702-768 | q and S stop, S after writing the current path for the shell; n and N move to the next or previous hit, and change nothing without hits; every other rune changes nothing; only S writes the last directory |
| Explorer.FileExplorer.HandleKey | internal/explorer/explorer.go:580-770 | the key buffer follows Step and holds no chord between keys; Ctrl-D and Ctrl-U scroll by ScrollAmount; Ctrl-H flips hidden files, shows the directory again and selects the entry under the cursor and the preview's selection again by name; a control key leaves the filesystem, the marks, the yanks, the anchors, the history and the last directory alone; only q and S outside a chord stop |
| Explorer.FileExplorer.Scroll | internal/explorer/explorer.go:614-627 | Ctrl-D and Ctrl-U move the cursor through setCurrentLine by ScrollAmount, and change nothing else |
| Explorer.FileExplorer.HandleControlKey | internal/explorer/explorer.go:582-627 | Ctrl-D and Ctrl-U scroll through setCurrentLine by ScrollAmount; Ctrl-H flips hidden files, shows the directory again and selects the entry under the cursor and the preview's selection again by name |
| Explorer.FileExplorer.HandleRune | internal/explorer/explorer.go:629-768 | the buffer follows Step, and the application stops only for q or S when no chord completed |
| Explorer.FileExplorer.RunKey | internal/explorer/explorer.go:634-768 | a completed chord does what RunChord states and leaves the history and the last directory alone; otherwise the rune does what RunRune states and leaves the filesystem, the yanks and the anchors alone; the application stops only for q or S without a chord |
| Explorer.FileExplorer.BufferKey | internal/explorer/explorer.go:629-688 | the buffer and the selected command are Step of the rune |
| Finder.Shown | internal/finder/finder.go:146-151 | the rebuilt list has no more items than the ranked items |
| Finder.SearchedFrom | internal/finder/finder.go:125-151 | the outcome of a search has no more items than the list it searched |
| Finder.Ranked | internal/finder/finder.go:129-138 | one ranked item per list item, in order, ranked on its secondary text |
| Finder.ShownFrom | internal/finder/finder.go:147-151 | every rebuilt item comes from a ranked item ranked above -1, as its (display, text) pair |
| Finder.Matching | internal/finder/finder.go:129-151 | an item is kept exactly when it is in the list and the query matches its secondary text |
| Finder.ShownConcat | internal/finder/finder.go:147-151 | rebuilding distributes over concatenation |
| Finder.ShownRanked | internal/finder/finder.go:129-151 | rebuilding the unsorted ranked items gives Matching |
| Finder.ShownPermutation | internal/finder/finder.go:141-151 | sorting cannot change which items are rebuilt: ranked items that are a permutation rebuild to a permutation |
| Finder.ShownDescending | internal/finder/finder.go:141-151 | rebuilding items sorted by rank gives a list ordered by rank, highest first |
| Finder.SearchedItems | internal/finder/finder.go:147-151 | an item is in a search's result exactly when it is in the list and the query matches it |
| Finder.SortByRank | internal/finder/finder.go:141-143 | the sort leaves ranks non-increasing and is a permutation of its input |
| Finder.InsertLast | internal/finder/finder.go:141-143 | one insertion pass extends the ordered prefix by one place and is a permutation |
| Finder.InsertingStep | internal/finder/finder.go:141-143 | exchanging the moving item with a smaller left neighbour keeps the pass's invariant one place further left |
| Finder.InsertingDone | internal/finder/finder.go:141-143 | the pass ends with the prefix ordered once the moving item meets a neighbour of no smaller rank |
| Finder.RankAll | internal/finder/finder.go:126-138 | the array holds every item ranked on its secondary text, in list order |
| Finder.KeepRanked | internal/finder/finder.go:146-151 | the rebuilt list is Shown of the sorted items |
| Finder.SortedShown | internal/finder/finder.go:141-151 | a rank-sorted permutation of the ranked items, rebuilt, is a search result of the list |
| Finder.SearchOrder | internal/finder/finder.go:125-151 | the result holds exactly the matching items, each once and unchanged, ordered by rank, highest first; items of equal rank come in any order |
| Finder.LineResult | internal/finder/finder.go:53-61 | an index outside the list changes nothing; otherwise it becomes current; an empty directory gets the placeholder, any other directory that lists gets its listing from line 0, a file gets its preview; only a failed load keeps the preview and reports the error |
| Finder.ListingOf | internal/finder/finder.go:157-165 | the recursive listing of the directory with nothing marked; it fails exactly when loading fails, and then it is empty |
| Finder.Finder.constructor | internal/finder/finder.go:33-51 | hidden files are not shown, the list is the tree's listing, and its first line is selected |
| Finder.Finder.SetCurrentLine | internal/finder/finder.go:53-61 | the index and the preview become LineResult |
| Finder.Finder.SetSelectedDirectory | internal/finder/finder.go:64-88 | the preview is the placeholder, the listing from index 0, or the file's preview; a failed load keeps the old one |
| Finder.Finder.ResetFileList | internal/finder/finder.go:157-165 | the list becomes ListingOf and its first line is current |
| Finder.Finder.FuzzySearch | internal/finder/finder.go:125-155 | the list becomes a search result of the old list, and its first line is selected |
| Finder.Finder.OnQueryChanged | internal/finder/finder.go:114-119 | the result depends only on the query without its leading "/" and the freshly listed tree |
| Finder.Finder.HandleKey | internal/finder/finder.go:91-108 | Up and Down move through setCurrentLine; Enter is handled without moving; every other key is passed on |
| Finder.FoundEntriesComplete | internal/finder/finder.go:114-164 | after a query change, every entry below the directory whose names the filter keeps is listed exactly when the query matches its relative path, and no relative path is listed twice |
| Finder.FoundEntriesExist | internal/finder/finder.go:114-164 | every entry a query lists is matched by the query and exists in the tree below the directory |
| Legacy.FindExactMain | internal/explorer/helper.go:15-26 | the loop returns ExactItem on main texts: a unique match, else the first with equal main text, else 0 (the copy at gofileyourself.go:144-155 is the same) |
| Legacy.LookupsDiffer | internal/explorer/helper.go:21 | among the matches [0, 1] of "a" in [("a/", "a"), ("a", "b")], the helper's lookup picks 0 and this lookup picks 1 |
| Legacy.PlainListing | internal/explorer/helper.go:29-50 | a missing path fails and a file gives no list; otherwise the items are the visible entries' bare names in the directory's order, with empty secondary texts |
| Legacy.LoadFiltered | internal/explorer/helper.go:29-50 | the loop returns PlainListing with the hidden-file filter |
| Legacy.LoadAll | gofileyourself.go:158-175 | the loop returns PlainListing with every entry kept |
| Legacy.SameNamesUnsorted | internal/explorer/helper.go:39-46 | the earlier loader lists the same names as the sorted loader, as a multiset |
| Legacy.PlainNames | internal/explorer/helper.go:44-46 | the earlier items' main texts are the entries' names |
| Legacy.FlatNames | internal/helper/helper.go:110-127 | the non-recursive items' secondary texts are the entries' names |
| Legacy.SelectedResult | gofileyourself.go:357-378 | a directory is shown at its remembered index, a file by its preview; a failed load changes nothing and reports the error; nothing else changes |
| Legacy.ParentResult | gofileyourself.go:394-411 | empty at the root; otherwise the parent's listing with the lookup's index selected and remembered for the parent; a failed load changes nothing |
| Legacy.ChangeResult | gofileyourself.go:381-425 | a target that does not list changes nothing; success sets the list at the remembered index, the header and the path; the parent pane lists the parent and the parent's remembered index is the found index of the target's name; the selected pane is SelectedResult of the entry under the cursor; only the parent's remembered index changes |
| Legacy.LineResult | gofileyourself.go:433-443 | an index outside the list changes nothing; otherwise it becomes the cursor and is remembered for the current directory, the selected pane is SelectedResult of the entry now under the cursor, and success means that entry can be listed |
| Legacy.ReturnRestoresLine | gofileyourself.go:384-391 | leaving a directory for one that is not its child and coming back restores the line chosen there |
| Legacy.InitResult | gofileyourself.go:294-329 | the current list from line 0; the parent pane with the directory's entry selected and remembered; the first entry's pane and the header; a state left by an earlier failing load is kept |
| Legacy.FileExplorer.constructor | gofileyourself.go:122-134 | the working directory with nothing listed and an empty index map |
| Legacy.FileExplorer.Initialize | gofileyourself.go:294-329 | the panes become InitResult |
| Legacy.FileExplorer.LoadParentPane | gofileyourself.go:301-310 | the parent pane and its remembered index follow InitParent; a failed load reports the error |
| Legacy.FileExplorer.LoadSelectedPane | gofileyourself.go:312-324 | the pane beside the list and the header follow InitSelected; a failed load reports the error |
| Legacy.FileExplorer.UpdateSelectedDirectory | gofileyourself.go:357-378 | the panes become SelectedResult |
| Legacy.FileExplorer.ChangeCurrentDirectory | gofileyourself.go:381-425 | the panes become ChangeResult |
| Legacy.FileExplorer.UpdateParent | gofileyourself.go:394-411 | the panes become ParentResult |
| Legacy.FileExplorer.UpdateCurrentLine | gofileyourself.go:433-443 | the panes become LineResult |
| Legacy.FileExplorer.RunFooterCommand | gofileyourself.go:445-461 | "/term" selects the first hit when there is one; only ":q" stops; nothing else changes |
| Legacy.FileExplorer.HandleRune | gofileyourself.go:480-523 | j and k move by one through updateCurrentLine; h and l change directory and pass the key on when that fails; q stops; runes without a binding are passed on unchanged |
| Legacy.FileExplorer.EnterUnderCursor | gofileyourself.go:492-508 | a directory under the cursor is entered through changeCurrentDirectory; a file is handled without change; a name that cannot be looked up is passed on |
| Legacy.FileExplorer.GoUp | gofileyourself.go:509-514 | the panes become ChangeResult of the parent directory |

## Left out

- Terminal drawing, themes, colours, the header's styling and focus changes are not modelled.
- Search highlighting is not modelled. Draw runs after every key (explorer.go:386 and :581) and calls highlightSearchInput (explorer.go:183), which sets every item's main text to its secondary text with the term's occurrences tagged (explorer.go:103-109). The "m> " mark and the "/" and "*" suffixes of the main texts are then gone. The model keeps the loader's main texts (ShowResult, EnterResult and the state after Initialize). No modelled decision depends on them: the exact lookups compare secondary texts, and the search's FindItems is the abstract parameter `find`, although the source's FindItems searches main texts (explorer.go:310 and helper.go:16).
- File previews (LoadFilePreview, loadFilePreview) are not modelled. A file's preview is only its path, and a preview that fails to load is not modelled.
- The editor is not modelled (OpenInNvim and openInNvim, with the history line it appends). For ":mrename", the file the user leaves behind is the parameter `edited`. The finder's Enter, and 'l' on a file, change nothing in the model.
- The footer's text editing (handleFooterInput) is not modelled. Its result is the input of RunFooterCommand and Finder.Finder.OnQueryChanged.
- Explorer.FileExplorer.RenameMarkedFiles: none of the failures around the temporary file are modelled. Those are CreateTemp, Open and ReadLine, and they make the source return. ReadLine splitting a long line and keeping a '\r' are not modelled either. The edited content is split at newlines.
- The filesystem calls (Remove, RemoveAll, Rename, copy.Copy, MkdirAll, Create) are the parameter `effect`, which may fail. Their own semantics are not modelled.
- Write errors are not modelled for the anchor file (MkdirAll and WriteFile in AppendOrReplaceLineInFile), the last-directory file and the trimmed history file. Read errors of the anchor file are modelled: Anchors.AnchorFile has the state Unreadable, on which GetLineWithKey fails, JumpToAnchor changes nothing and SetAnchor writes nothing. The history trimming's `sed` command is the function History.TrimmedHistoryFile.
- Explorer.FileExplorer.QuitAndChangeDirectory: a failed write, which makes the source not stop, is not modelled.
- The target of ":rename" is taken relative to the process's working directory, as os.Rename takes it; the modelled working directory is the constant `cwd`.
- Paths are canonical. filepath.Abs, Join, Dir and Base are modelled on them, and input strings are parsed against `cwd`. Symbolic links and the exact text of non-canonical strings are not modelled.
- Explorer.EnterResult compares the target with the current directory as canonical paths. The source compares strings, for which the retried "path/.." never equals the current path, so the retry happens at most once in both.
- Explorer.ShowResult: when the target is a file, the model does nothing and reports failure. The source would call a method on the nil list it gets there.
- Legacy.ChangeResult: a target that is a file is treated as a failure. The source would call a method on the nil list it gets there.
- Legacy.InitResult: the current directory is only a file in a broken start state, and initialize would then index a nil list. The model treats that as a failed load.
- The source panics where tview's GetItemText is called with an index the list does not have, because GetItemText indexes its items directly. The model reads "" there instead (SecondaryAt and MainAt) and carries on. The cases are:
  - explorer.go:270, when the directory shown holds only hidden files. IsDirectoryEmpty is false there, but the filtered list is empty (Listing.HiddenOnlyListsNothing). The model then previews the directory itself.
  - explorer.go:302 and gofileyourself.go:441, when setCurrentLine or updateCurrentLine runs on an empty list and the index becomes -1.
  - Every read of the current item while the current list is empty: the ":rename" command (explorer.go:334), dd and DD (:412), yy (:427), mm (:505), the anchor chords (:534), Ctrl-H (:587) and 'l' (:716 and gofileyourself.go:494). The current list is empty in a directory holding only hidden files, and after a first load that failed.
  - explorer.go:592, in Ctrl-H, when the preview is a directory holding only hidden files, so the preview list is empty. The model remembers "" as its selected name (PreviewSelection).
  - gofileyourself.go:312, when the current list is empty.
  - gofileyourself.go:414, where the remembered index is used without clipping.
- Listing.Clip: its contract states only the range facts of the widget's SetCurrentItem. The body follows the library's index rule, which is not restated.
- FindItems' matching rule belongs to the widget library. The model takes its result as a given list of indices of the list.
- fuzzy.RankMatch is the parameter `rank`. finder.go ranks the whole query as one string and searches again on every change, cancelling nothing.
- Finder.SearchOrder: the list is ordered by rank, highest first, as the sort at finder.go:141-143 orders it. Whether a higher rank is a closer match depends on RankMatch, which belongs to the fuzzy library; the model does not say.
- Finder.SearchOrder: sort.Slice is not stable, so the contract leaves the order of items of equal rank open.
- The finder's calls do not match the helper's signatures: LoadDirectory is called with three arguments and OpenInNvim with two. The model uses the helper's signatures with nothing marked.
- Finder.ListingOf: a directory path that is a file gives an empty list. The source would keep the nil list it gets.
- Entries whose file.Info() or filepath.Rel fails are skipped by LoadDirectory; the model has no such failures.
- Explorer.FileExplorer.Valid bounds the key buffer at 5 characters. That a buffer holds no chord between keys is stated by Explorer.FileExplorer.HandleKey and Chords.Step instead.
- The key buffer counts characters; the source counts bytes, which differs only for runes outside ASCII.
- Explorer.FileExplorer.HandleKey: whether the event is passed on or consumed is not modelled for the explorer. The gofileyourself.go variant models it as `handled`.
- NewFileExplorer is modelled as Explorer.FileExplorer.constructor (the struct literal) followed by Explorer.FileExplorer.Initialize; initialize never fails, so NewFileExplorer's error result is not modelled.
- Explorer.FileExplorer.HandleRune: its contract states the buffer and the stop flag only. What the chord or the rune does is stated by RunKey's contract, on the state after the buffer update. It is not restated on HandleRune's own starting state.
- Explorer.FileExplorer.RunFooterCommand: its requires asks for a non-empty input, and no input the explorer can submit is excluded. The footer starts as "/" or ":" (explorer.go:738 and :741), typing only adds characters, and Backspace does nothing when at most one character is left (explorer.go:359-363). The footer's text editing itself is not modelled.
- Legacy.FileExplorer.RunFooterCommand: its requires excludes the empty input. The source indexes inputText[0] at gofileyourself.go:446 and panics when the footer is submitted empty (gofileyourself.go:463-477 passes whatever text is left).
- Anchors.AppendOrReplaceLineInFile: when a line is replaced (helper.go:361-383), the split keeps the empty piece after the final newline and the join puts it back followed by a newline. Every replacement therefore adds one empty line at the end of the anchor file. The model keeps this, and Anchors.ReplaceAddsEmptyLine states it.
- The configuration file, the display mode switch and main are not part of this model; HistoryLen is the constant `historyLen`.
- internal/widget/widget.go has no SelectedFilePath, ChooseFilePath or Config, though explorer.go reads them. The model takes the start directory, the selected file and the history length as constructor parameters.

## Findings

| source | as written | input that shows it | evidently intended | confidence | as-written member | corrected member |
|---|---|---|---|---|---|---|
| internal/explorer/explorer.go:467 | `if lineIdx <= len(fe.markedFiles)` then reads `fe.markedFiles[lineIdx]` | one marked file and an edited file "b\nc": the second name reaches markedFiles[1], past the end | `lineIdx < len(fe.markedFiles)`: names beyond the marks are ignored | not executed | Explorer.AsWrittenPanics | Explorer.RenamesPairLines |
