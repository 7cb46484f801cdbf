# Verified models of a suite of terminal programs

This project models the parts of the suite where C code keeps two views of the
same data in agreement while it edits one of them in place, and proves that the
agreement holds. Processes, sockets, the screen and the clock become inputs that
may take any value; the C arrays, structs and loops become Dafny arrays, classes
and loops, each proved against a functional specification about which the main
results are then stated. What the parts of a specification compute is stated once
more without them, mostly in lemmas whose names end in `Is` or `Iff`.

| module | program | what it models |
|---|---|---|
| `Utf8` | all | the UTF-8 encoders, the decoding step that stands for `mbrtowc`, and the validator of Bluetooth names |
| `Devices`, `DeviceMerge`, `DeviceTable` | simpleblue | the device table, its order, and the three-way merge of a finished rescan |
| `TerminalText` | simpleblue | the two strippers of terminal sequences and the outcome of a pairing |
| `Reflow` | simplebook | the greedy word wrapper |
| `PageTable`, `PageLimit`, `PageLoading` | simplebook | the line and page tables, documents with more form feeds than pages, and the two loaders that build the tables |
| `LinkScan`, `LinkRuns` | simplebook | the background scan for PDF links, with roll-back, and its runs |
| `LinkCycle`, `LinkOrder` | simplebook | stepping through the links of a page |
| `Layout`, `PageData`, `PageEdit`, `BrowserPage` | simplebrowse | display lines, range deletion, and the reader filter with the links and controls it carries along |
| `Forms` | simplebrowse | form submission |
| `History` | simplebrowse | back and forward stacks and the cache of pages left |
| `Levels`, `BrightHardware`, `BrightProtocol`, `BrightLosses` | simplebright | percentages and raw levels; displays and the night daemon, and what merged commands do to them; the two threads and their queues; two runs in which merging loses something |
| `DriveSafety`, `BurnProgress`, `BurnWrite` | simpleburn | which drives may be erased, the batched copy, its progress lines, and the privileged helper |
| `Reads`, `ByteText`, `Sequences`, `Options` | - | folds over a stream read in pieces, bytes as text, and shared helpers |

Bytes are integers below 256, with masks and shifts written as division and
remainder. Character widths are a parameter of one or two cells (one to four for
a tab, by its column). `qsort` is any rearrangement in the order of the
comparator. Heuristics (which line is junk, what looks like a heading, where a
link is found in the text) are parameters that may decide anything.

## What turned out to have exceptions

Some natural statements about the code do not hold everywhere. For each the code
is modelled as it is, and the project proves exactly when the statement holds.

- The wrapper loses nothing if and only if every word is shorter than the line
  buffer and only blanks lie beyond the paragraph buffer (`Reflow.ReflowIsLossless`; a word
  that is altered: `Reflow.LongWordIsAltered`).
- A link on the last retained line keeps the text after it, or at least stays inside the
  filtered text, exactly under conditions on the spaces behind it, which are cut off
  (`PageEdit.NewOffsetFollowsText`, `PageEdit.NewOffsetInsideText`; a page where neither holds:
  `PageEdit.LastSpaceIsLost`).
- The filter puts the source text back, and loses its links and controls, exactly when there
  is neither title nor metadata and no line is retained (`PageEdit.NothingRetainedIff`; a
  page to which that happens: `PageEdit.DroppedPageLosesLink`).
- Page numbers of the lines never decrease if and only if the document has fewer form feeds
  than there may be pages, or as many with nothing put after the last one
  (`PageLoading.Document.LoadReadingText`, `PageLoading.Document.LoadLayoutText`; documents
  on which they decrease: `PageLimit.TooManyFeedsDescend`).
- k times Back and k times Forward restore the stacks if and only if neighbouring
  addresses differ (`History.BacksThenForwards`; a run in which a redirected reload makes
  them equal: `History.RedirectedReloadLosesAnEntry`).
- Executing only the last command of a merged group is the same as executing them all if and
  only if the last one makes up for the others (`BrightHardware.MergingIsFaithfulIff`). For
  temperatures that means: once the daemon's own ramp refused one of them, which switches the
  filter off, the last must be refused by it too and ask for the temperature there is; otherwise
  it must be taken, or none before it was, or the last one taken asked for the temperature there
  is. The state behind every answer of a run is right exactly when that holds of every group
  (`BrightProtocol.RunIsSafe`; runs that lose a level, or leave a filter on that would be off:
  `BrightLosses.RefusalLosesAValue`, `BrightLosses.RefusalSwitchesOff`).
- Scrolling to a link can put an earlier page at the top of the window, and the next
  step then goes through the links of that page (exactly when: `LinkCycle.StepKeepsPageIff`;
  a document where it does: `LinkCycle.StepLeavesPage`).
- The output of a scan is taken over exactly when the link list and its revision are those
  the worker started from; selecting another link meanwhile changes the revision, and the
  pages then count as failed (`LinkScan.Scanner.Check`; such a run: `LinkRuns.SelectingLosesTheScan`).
- A display line of any text, malformed text included, ends after a whole character if and only
  if it fits, or a blank was found, or its first character is one byte, or the cut can move
  back to a byte that begins a character (`Layout.LineEndIsWholeIff`; a text of which a line
  is split: `Layout.MalformedTextIsSplit`).

## Model

| member | source | states |
|---|---|---|
| Utf8.DecodeEncode | simplebrowse.c:1082-1110 | what the encoder writes for a scalar value is read back as that value, with exactly the bytes written, whatever follows |
| Utf8.EncodeDecode | simpleblue.c:916-949 | bytes that decode are the encoder's own bytes for a scalar value: no overlong forms, surrogates or values above U+10FFFF |
| Utf8.EncodeAllInjective | simplebook.c:2619-2651 | a byte string is the encoding of at most one run of scalar values |
| Utf8.EncodingIs | simplebook.c:2619-2651 | the bits of a character, six at a time, behind a first byte that tells how many follow, as in section 3 of RFC 3629 |
| Utf8.StepMatchesTable | simpleblue.c:927-946 | the range checks on lead byte and folded value accept exactly the sequences of the syntax table in section 4 of RFC 3629 whose value may be shown |
| Utf8.ReadTails | simpleblue.c:938-942 | the inner loop accepts exactly continuation bytes and folds them in order |
| Utf8.AcceptsExactlyShownText | simpleblue.c:916-949 | the accepted byte strings are exactly the concatenated encodings of scalar values outside C0, DEL and C1 |
| Utf8.PrintableUtf8 | simpleblue.c:916-949 | the validator with its loops returns true exactly for such text |
| Reflow.NextToken | simplebook.c:744-745 | tokenizing finds the next word, or that none is left |
| Reflow.WordsAre | simplebook.c:741-745 | blanks, tabs, newlines and carriage returns separate words: text without them is one word, and the words around one of them are those before it and those after it |
| Reflow.LayWord | simplebook.c:746-763 | the open line is flushed exactly when it and the word do not fit together, and buffer and column count then hold the new open line, although the buffer clips words |
| Reflow.GreedyTakes | simplebook.c:750-757 | the greedy division takes each word in the same way |
| Reflow.AddWrappedReadingText | simplebook.c:733-768 | the loop with its line buffer emits the greedy division of the words |
| Reflow.GreedyDivides | simplebook.c:744-767 | the greedy lines hold all words in order, and each keeps both limits or holds a single word |
| Reflow.GreedyFills | simplebook.c:750-757 | every line takes as many words as fit: the first word of the next line would not |
| Reflow.FitsIff | simplebook.c:750-757 | words share a line exactly when the line, as it is emitted, keeps the columns and fits the 4096-byte buffer with its NUL |
| Reflow.ColumnsAre | simplebook.c:746-749 | characters take their cells and at least one, and a byte that begins no character takes one |
| Reflow.GreedyStaysAhead | simplebook.c:750-757 | whatever a competing division has laid out, greedy needs no more lines for what is left |
| Reflow.GreedyIsShortest | simplebook.c:750-757 | no other division within the column and byte limits has fewer lines |
| Reflow.WordsOfJoined | simplebook.c:758-762 | tokenizing an emitted line gives back its words |
| Reflow.JoinedColumns | simplebook.c:746-763 | the running column count is the display width of the line |
| Reflow.EmittedLinesFit | simplebook.c:750-767 | an emitted line fits its buffer, and keeps the column limit or is one word |
| Reflow.ReflowKeepsWords | simplebook.c:733-768 | the emitted lines hold the copied words in order, each clipped to the buffer |
| Reflow.ReflowIsShortest | simplebook.c:733-768 | no division of the copied words within the same limits has fewer lines than are emitted |
| Reflow.ReflowIsLossless | simplebook.c:733-768 | no word is lost, altered or moved if and only if words and paragraph fit their buffers |
| Reflow.LongWordIsAltered | simplebook.c:733-768 | a word as long as the line buffer is altered, at every width |
| Layout.LineAdvances | simplebrowse.c:6956-6968 | every line makes the layout go forward, also one trimmed away entirely |
| Layout.LayInOrder | simplebrowse.c:6929-6969 | display lines are in order and disjoint |
| Layout.LayCovers | simplebrowse.c:6929-6969 | a byte on no line is a space, a tab or a newline |
| Layout.LineFits | simplebrowse.c:6945-6961 | no display line is wider than the page |
| Layout.LineGoesFurthest | simplebrowse.c:6941-6963 | the cut is the furthest whole-character position whose columns keep the width; a line that does not reach the end of its paragraph ends at the last blank before the cut, or without one at the cut, and spaces at its end are taken off |
| Layout.ShortParagraphIsOneLine | simplebrowse.c:6941-6963 | the rest of a paragraph that keeps the width is one line, less the spaces at its end |
| Layout.LayIsChained | simplebrowse.c:6929-6969 | each line begins where the one before leaves off, with only its blanks and one newline between them, from the first byte to the last |
| Layout.ColumnsAre | simplebrowse.c:6941-6951 | a tab goes to the next column that is a multiple of four, any other character takes its cells, and a malformed byte one |
| Layout.LineEndsAtBoundary | simplebrowse.c:6900-6904 | in well-formed text a line that begins at a character ends at one |
| Layout.DisplayLinesAreGood | simplebrowse.c:6906-6972 | for every text and width: lines in order, within the width, within one paragraph, at character boundaries, covering every other byte, and each beginning where the one before leaves off |
| Layout.LineEndIsWholeIff | simplebrowse.c:6929-6963 | in any text a line ends after whole characters if and only if it fits to the end of its paragraph, or a blank was found, or its first character is one byte, or some byte between the first one and the cut begins a character |
| Layout.MalformedTextIsSplit | simplebrowse.c:6900-6904 | a two-byte character followed by 25 stray bytes: its first line at 20 columns, the narrowest width, ends inside that character for all character widths |
| BrowserPage.FindLineEnd | simplebrowse.c:6941-6963 | the loops over columns, last blank and trailing spaces find the end the layout specifies |
| BrowserPage.Page.AddDisplayLine | simplebrowse.c:6388-6410 | the line is appended with the first link whose offset is on it |
| BrowserPage.Page.PageLayout | simplebrowse.c:6906-6972 | the display is the specified layout for the width in force, and a layout already made for that width is kept |
| BrowserPage.Page.DisplayLineForOffset | simplebrowse.c:6526-6540 | the line found is the only one holding the offset, and one is found for every byte that is no blank or newline |
| PageEdit.ShiftedByte | simplebrowse.c:4499-4518 | a shifted offset points at the byte, and up to the cut or the end the text, it pointed at before |
| PageEdit.SurvivorsGrow | simplebrowse.c:4508-4523 | survivors later in the list come later in the result |
| PageEdit.OutsideIsExact | simplebrowse.c:4508-4539 | a mark outside the range keeps its item and follows exactly the surviving marks before it |
| BrowserPage.Compact | simplebrowse.c:4508-4539 | compacting in place leaves exactly the marks outside the range, moved down and shifted |
| BrowserPage.Page.RemoveTextRange | simplebrowse.c:4490-4550 | text, links, controls and layout after a range deletion, and nothing at all for an impossible range |
| PageEdit.RetainedAreGood | simplebrowse.c:4208-4293 | the retained lines are whole lines with text on them, in order |
| PageEdit.RetainedIff | simplebrowse.c:4208-4293 | a line is retained if and only if it has text, is not dropped, and no line with text up to it ends the article |
| PageEdit.GapIff | simplebrowse.c:4250-4289 | a retained line has a gap before it exactly when a line without text lies between it and the retained one before, or before the first one when there is a header |
| PageEdit.BlankLineIs | simplebrowse.c:4250-4254 | a gap leaves one empty line at the end of what was written, whatever newlines end it already |
| PageEdit.ReaderHeaderIs | simplebrowse.c:4121-4138 | title and metadata, each with an empty line after it, and a rule under them; nothing without either |
| PageEdit.FilterStarts | simplebrowse.c:4197-4206 | the filter starts behind the line of the title, if it found one, and else at the beginning |
| PageEdit.AssembledIs | simplebrowse.c:4250-4259 | header, and every retained line with a newline after it, and a gap before it if it has one |
| PageEdit.LineStands | simplebrowse.c:4250-4259 | every retained line stands unchanged at its place in the assembled text |
| PageEdit.ResultIs | simplebrowse.c:4295-4300 | the final text is the assembled text less the blanks at its end, and trimming never reaches past the last line |
| PageEdit.NewOffsetFollowsText | simplebrowse.c:4269-4297 | the new offset has the same text after it to the end of its line if and only if the line is not the last or does not end in a space |
| PageEdit.NewOffsetInsideText | simplebrowse.c:4295-4297 | an offset on the last line stays inside the text if and only if something other than spaces follows it |
| PageEdit.LastSpaceIsLost | simplebrowse.c:4295-4297 | a page of a letter and a space: neither link keeps the text after it, and the one on the space falls behind the text |
| PageEdit.LinkSurvives | simplebrowse.c:4269-4276 | a link on a retained line survives at its place in the list, with its item and new offset |
| PageEdit.LinkCameFrom | simplebrowse.c:4269-4276 | every link of the result is one of the links on retained lines |
| PageEdit.LinksKeepOrder | simplebrowse.c:4269-4276 | links in text order keep their order |
| PageEdit.ControlSurvivesIff | simplebrowse.c:4277-4328 | a visible control survives exactly on a retained line, a hidden one exactly when a visible control of its form (index at least 0) does |
| PageEdit.ControlSurvives | simplebrowse.c:4308-4328 | surviving controls keep source order, each with its anchor |
| PageEdit.FormAnchorIsFirst | simplebrowse.c:4313-4325 | a hidden control goes where the first visible control of its form went, in source order |
| PageEdit.NothingRetainedIff | simplebrowse.c:4299-4300 | the source text is put back exactly when there is neither title nor metadata and no line is retained |
| PageEdit.NothingRetained | simplebrowse.c:4299-4300 | the text then stays and every link and control is lost |
| PageEdit.DroppedPageLosesLink | simplebrowse.c:4299-4300 | a one-line page that keeps its line and loses the link on it |
| BrowserPage.Page.KeepLine | simplebrowse.c:4247-4286 | one retained line goes to the text, and its links and controls with it |
| BrowserPage.Page.FilterLines | simplebrowse.c:4208-4293 | the loop produces the assembled text, links and marked controls of the retained lines, for any decision about which lines to drop |
| BrowserPage.Page.ReaderFilter | simplebrowse.c:4173-4328 | text, links and controls of the page after filtering are those specified |
| Forms.ParseBody | simplebrowse.c:9028-9048 | the parser of section 5.1 of the WHATWG URL Standard, up to the UTF-8 decoding that ends it, gives back the pairs, for all bytes in names and values |
| Forms.ParseText | simplebrowse.c:9028-9048 | where names and values are text in UTF-8, that decoding gives the text back |
| Forms.AppendUrlencoded | simplebrowse.c:9028-9048 | the loop appends the encoding of the string and nothing else |
| Forms.BuildUrlencodedForm | simplebrowse.c:9104-9122 | parsing the body gives exactly the successful controls' names and submit values, in order |
| Forms.EncodedByteIs | simplebrowse.c:9028-9048 | a plain byte stands for itself, a space is a plus, and any other byte a percent sign and two upper-case hexadecimal digits |
| Forms.PlainIff | simplebrowse.c:9028-9048 | letters, digits and four marks are plain, and what the locale counts as a letter or digit |
| Forms.SubmitValueIs | simplebrowse.c:9079-9088 | a selection with options submits the one selected, or the first when none is; all else submits its value |
| Forms.IsSuccessfulIff | simplebrowse.c:9090-9102 | a control is submitted exactly when it has a name, is not disabled and belongs to the form, or is itself pressed outside any; a box must be checked as well, and a button must be the one pressed and submit |
| Forms.PairIs | simplebrowse.c:9104-9122 | the pair of a successful control stands behind exactly as many pairs as there are successful controls before it |
| Forms.OnlyPressedButton | simplebrowse.c:9090-9122 | in any list of controls a button is submitted only if it is the one pressed and submits, so at most one pair comes from a button, and one does exactly when the pressed control is such a button of the form |
| History.MovesKeepBound | simplebrowse.c:8487-8512 | a navigation keeps the two stacks within the limit together, and Back and Forward move entries without evicting any |
| History.StacksAfter | simplebrowse.c:8487-8512 | a link to another address leaves nothing ahead, and the address left behind the others, of which the oldest goes when there are 128; one to the same address changes neither stack; replacing changes neither; Back and Forward move entries across |
| History.BackAfterLink | simplebrowse.c:8487-8512 | Back after following a link restores what was behind and the address left, with the link alone ahead |
| History.RunIsBounded | simplebrowse.c:7202-7211 | in every reachable state back and forward hold at most 128 entries together |
| History.ForwardUndoesBack | simplebrowse.c:8501-8511 | Forward after Back restores address and stacks when the two addresses differ |
| History.SomethingIsLost | simplebrowse.c:8501-8505 | Back over two equal neighbours loses an entry for good |
| History.BacksThenForwards | simplebrowse.c:9407-9431 | k times Back and k times Forward restore address and stacks if and only if the addresses passed differ from their neighbours |
| History.RedirectedReloadLosesAnEntry | simplebrowse.c:8487-8512 | a reachable run after which Back and Forward do not restore the stacks |
| History.ReplacedEntry | simplebrowse.c:7272-7277 | replacing an entry in place keeps addresses unique and every entry the view last left |
| History.AddedEntry | simplebrowse.c:7290-7296 | so does adding one with the oldest gone |
| History.Browser.Find | simplebrowse.c:7242-7252 | the entry of an address, if it has one |
| History.Browser.StoreCurrent | simplebrowse.c:7254-7297 | the cache afterwards holds the view under its address, and evicts only the oldest entry and only when full |
| History.Browser.FinishNavigation | simplebrowse.c:8487-8512 | the stacks afterwards, and that what was shown is remembered under the address left |
| History.Browser.Restore | simplebrowse.c:7299-7343 | a hit shows exactly the page, scroll position and selection held when that address was last left; a miss changes nothing |
| History.Browser.Load | simplebrowse.c:8696-8746 | where a load leads, when the cache answers it, and what is then shown |
| History.Browser.GoBack | simplebrowse.c:9407-9418 | where Back leads and what it shows; landing on its target it is the step of the trail |
| History.Browser.GoForward | simplebrowse.c:9420-9431 | the same for Forward |
| History.Browser.FollowAndReturn | simplebrowse.c:9407-9418 | a page with text left by a link is shown by Back exactly as it was, with the stack behind it restored; one that WebKit had loaded is loaded again |
| History.Browser.GoBackAndForth | simplebrowse.c:9407-9431 | k times Back and k times Forward, each landing on the address asked for, are steps of the trail, and restore address and stacks if and only if the addresses passed differ from their neighbours |
| Devices.CompareIsPreorder | simpleblue.c:1106-1122 | the comparator is a total preorder |
| Devices.CompareIs | simpleblue.c:1106-1122 | visible devices come first, then connected, paired and trusted ones, then the stronger signal, then the order of names; a later rule counts only where those before tie |
| Devices.TextOrder | simpleblue.c:1106-1122 | names are ordered by the first place where they differ, letters of either case alike, and a beginning comes before what it begins |
| Devices.VisibleIff | simpleblue.c:466-477 | a device is visible when unnamed ones are shown, or it has a name or service name, or it is paired, trusted or connected |
| Devices.IsAddressNameIff | simpleblue.c:441-451 | a name counts as an address when it is empty, or the address itself, in letters of either case and with dashes or colons |
| Devices.RenamedIs | simpleblue.c:453-464 | a name that is no address replaces the one before, and the address stands in only for a missing name |
| Devices.NewDeviceIs | simpleblue.c:550-561 | a new device is named by its address in upper case, and nothing else is known of it |
| Devices.CanBeArranged | simpleblue.c:1128-1129 | every table can be put in its order |
| Devices.SortedShowsPrefix | simpleblue.c:1111-1114 | in a sorted table the visible devices are a prefix |
| Devices.RearrangedFinds | simpleblue.c:428-434 | sorting changes the device of no address |
| DeviceTable.EditedAt | simpleblue.c:1045-1104 | a discovery line changes the device of its address as it says, no other, and keeps addresses unique |
| DeviceTable.LineLeaves | simpleblue.c:1058-1102 | a deletion takes the device away; a change is made to a device that is there, or to a new one if the line announces or names it and there is room; a line without a valid address changes nothing |
| DeviceTable.ChangeIs | simpleblue.c:1079-1102 | each kind of line sets its own field to what it says, and a manufacturer only within 16 bits; no other field changes |
| DeviceTable.ValidAddressIff | simpleblue.c:288-304 | an address is six bytes in hexadecimal with colons between them, not all zero and not all ones |
| DeviceTable.App.DeviceInApp | simpleblue.c:428-434 | the loop finds the first device of an address, compared without case |
| DeviceTable.App.SortDevices | simpleblue.c:1124-1142 | a sorted table, the given address selected while it is visible, and selection and top inside the visible rows |
| DeviceTable.App.ParseScanLine | simpleblue.c:1054-1102 | the in-place edit, deletion included, is the specified edit |
| DeviceTable.App.ApplyDiscoveryLine | simpleblue.c:1357-1376 | after a live line the table is edited and sorted and the selection kept |
| DeviceTable.App.ToggleUnnamed | simpleblue.c:1144-1154 | hiding or showing unnamed devices keeps the selected address while it is visible |
| DeviceTable.App.PressKey | simpleblue.c:2317-2329 | every key leaves the selection inside the visible rows, at the row it names |
| DeviceMerge.MergedIsThreeWay | simpleblue.c:1568-1611 | per address: deleted live is gone, new live is added while there is room, with its name unless that is an address name and all else as scanned if the scan has it, dropped by the scan is gone, and in all three tables each of the eight merged fields is the live value if live changed it, else the scanned one, a rejected pairing key follows its rule, and the rest is as scanned; addresses stay unique |
| DeviceMerge.MergedLength | simpleblue.c:1570-1587 | the size of the merged table, never above the limit |
| DeviceMerge.RoomIs | simpleblue.c:1584-1588 | a new live device finds room exactly when the kept devices and the new ones before it leave some |
| DeviceMerge.UnchangedLiveGivesScanned | simpleblue.c:1568-1611 | with nothing changed live the merge is the scanned table |
| DeviceMerge.UnchangedScanGivesLive | simpleblue.c:1568-1611 | with nothing changed by the scan the merge has live's membership and live's merged fields |
| DeviceTable.App.DropGone | simpleblue.c:1570-1578 | deletion in place leaves exactly the devices that are not gone |
| DeviceTable.App.MergeLive | simpleblue.c:1579-1608 | one live device merged as specified |
| DeviceTable.App.MergeDiscoveryUpdates | simpleblue.c:1568-1611 | the two loops compute the merge |
| DeviceTable.App.FinishScan | simpleblue.c:1643-1673 | the merged table becomes the table, sorted, with the selected address still selected while visible |
| DeviceTable.ArrangedMergeIsThreeWay | simpleblue.c:1568-1611 | what the user then finds under any address is the three-way outcome, field by field |
| TerminalText.StepWrites | simpleblue.c:319-346 | what one byte does to the line being written in the array |
| TerminalText.PrintsIff | simpleblue.c:334-345 | tabs and all bytes but controls and DEL are text |
| TerminalText.ByteMeans | simpleblue.c:319-346 | text is written, a newline ends the line, and so does a carriage return unless it is empty, a backspace or DEL takes back the last byte of the line, and other controls are nothing |
| TerminalText.EscapesAreSkipped | simpleblue.c:321-330 | a control sequence, from the escape to the first byte from 0x40 to 0x7e, leaves no trace; other escapes take one byte with them |
| TerminalText.SkipEscape | simpleblue.c:321-330 | the inner loop skips exactly one escape sequence, or all that is left |
| TerminalText.StripTerminalSequences | simpleblue.c:314-348 | stripping in place writes the specified text and its NUL, never past the read position, and touches nothing behind the old end |
| TerminalText.LineEnds | simpleblue.c:332-343 | finishing a line adds it to the non-empty lines of the text, and nothing else |
| TerminalText.StepAgrees | simpleblue.c:1775-1798 | one byte keeps the two strippers in agreement |
| TerminalText.StrippersAgree | simpleblue.c:314-348 | with lines under the cap, the non-empty newline-terminated lines of the stripped text are the non-empty lines the pairing parser completes, and the unfinished line is the same |
| TerminalText.StreamByteMeans | simpleblue.c:1775-1798 | the same for the pairing parser, whose lines have a limit and may be empty |
| TerminalText.EmptyLinesDecideNothing | simpleblue.c:1762-1772 | empty lines never decide a pairing |
| TerminalText.CleanedIs | simpleblue.c:1743-1746 | a line is judged without the spaces around it and without a prompt in brackets before it |
| TerminalText.JudgedIs | simpleblue.c:1761-1772 | a complete line that says that pairing was successful decides for it, and one of four complaints, the last in letters of either case, against it; the first that decides is the last |
| TerminalText.AsksIff | simpleblue.c:1755-1759 | a prompt asks when it ends in a colon and one of three questions stands in it |
| TerminalText.OutcomeIsThatOfStrippedLines | simpleblue.c:1736-1798 | the outcome of a pairing, for any splitting of the output into reads, is what the lines of the stripped output decide |
| TerminalText.PairOutput.ParsePairLine | simpleblue.c:1736-1773 | only a complete line can decide the outcome, the first one that does counts, and an incomplete one leaves it |
| TerminalText.PairOutput.TakeByte | simpleblue.c:1777-1796 | one byte moves the parser as the stream specification says |
| TerminalText.PairOutput.ParsePairOutput | simpleblue.c:1775-1798 | one read leaves the parser where its bytes one by one lead |
| Reads.SplittingDoesNotMatter | simpleblue.c:1868-1872 | a state stepped by every byte ends up the same however the bytes are split into reads |
| PageTable.IntervalsInOrder | simplebook.c:582-603 | page intervals are ordered and disjoint, from the first line to the last |
| PageTable.LinesMapToTheirPage | simplebook.c:1790-1806 | every line of a page's interval maps to that page |
| PageTable.PageForLineIs | simplebook.c:1790-1806 | a line maps to the page it names, or to the last page when it names none or lies behind the table |
| PageTable.LineIsSomewhere | simplebook.c:582-666 | every line is in an interval or in a gap between two |
| PageTable.GapLines | simplebook.c:652-666 | lines between intervals are a blank that maps to the page before and a rule that maps to the page after |
| PageTable.PagesAscendIff | simplebook.c:478-485 | in a finished table page numbers never decrease unless a rule that names no page is followed by a line that does |
| PageTable.PagesAscendBelowLimit | simplebook.c:478-485 | they never do when every line names a page |
| PageLimit.PhaseDecides | simplebook.c:582-666 | with as many form feeds as there may be pages or more, page numbers ascend exactly when there are as many and nothing is put after the last |
| PageLimit.ReadingAscendsIff | simplebook.c:836-931 | the same for the tables of the reading loader, as a condition on the pieces of text it is given |
| PageLimit.LayoutAscendsIff | simplebook.c:933-1006 | the same for the loader that keeps the layout |
| PageLimit.TooManyFeedsDescend | simplebook.c:478-485 | one form feed more than there may be pages, and nothing else: page numbers decrease with either loader |
| PageTable.EmptyPageDropped | simplebook.c:820-833 | dropping an empty last page takes its rule and the blank before it and leaves a finished table |
| PageTable.DropIs | simplebook.c:816-834 | empty pages at the end go, down to as many as the document says it has, with all behind the page before them; nothing else does |
| PageTable.GapMeans | simplebook.c:652-666 | a blank line unless the page is empty, a rule that names the next page, and, while there may be more, the next page, with a blank first line |
| PageTable.AppendSegmentIs | simplebook.c:770-788 | a piece of text joins the paragraph at a hyphen before a letter, which goes, and else after a space |
| PageTable.TakeMeans | simplebook.c:862-896 | what each kind of piece does to the reading loader: prose goes on with the paragraph while there is room; all else ends it, and entries of the contents get lines of their own until one ends the contents |
| PageTable.ReadMeans | simplebook.c:898-905 | a form feed ends the paragraph too, and then the page |
| PageTable.LayoutTakeMeans | simplebook.c:951-969 | what each line does to the loader that keeps the layout: one blank for graphics, two at most for empty lines |
| PageTable.LayoutKeepsText | simplebook.c:933-1006 | the table holds the lines with text on them, in order and unaltered |
| PageTable.EndKeepsText | simplebook.c:915-930 | the end of a document takes no text away, and puts a notice where nothing is left |
| PageLoading.Document.TrimTrailingBlankLines | simplebook.c:643-650 | trimming takes only blank lines and never crosses the start of the page |
| PageLoading.Document.AddPageGap | simplebook.c:652-666 | the gap and the next page after a form feed |
| PageLoading.Document.DropTrailingEmptyPages | simplebook.c:816-834 | empty last pages go, down to the number of pages of the document, and the table stays finished |
| PageLoading.Document.FlushBlock | simplebook.c:790-806 | a paragraph becomes its wrapped lines and a blank one |
| PageLoading.Document.TakeSegment | simplebook.c:862-896 | one piece of extracted text, whatever kind it is |
| PageLoading.Document.LoadReadingText | simplebook.c:836-931 | for any text and any decision about each paragraph being a heading the tables are finished and nonempty and are those specified; page numbers ascend if and only if there are fewer form feeds than there may be pages, or as many with nothing put after the last |
| PageLoading.Document.LoadLayoutText | simplebook.c:933-1006 | the same for the loader that keeps the layout, whose table holds the lines with text on them, in order and unaltered, or the notice |
| LinkScan.StepKeeps | simplebook.c:3096-3312 | every operation keeps the invariant: a page is being scanned only under a worker that covers it, and only ready pages have links |
| LinkRuns.PageStep | simplebook.c:3096-3312 | between resets each step moves a page only from unscanned to scanning, or to failed when no worker starts, and from scanning to ready or failed; it becomes ready only by taking over the output of a worker that covers it, and no other step changes its links |
| LinkRuns.RunOnlyMovesForward | simplebook.c:3096-3312 | over every run between resets a ready or failed page stays so, a page being scanned never becomes unscanned, and a ready page keeps exactly its links |
| LinkRuns.ReadyPageWasScanned | simplebook.c:3096-3312 | in every run a ready page was, since the last reset, being scanned under a worker that covers it when its output was taken over; it had no links before, has exactly those found on the output lines for it since, and no other output was taken over for it |
| LinkRuns.OnlyOnce | simplebook.c:3199-3272 | between resets no two outputs are taken over for one page |
| LinkRuns.SelectingLosesTheScan | simplebook.c:3199-3272 | a run in which a link is selected while the worker scans: whatever it finds is refused and the page has failed |
| LinkScan.Scanner.EnsureRange | simplebook.c:3096-3187 | exactly the unscanned pages of the range are claimed, or failed when no worker starts; the worker is given the stretch from the first of them to the last, and a page is being scanned only under a live worker that covers it |
| LinkScan.RangeIs | simplebook.c:3108-3113 | the pages meant are those of the requested range that exist |
| LinkScan.Scanner.ClaimPages | simplebook.c:3119-3126 | the loop claims those pages and finds the first and last of them |
| LinkScan.Scanner.ParseOutput | simplebook.c:3218-3225 | the links of claimed pages are appended in order, and no others |
| LinkScan.Scanner.SettleLinks | simplebook.c:3230-3267 | each new link is resolved once, by its own page's share of broken targets, and the pages become ready |
| LinkScan.Scanner.FinishOutput | simplebook.c:3199-3272 | the output is taken over whole exactly when list and revision are those the worker started from |
| LinkScan.Scanner.MarkFailed | simplebook.c:3189-3197 | parsed links go again and the claimed pages fail |
| LinkScan.Scanner.Check | simplebook.c:3274-3312 | a scan is atomic: all its links and ready pages, or the list exactly as it was and failed pages |
| LinkScan.ScanGivesParsedLinks | simplebook.c:3218-3267 | after a success the links of a scanned page are its parsed links, once and in order |
| LinkScan.ParsedIs | simplebook.c:3218-3225 | the links taken for a claimed page are exactly those found, in order, on the output lines for which the last line up to them that names a page names it, or none does and it is the first page of the worker; a page not claimed gets none |
| LinkScan.ResolvedIs | simplebook.c:3236-3267 | a target is repaired exactly when it is no page of the document, or is the page of the link and so are three quarters of the three or more links on that page; the link is then placed where it is found |
| LinkScan.CheckIs | simplebook.c:3274-3312 | what a check leaves of states, links, worker and revision, link by link and page by page |
| LinkScan.UndisturbedScan | simplebook.c:3096-3312 | a scan that nothing comes between makes every unscanned page of the range ready, with exactly the links found for it |
| LinkScan.AllSettled | simplebook.c:3230-3267 | when a worker ends no page is left being scanned |
| LinkScan.Scanner.SelectionMoves | simplebook.c:4052-4055 | selecting changes the revision and nothing else the scanner holds |
| LinkScan.Scanner.Remap | simplebook.c:3039-3059 | a new layout moves links about, and none comes or goes |
| LinkScan.RemappedIs | simplebook.c:3039-3059 | every link is placed anew, its target the same way as before |
| LinkScan.Scanner.Reset | simplebook.c:2558-2572 | a full reset forgets the worker, every link and every page |
| LinkCycle.Reader.LinkFromViewport | simplebook.c:3955-3987 | the earliest link in the window, else the earliest ahead of it, else the earliest of the page, in the direction of the step, and the first in the list among equals |
| LinkCycle.Reader.EdgeAndBest | simplebook.c:4006-4034 | the loop finds the outermost link and the nearest one beyond the selection |
| LinkCycle.Reader.SelectLink | simplebook.c:3989-4056 | the link selected follows the old one in cyclic order, is in view, and is found exactly when the page has one |
| LinkOrder.ScrolledIs | simplebook.c:4046-4051 | a line out of view is shown a third of the way down the window, or as near to that as the first line allows |
| LinkOrder.BeyondIs | simplebook.c:3947-3953 | positions are compared by line and then by byte, and the other way round for a step back |
| LinkCycle.StepKeepsPageIff | simplebook.c:4046-4051 | exactly when scrolling to a link keeps its page at the top of the window |
| LinkCycle.StepLeavesPage | simplebook.c:4046-4051 | a document of two pages in which a step to a link of the second scrolls back to the first |
| LinkCycle.Reader.TakeSteps | simplebook.c:3989-4056 | repeated steps on an unchanged page go from each position to the next one, and as many as there are distinct positions visit each once, in order with one wrap, and return to the start |
| LinkCycle.Reader.StepThereAndBack | simplebook.c:3989-4056 | a step and, as long as the page is shown, one the other way come back to the same position |
| LinkOrder.CanBeListed | simplebook.c:3947-3953 | the positions of a page can be listed in (line, byte) order |
| LinkOrder.StepBackIsPredecessor | simplebook.c:4006-4037 | a step the other way goes to the neighbour before |
| LinkOrder.StepIsSuccessor | simplebook.c:4006-4037 | a step goes to the neighbour in that list and wraps at its end |
| LinkOrder.StepsVisitEachOnce | simplebook.c:3989-4056 | as many steps as there are distinct positions visit each once, in order with one wrap, and return to the start |
| LinkOrder.PreviousUndoesNext | simplebook.c:3989-4056 | a step and a step the other way return to the same position |
| Levels.PercentsSurviveIff | simplebright-backend.c:28-38 | every percentage from 1 to 100 survives the trip through the device if and only if it has at least 100 levels |
| Levels.LevelsSurviveIff | simplebright-backend.c:28-38 | every level survives the trip through the percentage if and only if the device has at most 100 |
| Levels.RawInRange | simplebright-backend.c:32-38 | the raw value is from 1 to the maximum, unless the maximum is 0 |
| Levels.RawIsNearest | simplebright-backend.c:32-38 | a percentage, kept from 1 to 100, becomes the nearest level, and never 0 |
| Levels.RawMonotone | simplebright-backend.c:32-38 | a higher percentage never gives a lower level |
| Levels.PercentMonotone | simplebright-backend.c:28-31 | a higher level never gives a lower percentage |
| Levels.PercentIsNearest | simplebright-backend.c:28-31 | a level becomes the nearest percentage |
| Levels.PercentMonotoneIff | simplebright-backend.c:28-31 | for any values, levels or not, the percentage rises with the value up to n if and only if the quotient for n fits an `int` |
| BrightHardware.GroupIs | simplebright.c:63-77 | commands for one device go to its displays alone, and commands for the filter to the night daemon alone |
| BrightHardware.WrittenIs | simplebright-backend.c:222-247 | a display that is read and written is at the requested level, any other stays, and it is shown at the level read last |
| BrightHardware.TemperatureIs | simplebright-backend.c:645-665 | when a temperature is taken, and that a refusal by the ramp closes it and switches the filter off |
| BrightHardware.SwitchIs | simplebright-backend.c:666-693 | how the filter is switched: by the ramp, by what the desktop has in its place, or not at all, and what is then open, inhibited and remembered |
| BrightHardware.CommandIs | simplebright.c:58-80 | a command for a display goes to every display with its id, one for the filter to the daemon, and a scan or read finds all anew |
| BrightHardware.LevelLeft | simplebright-backend.c:222-247 | after any writes, confirmed or not, a display is at the level of the last one that went through |
| BrightHardware.TemperaturesLeave | simplebright-backend.c:645-665 | temperatures leave the last one taken, unless the ramp that filters now refuses one: then the filter is off, the ramp closed, and nothing that follows opens it again |
| BrightHardware.FilterStays | simplebright-backend.c:666-695 | switching changes what serves the filter only by giving up a ramp that has a desktop service behind it, and never back |
| BrightHardware.SwitchCoveredIff | simplebright-backend.c:666-695 | the last of some switches ends in the same state with and without the others exactly under a condition on its own answer and on what they left of night filter, ramp and inhibition |
| BrightHardware.TemperatureCoveredIff | simplebright-backend.c:645-665 | the same for temperatures, as a condition on the answers to all of them |
| BrightHardware.BrightnessCoveredIff | simplebright-backend.c:222-247 | the same for brightness: whether the last write is read, goes through and is confirmed decides what the others may have changed |
| BrightHardware.MergingIsFaithfulIff | simplebright.c:51-57 | executing only the last command of a group is the same as executing all of them, for displays, snapshot and night daemon, if and only if it makes up for the others in that sense |
| BrightHardware.LastCommandWins | simplebright.c:51-57 | a last command that everything takes makes up for the others if and only if they did not cost the daemon its ramp |
| BrightHardware.AlreadyThereIff | simplebright.c:67-76 | a command that everything takes changes nothing exactly when everything is there already |
| BrightHardware.SteadyHardwareMergesWell | simplebright.c:51-57 | hardware that takes all commands of a group, or hears none of them, loses nothing by merging them |
| BrightProtocol.QueueKeeps | simplebright.c:84-90 | queueing a command keeps the invariant |
| BrightProtocol.DrainKeeps | simplebright.c:209-218 | reading a reply keeps the invariant |
| BrightProtocol.DrainSelects | simplebright.c:209-218 | a reply to the latest command is shown, and the row selected is the last with the id selected before, or with the preferred id when none was, and else the first; an older reply shows nothing |
| BrightProtocol.AdjustIs | simplebright.c:173-187 | a key changes the level of the selected display, between 1 and 100, or the warmth of the filter, 55 kelvin a step between 1000 and 6500, shows it at once and queues just that |
| BrightProtocol.ToggleIs | simplebright.c:237-243 | switching the filter is shown and queued at once, and a filter switched on takes the focus if it has a temperature |
| BrightProtocol.RunKeeps | simplebright.c:58-80 | executing and answering keeps the invariant |
| BrightProtocol.StepKeeps | simplebright.c:41-90 | every step of either thread keeps the invariant |
| BrightProtocol.RunHolds | simplebright.c:41-90 | the invariant holds in every state of every run |
| BrightProtocol.AnswerFaithfulIff | simplebright.c:41-80 | when the answers before were right, the state behind the next one is that of all commands up to its number executed in order exactly when its group merged well |
| BrightProtocol.RunIsSafe | simplebright.c:41-90 | for every interleaving and however single commands fare: no command is lost, reply numbers strictly increase, each reply shows what the last command of its group did to the state before; behind all replies is the state of all commands up to their numbers executed in order if and only if every group merged well; a terminal that is not busy shows the answer to its latest command, and when nothing is left to do it shows the state of the worker |
| BrightLosses.LossIff | simplebright.c:41-80 | in a run in which the same key is pressed twice before the worker looks, the end is that of executing both commands exactly when they merge well |
| BrightLosses.RefusalLosesAValue | simplebright.c:51-76 | such a run in which the display takes the first level and refuses the second: merged, it keeps the old one |
| BrightLosses.RefusalSwitchesOff | simplebright-backend.c:645-665 | such a run in which the ramp refuses the first temperature and takes the second: merged, the filter stays on, while both commands would leave it off |
| DriveSafety.Pass | simpleburn.c:153-162 | a pass only marks nodes reached from the drive, and one that changes nothing has found the marks closed |
| DriveSafety.Members | simpleburn.c:148-164 | after at most as many passes as nodes exactly the nodes reached through parent names are marked, for any table |
| DriveSafety.ClosedHoldsReached | simpleburn.c:153-162 | closed marks hold everything reached from the drive |
| DriveSafety.ReachesIff | simpleburn.c:153-162 | reached are the drive and whatever names a reached node as its parent |
| DriveSafety.InsideMeansParts | simpleburn.c:114-119 | a path is inside a directory exactly when the directory's parts are its first parts |
| DriveSafety.RemovableIff | simpleburn.c:173-174 | removable volumes lie in /media, /run/media, /mnt or /Volumes, told by the parts of the path |
| DriveSafety.MountsAre | simpleburn.c:169-171 | the mounts of a node are the lines of its text that are not empty |
| DriveSafety.SafeMounts | simpleburn.c:165-177 | true exactly when every mount lies in a removable-volume directory and does not hold the image |
| DriveSafety.CheckEligible | simpleburn.c:179-194 | true exactly for a large enough writable disk of which everything stacked on it is safe |
| DriveSafety.OneBadNodeRefuses | simpleburn.c:186-192 | one node anywhere in the closure that holds the image, is mounted elsewhere or is no partition refuses the drive |
| DriveSafety.FindDrive | simpleburn.c:310-310 | the first node with the requested path |
| BurnProgress.Copier.DdBatch | simpleburn.c:239-271 | a batch writes a contiguous stretch of the image from the shared offsets, as long as `dd` gets, and nothing else; the lines `dd` writes go to the same pipe |
| BurnProgress.Copier.Print | simpleburn.c:289-290 | a progress line names a prefix already copied and flushed |
| BurnProgress.Copier.RunDd | simpleburn.c:273-293 | printed values start at 0, are whole sectors and strictly increase, by at most a batch, up to the size; success means exactly that the whole image is copied and flushed, and comes about whenever no batch goes wrong |
| BurnProgress.Copier.EveryValueIsCommitted | simpleburn.c:273-293 | every value printed names a prefix that is on the drive and flushed |
| BurnProgress.Copier.HoldsMore | simpleburn.c:283-288 | a batch behind a copied prefix makes the prefix longer |
| BurnProgress.NumberOfDecimal | simpleburn.c:574-574 | a printed 64-bit number reads back as itself |
| BurnProgress.NumberIs | simpleburn.c:574-574 | spaces, a sign and digits up to anything else are read as `strtoull` reads them: limited to 64 bits, and negated within them |
| BurnProgress.ComplainsIff | simpleburn.c:578-580 | a line complains when it speaks of `dd` or `sudo` anywhere |
| BurnProgress.ProgressReader.TakeByte | simpleburn.c:571-583 | one byte moves the reader as specified, line by line |
| BurnProgress.LongLine | simpleburn.c:571-583 | a line longer than the buffer is cut off, and goes on being cut off until it ends |
| BurnProgress.ProgressReader.ReadProgress | simpleburn.c:566-584 | the reads leave the reader where all bytes in one read would |
| BurnProgress.MessageIsRead | simpleburn.c:572-582 | a line of the helper has exactly its meaning for the reader |
| BurnProgress.LastValueIsRecovered | simpleburn.c:566-584 | the last value printed is recovered, and the end noticed, for any splitting into reads |
| BurnProgress.HundredMeansDone | simpleburn.c:471-479 | 100 per cent is shown if and only if the helper is done |
| BurnProgress.PercentIs | simpleburn.c:471-479 | until the helper is done the percentage is the whole part of the quotient, at most 99 |
| BurnProgress.PercentRises | simpleburn.c:471-479 | more written never shows a lower percentage |
| BurnProgress.PrefixIsRead | simpleburn.c:566-584 | after any number of bytes, inside a line too, the reader knows exactly what the lines that ended have told it |
| BurnProgress.ShownNeverDecreases | simpleburn.c:471-479 | over the bytes of a run, however they are read, the shown percentage never decreases |
| BurnWrite.Confirm | simpleburn.c:310-315 | a scan confirms the drive exactly when it has the confirmed identity and is eligible |
| BurnWrite.OpenImageIff | simpleburn.c:224-235 | an image is opened exactly when it is named as one and is a regular file of whole sectors, and not empty |
| BurnWrite.StillMounted | simpleburn.c:324-328 | true exactly when something in the closure is still mounted |
| BurnWrite.Prepare | simpleburn.c:302-330 | the drive is opened exactly when both scans confirm it and the second shows no mount in the closure |
| BurnWrite.WriteImage | simpleburn.c:295-344 | nothing is written unless all checks passed; success means exactly that the whole image is flushed and the image file is still the one chosen |
| BurnWrite.RunIsShown | simpleburn.c:566-584 | the program that shows the progress, reading the helper's output mixed with lines of `dd` and other programs in any pieces, ends with the helper's last value, done on success, and failed exactly if the helper reported an error or one of those lines complains |

## Left out

- Drawing, key decoding, the clipboard, file pickers, processes, sockets, libcurl, WebKit, D-Bus and the X11 or Wayland gamma ramps: they appear as inputs that may take any value, or not at all.
- Allocation failure: every allocation succeeds.
- HTML parsing, reader heuristics, heading and chapter guessing, and where a link is found in the text: parameters that may decide anything.
- Locale-dependent comparison beyond ASCII, `int` overflow of signal strengths, and device fields that the merge does not touch.
- BrightProtocol.RunIsSafe: levels, filters and services changed from outside, by a ramp revoked between two requests or a daemon that ended, appear only through scans and reads; a request that the night daemon carries out is always answered.
- BrightHardware.SteadyHardwareMergesWell: hardware that answers alike but refuses is not promised to merge well, since a refused temperature switches the filter off and a write without confirmation shows the level before it.
- BrightProtocol: devices that share an id fare alike, the range of a display does not change when it is read again, and the mouse is an absolute adjustment.
- BurnProgress.Percent: takes the quotient exactly; the rounding of `long double` is not modelled.
- BurnProgress.Copier.RunDd: the content of the image file is fixed while it is copied; a change is what the identity check at the end is for.
- BurnWrite.WriteImage: the texts of error messages, the process that unmounts, and the platform scans are inputs.
- LinkScan.Scanner.Check: pages and links of EPUB documents never take part in a scan; the instant between cancelling a worker at exit and freeing the links, when a page may be left as being scanned, is not modelled.
- LinkCycle.Reader.SelectLink: starting a scan for the page and the notices shown when there is no link are not part of it.
- PageTable: widths and margins of pages and the EPUB loader.
- Layout: nothing is claimed about the number of display lines, since a blank that itself overflows is not remembered as a place to break.
- Forms.ParseText: the replacement of malformed sequences by U+FFFD, with which section 5.1 decodes values that are no UTF-8, is not modelled.
- History.Browser.Load: addresses are not truncated to the address buffer, and fetching, retries and fallbacks are reduced to where the load lands and what it shows.
- TerminalText.PairOutput.ParsePairOutput: what is printed on the terminal; the prompt remembered and whether an answer is awaited may depend on how the output is split into reads.
- TerminalText.StrippersAgree: input whose lines outgrow the 4096-byte line of the pairing parser, which drops what does not fit.
- The persistence of night-light settings, on-disk caches, search within a page, relative address resolution, and the smaller programs of the suite: little hard logic, or foreign calls.
