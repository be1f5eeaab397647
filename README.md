# ugdb layout language and code window, in Dafny

This project models two parts of the ugdb terminal front end for GDB.

**The layout language** (`src/layout.rs`). A layout string describes the window's panes:
- The leaves are `c` (console), `t` (terminal), `s` (source view) and `e` (expression table).
- Any node may have an optional decimal weight in front of it.
- `( … )` groups a sub-layout.
- `|` makes a horizontal split and `-` a vertical split. One nesting level may not mix the two.

The module `LayoutSpec` gives the recursive-descent parser as functions over the input and a character position. It also has a printer, `Render`. `LayoutParser` is the parser as written: a cursor class `Input` and methods that move it. Every method is proved against the functions. The main results are these:
- A successful parse gives a well-formed tree: every split has at least two children.
- A failed parse reports an error whose index points into the input.
- Printing a well-formed tree and parsing the text gives the tree back.

**The code window** (`src/tui/srcview.rs`). It has three parts: a source view, an assembly view, and the window that decides what to load and which mode to show.
- `CodeViewData` holds the values: breakpoint decorators, the collection of instruction lines from disassembly replies, the address-range disassembly, and a stable sort by key.
- `CodeViewModes` holds the decisions as functions: the shown display mode, the toggle cycle, what loading does to the two content states, what a stack frame asks to load, and the stack-level step.
- `CodeView` holds the classes `SourceView`, `AssemblyView` and `CodeWindow`, whose methods update their fields as the source does. Each method is proved against those functions. One exception: `AssemblyView.UpdateDecoration`, and through it `CodeWindow.UpdateAfterEvent`, rebuild the assembly decorator over the corrected range described under Findings, not the range the source computes.

GDB, the file system and the disassembler are out of reach. They are fields of a `Debugger` value: functions giving GDB's reply to each request, whether a file opens, and whether it changed on disk.

## Model

| member | source | states |
|---|---|---|
| LayoutParser.Input.constructor | src/layout.rs:24-31 | A new cursor is on the first character of the given text. |
| LayoutParser.NewInput | src/layout.rs:24-31 | An empty string is refused with `TooShortExpected` of the node-start characters. Any other string gives a fresh cursor at position 0. |
| LayoutParser.Input.Current | src/layout.rs:32-34 | There is a current character exactly when the cursor is before the end, and it is the character at the cursor. |
| LayoutParser.Input.CurrentIndex | src/layout.rs:35-37 | The index is inside the text and points at the current character. |
| LayoutParser.Input.Advance | src/layout.rs:38-40 | The cursor moves one character forward, or stays put at the end of the input. |
| LayoutParser.TryParseWeight | src/layout.rs:43-59 | The weight and the new cursor position are `WeightAt` of the old position: the value of the maximal digit run, or 1 when there are no digits, with the cursor after the run. |
| LayoutSpec.WeightAt | src/layout.rs:43-59 | The cursor stays in the input and stops on the first character that is not a digit. |
| LayoutSpec.WeightOfDigits | src/layout.rs:43-59 | Given a digit run `ds` followed by a non-digit, the weight is the decimal value of `ds` (1 if empty) and the cursor ends after `ds`. |
| LayoutSpec.WeightExamples | src/layout.rs:43-59 | `99e` reads weight 99 and stops at `e`; `s` reads the default weight 1 without moving. |
| LayoutSpec.LeafKind | src/layout.rs:61-67 | A character names a leaf exactly when it is one of the node-start characters other than `(`: `c`, `t`, `s` or `e`. |
| LayoutSpec.KindChar | src/layout.rs:60-70 | Each leaf kind has a letter that reads back as that kind; the letter is a node-start character other than `(`. |
| LayoutParser.TryParseLeaf | src/layout.rs:60-70 | A leaf letter under the cursor is consumed and gives that leaf. Anything else gives nothing and the cursor does not move. |
| LayoutParser.ParseItem | src/layout.rs:78-113 | One weighted node (a leaf, or a bracketed sub-layout closed by `)`) is read exactly as `ItemAt` says. A wrong start character, a missing bracket or the end of input gives the matching error. |
| LayoutSpec.ItemAt | src/layout.rs:78-113 | A successfully read item consumes at least one character and stays inside the input. |
| LayoutParser.ParseNode | src/layout.rs:72-151 | One nesting level is read exactly as `NodeAt` says. Items are joined by one kind of separator. Changing the separator is `SplitTypeChangeFromTo` at its index. A single item stands for itself. |
| LayoutSpec.ParseLevel | src/layout.rs:72-151 | A level that succeeds ends strictly after where it started and inside the input. |
| LayoutSpec.AfterNode | src/layout.rs:115-150 | After an item, the level ends at the end of input or at a non-separator, or it continues past a separator. |
| LayoutSpec.Finish | src/layout.rs:143-150 | Without a split type the level is its single node. With one it is a split holding exactly the collected weighted nodes, horizontal for `\|` and vertical for `-`. |
| LayoutSpec.AfterNodeStops | src/layout.rs:115-150 | At the end of input or at a non-separator, the level is finished with the nodes collected so far. |
| LayoutSpec.AfterNodeContinues | src/layout.rs:120-141 | At a separator that agrees with the level's split type, parsing continues after it with that split type. |
| LayoutSpec.NodeAt | src/layout.rs:72-151 | A node that reads ends strictly after its start and inside the input. At the end of input it fails with `TooShortExpected` of the node-start characters. |
| LayoutSpec.ParseResult | src/layout.rs:153-156 | An empty input is too short. Otherwise the parse succeeds exactly when the node at position 0 reads, and it gives that node's tree or its error. Text after that node is not looked at. |
| LayoutSpec.ParseLevelStep | src/layout.rs:77-113 | A level whose first item parses continues after that item with the item appended. |
| LayoutParser.Parse | src/layout.rs:153-156 | The result is `ParseResult` of the input. On success the tree is well formed; on failure the error fits the input. |
| LayoutSpec.ItemFacts | src/layout.rs:78-113 | An item's tree is well formed, and its error indices lie inside the input. |
| LayoutSpec.ParseLevelFacts | src/layout.rs:72-151 | A level built on well-formed nodes gives a well-formed tree, and its error indices lie inside the input. |
| LayoutSpec.AfterNodeFacts | src/layout.rs:115-150 | Finishing or continuing a level keeps the result well formed and the errors inside the input. |
| LayoutSpec.ParseFacts | src/layout.rs:153-156 | Whole-input parse: a success is well formed (splits have at least two children); a failure fits the input. |
| LayoutSpec.SepChar | src/layout.rs:120-140 | The separator printed for a split reads back as that split's type. |
| LayoutSpec.Render | src/layout.rs:72-151 | Printing a well-formed tree gives a non-empty string. |
| LayoutSpec.NodeRoundTrip | src/layout.rs:72-151 | Where a printed tree stands in the text and its level ends after it, parsing there gives the tree and ends after the printed text. |
| LayoutSpec.ItemRoundTrip | src/layout.rs:78-113 | A printed weighted child reads back as that child and its weight. |
| LayoutSpec.LeafItem | src/layout.rs:78-80 | Digits followed by a leaf letter read as that leaf with the digits' weight (1 when there are none). |
| LayoutSpec.GroupItem | src/layout.rs:78-101 | Digits, `(`, a parsed sub-layout and `)` read as that sub-layout with the digits' weight. |
| LayoutSpec.ChildrenRoundTrip | src/layout.rs:72-151 | The printed children of a split from child `i` on read back as those children appended to the nodes collected so far. |
| LayoutSpec.MoreChildrenRoundTrip | src/layout.rs:77-142 | The step of that induction for a child followed by a separator. |
| LayoutSpec.RestRoundTrip | src/layout.rs:115-142 | After the separator that follows printed child `i`, the rest of the printed children reads back as the collected nodes, child `i` and the children after it. |
| LayoutSpec.ItemThenSeparator | src/layout.rs:115-142 | After a printed child and its separator, the rest of the printed children follows, and parsing continues there. |
| LayoutSpec.ChildrenText | src/layout.rs:120-140 | The printed children split into one child, the split's separator, and the rest. |
| LayoutSpec.ParseRoundTrip | src/layout.rs:153-156 | For every well-formed tree, parsing its printed text gives back the tree. |
| LayoutSpec.DigitRunEndOfRun | src/layout.rs:47-58 | A run of `n` digits followed by a non-digit ends `n` characters on. |
| LayoutSpec.NumberOfDigits | src/layout.rs:47-58 | The number accumulated over a digit run is the decimal value of the run. |
| LayoutExamples.ErrorExamples | src/layout.rs:189-213 | The source's error cases: `""` is too short; `f` is an unexpected character at 0; `(c-e` lacks `)`; `s-e\|t` changes split type at 3. |
| LayoutExamples.TripleWeighted | src/layout.rs:182-188 | `(s\|2t\|c)-99e` parses to a vertical split of the horizontal triple (weights 1, 2, 1) with weight 1 and the expression table with weight 99. |
| LayoutExamples.DefaultLayout | src/layout.rs:176-181 | The default layout `(1s-1c)\|(1e-1t)` parses to a horizontal split of two vertical pairs, source view over console and expression table over terminal, all with weight 1. |
| LayoutExamples.TrailingTextIgnored | src/layout.rs:153-156 | `s)` parses to the source-view leaf: the parser does not check that the whole input was read. |
| Decimal.ParseDecimal | src/tui/srcview.rs:36-45 | Unsigned integer parsing: `Some` exactly for an optional `+` followed by at least one digit and nothing else, with the decimal value of the digits. |
| Decimal.NatDigits | src/tui/srcview.rs:36-45 | Every natural number has a non-empty digit string whose value is that number. |
| Decimal.DecimalRoundTrip | src/tui/srcview.rs:36-45 | The digits of `n` parse back to `n`, with or without a leading `+`. |
| Decimal.DecimalRejects | src/tui/srcview.rs:287-290 | A character that is neither a digit nor a leading `+` makes the parse fail. |
| CodeViewData.DebugLocationOf | src/tui/srcview.rs:36-45 | There is a debug location exactly when the function name is present and the offset is present and numeric; it holds both. |
| CodeViewData.MarkedAddresses | src/tui/srcview.rs:87-98 | An address is marked exactly when some enabled breakpoint has that address inside the half-open range. |
| CodeViewData.NewAssemblyDecorator | src/tui/srcview.rs:82-112 | The breakpoint marks are exactly the addresses of enabled breakpoints in range. The stop position is kept exactly when it is in range. |
| CodeViewData.MarkedLines | src/tui/srcview.rs:446-456 | A line is marked exactly when some enabled breakpoint has a source position in that file at that line. |
| CodeViewData.NewSourceDecorator | src/tui/srcview.rs:441-461 | The breakpoint marks are exactly the lines of enabled breakpoints in the file; the stop line is kept as given. |
| CodeViewData.SortBy | src/tui/srcview.rs:306 | The sort by key keeps the number of elements. |
| CodeViewData.SortByFacts | src/tui/srcview.rs:306 | The sort by key gives a sorted permutation. Elements with equal keys keep their order, as Rust's stable `sort_by_key` does. |
| CodeViewData.InsnLine | src/tui/srcview.rs:295-303 | An instruction entry gives a line exactly when it has both `inst` and `address`; otherwise the first missing field is the error. |
| CodeViewData.InsnLines | src/tui/srcview.rs:295-304 | The instructions of one entry give lines exactly when every instruction has `inst` and `address`, and then one line per instruction. |
| CodeViewData.CollectedLines | src/tui/srcview.rs:286-305 | The collection succeeds exactly when every entry has a well-formed source position and its instructions all give lines. |
| CodeViewData.SourcePositionOf | src/tui/srcview.rs:286-294 | The `line` field must be present (else a field error) and numeric (else "Malformed line"), and then `fullname` must be present. |
| CodeViewData.GetInstructions | src/tui/srcview.rs:283-314 | Without `asm_insns` the result is `MissingField("asm_insns")`. Otherwise the loops collect every entry's instructions in reply order, or return the first bad field, and the result is that collection sorted by address. |
| CodeViewData.InstructionsSorted | src/tui/srcview.rs:306-307 | The instruction list is sorted by address, holds exactly the collected lines, and keeps reply order among lines at the same address. |
| CodeViewData.DisassembleAddress | src/tui/srcview.rs:808-848 | A failed exchange gives its execution error. An error reply gives its message or "unknown". A missing `asm_insns` or a missing address is an error. Otherwise the entries come back sorted by address, as a permutation of the reply. |
| CodeViewData.FindValidAddressRange | src/tui/srcview.rs:988-1004 | Errors pass through. Fewer than two entries is "Not enough lines". Otherwise the range runs from `at` to the address of the penultimate entry. |
| CodeViewData.AddressLines | src/tui/srcview.rs:347-357 | The loop turns entries into lines in order, without a source position, stopping at the first entry lacking `inst` or `address`. |
| CodeViewData.InsnLinesEntries | src/tui/srcview.rs:295-304 | Each built line is the line of its own instruction entry: its text, address, source position and debug location. A failure is the error of the first entry without a line. |
| CodeViewData.InsnLinesAddresses | src/tui/srcview.rs:347-357 | Successfully built lines match the entries one for one, with the same addresses. |
| CodeViewData.ShowFileLines | src/tui/srcview.rs:316-337 | A failed exchange gives its execution error. Success means the reply has `asm_insns` and every entry is well formed. The lines are sorted by address. |
| CodeViewData.ShowFileLinesPermutes | src/tui/srcview.rs:316-337 | The lines shown for a file are exactly the collected lines, reordered. |
| CodeViewData.ShowAddressLines | src/tui/srcview.rs:339-360 | A disassembly error passes through, and the lines are sorted by address. |
| CodeViewData.ShowAddressLinesFollowReply | src/tui/srcview.rs:345-357 | The lines follow the sorted reply entry by entry, with the same addresses. |
| CodeViewData.ShownAddressRange | src/tui/srcview.rs:264-267 | The decorated range runs from the first line's address to one past the last line's. |
| CodeViewData.ShownRangeMarksEveryLine | src/tui/srcview.rs:260-282 | For sorted lines, every enabled breakpoint at a shown line is marked, and so is a stop position at a shown line. |
| CodeViewData.RefreshAddressRangeAsWritten | src/tui/srcview.rs:239-258 | The refresh's range as written ends at the last line's address itself. |
| CodeViewData.RefreshAsWrittenDropsLastLine | src/tui/srcview.rs:239-258 | Lines at 0x10 and 0x14, with a breakpoint and the stop at 0x14, are marked when shown and unmarked after the refresh as written. |
| CodeView.SourceView.constructor | src/tui/srcview.rs:543-552 | A new source view has no file, no decorator, no stop position and no stack level. |
| CodeView.SourceView.SetLastStopPosition | src/tui/srcview.rs:553-555 | The stop position becomes the given file and line. |
| CodeView.SourceView.LastLineNumberFor | src/tui/srcview.rs:579-587 | The last stop line, exactly when the program last stopped in that file. |
| CodeView.SourceView.GoToLastStopPosition | src/tui/srcview.rs:561-577 | Without content the result is `NoContent`; without a stop, `NoLastStopPosition`; a stop in another file, `MismatchedPagerContent`. Otherwise the target is the stop line. |
| CodeView.SourceView.UpdateDecoration | src/tui/srcview.rs:589-606 | A loaded file gets a fresh decorator from the current breakpoints and its stop line; without a file nothing changes. |
| CodeViewModes.NeedToLoad | src/tui/srcview.rs:608-621 | A file must be loaded when nothing is loaded or another file is. The loaded file itself is reloaded exactly when it changed on disk since it was loaded. |
| CodeView.SourceView.Show | src/tui/srcview.rs:608-643 | The show succeeds exactly when no reload is needed (same file, unchanged on disk) or the file opens. A file that does not open is `CouldNotOpenFile` and changes nothing. On success the file is loaded and freshly decorated. |
| CodeView.StopMarkMatchesJump | src/tui/srcview.rs:561-606 | After a show, the decorator's stop mark exists exactly when the jump to the last stop succeeds, and both name the same line. |
| CodeView.AssemblyView.constructor | src/tui/srcview.rs:200-207 | A new assembly view shows nothing and has no stop position. |
| CodeView.AssemblyView.SetLastStopPosition | src/tui/srcview.rs:208-210 | The stop position becomes the given address. |
| CodeView.AssemblyView.ShowLines | src/tui/srcview.rs:260-282 | Empty lines change nothing. Other lines are shown with a decorator over the range from the first address to one past the last. |
| CodeView.AssemblyView.UpdateDecoration | src/tui/srcview.rs:239-258 | The decorator is rebuilt from the current breakpoints over the shown range, last line included (the corrected range). |
| CodeView.AssemblyView.ShowFile | src/tui/srcview.rs:316-337 | Succeeds exactly when `ShowFileLines` does, and then shows those lines. An error is passed on and leaves the view unchanged. Sorted contents stay sorted. |
| CodeView.AssemblyView.ShowAddress | src/tui/srcview.rs:339-360 | Succeeds exactly when `ShowAddressLines` does, and then shows those lines. An error is passed on and leaves the view unchanged. Sorted contents stay sorted. |
| CodeView.ShownLinesAreMarked | src/tui/srcview.rs:239-282 | In a decorated view of sorted lines, every enabled breakpoint at a shown line and a stop at a shown line are marked. |
| CodeViewModes.AvailableDisplayMode | src/tui/srcview.rs:865-879 | A message passes through. The preferred mode is shown when its content is available, otherwise whichever content is. "Neither source nor assembly available!" is shown exactly when neither is. |
| CodeViewModes.AvailableModeIsStable | src/tui/srcview.rs:865-879 | Preferring the mode that is shown shows it again. |
| CodeView.CodeWindow.constructor | src/tui/srcview.rs:851-863 | A new window prefers the welcome message and has neither content available. |
| CodeViewModes.SrcAfterLoad | src/tui/srcview.rs:881-894 | A pending source ends Available when it opens and Unavailable otherwise; any other state stays. |
| CodeView.CodeWindow.TryLoadSourceContent | src/tui/srcview.rs:881-894 | A pending file is shown and the state becomes Available on success, Unavailable on failure, with the error returned. Any other state is left alone. After a successful show the view holds the file and a fresh decorator with the file's stop line and the current breakpoints. In every other case the view is unchanged. |
| CodeViewModes.AsmLines | src/tui/srcview.rs:896-918 | The lines a pending assembly load shows come from its file and line or its address range, and are sorted. |
| CodeViewModes.AsmAfterLoad | src/tui/srcview.rs:896-918 | Pending assembly ends Available exactly when its lines load, otherwise Unavailable; any other state stays. |
| CodeView.CodeWindow.TryLoadAsmContent | src/tui/srcview.rs:896-918 | Pending assembly is loaded from its file or range. The state follows `AsmAfterLoad`. On success the view holds exactly what showing the loaded lines gives: the lines and a decorator over their range with the stop address and the current breakpoints. Nothing pending, or an error, leaves the view as it was. |
| CodeViewModes.ActiveLoad | src/tui/srcview.rs:920-952 | A message loads nothing. Each content is either left as it was or loaded. Side by side loads both. Source loads the source and the assembly only when the source ended unavailable. Assembly loads the assembly and the source only when the assembly ended unavailable. |
| CodeViewModes.ActiveLoadSettles | src/tui/srcview.rs:920-952 | After loading, the preferred content is no longer pending, nor is the fallback when the preferred content is unavailable. A message loads nothing. |
| CodeViewModes.ActiveLoadIdempotent | src/tui/srcview.rs:920-952 | Loading a second time changes neither state. |
| CodeView.CodeWindow.TryLoadActiveContent | src/tui/srcview.rs:920-952 | The states become `ActiveLoad`: side by side loads both; a single mode loads its own content and the other one only when its own is unavailable; a message loads nothing. Each view that loads holds what its own load gives: the opened file with a fresh decorator, or the loaded lines with their decorator. A view that does not load is unchanged. |
| CodeViewModes.NextMode | src/tui/srcview.rs:1058-1069 | A toggle changes every mode except a message, which it keeps. |
| CodeViewModes.ToggleCycle | src/tui/srcview.rs:1058-1069 | Source goes to side by side, then assembly; three toggles come back to the start. |
| CodeView.CodeWindow.ToggleMode | src/tui/srcview.rs:1058-1089 | The window loads for the next mode and keeps the previous preference if the shown mode would still be the previous one. A message is kept. The source view holds what the load for the next mode gives it, or is unchanged. The assembly view does too, except that going from source to side by side with a file loaded then shows the assembly of that file at the current line when it disassembles. |
| CodeViewModes.FrameRange | src/tui/srcview.rs:1039-1040 | The enclosing function's range when it is found, otherwise the valid range found from a 128-byte block at the address. |
| CodeViewModes.FrameStates | src/tui/srcview.rs:1006-1052 | A frame with a file makes the source pending. A frame with file and line makes that assembly pending; otherwise the range around its address is pending when one is found. All else is Unavailable. |
| CodeViewModes.FrameMode | src/tui/srcview.rs:1008-1010 | A message gives way to the source view; other modes stay. |
| CodeViewModes.FrameLoad | src/tui/srcview.rs:1006-1053 | Under a message the frame's states stay as the frame sets them. A frame without a file leaves the source unavailable. Whatever is still pending after the load is what the frame set. |
| CodeViewModes.FrameLoadSettles | src/tui/srcview.rs:1006-1056 | After a frame is shown, the content its mode needs is settled. |
| CodeView.CodeWindow.ShowFrame | src/tui/srcview.rs:1006-1056 | It sets the mode and the stack level (when GDB reports one). It records the stop position from the frame's file and line, or its address. The states become the frame's load in that mode. Each view that this load touches holds what loading the frame's content gives; the other view is unchanged. |
| CodeView.CodeWindow.TakeFrame | src/tui/srcview.rs:1006-1053 | The first half of `show_frame`: a message gives way to the source mode, the stack level is GDB's, the stop positions are the frame's file and line and its address (or stay), and the states are exactly what the frame asks to load. |
| CodeViewModes.NewLevel | src/tui/srcview.rs:1098-1107 | Up is one outer frame but never past depth−1 (0 for an empty stack). Down is one inner frame, stopping at 0. |
| CodeViewModes.StepTarget | src/tui/srcview.rs:1096-1107 | Down always has a target. Up has one exactly when the depth exchange succeeded and its depth parsed. |
| CodeView.CodeWindow.TrySwitchStackframe | src/tui/srcview.rs:1091-1134 | A failed level read or depth field is returned. The frame is selected only when the level changes. A reply not `done`, or one without a frame, is an error. Otherwise the frame is shown, with everything `ShowFrame` states. In every other case the window and both views are unchanged: modes, states, stop positions, stack level and contents. Every path that is not one of these errors returns success. That includes an up step whose depth exchange fails, an unchanged level, and a frame query that fails. |
| CodeView.CodeWindow.UpdateAfterEvent | src/tui/srcview.rs:1144-1150 | Both decorators are rebuilt from the current breakpoints. |

## Left out

- The GDB/MI engine (`gdbmi-rs/src/lib.rs`): its process, reader thread and channels are not modelled. Each GDB exchange is an oracle field of `Debugger`.
- The MI reply grammar and the `get_str`/`get_addr`/`get_u64_obj` helpers are not part of this model. Replies are decoded records with optional fields, and a missing or unreadable field is `FieldError(name)`. The JSON payload of `MissingField` is dropped.
- Layout weights are natural numbers. The `f64` conversion, `u32` overflow in the weight accumulator, and `usize` overflow in numbers read from GDB and in address arithmetic are not modelled.
- Paths are compared as strings, character by character. The source compares `PathBuf`s component by component (srcview.rs:449, 564, 594, 610), so `/a//b` or a trailing `/` match there and not here. This affects the breakpoint marks of `NewSourceDecorator`, the `MismatchedPagerContent` check of `GoToLastStopPosition` and the reload decision of `NeedToLoad`. Both sides of each comparison come from GDB's `fullname`.
- Error indices are character positions. For non-ASCII input the source's byte offsets differ.
- `LayoutParser.ParseItem` is a separate method for the first half of the `parse_node` loop body. The behaviour is the same, but the call structure differs.
- Rendering, highlighting and the pager: drawing, syntax highlighting, scrolling and cursor movement are not modelled. This covers `go_to_line`, `go_to_address`, `go_to_first_applicable_line` and the jumps after `show_frame`. Assembly pager content is the shown lines; `current_line_number` is a parameter of `ToggleMode`.
- `SourceView.Show` does not model reading files and timestamps. `need_to_load_file` compares the loaded path and asks the `modifiedSinceLoad` oracle, and whether a file opens is the `canOpen` oracle. A metadata failure after a successful load is not modelled.
- `find_function_range` (srcview.rs:954-987) is the `functionRange` oracle: the enclosing function's range or nothing. Its block-by-block search through GDB is not modelled.
- `toggle_breakpoint`, `event` and input handling, `switch_stackframe`'s log message, and the `warn!` logging are not modelled.
- `CodeView.CodeWindow.UpdateAfterEvent`: the comparison of breakpoint-change timestamps is left out; the method models the refresh that happens when breakpoints changed.
- `CodeView.CodeWindow.TrySwitchStackframe`: the text of an unexpected result class uses the model's class names, not Rust's `Debug` output. After the frame is selected, the `Debugger` oracle still gives its answers from before the switch. So `srcView.stackLevel` ends up holding the old level, whereas `show_frame` (srcview.rs:1012) asks GDB again and gets the newly selected one.
- Line numbers and line indices are the same natural number. `show_frame` converts a frame's line into a `LineIndex` (srcview.rs:1024), and `show_file` converts it back to a line number (srcview.rs:322). The two conversions cancel, so one number stands for both.
- `Decimal.ParseDecimal` accepts arbitrarily long digit strings, where `usize` parsing rejects values that do not fit in a machine word.

## Findings

| source | as written | input that shows it | evidently intended | confidence | as-written member | corrected member |
|---|---|---|---|---|---|---|
| src/tui/srcview.rs:239-258 | `update_decoration` rebuilds the assembly decorator over the range from the first line's address up to the last line's address, which excludes that address | two lines at 0x10 and 0x14, an enabled breakpoint at 0x14, stopped at 0x14: the marks are shown after `show_lines` and lost after a breakpoint refresh | the same range as `show_lines` (srcview.rs:264-267): up to the last line's address plus one | not executed | CodeViewData.RefreshAsWrittenDropsLastLine | CodeView.AssemblyView.UpdateDecoration |
