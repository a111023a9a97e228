# Maude runtime, token and AU-node core in Dafny

This project models four pieces of the Maude interpreter and proves properties of them. The pieces are:

- **The two-tier copying collector of the compiled runtime** (`FullCompiler/runtimeNew.cc`):
  - a nursery that records are bump-allocated into;
  - a chunked heap with a current space and a new space;
  - `evacuate`, `collectGarbage`, `ephemeralGC`, `fullGC` and `initMem`;
  - the graph interchange routines `depthFirstTraversal`, `outputGraph` and `inputGraph`.
- **The lexical helpers of `Token`** (`src/Mixfix/token.cc`):
  - escape encoding and decoding of string literals, following section 6.4.4.4 of ISO/IEC 9899:1999 (simple escapes and up to three octal digits);
  - the recognisers for special token properties and rationals;
  - name splitting;
  - backslash-newline removal;
  - backquote and bracket rewriting of operator names;
  - the token-vector operations.
- **The argument-sequence operations of DAG nodes headed by an associative symbol** (`AU_Theory/AU_DagNode.cc`).
- **The write-once binding macros of the built-ins** (`BuiltIn/bindingMacros.hh`).

## How the collector is modelled

- **The heap is an arena of cells behind stable handles** (`Runtime.Heap.arena`).
  - A cell is `Live(node)` or `Forwarded(node, to)`.
  - Allocating or copying a record appends a cell, so a copy gets the next handle.
  - Forwarding a record overwrites its cell.
  - A node holds its symbol, its `UNREDUCED` flag, its other flags, its sort index, its argument handles and the extra slot of an unreduced node.
- **Chunks are sequences of slots.** Each slot holds a copy's handle and byte size.
  - `currentSpace` and `newSpace` list chunk ids.
  - `endMarker` holds where the used part of each current chunk ends.
  - The copy cursor `curNext` is a chunk id plus a byte offset.
  - The byte sizes follow the source's formula: the node header plus one pointer per argument, plus one more for an unreduced node.
- **Roots** are the argument registers (`regs`) and the slots of the stack frames (`frames`). Each root is a `Ref`: null or a handle.
- **A cycle is proved against a ghost record of what it did.** `src` lists the records evacuated, in copying order. The predicates in `gc_cycle.dfy` relate the arena before and after:
  - `Frame`: only records of the live set `L` in the from-space are forwarded, each to its copy.
  - `Scanned`: the scanned copies have every argument relocated.
  - `Closed`: a set of handles is closed under arguments.
  - `Collected`: the survivors form a closed, well-shaped heap, and every root now leads to its survivor.
- **Running out of room.** The source indexes past the end of `currentSpace` when a copy overflows the last chunk; the model reports `ok == false` instead. Every method of a cycle that returns `ok` proves that a failure is genuine (`Runtime.Heap.RanOut`):
  - the cursor is in the last chunk of the current space;
  - a ghost witness `w`, a live record of the live set `L` in the from-space that has not been copied, does not fit in what is left of that chunk;
  - the cycle invariants hold, and the copies made so far are laid out from the cycle's copy start, each later chunk opened by a record that overflowed the one before (`Runtime.Heap.From`).

  The cursor only moves forward in the last chunk, so `w` can never fit. `Runtime.Heap.CycleRanOut` states the same for a whole collection. Its start must be one a collection really uses (`Runtime.Heap.Began`): either the first slot of the swapped space, as a full collection uses, or the point after the nursery's records in a chunk that is not the last one, as `Runtime.Heap.NextStart` gives an ephemeral collection.
- **Initial state.** `initMem` sets `curChunk` to 1 while the cursor lies in chunk 0. With two current chunks, the first collection therefore always takes the full path. The model keeps this state as `Runtime.Heap.Initial`, which `Valid` accepts in place of the usual layout invariant.

The token routines work on `string` (sequences of `char` below 256). A token code is identified with its name, so the string table's `encode` is the identity. The source's static `buffer` and property tables become local strings and a `PropertyTables` class.

The AU node is a class whose `argArray` is a sequence of opaque references. What it needs from other nodes is passed in as functions:
- their symbol;
- whether they are unstackable;
- how two of them compare.

## Model

| member | source | states |
|---|---|---|
| Runtime.Heap.Evacuate | FullCompiler/runtimeNew.cc:64-97 | A forwarded record yields its forwarding pointer and nothing changes. A live record is copied to the next handle with the same header and arguments, and the original is forwarded to the copy. The copy's slot goes at the cursor when it fits; otherwise the chunk's end is stored in `endMarker`, `curChunk` moves on and the slot opens the next chunk. Running out of chunks is reported. |
| GcCycle.EvacuateStep | FullCompiler/runtimeNew.cc:87-96 | Evacuating a live from-space record keeps the cycle's frame, its scanned and pending copies, and the layout of copied slots. The live count drops by one. |
| Runtime.LiveStep | FullCompiler/runtimeNew.cc:78-96 | One evacuation of a record not yet copied keeps the cycle invariants. The new slot is laid after the others, and the chunk the scan stands in only grows. |
| Runtime.StartedStep | FullCompiler/runtimeNew.cc:78-96 | One evacuation keeps the copies laid out and packed from the copy start: the slot joins the cursor's chunk when it fits, and otherwise opens the next chunk as a record that overflowed the one before. |
| GcRecords.LayoutOpenNext | FullCompiler/runtimeNew.cc:79-86 | A record that does not fit moves the cursor to the start of the next chunk. The previous chunk's end marker then records where it was, and no record spans two chunks. |
| Runtime.Heap.EvacuateRegisters | FullCompiler/runtimeNew.cc:131-137 | Every register that points into the from-space `[lo, ee)` is replaced by its copy's address. Null registers and registers outside the from-space are left as they were. In a full cycle the from-space is the whole arena. It fails only when room runs out genuinely (`Runtime.Heap.RanOut`, with the witness `w`). |
| Runtime.Heap.EvacuateSlots | FullCompiler/runtimeNew.cc:142-151 | The slots of one frame: non-null slots into the collected range are relocated; null slots and slots outside the range stay unchanged. It fails only when room runs out genuinely (`Runtime.Heap.RanOut`, with the witness `w`). |
| Runtime.Heap.EvacuateFrames | FullCompiler/runtimeNew.cc:212-221 | Every stack frame's slots are relocated, frame by frame, and the number of frames is kept. It fails only when room runs out genuinely (`Runtime.Heap.RanOut`, with the witness `w`). |
| Runtime.Heap.ScanRecord | FullCompiler/runtimeNew.cc:159-182 | Scanning a copy rewrites its first `arity[symbol]` argument pointers to their forwarding addresses. The extra slot of an unreduced node is left alone. It fails only when room runs out genuinely (`Runtime.Heap.RanOut`, with the witness `w`). |
| Runtime.Heap.ScanArg | FullCompiler/runtimeNew.cc:176-181 | Argument `j` of the copy is relocated when it needs it (into the nursery in an ephemeral cycle, always in a full one) and kept otherwise; the scan invariant then covers one more argument and earlier slots of the chunk are untouched. It fails only when room runs out genuinely (`Runtime.Heap.RanOut`, with the witness `w`). |
| Runtime.Heap.EvacuateArg | FullCompiler/runtimeNew.cc:178-180 | The argument is evacuated and the copy's slot rewritten to where it now leads; the arena only extends (no settled cell changes its target). It fails only when room runs out genuinely (`Runtime.Heap.RanOut`, with the witness `w`). |
| Runtime.Heap.RecordAt | FullCompiler/runtimeNew.cc:159-182 | The record at the scan position is the next unscanned copy. The scan offset advances by that record's full size, the extra unreduced slot included. |
| Runtime.Heap.ScanChunk | FullCompiler/runtimeNew.cc:156-183 | A chunk is scanned up to its end marker, or up to the cycle's live cursor for the chunk the cursor is in. Every copy on the way is scanned. It fails only when room runs out genuinely (`Runtime.Heap.RanOut`, with the witness `w`). |
| Runtime.Heap.ScanCopies | FullCompiler/runtimeNew.cc:156-183 | The breadth-first scan from the copy start to the cursor's chunk scans every copy made in the cycle, including those it makes itself. It fails only when room runs out genuinely (`Runtime.Heap.RanOut`, with the witness `w`). |
| Runtime.Heap.Copy | FullCompiler/runtimeNew.cc:121-188 | The registers, then the frames, then the scan. A completed copying phase establishes `Collected` and publishes the cursor. It fails only when room runs out genuinely (`RanOut` with the witness `w`), with the copies laid out and packed from the copy start (`From`). |
| Runtime.Heap.FinishCycle | FullCompiler/runtimeNew.cc:156-188 | Once the scan is complete, the survivors are closed and well shaped. No survivor lies in the from-space, and every root leads to a survivor. |
| GcCycle.SurvivorsClosed | FullCompiler/runtimeNew.cc:156-183 | After a complete scan, no survivor points into the from-space, and the survivors are closed under arguments. |
| GcCycle.CopyMirrors | FullCompiler/runtimeNew.cc:87-93 | The record a survivor leads to has the original's header, and its arguments are the forwarded originals. |
| GcCycle.MovedAreSources | FullCompiler/runtimeNew.cc:94-95 | Every from-space cell the cycle changed is one it evacuated. |
| GcCycle.RootsSurvive | FullCompiler/runtimeNew.cc:131-151 | Relocated roots point at survivors. |
| Runtime.Heap.EphemeralGC | FullCompiler/runtimeNew.cc:115-189 | Copies what the roots reach in the nursery to the current space, starting at the cursor's chunk. Records older than the nursery are untouched. It fails only when room runs out genuinely, from the copy start `NextStart()` (`CycleRanOut`). |
| Runtime.Heap.SwapSpaces | FullCompiler/runtimeNew.cc:197-200 | The spaces swap and copying restarts at the first chunk of the new current space. |
| GcRecords.GrowSpaces | FullCompiler/runtimeNew.cc:257-274 | Adds chunks in step to both spaces and to `endMarker` until `FACTOR` times the bytes in use fit in the current space, and adds no more chunks than that needs. The layout and the space invariant are kept, and existing chunks are kept unchanged. |
| Runtime.Heap.FullGC | FullCompiler/runtimeNew.cc:191-275 | Everything the roots reach is copied into the swapped space. Afterwards `FACTOR * used <= allocated`, the space lengths keep their invariant, and the current space never shrinks. It fails only when room runs out genuinely in the swapped space, copying from its start (`CycleRanOut`). |
| Runtime.Heap.CollectGarbage | FullCompiler/runtimeNew.cc:102-113 | Runs the ephemeral collection exactly when `curChunk + 1 < |currentSpace|`, otherwise the full one. Either way the nursery is empty afterwards. It fails only when room runs out genuinely from `NextStart()` (`CycleRanOut`), and then leaves `memNext` and `ephemeralStart` as they were. |
| Runtime.Heap.InitMem | FullCompiler/runtimeNew.cc:281-304 | Two current chunks and three new ones, end markers for both, `curChunk` at 1 and the cursor at the start of chunk 0. |
| Runtime.Heap.Allocate | FullCompiler/runtimeNew.cc:387-396 | A nursery record takes the next handle and exactly its own size (`RecordBytes`, including the unreduced slot) out of the nursery's budget. |
| GraphIo.DepthFirstTraversal | FullCompiler/runtimeNew.cc:362-373 | Every argument is inserted before its parent and the node last. Nothing already visited is inserted again, and only nodes reachable from the node are added. |
| GraphIo.PostOrderClosed | FullCompiler/runtimeNew.cc:362-373 | In a post-order visit, everything reachable from a visited node was visited. |
| GraphIo.OutputGraph | FullCompiler/runtimeNew.cc:337-360 | Writes one line per reachable node, each exactly once, in post-order with the root last. Each line's references name earlier lines. |
| GraphIo.LineOf | FullCompiler/runtimeNew.cc:350-358 | A node's line holds its symbol and the index of each argument, each index smaller than the line's own. |
| GraphIo.InputGraph | FullCompiler/runtimeNew.cc:375-408 | Rebuilds one unreduced record per line, sized for its arguments plus the extra slot. Reference `t` resolves to the `t`-th record built, and the result is the last one. Collections use the corrected, rooted `GraphIo.CollectRooted`. It fails only when the record of line `|built|` overflows the nursery and the collection then runs out of room genuinely (`CycleRanOut`), from a start a collection really uses (`Began`); the records built until then describe the earlier lines and belong to the live set. |
| GraphIo.ReadLine | FullCompiler/runtimeNew.cc:385-405 | One line: collect first if the record would overflow the nursery, then allocate and fill the record. The collection is the corrected, rooted `GraphIo.CollectRooted`, not the one as written (`GraphIo.CollectAsWritten`). It fails only when the record overflows the nursery and the collection runs out of room genuinely (`CycleRanOut`), from a start a collection really uses (`Began`); nothing is then built. |
| GraphIo.AllocateLine | FullCompiler/runtimeNew.cc:394-405 | With room in the nursery, the record of line `i` takes the next handle and its bytes, and the records built so far then describe lines `0..i`. |
| GraphIo.RoundTrip | FullCompiler/runtimeNew.cc:349-407 | Reading back the lines `outputGraph` wrote rebuilds each visited node with the same symbol and with arguments that correspond to the original's. |
| GraphIo.CollectRooted | FullCompiler/runtimeNew.cc:389-394 | A collection that roots the records built so far keeps them, relocated, in the same shape. It fails only when room runs out genuinely (`CycleRanOut`), and then returns the records unchanged. |
| GraphIo.CollectAsWritten | FullCompiler/runtimeNew.cc:389-394 | With no roots the collection keeps nothing and cannot run out of room, since no record of the empty live set needs a copy. The kept set is empty, and in an ephemeral cycle no nursery record belongs to it. |
| GcCycle.NothingRootedNothingKept | FullCompiler/runtimeNew.cc:389-394 | With an empty live set, nothing is evacuated and no from-space record survives. |
| GcRecords.StaleStopSkipsCopies | FullCompiler/runtimeNew.cc:156-187 | The stop test against the stale global cursor ends an ephemeral scan before copies that fitted in the copy-start chunk. |
| GcRecords.StaleStopExample | FullCompiler/runtimeNew.cc:156-187 | A concrete cycle where the stale stop test ends the scan at byte 0 while the live cursor is at byte 24. |
| GcRecords.StaleStopNeverInNewSpace | FullCompiler/runtimeNew.cc:226-252 | In a full cycle the stale cursor lies in the retired space, so the stop test never succeeds in the cursor's chunk. |
| TokenNames.FixUp | src/Mixfix/token.cc:130-167 | Drops every backslash-newline pair and turns tabs into spaces. The line number is the incoming one, which then advances by the number of pairs dropped. |
| TokenNames.FixUpName | src/Mixfix/token.cc:169-194 | Drops every backslash-newline pair and keeps tabs. |
| TokenNames.UnfoldedLength | src/Mixfix/token.cc:130-194 | Each dropped pair shortens the name by two. |
| TokenNames.UnfoldedTabs | src/Mixfix/token.cc:130-194 | The two overloads differ exactly by tab replacement, and the first leaves no tab. |
| TokenNames.NoPairsUnchanged | src/Mixfix/token.cc:169-194 | A name without backslash-newline pairs is unchanged. |
| TokenNames.DropChar | src/Mixfix/token.cc:196-203 | The token without its last character, on the same line. |
| TokenNames.DotNameCode | src/Mixfix/token.cc:205-211 | `.` followed by the sort name. |
| TokenNames.QuoteNameCode | src/Mixfix/token.cc:213-219 | `'` followed by the identifier. |
| TokenNames.MakeParameterInstanceName | src/Mixfix/token.cc:121-128 | Parameter name, `$`, original name. |
| TokenNames.ParameterInstanceNameInjective | src/Mixfix/token.cc:121-128 | Distinct (parameter, name) pairs without `$` in the parameter give distinct instance names. |
| TokenNames.Split | src/Mixfix/token.cc:466-487 | Succeeds exactly when a `:` or `.` occurs at a position of at least 1. It splits at the last one so that prefix, separator and suffix give back the name; the suffix is `NONE` when the separator ends the name. |
| TokenNames.DotNameNotSplit | src/Mixfix/token.cc:205-211 | A dotted sort name made from a name without separators does not split. |
| TokenNames.IterScan | src/Mixfix/token.cc:386-399 | The trailing scan finds `^` followed by digits not starting with 0 exactly when the name is `X^n`. |
| TokenNames.SplitIter | src/Mixfix/token.cc:489-514 | Succeeds exactly when the name is `X^n` with `X` non-empty and `n` a digit string not starting with 0, and gives back `X` and `n`. |
| TokenNames.PrintTokens | src/Mixfix/token.cc:67-80 | The names joined by the separator. |
| TokenNames.PrintTokenVector | src/Mixfix/token.cc:82-119 | The names from `first` to `last`, spaced as the fancy-spacing rules say. |
| TokenNames.PlainIsJoined | src/Mixfix/token.cc:82-119 | Without fancy spacing, the output is the names joined by single spaces. |
| TokenNames.FancyWithoutBrackets | src/Mixfix/token.cc:82-119 | Fancy spacing changes nothing for names that are not brackets or commas. |
| TokenNames.PeelParensAsWritten | src/Mixfix/token.cc:872-903 | The guard as written: peels when either end is a parenthesis and the middle is balanced. |
| TokenNames.PeelParens | src/Mixfix/token.cc:872-903 | The intended guard: peels only when both ends are parentheses and the middle is balanced. |
| TokenNames.MiddleBalanced | src/Mixfix/token.cc:885-899 | The depth scan of the middle tokens answers exactly whether they are balanced. |
| TokenNames.ShiftOut | src/Mixfix/token.cc:900-902 | The shift and contraction leave exactly the middle tokens. |
| TokenNames.PeelAsWrittenLosesToken | src/Mixfix/token.cc:883 | `( a b` loses its trailing `b` under the guard as written, and is left alone under the intended one. |
| TokenNames.PeelRemovesOuterPair | src/Mixfix/token.cc:872-903 | A change removes exactly one outer pair around a balanced middle, and such a pair is always removed. |
| TokenProperties.ComputeSpecialProperty | src/Mixfix/token.cc:355-418 | Applies the tests in the source's order. It reports no property exactly when the name opens a string literal that never closes and neither ends in a colon nor is iterated; there the source reads past the terminator. |
| TokenProperties.ScanStringEnd | src/Mixfix/token.cc:363-377 | The scan for the end of a string literal stops at the first unescaped `"`, or at the terminator. |
| TokenProperties.IterSymbolIffSplits | src/Mixfix/token.cc:386-399 | An unquoted name not ending in a colon is an iterated symbol exactly when `split` cuts it as `X^n`. |
| TokenProperties.QuotedNameIsQuotedIdentifier | src/Mixfix/token.cc:213-219 | A name made by `quoteNameCode` is a quoted identifier. |
| TokenProperties.LooksLikeRational | src/Mixfix/token.cc:420-464 | Accepts exactly `-?N/D`. `N` is digits with no leading zero except the unsigned `0`; `D` is non-empty digits starting with 1-9; nothing follows. |
| TokenProperties.ReadDenominator | src/Mixfix/token.cc:449-463 | After the first `/`, the name is a rational exactly when the rest is a non-empty digit run not opening with `0`. |
| TokenProperties.PropertyTables.CheckForSpecialProperty | src/Mixfix/token.cc:348-353 | Appends the name's special and auxiliary properties, keeping the two tables in step. |
| TokenRopes.RopeToString | src/Mixfix/token.cc:700-764 | The rope quoted and escaped byte by byte. |
| TokenRopes.EscapeByte | src/Mixfix/token.cc:712-760 | A printable byte stands for itself, with `\` and `"` preceded by a backslash. A control byte with a named escape gets it, and every other byte becomes three octal digits. |
| TokenRopes.QuotedPrintable | src/Mixfix/token.cc:700-764 | Every character of the result is printable. |
| TokenRopes.StringToRope | src/Mixfix/token.cc:604-698 | Named escapes are mapped back and at most three octal digits are read. The literal ends at the first unescaped `"`; a bad end is reported. |
| TokenRopes.ReadEscape | src/Mixfix/token.cc:630-690 | One escape: the character it stands for and the position of its last character. |
| TokenRopes.RoundTrip | src/Mixfix/token.cc:604-764 | `stringToRope(ropeToString(r)) == r` for every byte rope `r`. |
| TokenRopes.EscapedRoundTrip | src/Mixfix/token.cc:604-764 | Decoding escaped bytes followed by any text yields those bytes followed by whatever the text decodes to. |
| TokenRopes.UnescapeEscape | src/Mixfix/token.cc:604-764 | Decoding undoes the encoding of one byte, whatever follows. |
| TokenRopes.QuotedIsStringLiteral | src/Mixfix/token.cc:355-377 | Every `ropeToString` result is classified as a string literal. |
| TokenRopes.RemoveBoundParameterBrackets | src/Mixfix/token.cc:905-953 | Drops un-backquoted `[` and `]` inside braces and keeps every other character. |
| TokenRopes.UnboundKeepsNonBrackets | src/Mixfix/token.cc:905-953 | Apart from brackets, the output is the input. |
| TokenRopes.NoBracesUnchanged | src/Mixfix/token.cc:905-953 | A name with no `{` is unchanged. |
| TokenRopes.UnboundExample | src/Mixfix/token.cc:905-953 | `M{[X]}` loses the brackets inside its braces. |
| TokenRopes.UnboundOutsideExample | src/Mixfix/token.cc:905-953 | `[X]{Y}` keeps its brackets, which lie outside braces. |
| TokenRopes.UnboundQuotedExample | src/Mixfix/token.cc:905-953 | A backquoted bracket is kept. |
| TokenMixfix.PrettyOpNameOf | src/Mixfix/token.cc:230-261 | The readable form of a prefix name: removable backquotes dropped, with a space unless a bracket, brace or comma follows. It is empty when the name is a literal or has none to remove. |
| TokenMixfix.PrettyKeepsParenQuotes | src/Mixfix/token.cc:230-261 | The only backquotes left protect parentheses. |
| TokenMixfix.PrettyIdentity | src/Mixfix/token.cc:230-261 | With nothing to remove, the rewriting is the identity. |
| TokenMixfix.ExtractMixfixOf | src/Mixfix/token.cc:263-346 | The two loops return exactly `ExtractMixfix`, so `TokenMixfix.ExtractMixfixSpells` applies to them: the underscore count is the number of `_`, and the appended tokens spell the name without backquotes. |
| TokenMixfix.ExtractMixfixSpells | src/Mixfix/token.cc:263-346 | The underscore count is the number of `_`. The syntax built (`MixOut`) is `syntax` followed by non-empty pieces that, concatenated, spell the name without backquotes. It is returned unless it is the name alone as one piece, and only then is it cleared. |
| TokenMixfix.RopeToPrefixNameCode | src/Mixfix/token.cc:778-822 | The loop returns exactly `RopeToPrefixName`, so `TokenMixfix.PrefixNameSpells` applies to it: for text without `"`, a printable prefix name that, without backquotes, is the text without white space. An unterminated string literal gives none. |
| TokenMixfix.PrefixNameSpells | src/Mixfix/token.cc:778-822 | For text of printable characters and white space without `"`, a prefix name always exists. It is printable and, without backquotes, is the text without white space. |
| TokenMixfix.PlainWordIsItsOwnPrefixName | src/Mixfix/token.cc:778-822 | A word of ordinary characters is its own prefix name. |
| TokenMixfix.BubbleToPrefixNameCode | src/Mixfix/token.cc:824-857 | The loop returns exactly `BubbleToPrefixName` of the token names, so `TokenMixfix.BubbleToPrefixNameSpells` applies to it: without its backquotes, the code spells the concatenated token names. A single non-special token is returned as it is. |
| TokenMixfix.BubbleToPrefixNameSpells | src/Mixfix/token.cc:824-857 | Without its backquotes, the result is the concatenated token names. |
| TokenMixfix.FunctionCallPrefixName | src/Mixfix/token.cc:778-822 | The operator written `f ( _ )` has the prefix name ``f`(_`)``. |
| TokenMixfix.FunctionCallMixfix | src/Mixfix/token.cc:263-346 | The mixfix syntax of ``f`(_`)`` is `f`, `(`, `_`, `)`, with one argument place. |
| TokenMixfix.FunctionCallRun | src/Mixfix/token.cc:282-334 | The scan of ``f`(_`)`` from its first backquote ends with those four pieces and one underscore. |
| TokenMixfix.FunctionCallNotPretty | src/Mixfix/token.cc:230-261 | Every backquote of ``f`(_`)`` protects a parenthesis, so it has no readable form. |
| TokenMixfix.BracketExample | src/Mixfix/token.cc:230-261 | `_[_]` round-trips through `bubbleToPrefixNameCode` and `prettyOpName`. |
| AUDag.AUDagNode.CompareArguments | AU_Theory/AU_DagNode.cc:74-96 | The length difference when the lengths differ. Otherwise the first non-zero element comparison, and 0 exactly when every pair compares equal. |
| AUDag.AUDagNode.MarkArguments | AU_Theory/AU_DagNode.cc:98-117 | Returns the first argument with the node's own symbol, or none. Every other argument is marked, in order. |
| AUDag.AUDagNode.OverwriteWithClone | AU_Theory/AU_DagNode.cc:142-150 | The target gets this node's symbol, rewriting flags, theory byte, sort index and arguments, and its other flags are cleared. |
| AUDag.AUDagNode.MakeClone | AU_Theory/AU_DagNode.cc:152-162 | A fresh node equal to this one in symbol, rewriting flags, theory byte, sort index and arguments, with no other flags. |
| AUDag.AUDagNode.CopyWithReplacement | AU_Theory/AU_DagNode.cc:164-173 | A fresh node with the same symbol and length, with `replacement` at `argIndex` and this node's arguments elsewhere. |
| AUDag.AUDagNode.CopyWithReplacements | AU_Theory/AU_DagNode.cc:175-197 | Each listed redex's node at its argument index, and every other position copied. |
| AUDag.AUDagNode.StackArguments | AU_Theory/AU_DagNode.cc:199-213 | Nothing when frozen arguments are respected and the symbol has some. Otherwise one redex position per stackable argument, in order. |
| AUDag.StackEntriesSound | AU_Theory/AU_DagNode.cc:199-213 | Every pushed position names a stackable argument at its index, with the given parent. |
| AUDag.StackEntriesOrdered | AU_Theory/AU_DagNode.cc:199-213 | Pushed positions come in strictly increasing argument order. |
| AUDag.StackEntriesComplete | AU_Theory/AU_DagNode.cc:199-213 | No stackable argument is missed. |
| AUDag.AUDagNode.PartialReplace | AU_Theory/AU_DagNode.cc:215-227 | In place, the matched stretch becomes the replacement, the tail shifts down and the array contracts. The sort becomes unknown. |
| AUDag.AUDagNode.PartialConstruct | AU_Theory/AU_DagNode.cc:229-244 | The same splice, in a fresh node of length `n + first - last`. |
| AUDag.SplicedConservesArguments | AU_Theory/AU_DagNode.cc:215-244 | The splice plus the matched stretch it drops hold exactly the original arguments and the replacement, as multisets: no unmatched argument is lost or duplicated. |
| BindingMacros.CodeDecodes | BuiltIn/bindingMacros.hh:32 | `CODE(c1, c2)` gives back `c1` from its low byte and `c2` from the rest. |
| BindingMacros.CodeInjective | BuiltIn/bindingMacros.hh:32 | `CODE` is injective on byte-range first characters. |
| BindingMacros.BindOp | BuiltIn/bindingMacros.hh:34-53 | Falls through on another purpose. Without exactly one non-empty datum it returns false and leaves `op` unchanged. Unbound, it stores the datum's code and returns true; bound, it returns whether the codes agree and keeps `op`. |
| BindingMacros.NullData | BuiltIn/bindingMacros.hh:55-59 | Returns true exactly when there is no data. |
| BindingMacros.BindSymbol | BuiltIn/bindingMacros.hh:61-68 | Write-once. Once bound, it succeeds only for the same symbol and keeps the binding. Unbound, it binds exactly when the downcast succeeds. |
| BindingMacros.CopySymbol | BuiltIn/bindingMacros.hh:91-96 | An existing binding is kept. Otherwise the result is the original's symbol, translated through the mapping when there is one. |

## Left out

- **Interval timers and the CPU and real-time figures** (runtimeNew.cc:277-346) are not modelled. They are instrumentation and use floating point.
- **File streams.** `outputGraph` returns its lines and `inputGraph` takes them; the header line with `g.count` is not modelled.
- **`eval`, `main` and the compiled program** are outside the model. The `arity[]` table is a parameter of the heap.
- **`malloc` and address arithmetic** become arena handles and chunk ids. Chunks never alias, so no address comparison is modelled.
- **Integer width.** `used`, `needed` and `allocated` in `fullGC`, and the byte counts, are unbounded integers. 32-bit overflow is not modelled.
- Runtime.Heap.Evacuate: the source indexes past the end of `currentSpace` when a copy overflows the last chunk. The model reports `ok == false` instead; no bound on live bytes is proved that would rule this out in an ephemeral cycle.
- Runtime.Heap.EphemeralGC and Runtime.Heap.FullGC: on a failure the witness `w` is a live, uncopied record of the caller's closed set `L`, not necessarily one the roots reach. Only when `L` is exactly what the roots reach does the source overflow the last chunk in the same run. The registers and frames are then left part relocated, and the contract says nothing about them.
- Runtime.Heap.EphemeralGC: relies on `Sealed`, which says no record older than the nursery points into it. The source assumes this without checking. Its scan starts at `copyStart` (runtimeNew.cc:156) and never rescans older records, yet `eval` may write to any record. The model requires the fact through `Valid` and `Copy` rather than proving it.
- Runtime.Heap.FullGC and Runtime.Heap.CollectGarbage: on the full path both require every register to be non-null. The source evacuates every register unconditionally (runtimeNew.cc:207), null ones included.
- GraphIo.ReadLine: the sort index and the extra slot of a rebuilt record are set to 0. The source sets `flags` to `UNREDUCED` and leaves those two fields as the nursery memory held them.
- GraphIo.InputGraph: three requires exclude inputs on which the source has undefined behaviour. `|lines| > 0`: on no lines the source reads `built[built.length() - 1]` (runtimeNew.cc:407). `WellFormed`: a reference must name an earlier line, where the source reads `built[t]` unchecked (runtimeNew.cc:403). Each record fits in `E_SIZE`: after collecting, the source bumps `memNext` past the end of the nursery (runtimeNew.cc:393).
- GraphIo.InputGraph and GraphIo.ReadLine: both collect through the corrected `GraphIo.CollectRooted`, which roots the records built so far. `GraphIo.CollectAsWritten` models the collection as runtimeNew.cc:389-394 writes it (see Findings).
- **Updates to locals.** The frame slots, the registers and `argArray` are updated in place by the source. The model updates local copies and assigns them back once, so aliasing between a frame and the registers is not modelled.
- **token.cc routines that rest on code outside the model:**
  - `getInt`, `getRational`, `splitKind`, `codeToInt64`, `int64ToCode`, `codeToDouble`, `doubleToCode` and `ropeToCode`;
  - the multiple-precision `number` of `split`;
  - the included `auxProperty.cc` and `latexToken.cc`.
- TokenProperties.ComputeSpecialProperty: the float and integer tests are a parameter `numeric`. A name opening an unterminated string literal, where the source steps past the terminator, yields `None`.
- TokenProperties.PropertyTables.CheckForSpecialProperty: the auxiliary property is a parameter. The method requires a name whose special property is defined.
- TokenNames.SplitIter: requires a non-empty name, because the source's unsigned index wraps around on the empty one.
- TokenRopes.StringToRope: requires the literal to open with `"`, which every caller guarantees.
- TokenRopes.RopeToString: requires every character to be a byte, as a C `char` is.
- TokenNames.PrintTokenVector: requires `first` and `last` to lie within the vector, as the callers guarantee.
- **Printing.** `ostream` output, `LineNumber` and the `IssueWarning` and `DebugAdvisory` side effects are not modelled. The printers return the text they would write.
- **`specialChar` and `skipSortName`** live in a header that is not part of this model, so they are parameters.
- **`Token` is a datatype** rather than a class. `fixUp` (token.cc:164-165) and `dropChar` (token.cc:201-202) assign `codeNr` and `lineNr` in place. Each overwrites both fields at once, so returning a new value is equivalent.
- TokenNames.FixUp and TokenNames.FixUpName: the source walks a C string and stops at its first NUL; the model reads the whole name. The two agree on every name without a NUL character, and a name held as a C string has none.
- TokenNames.DropChar: requires a non-empty name. On an empty one the source calls `pop_back`, which is undefined behaviour.
- AUDag.AUDagNode.MarkArguments: `argArray.evacuate()` (AU_DagNode.cc:102) is not modelled. It moves the argument storage during garbage collection and leaves the arguments unchanged.
- **AU_DagNode.cc operations left out:**
  - `getHashValue` uses a foreign hash;
  - `copyEagerUptoReduced2`, `clearCopyPointers2`, `makeExtensionInfo`, `matchVariableWithExtension`, `arguments` and `getAU_DagNode` dispatch into other theories or the deque representation;
  - the deque branch of `compareArguments`;
  - the bodies of `compare` and `mark` on other nodes, which are parameters.
- BindingMacros.BindOp: a character counts as its unsigned value, 0 to 255. Where `char` is signed, a first character of 128 or more gives a negative `c1` in `CODE`, and the code differs. BindingMacros.CodeDecodes and BindingMacros.CodeInjective take the window of the first character as a parameter, so they hold for either reading.
- **bindingMacros.hh:** `BIND_TERM`, `PREPARE_TERM` and `COPY_TERM` rest on `Term` equality, normalisation and deep copying, which are not part of this model. `strcmp` is string equality, and `dynamic_cast` is a parameter that says whether the downcast succeeds.

## Findings

| source | as written | input that shows it | evidently intended | confidence | as-written member | corrected member |
|---|---|---|---|---|---|---|
| FullCompiler/runtimeNew.cc:156-187 | The ephemeral scan stops in the cursor's chunk when it reaches the global `curNext`, which is only updated after the scan (:187). | The roots copy one record into the copy-start chunk without overflowing it: the scan stops at once, and the copy's nursery arguments are neither evacuated nor relocated. | Stop at the cycle's own cursor `cn`. | not executed | GcRecords.StaleStopSkipsCopies, GcRecords.StaleStopExample | Runtime.Heap.ScanChunk |
| FullCompiler/runtimeNew.cc:226-252 | The full scan compares with the global `curNext`, which still points into the space just retired (:252). | Any full collection: the stop test never holds in the cursor's chunk, and the scan runs past the copies. | Stop at the cycle's own cursor `cn`. | not executed | GcRecords.StaleStopNeverInNewSpace | Runtime.Heap.ScanCopies |
| FullCompiler/runtimeNew.cc:389-394 | `inputGraph` collects while the records built so far sit only in the local vector `built`, which is no root. | Lines that overflow the nursery after some records are built: nothing keeps those records, and later lines refer to them. | Root `built` across the collection and read it back relocated. | not executed | GraphIo.CollectAsWritten, GcCycle.NothingRootedNothingKept | GraphIo.CollectRooted |
| src/Mixfix/token.cc:883 | `peelParens` peels when either end is a parenthesis (`&&` of the two mismatches). | `( a b` becomes `a`, losing `b`. | Peel only when both ends are parentheses (`\|\|`). | not executed | TokenNames.PeelParensAsWritten, TokenNames.PeelAsWrittenLosesToken | TokenNames.PeelParens, TokenNames.PeelRemovesOuterPair |
