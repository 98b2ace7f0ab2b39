# sublemacspro core, modelled in Dafny

sublemacspro adds Emacs-style editing to Sublime Text. This project models the parts of it that
hold state or compute text positions, and proves properties of each part. The editor host is
reduced to values: a buffer is a `string`, a selection is a sequence of `Region`s (an anchor `a`
and a caret `b`), and reading outside the buffer gives NUL.

- **Kill rings.** `KillRing` covers the multi-cursor ring of `lib/kill_ring.py`:
  - 64 slots, a current index and a pop index;
  - joining consecutive kills;
  - pulling in the system clipboard on a yank, and popping backwards or forwards to the next
    filled slot;
  - growing a stored kill to the number of cursors. The stored list is grown in place and
    the model writes that growth back to the slot, as the code does;
  - the popup that lists each distinct one-line sample, newest first.

  `JoveRings` covers the single-string rings of `jove.py`. `LineKillRing` covers the
  line-oriented rings of `sbp_kill_ring.py` and `kill_ring.py`, and the regions their kill
  commands take.
- **Mark rings and the mark.** `MarkRing` covers `lib/mark_ring.py`: 16 slots of regions, where
  set pushes, exchange swaps in place, and pop walks back to the previous non-empty slot.
  `JoveRings.JoveMarkRing` is the point-based ring of `jove.py`. `MarkCommands` covers the
  single-level mark of `mark.py` and `sbp_mark.py`, which pairs cursor `i` with mark region `i`.
- **Incremental search.** `ISearch` covers `lib/isearch.py`. The search stack is a sequence of
  `StackItem` values, and each item names its predecessor by position. The model covers:
  - on-change and find;
  - push, and pop (plain and grouped);
  - next, keep-all, and appending text from the cursor;
  - not-in-error, finish and quit.

  `SearchHistory` covers the saved-search ring and its cycling.
- **Per-view state.** `ViewState` covers the universal argument (C-u, digits, minus) and
  `get_count`. It also covers the bookkeeping that every `SbpTextCommand` does around a
  command, and the rewrite of a repeatable command into a repeated one.
- **Editing commands.** The modules are:
  - `WhiteSpace`: delete-white-space and delete-blank-lines;
  - `Fixup`: fixup-whitespace;
  - `Registers`: register store, insert, point-to-register and point-from-register;
  - `OldCommands`: zap-to-char, and the search-focus record of `old/sbp.py`.
- **Window layout.** `Layout` covers the `LayoutManager` of `sbp_layout.py`:
  - coordinate cells built from a grid;
  - splitting a pane, and killing a pane by stretching its neighbours;
  - rebuilding a grid from coordinates;
  - the next-pane order.
- **Helpers.** `Misc` covers the shared helpers of `lib/misc.py`: pluralize, relative paths,
  settings lookup, the emacs region, cursor collapsing, per-cursor edits, word characters and
  command names. `Text` holds the host's region and buffer primitives. `Wrappers` holds
  `Option`.

Where several files carry the same code, one member models it and the table cites each copy.
This holds for:

- the fixup command in `sbp.py` and `old/sbp.py`;
- the mark commands in `mark.py` and `sbp_mark.py`;
- the register store in three files;
- `get_count`, `find_closest` and `StackItem` in both `lib/` and `jove.py`.

`LayoutManager.killSelf` refuses to kill any pane while the manager's column and row counts
are both 2. Those counts start from the grid the manager is built from. `split` raises them,
and `killSelf` never lowers them. That does not go wrong in use, because `jove.py` builds a
fresh manager from the window's current layout for every layout command. The model keeps the
counts exactly as the code does.

## Model

| member | source | states |
|---|---|---|
| Misc.Pluralize | lib/misc.py:30-34 | `pluralize`; specified by `PluralizeReadsBack` |
| Misc.PluralizeReadsBack | lib/misc.py:30-34 | the text is the decimal count (which parses back to the count), one space, and the noun with the plural ending exactly when the count is not 1 |
| Text.IntToString | lib/misc.py:32-34 | `%d`: a non-empty run of decimal digits with a leading minus only for a negative number; `IntToStringRoundTrip` reads it back |
| Text.IntToStringRoundTrip | lib/misc.py:30-34 | `%d` of any integer parses back to that integer |
| Misc.Join | lib/misc.py:81 | `os.path.sep.join`; specified by `JoinSplit` and `SplitJoin` |
| Misc.Split | lib/misc.py:81 | `str.split` gives at least one piece and no piece holds the separator |
| Misc.JoinSplit | lib/misc.py:81 | joining the pieces of a split with the separator gives the string back |
| Misc.SplitJoin | lib/misc.py:81 | splitting a join of separator-free pieces gives the pieces back |
| Misc.SliceStart | lib/misc.py:78-81 | Python's `xs[start:]` start for positive and negative `start`, clamped to the list |
| Misc.FirstRoot | lib/misc.py:76-79 | the first root the file name starts with, and no earlier root matches; none when no root matches |
| Misc.StripRoot | lib/misc.py:75-79 | the root-stripped name is a suffix of the file name |
| Misc.RelativePath | lib/misc.py:73-83 | a missing file name gives `<no file>` |
| Misc.RelativePathTail | lib/misc.py:73-83 | for `n >= 1` the result is a suffix of the root-relative name and splits into exactly its last `n` components (all when fewer) |
| Misc.SettingsGet | lib/misc.py:93-101 | a non-null view setting wins; otherwise the global value, even a null one; otherwise the default |
| Misc.GetRegions | lib/misc.py:266-278 | inactive mark and no empty cursor: the cursors; otherwise mark `i` to cursor `i` exactly when the counts agree, else nothing |
| Misc.GetCursors | lib/misc.py:388-389 | one empty cursor per region, at its begin or at its caret |
| Misc.GetCursorsIdempotent | lib/misc.py:388-389 | collapsing collapsed cursors changes nothing |
| Misc.MakeCursorsEmpty | lib/misc.py:404-411 | each cursor becomes empty at its anchor or its caret |
| Misc.MakeCursorsEmptyIsGetCursors | lib/misc.py:404-411 | collapsing to the caret agrees with `get_cursors` |
| Misc.ForEachCursor | lib/misc.py:486-503 | fails exactly when the edit fails on some cursor, then the selection is unchanged; otherwise cursor `i` becomes the edit's result for cursor `i` |
| Misc.IsWordChar | lib/misc.py:530-536 | going forward: the character is neither blank nor a separator; going backward at 0: false |
| Misc.IsWordCharBackward | lib/misc.py:530-536 | going backward asks about the character before the point |
| Misc.UnderscoredOnlyAddsUnderscores | lib/misc.py:107-111 | the underscoring rewrite only inserts underscores: removing them gives the class name with its own underscores removed |
| Misc.UnderscoredNoCapitals | lib/misc.py:107-111 | a tail without capitals is left alone |
| Misc.UnderscoredWord | lib/misc.py:107-111 | a capitalised word after a non-capital gets exactly one underscore in front |
| Misc.CommandName | lib/misc.py:107-111 | `get_cmd_name`; specified by `UnderscoredOnlyAddsUnderscores`, `UnderscoredWord`, `CommandNameOfCommandClass` and `CommandNameCut` (same code in jove.py:2069-2073) |
| Misc.CommandNameOfCommandClass | lib/misc.py:107-111 | for a class named `<P>Command` the lowered underscored name is that of `<P>` followed by `_command` |
| Misc.CommandNameCut | lib/misc.py:107-111 | cutting the 8-character `_command` suffix gives exactly the lowered name before it (same code in jove.py:2069-2073) |
| Misc.WithoutUnderscoresAppend | lib/misc.py:107-111 | removing underscores distributes over concatenation |
| Misc.LowerAllAppend | lib/misc.py:109 | lowering distributes over concatenation |
| ViewState.Press | jove.py:1122-1139 | every press supplies the argument; minus before any argument makes it negative; minus after a supplied argument negates the value |
| ViewState.Count | lib/viewstate.py:72-86 | 1 without an argument; the value when positive; when negative, a non-zero count of the opposite sign (-1 for a bare minus) |
| ViewState.ByFourMultiplies | jove.py:1122-1139 | every further C-u multiplies the value by four |
| ViewState.ByFourCount | jove.py:1122-1139 | `k` presses of C-u give the count 4^k |
| ViewState.DigitsAppend | jove.py:1122-1139 | digits accumulate in decimal onto a supplied value |
| ViewState.DigitsCount | jove.py:1122-1139 | typed digits give their decimal value as the count |
| ViewState.NegativeThenDigitsCount | jove.py:1122-1139 | minus then digits gives the negated value as the count of `get_count` (lib/viewstate.py:72-86), and -1 when the value is 0 |
| ViewState.Repeated | jove.py:362-370 | the repeat count is the absolute count, and the direction flips for a negative count, so the signed distance is preserved |
| ViewState.ViewState.constructor | lib/viewstate.py:57-64 | a fresh state has no argument and no commands |
| ViewState.ViewState.Reset | lib/viewstate.py:57-64 | clears the commands, the argument and the counters (same code in jove.py:234-244) |
| ViewState.ViewState.GetCount | lib/viewstate.py:72-86 | returns `Count` of the argument; unless peeking, consumes it (same code in jove.py:246-260) |
| ViewState.ViewState.UniversalArgument | jove.py:1122-1139 | the argument after a key is `Press` of the argument before |
| ViewState.ViewState.Run | lib/misc.py:139-163 | only the outermost command records itself; at any depth a body may then assign `this_cmd` (`BodyThis`, as set-mark with an argument does in jove.py:1258); a tracked outermost command that does not raise makes the final `this_cmd` the last command and clears the argument; a raising one leaves the last command (same code in jove.py:761-784) |
| ViewState.QuietKeepsThis | lib/misc.py:146-163 | when no body in the tree assigns `this_cmd`, running it leaves `this_cmd` as the outermost record made it |
| ViewState.BodyAssignmentWins | jove.py:1250-1265 | a body that assigns `this_cmd` and does not raise has the last word, so C-u C-SPC is recorded as "sbp_pop_mark" |
| ViewState.ViewState.RepeatRewrite | jove.py:358-373 | with an argument a repeatable command becomes a repeat of `Repeated`, scrolling scales its amount, and the argument is consumed; otherwise nothing changes |
| KillRing.TotalBytes | lib/kill_ring.py:57-60 | the total is 0 exactly when every string is empty |
| KillRing.SameAs | lib/kill_ring.py:37-43 | true exactly when the strings equal the kill's strings |
| KillRing.Joined | lib/kill_ring.py:18-26 | string `i` is appended (forward) or prepended (backward) to stored string `i`; the rest stay |
| KillRing.JoinIfPossible | lib/kill_ring.py:18-26 | joins exactly when the cursor counts agree, otherwise the kill is unchanged |
| KillRing.Doubled | lib/kill_ring.py:143-146 | doubling leaves at least `n` strings, and entry `i` is the original entry `i mod len` |
| KillRing.Yank | lib/kill_ring.py:143-147 | the strings handed to `n` cursors; specified by `YankCycles` |
| KillRing.Grown | lib/kill_ring.py:143-147 | the stored kill after the in-place doubling of `result`; specified by `GrownKeepsKill` |
| KillRing.YankCycles | lib/kill_ring.py:143-147 | the yanked list has `n` strings and string `i` is stored string `i mod len` |
| KillRing.GrownKeepsKill | lib/kill_ring.py:143-147 | growing a stored kill keeps its first strings and its cursor count, so it compares the same |
| KillRing.Older | lib/kill_ring.py:94 | one slot back, wrapping from 0 to 63 |
| KillRing.StepFrom | lib/kill_ring.py:132-137 | `k` steps stay in the ring and return to the start only after 0 or 64 steps |
| KillRing.StepNext | lib/kill_ring.py:133-137 | one more step is one more increment modulo 64 |
| KillRing.FirstFilled | lib/kill_ring.py:132-137 | a found slot is filled |
| KillRing.FirstFilledAt | lib/kill_ring.py:132-137 | the walk stops at the first filled slot after the start |
| KillRing.FirstFilledNoneIffEmpty | lib/kill_ring.py:134-136 | the walk finds nothing exactly when the ring is empty |
| KillRing.TrimStart | lib/kill_ring.py:30 | drops just the leading dropped characters |
| KillRing.TrimEnd | lib/kill_ring.py:30 | drops just the trailing dropped characters |
| KillRing.Strip | lib/kill_ring.py:30 | `str.strip`: no dropped character is left at either end |
| KillRing.StripMiddle | lib/kill_ring.py:30 | the stripped text is a middle slice of the text, and every character around it is dropped |
| KillRing.EscapeNewlines | lib/kill_ring.py:30 | the result holds no newline and only characters of the text, backslash or `n` |
| KillRing.SpaceRun | lib/kill_ring.py:31 | the length of the leading whitespace run |
| KillRing.Squeeze | lib/kill_ring.py:31 | `re.sub(r"\s\s+", " ", text)`; specified by `SqueezeNoDoubleSpace` and `SqueezeChars` |
| KillRing.SqueezeNoDoubleSpace | lib/kill_ring.py:31 | after squeezing no two whitespace characters are adjacent |
| KillRing.SqueezeChars | lib/kill_ring.py:31 | squeezing only keeps characters of the text or adds spaces |
| KillRing.Sample | lib/kill_ring.py:28-32 | `get_sample`; specified by `SampleIsOneLine` |
| KillRing.SampleIsOneLine | lib/kill_ring.py:28-32 | a sample holds no newline and no run of two whitespace characters |
| KillRing.SampleTexts | lib/kill_ring.py:88-90 | one sample per slot |
| KillRing.Back | lib/kill_ring.py:94-96 | the number of steps back from the newest slot to a slot, 0 only for the newest |
| KillRing.Popup | lib/kill_ring.py:83-97 | the popup list from a slot backwards; specified by `PopupLines`, `PopupOrdered`, `PopupNewest` and `PopupComplete` |
| KillRing.PopupLines | lib/kill_ring.py:83-97 | every popup line names a filled slot and shows its sample |
| KillRing.PopupOrdered | lib/kill_ring.py:83-97 | lines run newest first with distinct samples |
| KillRing.PopupNewest | lib/kill_ring.py:83-97 | each line is the newest slot holding its sample |
| KillRing.PopupComplete | lib/kill_ring.py:83-97 | every sample in the ring appears in the popup |
| KillRing.PopupWalk | lib/kill_ring.py:83-97 | the loop produces the popup list |
| KillRing.KillRing.constructor | lib/kill_ring.py:45-48 | an empty ring at slot 0 with no pop index |
| KillRing.KillRing.Add | lib/kill_ring.py:56-77 | empty kills change nothing; an equal kill stays; a join joins in place; otherwise a new slot takes the kill; the current kill goes to the clipboard |
| KillRing.KillRing.SetCurrent | lib/kill_ring.py:99-102 | a filled slot becomes current and goes to the clipboard; an empty slot changes nothing |
| KillRing.KillRing.YankCurrent | lib/kill_ring.py:113-148 | a new clipboard text is added and yanked; otherwise the current kill is yanked and grown in place; with neither, nothing |
| KillRing.KillRing.YankPopped | lib/kill_ring.py:128-148 | the pop walks to the next filled slot in the pop direction, makes it the pop index and yanks it; an empty ring yanks nothing |
| KillRing.KillRing.GetCurrent | lib/kill_ring.py:109-148 | the two cases above, by whether `pop` is 0 |
| KillRing.KillRing.Scan | lib/kill_ring.py:132-137 | the scan loop finds `FirstFilled` |
| KillRing.KillRing.YankFrom | lib/kill_ring.py:143-147 | yanks `n` strings cyclically and writes the doubled list back to the slot |
| KillRing.KillRing.PopupSample | lib/kill_ring.py:83-97 | the popup of the ring's samples from the current index |
| JoveRings.JoinedText | jove.py:69-87 | a join appends or prepends the text to the current string; with no string, the text |
| JoveRings.PopStep | jove.py:106-109 | adding 63 modulo 64 steps back, adding 1 steps forward |
| JoveRings.JoveKillRing.constructor | jove.py:59-62 | an empty ring at slot 0 |
| JoveRings.JoveKillRing.Add | jove.py:69-87 | empty text changes nothing; a join rewrites the current slot; otherwise the next slot takes the text; the slot's text goes to the clipboard |
| JoveRings.JoveKillRing.Current | jove.py:93-103 | a clipboard text differing from the current slot is added and returned; otherwise the current slot |
| JoveRings.JoveKillRing.Rotate | jove.py:105-112 | moves to the next filled slot in the pop direction, returns it and puts it on the clipboard; an empty ring returns nothing and the clipboard becomes `None` (the empty string here) |
| JoveRings.JoveKillRing.GetCurrent | jove.py:93-114 | the two cases above, by `pop` |
| JoveRings.JoveMarkRing.constructor | jove.py:125-132 | an empty ring at slot 0 |
| JoveRings.JoveMarkRing.Get | jove.py:140-144 | the mark exists exactly when the current slot holds a region |
| JoveRings.JoveMarkRing.Display | jove.py:149-154 | shows the current mark as a point when there is one |
| JoveRings.JoveMarkRing.Set | jove.py:160-167 | afterwards the mark is the position; the same position changes nothing; otherwise it goes to the next or the same slot |
| JoveRings.JoveMarkRing.Exchange | jove.py:172-176 | returns the old mark; with a mark at another position, the position is pushed to the next slot |
| JoveRings.JoveMarkRing.Pop | jove.py:182-194 | returns the current mark and moves back to the previous non-empty slot |
| MarkRing.StepBack | lib/mark_ring.py:78-81 | back `k` slots, at the start only after 0 or 16 steps |
| MarkRing.StepBackNext | lib/mark_ring.py:79-81 | one more step goes one slot back, from 0 to 15 |
| MarkRing.PopSteps | lib/mark_ring.py:77-83 | the walk stops at a non-empty slot or after a full circle |
| MarkRing.PopSkipsEmpty | lib/mark_ring.py:77-83 | every slot passed is empty |
| MarkRing.PopStepsAt | lib/mark_ring.py:77-83 | the walk stops at the first non-empty slot |
| MarkRing.PopBackAtStart | lib/mark_ring.py:77-83 | pop comes back to its start exactly when every other slot is empty |
| MarkRing.MarkRing.constructor | lib/mark_ring.py:14-21 | all slots empty, index 0, nothing displayed |
| MarkRing.MarkRing.Get | lib/mark_ring.py:44-45 | the current slot |
| MarkRing.MarkRing.Clear | lib/mark_ring.py:26-30 | no visible mark afterwards |
| MarkRing.MarkRing.Display | lib/mark_ring.py:35-39 | displays the current slot |
| MarkRing.MarkRing.Set | lib/mark_ring.py:51-58 | afterwards the mark is the regions; equal regions change nothing; otherwise the next (or the same) slot takes them and they are displayed |
| MarkRing.MarkRing.Exchange | lib/mark_ring.py:63-67 | returns the old mark and writes the regions into the same slot |
| MarkRing.MarkRing.Pop | lib/mark_ring.py:73-85 | returns the current mark and moves to the previous non-empty slot |
| SearchHistory.Wrap | lib/isearch.py:77-80 | a remainder in range |
| SearchHistory.Slot | lib/isearch.py:100-108 | `k` steps in direction `dir` stay in the ring |
| SearchHistory.SlotClosed | lib/isearch.py:100-108 | `k` steps equal the start plus `k*dir`, modulo the size |
| SearchHistory.SlotFullCircle | lib/isearch.py:100-108 | a full circle returns to the start |
| SearchHistory.SlotUnit | lib/isearch.py:100-108 | single steps move by one slot with wrap-around |
| SearchHistory.CycleSteps | lib/isearch.py:102-107 | the number of steps is between `k` and the ring size |
| SearchHistory.CycleStepsStop | lib/isearch.py:102-107 | cycling stops at a saved search or back at the start, and every slot passed is empty |
| SearchHistory.CycleStepsAt | lib/isearch.py:102-107 | and it stops at the first such slot |
| SearchHistory.CycleTarget | lib/isearch.py:100-108 | the slot `cycle_history` lands on; specified by `CycleTargetAt` and `CycleFindsNothing` |
| SearchHistory.CycleTargetAt | lib/isearch.py:100-108 | the target slot is the first saved search in the direction |
| SearchHistory.CycleFindsNothing | lib/isearch.py:100-108 | cycling comes back to the start exactly when no other search is saved |
| SearchHistory.SearchHistory.constructor | lib/isearch.py:30-39 | an empty history of the given size |
| SearchHistory.SearchHistory.SaveSearch | lib/isearch.py:75-84 | afterwards the newest search is the saved one; a repeat changes nothing; otherwise it takes the next slot and resets the cycling index |
| SearchHistory.SearchHistory.CycleHistory | lib/isearch.py:100-108 | the index moves to the cycle target and returns its search, or nothing when back at the start |
| ISearch.NewItem | lib/isearch.py:525-537 | a fresh item keeps `selected` and adds the current match when there is one (same code in jove.py:1555-1567) |
| ISearch.GetPoint | lib/isearch.py:539-546 | no point without a match; otherwise the match's begin going forward and its end going backward |
| ISearch.KeptBefore | lib/isearch.py:572-574 | the kept cursors minus the last one unless `keep` |
| ISearch.Step | lib/isearch.py:555-575 | at a boundary the first step only arms wrapping and the second wraps to the far end; inside, the next match in the direction; every new item adds its match to the kept cursors (same code in jove.py:1575-1591) |
| ISearch.BoundaryOrInterior | lib/isearch.py:555-575 | with matches, a step is either at a boundary or inside |
| ISearch.StepTwiceWraps | lib/isearch.py:555-575 | with matches, at most two steps produce a new item |
| ISearch.Flipped | lib/isearch.py:327-329 | anchor and caret swapped for each cursor |
| ISearch.FlippedProperties | lib/isearch.py:327-329 | flipping keeps every span, puts the caret at the front, and is its own inverse |
| ISearch.PyAt | lib/isearch.py:334-335 | Python indexing, with negative indices from the end |
| ISearch.ClosestFrom | lib/isearch.py:513-522 | once the matches before `i` are passed: forward, the first match ending at or after the point, -1 exactly when none does; backward, the match right before the first one beginning after the point |
| ISearch.Closest | lib/isearch.py:505-522 | no matches give -1; forward: the first match ending at or after the point, -1 exactly when none does; backward: the last match beginning at or before the point (same code in jove.py:1858-1875) |
| ISearch.FindClosest | lib/isearch.py:505-522 | the loop computes `Closest` |
| ISearch.ClosestSingleForward | lib/isearch.py:505-522 | a string found once, looked for forward from before the end of that match, makes it current |
| ISearch.SearchStart | lib/isearch.py:228-233 | closeness is measured from the top state's point, or else from the caret of the last starting cursor |
| ISearch.Found | lib/isearch.py:221-240 | the state `find` pushes: all the matches, the `Closest` one from `SearchStart` current and kept as the only cursor, the top's `wrapped` flag and the given group |
| ISearch.SearchFlags | lib/isearch.py:205-210 | the literal flag exactly when not a regex, and the ignore-case flag exactly when the search has no capital |
| ISearch.GroupBack | lib/isearch.py:254-272 | a grouped pop stops at the bottom or out of the group |
| ISearch.PopTarget | lib/isearch.py:254-272 | pop stays on the bottom item and otherwise goes lower |
| ISearch.GroupBackPrefix | lib/isearch.py:254-272 | pushing more states does not change where a grouped walk from an older state ends |
| ISearch.GroupPopLands | lib/isearch.py:254-272 | from a state of a group, a grouped pop lands on the first state below that is outside the group |
| ISearch.LastGood | lib/isearch.py:305-309 | the item found has kept cursors or an empty search |
| ISearch.LastGoodFound | lib/isearch.py:305-309 | there always is one, and it is the current item exactly when that is good |
| ISearch.LastGoodIndex | lib/isearch.py:305-309 | the index `LastGood` finds |
| ISearch.FailBack | lib/isearch.py:487-503 | quit walks back to where the predecessor has matches, or to the bottom |
| ISearch.KeepMeasureDecreases | lib/isearch.py:411-418 | each keeping step moves towards the end, so keep-all terminates |
| ISearch.KeepStepMatches | lib/isearch.py:411-418 | a keeping step that creates a state takes the first of the matches still to keep, and the new state has the rest; a step that creates none had none left |
| ISearch.KeptMatches | lib/isearch.py:411-418 | the matches `keep_all` keeps, in step order; specified by `KeepStepMatches` and `KeptMatchesAll` |
| ISearch.KeptMatchesAll | lib/isearch.py:411-418 | keeping from an armed wrap visits every match, first to last going forward and last to first going backward |
| ISearch.AppendOne | lib/isearch.py:447-452 | one character, lowered when the search ignores case, escaped when a regex special |
| ISearch.Appended | lib/isearch.py:447-485 | the text `append_from_cursor` adds to the search; specified by `AppendedStep` and `AppendedLiteral` |
| ISearch.AppendedStep | lib/isearch.py:447-485 | appending one more character extends the search by `AppendOne` of it |
| ISearch.AppendedLiteral | lib/isearch.py:447-485 | a literal search gains exactly the buffer's characters, lowered when ignoring case |
| ISearch.WhiteRunEndStops | lib/isearch.py:468-475 | the blank loop ends at the first non-blank or the end of the buffer |
| ISearch.WordRunEndStops | lib/isearch.py:477-482 | the word loop ends at the first non-word character or the end of the buffer |
| ISearch.ConsumedRun | lib/isearch.py:454-482 | two blanks take the whole blank run, otherwise the first character and the rest of the word |
| ISearch.ISearchInfo.constructor | lib/isearch.py:111-126 | one empty bottom item, cursors collapsed to their begins, group 1 |
| ISearch.ISearchInfo.SetText | lib/isearch.py:296-300 | the panel text is set, and a pop text counts one change to ignore |
| ISearch.ISearchInfo.Push | lib/isearch.py:247-249 | the item goes on top with the old top as predecessor |
| ISearch.ISearchInfo.Pop | lib/isearch.py:254-272 | the bottom stays; otherwise moves to `PopTarget`, restoring its text and direction |
| ISearch.ISearchInfo.NotInError | lib/isearch.py:305-309 | the loop finds `LastGood` |
| ISearch.ISearchInfo.Find | lib/isearch.py:220-242 | an empty search does nothing; otherwise exactly one new top, the `Found` state for the search position, in the append group when appending |
| ISearch.ISearchInfo.OnChange | lib/isearch.py:187-203 | ignored changes are counted off; the same text or an empty one changes nothing; otherwise exactly the new top `Find` pushes, with the host's matches for the search flags |
| ISearch.ISearchInfo.StepNext | lib/isearch.py:397-409 | the top is updated by `Step`, and a new item from it is pushed |
| ISearch.ISearchInfo.KeepStep | lib/isearch.py:411-418 | one keeping step either ends at the boundary, where `Step` gives no state, or pushes the state `Step` gives, with one more kept cursor |
| ISearch.ISearchInfo.KeepAll | lib/isearch.py:411-418 | with matches, keeps stepping to the boundary, one kept cursor per pushed item; the kept cursors become the old ones followed by `KeptMatches`, the remaining matches in step order; without matches nothing |
| ISearch.ISearchInfo.AppendChar | lib/isearch.py:447-459 | extends the search by `AppendOne`, keeps the append group on top, only pushes states, and leaves the end of a grouped walk from the top unchanged |
| ISearch.ISearchInfo.TakeBlanks | lib/isearch.py:468-475 | appends the blank run from the position |
| ISearch.ISearchInfo.TakeWord | lib/isearch.py:477-482 | appends the word run from the position |
| ISearch.ISearchInfo.TakeRest | lib/isearch.py:454-483 | appends the rest of the run after the first character |
| ISearch.ISearchInfo.AppendFrom | lib/isearch.py:438-485 | the search grows by the consumed text as one new group, and the panel shows it; older states stay, and one grouped pop goes back to the state before the append |
| ISearch.ISearchInfo.AppendFromCursor | lib/isearch.py:420-485 | when the search is failing or the start is at the end of the buffer, nothing; otherwise as `AppendFrom` from after the last kept cursor or the starting point, so that one grouped pop undoes the whole append |
| ISearch.ISearchInfo.FinalSelection | lib/isearch.py:320-340 | the kept cursors (flipped backward), else the last good match, else the starting point, which alone sets no mark |
| ISearch.ISearchInfo.Finish | lib/isearch.py:311-349 | saves a non-empty search, sets `FinalSelection`, and marks the starting point when moved |
| ISearch.ISearchInfo.Quit | lib/isearch.py:487-503 | with matches or no failing item left, cancels back to the start through `finish(abort=True)`, which saves a non-empty search string as the newest history entry and leaves the history alone for an empty one; otherwise pops to before the failure with the history untouched (same code in jove.py:1839-1855) |
| WhiteSpace.RunStart | white_space_commands.py:20-42 | the start of the blank run before the point |
| WhiteSpace.RunEnd | white_space_commands.py:20-42 | the end of the blank run after the point |
| WhiteSpace.RunStartAt | white_space_commands.py:20-42 | the run start is unique |
| WhiteSpace.RunEndAt | white_space_commands.py:20-42 | the run end is unique |
| WhiteSpace.RunWithinLine | white_space_commands.py:20-42 | the run stays inside the point's line |
| WhiteSpace.WhiteSpaceEdit | white_space_commands.py:20-42 | `delete_white_space` on a string; specified by `WhiteSpaceEditErases` and `WhiteSpaceEditLeavesKeep` |
| WhiteSpace.WhiteSpaceEditErases | white_space_commands.py:20-42 | a run no longer than `keep` stays; otherwise the run is cut to its last `keep` blanks with the cursor after them |
| WhiteSpace.WhiteSpaceEditLeavesKeep | white_space_commands.py:20-42 | exactly `keep` blanks are left, as a whole run |
| WhiteSpace.LineRun | white_space_commands.py:22-31 | the run found in the line text is the run in the buffer |
| WhiteSpace.BlankRun | white_space_commands.py:24-31 | the loops find the maximal blank run around the column |
| WhiteSpace.DeleteWhiteSpace | white_space_commands.py:20-42 | the command performs `WhiteSpaceEdit` |
| WhiteSpace.IsBlank | white_space_commands.py:99-111 | a blank line's region, through its newline, exactly when the line holds only blanks |
| WhiteSpace.IsBlankShape | white_space_commands.py:99-111 | such a region is a block of whole blank lines |
| WhiteSpace.CoverShape | white_space_commands.py:78-91 | covering two touching blocks gives a block |
| WhiteSpace.CoverAbove | white_space_commands.py:86-91 | covering the blank line above extends the block upwards |
| WhiteSpace.ExtendDown | white_space_commands.py:78-83 | extending down ends at a non-blank line or the end of the buffer |
| WhiteSpace.ExtendUp | white_space_commands.py:86-91 | extending up ends at a non-blank line or the floor |
| WhiteSpace.FirstBlank | white_space_commands.py:62-71 | the point's blank line, or the next line when that is blank, or nothing |
| WhiteSpace.BlankBlock | white_space_commands.py:62-91 | a block exactly when there is a first blank line |
| WhiteSpace.BlankBlockMaximal | white_space_commands.py:59-96 | the block holds the first blank line and cannot be extended; one newline is left exactly when the point's line is blank and the block is not at the end |
| WhiteSpace.BlankLinesEdit | white_space_commands.py:55-97 | `delete_blank_lines` on a string; specified by `BlankLinesEditShape` and the blank-block lemmas |
| WhiteSpace.BlankLinesEditShape | white_space_commands.py:55-97 | nothing changes without a blank line; otherwise the block is replaced by one newline or by nothing |
| WhiteSpace.ScanDown | white_space_commands.py:78-83 | the down loop computes `ExtendDown` |
| WhiteSpace.ScanUp | white_space_commands.py:86-91 | the up loop computes `ExtendUp` with the guard as written |
| WhiteSpace.DeleteBlankLines | white_space_commands.py:55-97 | the command performs `BlankLinesEdit` |
| WhiteSpace.FirstBlankLineSurvives | white_space_commands.py:86 | a blank first line is never merged: two newlines stay in `"\n\n\nabc"` |
| WhiteSpace.CorrectedBlockIsMaximal | white_space_commands.py:86 | with the guard `begin > 0` the block cannot be extended either way |
| WhiteSpace.CorrectedMergesFirstLine | white_space_commands.py:86 | with that guard the example keeps one newline |
| Fixup.RunBack | sbp.py:121-135 | the start of the blank run before the point, not below the line start |
| Fixup.RunBackUnique | sbp.py:121-135 | that start is unique (same code in old/sbp.py:187-201) |
| Fixup.RunForward | sbp.py:137-150 | the end of the blank run after the point, stopping at line ends and NUL |
| Fixup.RunForwardUnique | sbp.py:137-150 | that end is unique (same code in old/sbp.py:203-216) |
| Fixup.HandlePrefix | sbp.py:121-135 | the prefix loop finds `RunBack` |
| Fixup.HandleSuffix | sbp.py:137-146 | the suffix loop finds `RunForward`, within the line |
| Fixup.SuffixWithinLine | sbp.py:137-146 | the suffix run never passes the line end |
| Fixup.Runs | sbp.py:77-91 | the two runs around the point, inside its line |
| Fixup.Collapse | sbp.py:98-119 | the edit after the runs are found |
| Fixup.Collapsed | sbp.py:96-119 | the edit that deletes both runs and may put one space back; specified by `CollapsedShape` |
| Fixup.CollapsedShape | sbp.py:98-119 | the runs are replaced by one space, or by none at the line start or when neither neighbour is an ASCII letter or digit (punctuation, a line end or the buffer end on the right) |
| Fixup.FixupEdit | sbp.py:70-119 | fixup-whitespace on a string; specified by `FixupCollapses`, `FixupInsertsSpace` and `FixupOneSpaceStays` (same code in old/sbp.py:136-185) |
| Fixup.FixupCollapses | sbp.py:70-119 | with whitespace at the point, the whole blank stretch around it becomes at most one space (same code in old/sbp.py:136-185) |
| Fixup.FixupInsertsSpace | sbp.py:93-95 | without whitespace at the point, a space is inserted |
| Fixup.FixupOneSpaceStays | sbp.py:70-119 | one space between two words stays as it is |
| Fixup.FixupWhitespace | sbp.py:70-119 | with no cursor nothing; otherwise the edit at the first cursor |
| Registers.RegisterStore.Get | sbp_register.py:21-25 | the stored value, or empty text for an unknown key (same code in sbp.py:23-27, old/sbp.py:88-92) |
| Registers.RegisterStore.Store | sbp_register.py:27-28 | the key reads back the value; no other key changes |
| Registers.StoreThroughOther | sbp_register.py:14-35 | two stores share the class dictionary |
| Registers.StoreSelection | sbp.py:171-184 | with exactly one cursor its text is stored and cancel-mark follows: a mark is erased and one empty cursor is left at the end of its first region; otherwise nothing (same code in old/sbp.py:306-320) |
| Registers.InsertFromRegister | sbp.py:201-218 | with one cursor and a stored text, the selection is replaced and the cursor follows the text; a stored position raises (same code in old/sbp.py:336-353) |
| Registers.PointToRegister | sbp_register.py:56-68 | with one cursor, view, window and region are stored (same code in old/sbp.py:237-249) |
| Registers.PointFromRegister | sbp_register.py:85-104 | no jump for an unknown key, a jump to a stored position, an error for stored text (same code in old/sbp.py:266-285) |
| Registers.PointRoundTrip | sbp_register.py:56-104 | a point stored jumps back to that view and region |
| Registers.InsertContent | sbp_register.py:165-175 | the stored text or empty text for an unknown key; a position cannot be inserted |
| Registers.DoInsert | sbp_register.py:144-148 | the content goes in at the point with the cursor after it, the rest of the buffer unchanged |
| OldCommands.SearchFocus.constructor | old/sbp.py:22-24 | flag false, view -1 |
| OldCommands.SearchFocus.Set | old/sbp.py:26-28 | `get` reads back what was set |
| OldCommands.SearchFocus.Get | old/sbp.py:30-31 | the view and flag |
| OldCommands.SearchFocus.OnActivated | old/sbp.py:39-43 | the recorded view with the flag set hides the panel and clears the record; anything else changes nothing |
| OldCommands.SearchFocus.OnQueryContext | old/sbp.py:45-50 | only the focus-check key with a true operand answers, true, and records the view |
| OldCommands.ZapScan | old/sbp.py:533-540 | the first position from the cursor holding the typed character, or none |
| OldCommands.ZapToChar | old/sbp.py:517-547 | with one cursor, erases through the first match and changes the buffer exactly when there is one; after an erase, cancel-mark drops a mark and leaves one empty cursor at the end of its first region |
| MarkCommands.Paired | sbp_mark.py:38-53 | cursor `i` covered with mark region `i` while both exist |
| MarkCommands.PairedSpans | sbp_mark.py:38-53 | each paired region spans its cursor and its mark |
| MarkCommands.PairedIdempotent | sbp_mark.py:78-90 | pairing twice is pairing once (same code in mark.py:72-86) |
| MarkCommands.PairWithMark | sbp_mark.py:38-53 | the loops compute `Paired` |
| MarkCommands.Swapped | sbp_mark.py:24-35 | the selection becomes the mark, and the mark the selection when there was one |
| MarkCommands.SwapTwice | sbp_mark.py:24-35 | swapping twice restores both |
| MarkCommands.MarkView.constructor | sbp_mark.py:68-72 | no mark |
| MarkCommands.MarkView.CancelMark | sbp_mark.py:9-14 | without a mark nothing; otherwise no mark and one cursor at the end of the first mark region (same code in mark.py:5-14) |
| MarkCommands.MarkView.SetMark | sbp_mark.py:17-21 | the mark is the selection (same code in mark.py:17-21) |
| MarkCommands.MarkView.SwapWithMark | sbp_mark.py:24-35 | performs `Swapped` (same code in mark.py:23-34) |
| MarkCommands.MarkView.SelectToMark | sbp_mark.py:38-53 | performs `Paired` (same code in mark.py:36-51) |
| MarkCommands.MarkView.OnSelectionModified | sbp_mark.py:78-90 | performs `Paired` |
| MarkCommands.MarkView.QueryContext | sbp_mark.py:92-95 | answers the has-mark key under equality, true exactly when there is a mark (same code in mark.py:88-91) |
| Layout.CoordsOf | sbp_layout.py:27-31 | four coordinates from a cell's indices |
| Layout.CoordCells | sbp_layout.py:24-25 | one coordinate cell per grid cell |
| Layout.Replaced | sbp_layout.py:36-41 | the first half replaces the cell and the second half is appended last, the rest unchanged |
| Layout.Halves | sbp_layout.py:56-83 | a vertical split halves the width at the midpoint, a horizontal split halves the height |
| Layout.SplitThenKill | sbp_layout.py:56-111 | killing either half of a split single pane restores it |
| Layout.MatchesFrom | sbp_layout.py:98-107 | exactly the cells whose side `k` touches the killed cell's side |
| Layout.Expand | sbp_layout.py:98-107 | exactly the cell and side pairs that touch the killed cell |
| Layout.Stretched | sbp_layout.py:110-111 | a touching side moves to the killed cell's side, the others stay |
| Layout.Killed | sbp_layout.py:85-111 | one cell fewer |
| Layout.Stretching | sbp_layout.py:110-111 | every remaining cell has the same number of coordinates |
| Layout.ExpandAllStretched | sbp_layout.py:98-111 | writing every touching side gives `Stretching` |
| Layout.InsertSorted | sbp_layout.py:118-134 | a value added to an increasing list, kept increasing without duplicates |
| Layout.SortedSet | sbp_layout.py:118-134 | `sorted(set(...))`: increasing, with the same members |
| Layout.Flatten | sbp_layout.py:118-134 | holds both chosen coordinates of every cell |
| Layout.FlattenFrom | sbp_layout.py:118-134 | holds nothing else |
| Layout.IndexOf | sbp_layout.py:118-134 | `index`: the position of a member |
| Layout.IndexOfIncreasing | sbp_layout.py:118-134 | in an increasing list, the value's own position |
| Layout.IncreasingUnique | sbp_layout.py:118-134 | two increasing lists with the same members are equal |
| Layout.Build | sbp_layout.py:118-134 | columns and rows are the sorted coordinates, and each cell is indexed into them |
| Layout.BuiltCell | sbp_layout.py:118-134 | each index points at the coordinate |
| Layout.BuiltCellBack | sbp_layout.py:118-134 | the indices read back the coordinates |
| Layout.BuildRoundTrip | sbp_layout.py:118-134 | a built grid is well formed, and its cells (as sbp_layout.py:24-31 makes them) give the coordinates back |
| Layout.BuildOf | sbp_layout.py:118-134 | the built columns and rows are any increasing lists with the same members |
| Layout.BuildCoordCells | sbp_layout.py:118-134 | building the coordinates (made as in sbp_layout.py:24-31) of a grid whose every column and row is used gives that grid back |
| Layout.ColumnMember | sbp_layout.py:24-31 | a coordinate of the grid's cells is a column of the grid, and conversely |
| Layout.RowMember | sbp_layout.py:24-31 | a coordinate of the grid's cells is a row of the grid, and conversely |
| Layout.CmpCells | sbp_layout.py:4-15 | before exactly when higher, or at the same row and further left; never equal |
| Layout.Insert | sbp_layout.py:136-147 | one sorting step adds the entry to the entries |
| Layout.InsertKeepsSorted | sbp_layout.py:136-147 | one sorting step keeps the entries ordered by `cmp_cells` (sbp_layout.py:4-15) |
| Layout.InsertDistinct | sbp_layout.py:136-147 | one sorting step keeps the entries distinct |
| Layout.SortCells | sbp_layout.py:136-147 | the sort keeps the entries |
| Layout.SortCellsSorted | sbp_layout.py:136-147 | the sort orders by top row, then left column, as `cmp_cells` (sbp_layout.py:4-15) does |
| Layout.SortCellsDistinct | sbp_layout.py:136-147 | the sort keeps distinct entries distinct |
| Layout.Enumerate | sbp_layout.py:138 | `enumerate` |
| Layout.LastPos | sbp_layout.py:139-143 | the last sorted position holding the cell |
| Layout.Next | sbp_layout.py:136-147 | the next pane is a pane |
| Layout.PositionOf | sbp_layout.py:139-143 | with distinct cells the search finds the pane's own entry |
| Layout.NextAt | sbp_layout.py:136-147 | the next pane is the sorted entry `direction` places on, cyclically |
| Layout.Positions | sbp_layout.py:136-147 | both panes sit at their sorted positions |
| Layout.NextBack | sbp_layout.py:136-147 | going back from the next pane returns to the pane |
| Layout.NextInOrder | sbp_layout.py:136-147 | the next pane follows in reading order, or is the first pane after a wrap |
| Layout.LayoutManager.constructor | sbp_layout.py:43-48 | the coordinate cells of the grid and its column and row counts |
| Layout.LayoutManager.Replace | sbp_layout.py:36-41 | performs `Replaced` |
| Layout.LayoutManager.Split | sbp_layout.py:56-83 | refused exactly when a vertical split would pass 20 columns or a horizontal one 20 rows; otherwise the two halves, one more column or row |
| Layout.LayoutManager.KillSelf | sbp_layout.py:85-111 | with counts 2 by 2 nothing; otherwise `Killed` |
| Layout.LayoutManager.Stretch | sbp_layout.py:110-111 | the loop performs `Stretching` on the remaining cells |
| Layout.LayoutManager.KillOther | sbp_layout.py:113-116 | one full-window pane |
| Layout.TestLayout | sbp_layout.py:202-206 | the three test grids are well formed and use all their columns and rows |
| Layout.TestCoords | sbp_layout.py:254-256 | their coordinate cells |
| Layout.KillSelfTest | sbp_layout.py:224-247 | splitting the single pane gives the test grids, and killing a half restores it |
| Layout.ReplaceCellsAsWritten | sbp_layout.py:258-263 | the test's expected order does not hold |
| Layout.ReplaceCellsCorrected | sbp_layout.py:36-41 | the actual order, second half last |
| Layout.SplitVerticalAsWritten | sbp_layout.py:266-275 | the test's expected order does not hold |
| Layout.SplitVerticalCorrected | sbp_layout.py:56-83 | the actual cells of both vertical splits |
| Layout.SplitHorizontalAsWritten | sbp_layout.py:278-287 | the test's expected order does not hold |
| Layout.SplitHorizontalCorrected | sbp_layout.py:56-83 | the actual cells of both horizontal splits |
| Layout.KillSelfComplicatedAsWritten | sbp_layout.py:209-214 | the first kill does not give `hbase` |
| Layout.KilledComplicated | sbp_layout.py:85-111 | the cells after the first kill |
| Layout.KillSelfComplicatedCorrected | sbp_layout.py:209-214 | the first kill gives `vbase` |
| Layout.KillSelfComplicatedSecond | sbp_layout.py:215-220 | the second kill gives `hbase`, as the test expects |
| LineKillRing.Pushed | sbp_kill_ring.py:62-64 | the stripped text is a middle slice of the text with no whitespace at either end, and is empty exactly when the text is all whitespace; the legacy ring keeps it (kill_ring.py:17-20) |
| LineKillRing.PushedOnto | sbp_kill_ring.py:56-68 | `push` on the buffer list; specified by `PushedOntoShape` (the legacy push in kill_ring.py:17-20 too) |
| LineKillRing.PushedOntoShape | sbp_kill_ring.py:56-68 | a stored text goes in front, the rest shifts down, and at most 16 stay; the sbp ring drops empty text, the legacy ring stores it too (kill_ring.py:17-20) |
| LineKillRing.Compared | sbp_kill_ring.py:76-85 | the begin points going forward, the end points going backward |
| LineKillRing.Begins | sbp_kill_ring.py:78-80 | the begin point of every region |
| LineKillRing.Ends | sbp_kill_ring.py:78-80 | the end point of every region |
| LineKillRing.LineKillRing.constructor | sbp_kill_ring.py:43-47 | an empty ring (same code in kill_ring.py:4-8) |
| LineKillRing.LineKillRing.Top | sbp_kill_ring.py:49-50 | always raises (same code in kill_ring.py:10-11) |
| LineKillRing.LineKillRing.Seal | sbp_kill_ring.py:52-54 | forgets the last kill (same code in kill_ring.py:13-15) |
| LineKillRing.LineKillRing.Push | sbp_kill_ring.py:56-68 | performs `PushedOnto` of `Pushed`: an empty text is dropped only by the sbp ring, and the legacy ring stores every text (kill_ring.py:17-20) |
| LineKillRing.LineKillRing.Add | sbp_kill_ring.py:70-99 | raises exactly when the compared points equal the remembered ones (after sealing on a view change); otherwise pushes and remembers the kill (same code in kill_ring.py:22-51) |
| LineKillRing.LineKillRing.Get | sbp_kill_ring.py:101-102 | the entry at the index modulo 16, an error past the end (same code in kill_ring.py:53-54) |
| LineKillRing.LineKillRing.Len | sbp_kill_ring.py:104-105 | never more than 16 (same code in kill_ring.py:56-57) |
| LineKillRing.Widened | sbp_kill_ring.py:161-174 | an empty cursor is widened by one character in the kill direction |
| LineKillRing.Pieces | sbp_kill_ring.py:161-174 | the text of each region |
| LineKillRing.KillTexts | sbp_kill_ring.py:161-174 | the widened regions and their texts joined by newlines (same code in kill_ring.py:113-126) |
| LineKillRing.KillTextsSplit | sbp_kill_ring.py:161-174 | single-line pieces split back out of the joined text |
| LineKillRing.SentenceRegion | sbp_kill_ring.py:198-220 | nothing at the end of the buffer; otherwise from the point to the first sentence stop |
| LineKillRing.ExpandSelectionForKill | sbp_kill_ring.py:228-254 | at a newline takes it, at the end stays, elsewhere runs to the next newline or the end; the legacy command always raises (kill_ring.py:141-176) |

## Left out

- Sublime Text itself is left out: views, windows, panels, status messages, timers, regions shown on screen, settings files, and the clipboard as a system service. They become parameters: the buffer, the selection, a `findAll` function for the host's search, and the clipboard string.
- The host's automatic merging of overlapping cursors is left out. Selections are plain sequences.
- The host's character classes are modelled only as far as the commands use them: Python's whitespace set, ASCII letters and digits, and ASCII capitals. There is no full Unicode.
- `sbp_layout.py`'s `extend` (lines 149-195) is left out. It resizes panes by floating-point arithmetic on the viewport.
- Layout coordinates are exact reals, not floats.
- `LayoutManager.__init__` with a falsy grid sets no attributes and is left out.
- The negative pane indices Python tolerates are left out; the model's indices are in range.
- Misc.RelativePath: the path separator is a parameter in place of `os.path.sep`.
- Misc.ForEachCursor: models the branch that collects regions; the `can_modify` branch (lib/misc.py:457-485) edits the buffer through the host and is left out.
- `last_was_kill_cmd` (lib/viewstate.py:88-90) is a plain membership test. It is modelled as a predicate without a contract of its own.
- ViewState.ViewState.RepeatRewrite: `on_text_command` also rewrites movement when the mark is active (jove.py:354-356). It also tracks `this_cmd` and the drag count (jove.py:337-352). That rewrite and that tracking are not modelled.
- `restart`, `open`, `update`, `history` and the panel callbacks of the incremental search (lib/isearch.py:140-183, 274-295, 351-395) drive the UI and are left out. So is the `info_for` guard at the top of `finish`.
- The saved-search settings I/O (lib/isearch.py:86-92) is left out.
- ISearch.ISearchInfo.AppendFromCursor: the grown search string and the one-pop undo are stated only when no `set_text` echo is pending as the append starts. With one pending, the first `on_change` of the append is swallowed, and the model states only that older states stay and the group id advances.
- ISearch.ISearchInfo.AppendFrom: the grown search string and the one-pop undo are stated only when no `set_text` echo is pending as the append starts. With one pending, the model states only that older states stay and the group id advances.
- The kill-ring clipboard as `None` is left out, both from `get_clipboard` and from `set_clipboard(None)` in jove.py:112. The clipboard is a string, and the empty string plays that role.
- The yank commands that call the rings, and their `self.status` messages, are left out.
- Registers: `sbp_register.py`'s store command (lines 126-138) stores the text of the mark-based emacs region. It is not modelled. The model stores the single cursor's selection, as `sbp.py` and `old/sbp.py` do.
- LineKillRing.Pushed: `string.strip` exists only in Python 2's `string` module. The model strips whitespace, as Python 2 does, rather than raising as Python 3 would.
- MarkCommands.PairWithMark: the loops in mark.py:43-46, mark.py:78-81, sbp_mark.py:45-48 and sbp_mark.py:82-85 use `xrange`, which exists only in Python 2. The model follows Python 2 and runs the loops, rather than raising a `NameError` as Python 3 would.
- The geometry of erased regions is reduced to the text edit they perform. The host's clamping of out-of-range erases is left out.
- OldCommands.ZapToChar: the host moves the mark region along when the erase happens before it. The model does not. Cancel-mark places the cursor at the end of the first mark region as it stood before the erase.
- Complete-all-buffers, goto-file, the mode setter, rectangles and view switching are not part of this model.

## Findings

| source | as written | input that shows it | evidently intended | confidence | as-written member | corrected member |
|---|---|---|---|---|---|---|
| white_space_commands.py:86 | the up loop runs only while `region.begin() - 1 > 0`, so a blank first line is never merged into the block | buffer `"\n\n\nabc"`, point 2: two newlines stay | the guard `region.begin() > 0`, so the whole blank block collapses to one newline | not executed | WhiteSpace.FirstBlankLineSurvives | WhiteSpace.CorrectedMergesFirstLine |
| sbp_layout.py:262-263 | `testReplaceCells` expects the second half right after the replaced cell | replace cell 0 of `hbase` with its two halves | `_replace` appends the second half last; `jove.py`'s split relies on that order when it picks the new view's index, so the test is what is wrong | not executed | Layout.ReplaceCellsAsWritten | Layout.ReplaceCellsCorrected |
| sbp_layout.py:269-275 | `testSplitVertical` expects the new half right after the split cell | split cell 0 of `hbase` vertically | the new half comes last, as `_replace` puts it | not executed | Layout.SplitVerticalAsWritten | Layout.SplitVerticalCorrected |
| sbp_layout.py:281-287 | `testSplitHorizontal` expects the new half right after the split cell | split cell 0 of `hbase` horizontally | the new half comes last, as `_replace` puts it | not executed | Layout.SplitHorizontalAsWritten | Layout.SplitHorizontalCorrected |
| sbp_layout.py:213-214 | `testKillSelfComplicated` expects `hbase` after killing the third pane | split the single pane vertically, split pane 0 horizontally, kill pane 2 | the left column and the right pane remain, which is `vbase` | not executed | Layout.KillSelfComplicatedAsWritten | Layout.KillSelfComplicatedCorrected |
