# InputConnectionCommandEditor, modelled in Dafny

This project models the command editor of the speechutils Android library: the class
`InputConnectionCommandEditor`. It writes speech recognition results into a text field
and runs editing commands on that field. Those commands are `select`, `replace`,
`delete`, `replaceSel`, `ucSel`, `lcSel`, `incSel`, `deleteLeftWord`, the cursor moves,
`undo` and `apply`.

The editor keeps this session state:

- the previous partial result (`mPrevText`);
- how many characters it has added since the last final result (`mAddedLength`);
- the last `select`/`replace` operation (`mPrevOp`);
- the command prefix (`mCommandPrefix`), the recent literal final results that may join
  the next utterance into a multi-utterance command;
- the undo stack (`mUndoStack`).

The model has these modules:

- `Wrappers`: `Option`.
- `Strings`: the static helpers `greatestCommonPrefix`, `capitalizeIfNeeded` and
  `getGlue`, Java's `trim`, and the case-insensitive `lastIndexOf`.
  - `greatestCommonPrefix` and `capitalizeIfNeeded` are methods with their loops.
  - Each is proved to compute a specification function.
- `JavaInt`: `Integer.parseInt`, `String.valueOf(int)` and the 32-bit wrap-around of
  `+ 1`, as `incSel` uses them.
- `Document`: the text field behind Android's `InputConnection`, as a value.
  - The value holds the text and the selection `[selStart, selEnd)`.
  - It offers `commitText`, `deleteSurroundingText`, `setSelection` and
    `getTextBeforeCursor`.
  - Its header lists what is assumed about the host.
- `EditorModel`: every operation of the editor as a function from an `Engine` state
  value to an `Outcome`, which holds the success flag and the new state.
  - The closures that `InputConnectionCommandEditor` pushes on its undo stack become the
    variants of `UndoEntry`.
  - Running an entry (`RunEntry`) does what each closure's `execute` does.
- `EditorProperties`: what the editor promises, proved about those functions. This
  covers the following:
  - undo reverts each reversible command;
  - `undo` and `apply` split into runs;
  - command windows are resolved longest first;
  - `deleteLeftWord` removes the last word and the whitespace before it;
  - partial results overwrite one another incrementally;
  - where the added length goes wrong.
- `CommandEditor`: the class `InputConnectionCommandEditor`.
  - It has the Java class's fields and methods that update them step by step.
  - The `while` loops of `undo`, `apply`, `applyCommand` and `deleteLeftWord` carry
    their invariants.
  - Each method is proved to leave `State() == F(old(State()))`, where `F` is the
    matching function of `EditorModel`. Everything proved in `EditorProperties`
    therefore holds of the class.

The character classes come from a `Constants` class that is not part of this model, and
so do the case mappings and `Character.isLetter`. They are parameters
(`Strings.CharClasses`). The utterance rewriter and the command dispatcher
(`CommandEditorManager`) are not part of this model either. They are parameters too: a
function from utterance to `Rewrite`, and a function from command id and arguments to a
`Command`.

## Model

| member | source | states |
|---|---|---|
| Strings.CommonPrefixLength | app/src/main/java/ee/ioc/phon/android/speechutils/editor/InputConnectionCommandEditor.java:888-896 | the common prefix length is a prefix of both strings, at most the shorter length, and maximal (the strings end or differ right after it) |
| Strings.CommonPrefixFrom | app/src/main/java/ee/ioc/phon/android/speechutils/editor/InputConnectionCommandEditor.java:888-896 | given that `a` and `b` agree on their first `i` characters, the result is at least `i`, the two agree up to it, and it is the end of one of them or a position where they differ |
| Strings.CommonPrefixUnique | app/src/main/java/ee/ioc/phon/android/speechutils/editor/InputConnectionCommandEditor.java:888-896 | the three properties determine the common prefix length uniquely |
| Strings.GreatestCommonPrefix | app/src/main/java/ee/ioc/phon/android/speechutils/editor/InputConnectionCommandEditor.java:888-896 | the early-exit loop returns a prefix of both strings, at most the shorter length, after which the strings end or differ |
| Strings.TrimEnd | app/src/main/java/ee/ioc/phon/android/speechutils/editor/InputConnectionCommandEditor.java:840 | `trim` drops trailing characters up to U+0020; the rest is a prefix that ends above U+0020 |
| Strings.TrimStart | app/src/main/java/ee/ioc/phon/android/speechutils/editor/InputConnectionCommandEditor.java:840 | `trim` drops leading characters up to U+0020; the rest is a suffix that starts above U+0020 |
| Strings.TrimmedEnd | app/src/main/java/ee/ioc/phon/android/speechutils/editor/InputConnectionCommandEditor.java:839 | every character from the result up to `j` is trimmed by `trim`, and the one before the result is not |
| Strings.TrimmedStart | app/src/main/java/ee/ioc/phon/android/speechutils/editor/InputConnectionCommandEditor.java:839 | every character from `i` up to the result is trimmed by `trim`, and the one at the result is not |
| Strings.TrimLast | app/src/main/java/ee/ioc/phon/android/speechutils/editor/InputConnectionCommandEditor.java:840-842 | the trimmed left context is empty iff every character is at most U+0020; otherwise its last character is the last one above U+0020 |
| Strings.FirstNonWhitespace | app/src/main/java/ee/ioc/phon/android/speechutils/editor/InputConnectionCommandEditor.java:846-852 | the index of the first character not in the whitespace set: all before it are whitespace, and it is the length if there is none |
| Strings.FirstNonWhitespaceFrom | app/src/main/java/ee/ioc/phon/android/speechutils/editor/InputConnectionCommandEditor.java:845-850 | the characters from `i` up to the result are whitespace, and the one at the result, if any, is not |
| Strings.FirstNonWhitespaceIndex | app/src/main/java/ee/ioc/phon/android/speechutils/editor/InputConnectionCommandEditor.java:844-850 | the loop returns the first non-whitespace index, or -1 when the text is all whitespace |
| Strings.CommonWhitespacePrefix | app/src/main/java/ee/ioc/phon/android/speechutils/editor/InputConnectionCommandEditor.java:846-852 | an index preceded only by whitespace and sitting at a non-whitespace character (or the end) is the first non-whitespace index |
| Strings.Capitalized | app/src/main/java/ee/ioc/phon/android/speechutils/editor/InputConnectionCommandEditor.java:837-862 | the length is kept and, character by character, position `i` is upper-cased exactly when it is the first non-whitespace one and the trimmed left context is empty or ends a sentence; every other character is kept |
| Strings.CapitalizedAt | app/src/main/java/ee/ioc/phon/android/speechutils/editor/InputConnectionCommandEditor.java:851-857 | when a capital is needed, the text is the whitespace prefix, the upper-cased first letter, and the rest unchanged |
| Strings.CapitalizedNotNeeded | app/src/main/java/ee/ioc/phon/android/speechutils/editor/InputConnectionCommandEditor.java:839-841 | when the left context does not end a sentence, the text is returned unchanged |
| Strings.CapitalizedAllWhitespace | app/src/main/java/ee/ioc/phon/android/speechutils/editor/InputConnectionCommandEditor.java:844-860 | text that is all whitespace is returned unchanged |
| Strings.CapitalizeIfNeeded | app/src/main/java/ee/ioc/phon/android/speechutils/editor/InputConnectionCommandEditor.java:837-862 | the scanning loop returns exactly `Capitalized` |
| Strings.GetGlue | app/src/main/java/ee/ioc/phon/android/speechutils/editor/InputConnectionCommandEditor.java:866-886 | the glue is "" or " ", and it is " " exactly when (both directions) the text is not one letter, the context is non-empty, the text starts with neither whitespace nor punctuation, and the context ends with neither whitespace nor a sticky character |
| Strings.Lower | app/src/main/java/ee/ioc/phon/android/speechutils/editor/InputConnectionCommandEditor.java:666-671 | `toLowerCase` keeps the length; each character is mapped on its own, which `LowerSlice` uses |
| Strings.Upper | app/src/main/java/ee/ioc/phon/android/speechutils/editor/InputConnectionCommandEditor.java:491-498 | `toUpperCase` keeps the length |
| Strings.LowerSlice | app/src/main/java/ee/ioc/phon/android/speechutils/editor/InputConnectionCommandEditor.java:666-676 | lower-casing commutes with taking a slice, so an index into the lowered text is an index into the original |
| Strings.LastIndexAtOrBefore | app/src/main/java/ee/ioc/phon/android/speechutils/editor/InputConnectionCommandEditor.java:671 | the last occurrence at or before a position, or -1 with no occurrence in range |
| Strings.LastIndexOf | app/src/main/java/ee/ioc/phon/android/speechutils/editor/InputConnectionCommandEditor.java:671 | `String.lastIndexOf`: an occurrence, and no occurrence after it; -1 only when there is none |
| Strings.SubstituteSel | app/src/main/java/ee/ioc/phon/android/speechutils/editor/InputConnectionCommandEditor.java:481-485 | a `replaceSel` template without `{}` is written as it is, whatever is selected; `SubstituteSelFirstRef` states how each `{}` is replaced |
| Strings.SubstituteSelFirstRef | app/src/main/java/ee/ioc/phon/android/speechutils/editor/InputConnectionCommandEditor.java:478-488 | the first `{}` of a template becomes the selection: the text before it is kept and the rest of the template is substituted in turn |
| JavaInt.Wrap32 | app/src/main/java/ee/ioc/phon/android/speechutils/editor/InputConnectionCommandEditor.java:515 | Java `int` wrap-around: in range, the identity on `int` values, and congruent modulo 2^32 |
| JavaInt.Increment | app/src/main/java/ee/ioc/phon/android/speechutils/editor/InputConnectionCommandEditor.java:515 | `v + 1` on `int`: the wrap-around of the mathematical successor, which is that successor below the largest `int` |
| JavaInt.ParseInt | app/src/main/java/ee/ioc/phon/android/speechutils/editor/InputConnectionCommandEditor.java:515 | `Integer.parseInt` yields only values in `int` range; `None` stands for `NumberFormatException` |
| JavaInt.NatToString | app/src/main/java/ee/ioc/phon/android/speechutils/editor/InputConnectionCommandEditor.java:515 | `String.valueOf` of a non-negative number is a non-empty string of digits |
| JavaInt.DigitsValueOfNatToString | app/src/main/java/ee/ioc/phon/android/speechutils/editor/InputConnectionCommandEditor.java:515 | reading back the digits written for `n` gives `n` |
| JavaInt.ParseIntToString | app/src/main/java/ee/ioc/phon/android/speechutils/editor/InputConnectionCommandEditor.java:515 | `Integer.parseInt(String.valueOf(n)) == n` for every `int` `n` |
| JavaInt.IncrementWraps | app/src/main/java/ee/ioc/phon/android/speechutils/editor/InputConnectionCommandEditor.java:515 | `incSel` on the largest `int` writes the smallest one, "-2147483648" |
| Document.CommitTextSpec | app/src/main/java/ee/ioc/phon/android/speechutils/editor/InputConnectionCommandEditor.java:614-635 | `commitText` keeps the text before the selection, puts `t` in place of the selection, and keeps the text after it |
| Document.TextBeforeCursorSpec | app/src/main/java/ee/ioc/phon/android/speechutils/editor/InputConnectionCommandEditor.java:586-593 | `getTextBeforeCursor(n)` is the last `n` characters before the cursor, or all of them when fewer exist |
| Document.CommitThenDelete | app/src/main/java/ee/ioc/phon/android/speechutils/editor/InputConnectionCommandEditor.java:614-635 | writing over the selection, then deleting what was written, leaves the text without the selection and the cursor where the selection started |
| Document.DeleteBeforeCursor | app/src/main/java/ee/ioc/phon/android/speechutils/editor/InputConnectionCommandEditor.java:576-578 | deleting `n` characters before a collapsed cursor cuts them out and moves the cursor back by `n` |
| Document.ReinsertSelection | app/src/main/java/ee/ioc/phon/android/speechutils/editor/InputConnectionCommandEditor.java:614-635 | re-inserting the removed selection and re-selecting the old bounds gives back the original document |
| EditorModel.Reselect | app/src/main/java/ee/ioc/phon/android/speechutils/editor/InputConnectionCommandEditor.java:648-655 | restoring the old bounds keeps the document valid |
| EditorModel.MovedCursor | app/src/main/java/ee/ioc/phon/android/speechutils/editor/InputConnectionCommandEditor.java:777-790 | a move collapses the cursor at `selStart + n` for `n < 0` and at `selEnd + n` otherwise, keeping the text |
| EditorModel.RunEntry | app/src/main/java/ee/ioc/phon/android/speechutils/editor/InputConnectionCommandEditor.java:112-797 | running any undo entry leaves a valid document; its cases are the closures' `execute` at 112-124 (delete len), 363-369 (re-insert), 439-461 (undo replace1/2), 618-632 (commitText), 648-654 (setSelection) and 791-797 (move) |
| EditorModel.Push | app/src/main/java/ee/ioc/phon/android/speechutils/editor/InputConnectionCommandEditor.java:803-806 | the entry goes on top and nothing else changes |
| EditorModel.Undo | app/src/main/java/ee/ioc/phon/android/speechutils/editor/InputConnectionCommandEditor.java:187-200 | only the undo stack and the document change, and the engine stays valid; which entries go is stated by `UndoPopsEntries` |
| EditorModel.UndoPopsEntries | app/src/main/java/ee/ioc/phon/android/speechutils/editor/InputConnectionCommandEditor.java:187-200 | the stack left is a suffix of the old one; at most `steps` entries are popped; on success exactly `steps` are popped or the stack is empty; on failure the failing entry is already popped |
| EditorModel.UndoStep | app/src/main/java/ee/ioc/phon/android/speechutils/editor/InputConnectionCommandEditor.java:189-196 | one loop step: pop the top entry and run it; on success go on with `steps - 1`, on failure stop with the entry already gone |
| EditorModel.SetSelectionUndoable | app/src/main/java/ee/ioc/phon/android/speechutils/editor/InputConnectionCommandEditor.java:645-656 | it succeeds iff `0 <= i <= j <= len`. Then it selects `[i, j)` and pushes a restore of the old bounds; on failure nothing changes |
| EditorModel.Move | app/src/main/java/ee/ioc/phon/android/speechutils/editor/InputConnectionCommandEditor.java:777-801 | it succeeds iff the moved cursor is in range. Then the cursor moves and a move by `-n` is pushed; on failure nothing changes |
| EditorModel.SetSelectionFromCurrent | app/src/main/java/ee/ioc/phon/android/speechutils/editor/InputConnectionCommandEditor.java:763-772 | it succeeds iff `0 <= i <= j <= len`. Then it selects `[i, j)` and pushes a restore of the current bounds, and nothing else changes; on failure nothing changes |
| EditorModel.GoToCharacterPosition | app/src/main/java/ee/ioc/phon/android/speechutils/editor/InputConnectionCommandEditor.java:232-235 | it succeeds iff `0 <= pos <= len`. Then the cursor is collapsed at `pos` and a restore of the old bounds is pushed; on failure nothing changes |
| EditorModel.GoToEnd | app/src/main/java/ee/ioc/phon/android/speechutils/editor/InputConnectionCommandEditor.java:248-259 | it always succeeds: the cursor is collapsed at the end of the text and a restore of the old bounds is pushed |
| EditorModel.SelectAll | app/src/main/java/ee/ioc/phon/android/speechutils/editor/InputConnectionCommandEditor.java:264-274 | it always succeeds: the whole text `[0, len)` is selected and a restore of the old bounds is pushed |
| EditorModel.ResetSel | app/src/main/java/ee/ioc/phon/android/speechutils/editor/InputConnectionCommandEditor.java:321-331 | it always succeeds: the cursor is collapsed at the old selection end and a restore of the old bounds is pushed |
| EditorModel.SearchBeforeCursor | app/src/main/java/ee/ioc/phon/android/speechutils/editor/InputConnectionCommandEditor.java:666-676 | the index is -1 or a match that ends before the cursor; `SearchBeforeCursorSpec` says which match |
| EditorModel.SearchBeforeCursorSpec | app/src/main/java/ee/ioc/phon/android/speechutils/editor/InputConnectionCommandEditor.java:666-676 | the index is -1 or a case-insensitive match ending before the cursor, and no such match starts after it, so it is the last one |
| EditorModel.SearchMeaning | app/src/main/java/ee/ioc/phon/android/speechutils/editor/InputConnectionCommandEditor.java:666-676 | the `lastIndexOf` on the lowered text before the cursor finds exactly the last case-insensitive match |
| EditorModel.MatchIffOccurs | app/src/main/java/ee/ioc/phon/android/speechutils/editor/InputConnectionCommandEditor.java:666-676 | a case-insensitive match before the cursor is an occurrence in the lowered text before the cursor |
| EditorModel.ExecForward | app/src/main/java/ee/ioc/phon/android/speechutils/editor/InputConnectionCommandEditor.java:378-475 | re-executing a select or replace operation changes only the document and the undo stack |
| EditorModel.SelectOnce | app/src/main/java/ee/ioc/phon/android/speechutils/editor/InputConnectionCommandEditor.java:381-394 | selecting the last match before the cursor changes only the document and the undo stack |
| EditorModel.ReplaceOnce | app/src/main/java/ee/ioc/phon/android/speechutils/editor/InputConnectionCommandEditor.java:424-472 | replacing the last match before the cursor changes only the document and the undo stack |
| EditorModel.ReplaceOnceMissing | app/src/main/java/ee/ioc/phon/android/speechutils/editor/InputConnectionCommandEditor.java:428-432 | with no match before the cursor, replace fails and changes nothing |
| EditorModel.ReplaceOnceCuts | app/src/main/java/ee/ioc/phon/android/speechutils/editor/InputConnectionCommandEditor.java:433-449 | with a match and an empty replacement, the match is deleted, the cursor sits where it began, and `undo replace1` is pushed with the old selection |
| EditorModel.ReplaceOnceWrites | app/src/main/java/ee/ioc/phon/android/speechutils/editor/InputConnectionCommandEditor.java:450-464 | with a match and a non-empty replacement, the match is deleted, the replacement is committed there, and `undo replace2` is pushed with the old selection |
| EditorModel.Select | app/src/main/java/ee/ioc/phon/android/speechutils/editor/InputConnectionCommandEditor.java:378-397 | it sets `mPrevOp` and succeeds iff a match precedes the cursor. It then selects the last match and pushes the old bounds; otherwise the document and the stack are unchanged |
| EditorModel.Replace | app/src/main/java/ee/ioc/phon/android/speechutils/editor/InputConnectionCommandEditor.java:421-475 | it sets `mPrevOp` and succeeds iff a match precedes the cursor. It then splices the replacement in for the last match, leaves the cursor after it, and pushes "undo replace1" (empty replacement) or "undo replace2" with the match and the old bounds; otherwise the document and the stack are unchanged |
| EditorModel.Delete | app/src/main/java/ee/ioc/phon/android/speechutils/editor/InputConnectionCommandEditor.java:415-418 | `delete(query)` sets `mPrevOp` to replace-with-nothing and succeeds iff a match precedes the cursor. Then the last match is cut, the cursor sits where it began, and "undo replace1" with the match and the old bounds is pushed; otherwise only `mPrevOp` changes |
| EditorModel.CommitTextUndoable | app/src/main/java/ee/ioc/phon/android/speechutils/editor/InputConnectionCommandEditor.java:614-635 | the selection is replaced by the new text, and the pushed entry records its length, the old text and the old bounds |
| EditorModel.ReplaceSel | app/src/main/java/ee/ioc/phon/android/speechutils/editor/InputConnectionCommandEditor.java:477-488 | it always succeeds: the selection becomes the template with each `{}` replaced by the selected text, and the commitText entry with the old text and bounds is pushed |
| EditorModel.UcSel | app/src/main/java/ee/ioc/phon/android/speechutils/editor/InputConnectionCommandEditor.java:490-498 | it always succeeds: the selection becomes its upper-case form, and the commitText entry with the old text and bounds is pushed |
| EditorModel.LcSel | app/src/main/java/ee/ioc/phon/android/speechutils/editor/InputConnectionCommandEditor.java:500-508 | it always succeeds: the selection becomes its lower-case form, and the commitText entry with the old text and bounds is pushed |
| EditorModel.IncSel | app/src/main/java/ee/ioc/phon/android/speechutils/editor/InputConnectionCommandEditor.java:511-522 | a selection that is not an `int` fails and changes nothing. Otherwise the selection becomes `String.valueOf(v + 1)` with wrap-around, and an undo entry is pushed |
| EditorModel.RunEnd | app/src/main/java/ee/ioc/phon/android/speechutils/editor/InputConnectionCommandEditor.java:46 | the end of the maximal run of `\s` or `\w` characters starting at `i` |
| EditorModel.MatchEndAt | app/src/main/java/ee/ioc/phon/android/speechutils/editor/InputConnectionCommandEditor.java:46 | `\s*\w+` matches at `i` iff the whitespace run there is followed by a word character; the match ends at the end of that word |
| EditorModel.FindFrom | app/src/main/java/ee/ioc/phon/android/speechutils/editor/InputConnectionCommandEditor.java:351 | `Matcher.find` from `p`: the first position at or after `p` where a match starts, and its end; none means no match starts at or after `p` |
| EditorModel.ScanWords | app/src/main/java/ee/ioc/phon/android/speechutils/editor/InputConnectionCommandEditor.java:350-355 | the `lastIndex` of the `find` loop stays within the text |
| EditorModel.LeftWordLength | app/src/main/java/ee/ioc/phon/android/speechutils/editor/InputConnectionCommandEditor.java:356-360 | it deletes at most the context. It gives up iff `lastIndex` is 0 (no match, or one match from the start of the context to the cursor) and the context has 100 characters or more |
| EditorModel.DeleteLeftWord | app/src/main/java/ee/ioc/phon/android/speechutils/editor/InputConnectionCommandEditor.java:338-375 | only the document and the undo stack change |
| EditorModel.DeleteLeftWordFound | app/src/main/java/ee/ioc/phon/android/speechutils/editor/InputConnectionCommandEditor.java:346-370 | with no selection, when the scan yields a length `n` (the last `\s*\w+` match, or the whole short context), those `n` characters before the cursor are deleted and their re-insertion is pushed |
| EditorModel.DeleteLeftWordGivesUp | app/src/main/java/ee/ioc/phon/android/speechutils/editor/InputConnectionCommandEditor.java:346-360 | with no selection, when `lastIndex` is 0 and the context fills the whole window, it fails and changes nothing |
| EditorModel.Repeat | app/src/main/java/ee/ioc/phon/android/speechutils/editor/InputConnectionCommandEditor.java:206-210 | repeating an operation changes only the document and the undo stack |
| EditorModel.RepeatStep | app/src/main/java/ee/ioc/phon/android/speechutils/editor/InputConnectionCommandEditor.java:206-211 | one loop step: execute once; on success go on with `steps - 1`, on failure stop with that outcome |
| EditorModel.Apply | app/src/main/java/ee/ioc/phon/android/speechutils/editor/InputConnectionCommandEditor.java:202-214 | without a previous operation it fails and changes nothing |
| EditorModel.Execute | app/src/main/java/ee/ioc/phon/android/speechutils/editor/InputConnectionCommandEditor.java:131-133 | a dispatched command changes only the document, the undo stack and `mPrevOp` |
| EditorModel.CommitWithOverwrite | app/src/main/java/ee/ioc/phon/android/speechutils/editor/InputConnectionCommandEditor.java:568-607 | only the document and `mAddedLength` change |
| EditorModel.WriteAfterDeleting | app/src/main/java/ee/ioc/phon/android/speechutils/editor/InputConnectionCommandEditor.java:580-604 | once the unshared characters are deleted, only the document and `mAddedLength` change, and the engine stays valid |
| EditorModel.OverwriteNothingNew | app/src/main/java/ee/ioc/phon/android/speechutils/editor/InputConnectionCommandEditor.java:574-582 | when the new text is empty or a prefix of the old one, only the unshared characters are deleted and `mAddedLength` drops by their count |
| EditorModel.OverwriteSomethingNew | app/src/main/java/ee/ioc/phon/android/speechutils/editor/InputConnectionCommandEditor.java:574-604 | otherwise the unshared characters are deleted and the rest is written by `WriteChanged` |
| EditorModel.WriteChanged | app/src/main/java/ee/ioc/phon/android/speechutils/editor/InputConnectionCommandEditor.java:583-604 | writing changes only the document and `mAddedLength`, and keeps the engine valid |
| EditorModel.WriteFresh | app/src/main/java/ee/ioc/phon/android/speechutils/editor/InputConnectionCommandEditor.java:587-597 | when nothing is shared, the glue and the capitalised text are written at the cursor and `mAddedLength` becomes their length |
| EditorModel.WriteContinuing | app/src/main/java/ee/ioc/phon/android/speechutils/editor/InputConnectionCommandEditor.java:598-603 | when a prefix is shared, the capitalised rest of the text is written and `mAddedLength` drops by the deleted count and grows by the rest |
| EditorModel.TryWindows | app/src/main/java/ee/ioc/phon/android/speechutils/editor/InputConnectionCommandEditor.java:814-829 | only the document and the undo stack change |
| EditorModel.WindowEndsWithText | app/src/main/java/ee/ioc/phon/android/speechutils/editor/InputConnectionCommandEditor.java:815-822 | every utterance `applyCommand` tries (`Window`: the last `i` prefix entries joined by spaces, then the new text) ends with the new text, and with no entries it is the new text alone |
| EditorModel.ApplyCommand | app/src/main/java/ee/ioc/phon/android/speechutils/editor/InputConnectionCommandEditor.java:812-832 | only the document and the undo stack change |
| EditorModel.CommitFinal | app/src/main/java/ee/ioc/phon/android/speechutils/editor/InputConnectionCommandEditor.java:97-139 | it always ends with no partial result and `mAddedLength == 0`. Without a rewriter it reports `null` and leaves the prefix and the stack alone. A command clears the prefix. A literal is appended to the prefix and reports no success; `CommitFinalLiteral` and `CommitFinalCommand` give the whole new state |
| EditorModel.CommitPartial | app/src/main/java/ee/ioc/phon/android/speechutils/editor/InputConnectionCommandEditor.java:145-155 | it succeeds iff nothing is selected; otherwise nothing changes. On success the rewritten text becomes `mPrevText`, and only the document and the added length change besides |
| EditorModel.RewriteText | app/src/main/java/ee/ioc/phon/android/speechutils/editor/InputConnectionCommandEditor.java:637-643 | `rewrite(str)` is `str` when no rewriter is set, and otherwise the literal the rewriter returns for `str` |
| EditorModel.Reset | app/src/main/java/ee/ioc/phon/android/speechutils/editor/InputConnectionCommandEditor.java:87-91 | it clears the prefix, the partial result and the added length, and keeps the document, the undo stack and `mPrevOp` |
| EditorProperties.ExecuteThenUndo | app/src/main/java/ee/ioc/phon/android/speechutils/editor/InputConnectionCommandEditor.java:614-656 | a successful reversible command followed by `undo(1)` gives back the document and the undo stack. The reversible commands are `UndoRestores` |
| EditorProperties.UndoOne | app/src/main/java/ee/ioc/phon/android/speechutils/editor/InputConnectionCommandEditor.java:190 | `undo(1)` pops the top entry and runs it |
| EditorProperties.DeleteAddedRestores | app/src/main/java/ee/ioc/phon/android/speechutils/editor/InputConnectionCommandEditor.java:112-124 | the `delete` entry pushed by `commitFinalResult` undoes a `commitText`: the text and selection are restored |
| EditorProperties.UndoCommitTextRestores | app/src/main/java/ee/ioc/phon/android/speechutils/editor/InputConnectionCommandEditor.java:617-632 | the entry pushed by the private `commitText` restores the old text and the old selection |
| EditorProperties.UndoReplaceRestores | app/src/main/java/ee/ioc/phon/android/speechutils/editor/InputConnectionCommandEditor.java:436-463 | after a match is replaced (or cut), its `undo replace1`/`undo replace2` entry restores the old text and selection |
| EditorProperties.ReinsertRestores | app/src/main/java/ee/ioc/phon/android/speechutils/editor/InputConnectionCommandEditor.java:361-368 | the entry pushed by `deleteLeftWord` re-inserts the deleted characters, with the cursor back before them |
| EditorProperties.UndoDeleteAddedOnly | app/src/main/java/ee/ioc/phon/android/speechutils/editor/InputConnectionCommandEditor.java:112-124 | undoing a `delete` entry recorded without a selection only deletes the added characters |
| EditorProperties.CommitTextThenUndo | app/src/main/java/ee/ioc/phon/android/speechutils/editor/InputConnectionCommandEditor.java:614-635 | `commitText` followed by `undo(1)` succeeds and restores the whole state |
| EditorProperties.ReplaceThenUndo | app/src/main/java/ee/ioc/phon/android/speechutils/editor/InputConnectionCommandEditor.java:421-475 | `replace` followed by `undo(1)` puts the match back and restores the selection and the stack |
| EditorProperties.MoveFromSelectionThenUndo | app/src/main/java/ee/ioc/phon/android/speechutils/editor/InputConnectionCommandEditor.java:777-801 | undoing a move that started from a selection collapses the cursor: "abc" with [0,2) moved by 1, then undone, has the cursor at 2 |
| EditorProperties.MoveThenUndoCollapses | app/src/main/java/ee/ioc/phon/android/speechutils/editor/InputConnectionCommandEditor.java:777-801 | for every successful move, `undo(1)` succeeds and leaves a collapsed cursor at the end the move started from, with the rest of the state restored; from a non-empty selection the document differs from the original |
| EditorProperties.DeleteLeftWordShape | app/src/main/java/ee/ioc/phon/android/speechutils/editor/InputConnectionCommandEditor.java:338-375 | without a selection it succeeds iff `LeftWordLength` gives `n`. It then deletes the `n` characters before the cursor and pushes their re-insertion |
| EditorProperties.DeleteLeftWordThenUndo | app/src/main/java/ee/ioc/phon/android/speechutils/editor/InputConnectionCommandEditor.java:363-369 | undoing `deleteLeftWord` re-inserts the deleted text, with the cursor before it |
| EditorProperties.UndoSplit | app/src/main/java/ee/ioc/phon/android/speechutils/editor/InputConnectionCommandEditor.java:187-200 | `undo(m + n)` is `undo(m)` then `undo(n)`, unless `undo(m)` failed |
| EditorProperties.IterateStep | app/src/main/java/ee/ioc/phon/android/speechutils/editor/InputConnectionCommandEditor.java:189-211 | one step of the generic loop: run the step once; on success go on with `k - 1` steps, on failure stop with that outcome |
| EditorProperties.IterateSplit | app/src/main/java/ee/ioc/phon/android/speechutils/editor/InputConnectionCommandEditor.java:187-211 | iterating a step `m + n` times is iterating `m` times then `n` times, unless a step failed |
| EditorProperties.UndoIsIterate | app/src/main/java/ee/ioc/phon/android/speechutils/editor/InputConnectionCommandEditor.java:187-200 | `undo(k)` is `k` iterations of pop-and-run, each a no-op once the stack is empty |
| EditorProperties.RepeatIsIterate | app/src/main/java/ee/ioc/phon/android/speechutils/editor/InputConnectionCommandEditor.java:202-211 | `apply(k)` is `k` iterations of re-executing the previous operation |
| EditorProperties.UndoFailureDropsEntry | app/src/main/java/ee/ioc/phon/android/speechutils/editor/InputConnectionCommandEditor.java:190-192 | a failing entry is popped anyway and `undo` reports failure |
| EditorProperties.RepeatSplit | app/src/main/java/ee/ioc/phon/android/speechutils/editor/InputConnectionCommandEditor.java:206-210 | repeating `m + n` times is repeating `m` times then `n` times, unless a step failed |
| EditorProperties.ApplyAfterSelect | app/src/main/java/ee/ioc/phon/android/speechutils/editor/InputConnectionCommandEditor.java:202-214 | `apply(1)` after `select(q)` does what a second `select(q)` does |
| EditorProperties.TryWindowsFirst | app/src/main/java/ee/ioc/phon/android/speechutils/editor/InputConnectionCommandEditor.java:814-829 | the longest window whose rewrite is a command is chosen, and as many entries are undone as the window has utterances |
| EditorProperties.TryWindowsNone | app/src/main/java/ee/ioc/phon/android/speechutils/editor/InputConnectionCommandEditor.java:814-832 | when no window rewrites to a command, the result is the rewrite of the text alone, with nothing undone |
| EditorProperties.ApplyCommandLongestWins | app/src/main/java/ee/ioc/phon/android/speechutils/editor/InputConnectionCommandEditor.java:812-832 | `applyCommand` picks the longest window, of at most 3 utterances, that rewrites to a command, and undoes that many entries |
| EditorProperties.ApplyCommandFallback | app/src/main/java/ee/ioc/phon/android/speechutils/editor/InputConnectionCommandEditor.java:812-832 | with no command in any window, `applyCommand` returns the rewrite of the text and changes nothing |
| EditorProperties.FindBeforeWordEnd | app/src/main/java/ee/ioc/phon/android/speechutils/editor/InputConnectionCommandEditor.java:351 | if the text ends with a word character, `find` from any earlier position succeeds |
| EditorProperties.FoundMatchIsMaximal | app/src/main/java/ee/ioc/phon/android/speechutils/editor/InputConnectionCommandEditor.java:351 | the match `find` returns cannot be extended to the left |
| EditorProperties.ScanLastMatch | app/src/main/java/ee/ioc/phon/android/speechutils/editor/InputConnectionCommandEditor.java:351-355 | a match that ends the text sets `lastIndex` to its start, and the loop stops |
| EditorProperties.ScanFindsLastWord | app/src/main/java/ee/ioc/phon/android/speechutils/editor/InputConnectionCommandEditor.java:350-355 | on text ending with a word character, the loop ends at the start of a maximal `\s*\w+` match that runs to the end |
| EditorProperties.DeleteLeftWordRemovesLastWord | app/src/main/java/ee/ioc/phon/android/speechutils/editor/InputConnectionCommandEditor.java:338-375 | with no selection and a word character just before the cursor, exactly the matched `\s*\w+` before the cursor is deleted and its re-insertion is pushed; the match ends at the cursor and cannot be extended to the left |
| EditorProperties.DeleteLeftWordDeletes | app/src/main/java/ee/ioc/phon/android/speechutils/editor/InputConnectionCommandEditor.java:338-375 | with no selection and a match of `n` characters, the text loses exactly the `n` characters before the cursor, the cursor moves back by `n`, and their re-insertion is pushed |
| EditorProperties.DeletedBeforeCursor | app/src/main/java/ee/ioc/phon/android/speechutils/editor/InputConnectionCommandEditor.java:357-368 | deleting `n` of the characters read before a collapsed cursor removes exactly those characters from the text, and the pushed entry holds them |
| EditorProperties.LeftWordStartIsScan | app/src/main/java/ee/ioc/phon/android/speechutils/editor/InputConnectionCommandEditor.java:349-355 | the start of the `\s*\w+` match is the `lastIndex` the `find` loop computes |
| EditorProperties.LeftWordIsLastMatch | app/src/main/java/ee/ioc/phon/android/speechutils/editor/InputConnectionCommandEditor.java:350-360 | the deleted characters form one maximal `\s*\w+` match ending at the cursor |
| EditorProperties.OneMatchContextGivesUp | app/src/main/java/ee/ioc/phon/android/speechutils/editor/InputConnectionCommandEditor.java:356-360 | when the 100-character context is one `\s*\w+` match, `lastIndex` stays 0 and `deleteLeftWord` fails without deleting, a limitation of `InputConnectionCommandEditor` |
| EditorProperties.AllWordIsOneMatch | app/src/main/java/ee/ioc/phon/android/speechutils/editor/InputConnectionCommandEditor.java:346-355 | a context of word characters only is one `\s*\w+` match from its start to the cursor |
| EditorProperties.IncSelWritesSuccessor | app/src/main/java/ee/ioc/phon/android/speechutils/editor/InputConnectionCommandEditor.java:511-522 | below the largest `int`, `incSel` writes `v + 1`, which parses back to `v + 1` |
| EditorProperties.TryWindowsLiteral | app/src/main/java/ee/ioc/phon/android/speechutils/editor/InputConnectionCommandEditor.java:814-831 | a window search whose answer is not a command undid nothing and answers the rewrite of the utterance alone |
| EditorProperties.CommitFinalLiteral | app/src/main/java/ee/ioc/phon/android/speechutils/editor/InputConnectionCommandEditor.java:97-138 | in any state, a final result that rewrites to a literal writes it over the pending partial result, pushes "delete len" with the selection of the start exactly when `len > 0`, appends the literal to the prefix, reports no success and clears the partial-result fields |
| EditorProperties.CommitFinalCommand | app/src/main/java/ee/ioc/phon/android/speechutils/editor/InputConnectionCommandEditor.java:97-138 | in any state, a final result that rewrites to a command undoes the winning window, writes the command's text, pushes "delete len" exactly when `len > 0`, clears the prefix and runs the dispatched command, whose success is reported |
| EditorProperties.FinalNothingWritten | app/src/main/java/ee/ioc/phon/android/speechutils/editor/InputConnectionCommandEditor.java:108-124 | with nothing pending and an empty rewritten text, nothing is written and no "delete 0" entry is pushed |
| EditorProperties.FinalLiteralUndoDeletes | app/src/main/java/ee/ioc/phon/android/speechutils/editor/InputConnectionCommandEditor.java:110-124 | after a literal final result written without a selection, `undo(1)` deletes exactly the `len` added characters before the cursor and restores the stack, whatever partial results came before |
| EditorProperties.FinalLiteralThenUndo | app/src/main/java/ee/ioc/phon/android/speechutils/editor/InputConnectionCommandEditor.java:97-139 | a non-empty literal final result with no pending partial result is appended to the prefix, and one `undo` restores the document and the stack |
| EditorProperties.FinalLiteralState | app/src/main/java/ee/ioc/phon/android/speechutils/editor/InputConnectionCommandEditor.java:97-138 | a non-empty literal final result with no pending partial result writes glue and capitalised text over the selection, pushes the `delete` entry for it, appends the literal to the prefix and resets `mAddedLength` |
| EditorProperties.RepeatedPartial | app/src/main/java/ee/ioc/phon/android/speechutils/editor/InputConnectionCommandEditor.java:145-155 | sending the same partial result twice changes nothing the second time |
| EditorProperties.PartialExtends | app/src/main/java/ee/ioc/phon/android/speechutils/editor/InputConnectionCommandEditor.java:568-607 | a partial result that extends the previous one writes only its new tail, capitalised against the old text, and adds its length |
| EditorProperties.PartialRetracts | app/src/main/java/ee/ioc/phon/android/speechutils/editor/InputConnectionCommandEditor.java:568-607 | a partial result that is a prefix of the previous one only deletes the dropped tail |
| EditorProperties.OverwriteRestarts | app/src/main/java/ee/ioc/phon/android/speechutils/editor/InputConnectionCommandEditor.java:586-597 | a result that shares nothing with the previous partial result deletes it. It writes glue and capitalised text, and the added length is reset to those alone |
| EditorProperties.FreshWrite | app/src/main/java/ee/ioc/phon/android/speechutils/editor/InputConnectionCommandEditor.java:586-597 | with no previous partial text, glue and the capitalised text are written at the cursor and `mAddedLength` becomes their length |
| EditorProperties.OverwriteDeleting | app/src/main/java/ee/ioc/phon/android/speechutils/editor/InputConnectionCommandEditor.java:568-607 | when part of the previous text is not shared: it is deleted from before the cursor, `OverwriteWritten` is written in its place, and `mAddedLength` drops by the deleted count then is reset or grows |
| EditorProperties.OverwriteKeeping | app/src/main/java/ee/ioc/phon/android/speechutils/editor/InputConnectionCommandEditor.java:568-607 | when the previous text is a prefix of the new one: nothing is deleted, the new rest is written at the cursor, and `mAddedLength` grows by it |
| EditorProperties.OverwriteDeletes | app/src/main/java/ee/ioc/phon/android/speechutils/editor/InputConnectionCommandEditor.java:574-578 | the deletion step cuts the unshared tail of the previous partial result from before the cursor |
| EditorProperties.CommitAtCursor | app/src/main/java/ee/ioc/phon/android/speechutils/editor/InputConnectionCommandEditor.java:603 | `commitText` at a collapsed cursor inserts there and moves the cursor past the text |
| EditorProperties.StrayGlueFirstWrite | app/src/main/java/ee/ioc/phon/android/speechutils/editor/InputConnectionCommandEditor.java:586-597 | after "Hello", writing "abc" adds a space: "Hello abc" with `mAddedLength` 4 |
| EditorProperties.StrayGlueFirstPartial | app/src/main/java/ee/ioc/phon/android/speechutils/editor/InputConnectionCommandEditor.java:145-154 | the partial result "abc" after "Hello" gives "Hello abc" with `mAddedLength` 4 |
| EditorProperties.StrayGlueSecondPartial | app/src/main/java/ee/ioc/phon/android/speechutils/editor/InputConnectionCommandEditor.java:568-604 | the partial "xyz", sharing nothing with "abc", deletes 3 characters and resets `mAddedLength` to 3, forgetting the space |
| EditorProperties.StrayGlueFinal | app/src/main/java/ee/ioc/phon/android/speechutils/editor/InputConnectionCommandEditor.java:97-138 | the final "xyz" adds nothing and pushes a `delete 3` entry |
| EditorProperties.StrayGlueAfterUndo | app/src/main/java/ee/ioc/phon/android/speechutils/editor/InputConnectionCommandEditor.java:586-597 | after "Hello", partials "abc" then "xyz", then final "xyz", one `undo` leaves "Hello " (see Left out) |
| CommandEditor.InputConnectionCommandEditor.constructor | app/src/main/java/ee/ioc/phon/android/speechutils/editor/InputConnectionCommandEditor.java:69-71 | empty prefix, empty partial result, empty undo stack, no rewriter |
| CommandEditor.InputConnectionCommandEditor.SetInputConnection | app/src/main/java/ee/ioc/phon/android/speechutils/editor/InputConnectionCommandEditor.java:73-75 | the text field is replaced and nothing else changes |
| CommandEditor.InputConnectionCommandEditor.SetUtteranceRewriter | app/src/main/java/ee/ioc/phon/android/speechutils/editor/InputConnectionCommandEditor.java:82-84 | only the rewriter changes |
| CommandEditor.InputConnectionCommandEditor.Reset | app/src/main/java/ee/ioc/phon/android/speechutils/editor/InputConnectionCommandEditor.java:87-91 | the fields become `EditorModel.Reset` of the old ones |
| CommandEditor.InputConnectionCommandEditor.Push | app/src/main/java/ee/ioc/phon/android/speechutils/editor/InputConnectionCommandEditor.java:803-806 | the fields become `EditorModel.Push` of the old ones |
| CommandEditor.InputConnectionCommandEditor.HostSetSelection | app/src/main/java/ee/ioc/phon/android/speechutils/editor/InputConnectionCommandEditor.java:433 | the host's `setSelection(i, j)` (also called at 444, 459, 646, 651 and 789) succeeds iff `0 <= i <= j <= length`, then selects `[i, j)`; otherwise nothing changes. This is the host assumption stated in `document.dfy` |
| CommandEditor.InputConnectionCommandEditor.RunEntry | app/src/main/java/ee/ioc/phon/android/speechutils/editor/InputConnectionCommandEditor.java:614-635 | running a popped entry leaves the document `EditorModel.RunEntry` gives and reports its success |
| CommandEditor.InputConnectionCommandEditor.Undo | app/src/main/java/ee/ioc/phon/android/speechutils/editor/InputConnectionCommandEditor.java:187-200 | the pop-and-run loop leaves exactly the state and result of `EditorModel.Undo` |
| CommandEditor.InputConnectionCommandEditor.SetSelectionUndoable | app/src/main/java/ee/ioc/phon/android/speechutils/editor/InputConnectionCommandEditor.java:645-656 | the state and result of `EditorModel.SetSelectionUndoable` |
| CommandEditor.InputConnectionCommandEditor.SetSelectionFromCurrent | app/src/main/java/ee/ioc/phon/android/speechutils/editor/InputConnectionCommandEditor.java:763-772 | the state and result of `EditorModel.SetSelectionFromCurrent`: `setSelection(i, j)` with the current bounds to restore |
| CommandEditor.InputConnectionCommandEditor.GoToCharacterPosition | app/src/main/java/ee/ioc/phon/android/speechutils/editor/InputConnectionCommandEditor.java:233-235 | the state and result of `EditorModel.GoToCharacterPosition` |
| CommandEditor.InputConnectionCommandEditor.GoToEnd | app/src/main/java/ee/ioc/phon/android/speechutils/editor/InputConnectionCommandEditor.java:249-259 | the state and result of `EditorModel.GoToEnd` |
| CommandEditor.InputConnectionCommandEditor.SelectAll | app/src/main/java/ee/ioc/phon/android/speechutils/editor/InputConnectionCommandEditor.java:265-274 | the state and result of `EditorModel.SelectAll` |
| CommandEditor.InputConnectionCommandEditor.ResetSel | app/src/main/java/ee/ioc/phon/android/speechutils/editor/InputConnectionCommandEditor.java:322-332 | the state and result of `EditorModel.ResetSel` |
| CommandEditor.InputConnectionCommandEditor.MoveCursor | app/src/main/java/ee/ioc/phon/android/speechutils/editor/InputConnectionCommandEditor.java:777-801 | with `undo`: `EditorModel.Move`. Without it: the cursor moves when in range, and nothing is pushed |
| CommandEditor.InputConnectionCommandEditor.GoForward | app/src/main/java/ee/ioc/phon/android/speechutils/editor/InputConnectionCommandEditor.java:239-241 | `EditorModel.Move` by `n` |
| CommandEditor.InputConnectionCommandEditor.GoBackward | app/src/main/java/ee/ioc/phon/android/speechutils/editor/InputConnectionCommandEditor.java:244-246 | `EditorModel.Move` by `-1 * n` |
| CommandEditor.InputConnectionCommandEditor.RunForward | app/src/main/java/ee/ioc/phon/android/speechutils/editor/InputConnectionCommandEditor.java:381-394 | the state and result of `EditorModel.ExecForward` |
| CommandEditor.InputConnectionCommandEditor.RunSelect | app/src/main/java/ee/ioc/phon/android/speechutils/editor/InputConnectionCommandEditor.java:381-394 | the select operation's execute leaves exactly the state and result of `EditorModel.SelectOnce` |
| CommandEditor.InputConnectionCommandEditor.RunReplace | app/src/main/java/ee/ioc/phon/android/speechutils/editor/InputConnectionCommandEditor.java:424-472 | the replace operation's execute leaves exactly the state and result of `EditorModel.ReplaceOnce` |
| CommandEditor.InputConnectionCommandEditor.Select | app/src/main/java/ee/ioc/phon/android/speechutils/editor/InputConnectionCommandEditor.java:378-397 | the state and result of `EditorModel.Select` |
| CommandEditor.InputConnectionCommandEditor.Replace | app/src/main/java/ee/ioc/phon/android/speechutils/editor/InputConnectionCommandEditor.java:421-475 | the state and result of `EditorModel.Replace` |
| CommandEditor.InputConnectionCommandEditor.Delete | app/src/main/java/ee/ioc/phon/android/speechutils/editor/InputConnectionCommandEditor.java:416-418 | the state and result of `EditorModel.Delete`, which is `replace` with "" |
| CommandEditor.InputConnectionCommandEditor.Apply | app/src/main/java/ee/ioc/phon/android/speechutils/editor/InputConnectionCommandEditor.java:202-214 | with no previous operation it fails and changes nothing; otherwise it leaves exactly the state and result of `EditorModel.Apply`, through `RepeatForward` |
| CommandEditor.InputConnectionCommandEditor.RepeatForward | app/src/main/java/ee/ioc/phon/android/speechutils/editor/InputConnectionCommandEditor.java:206-211 | the loop leaves exactly the state and result of `EditorModel.Repeat` |
| CommandEditor.InputConnectionCommandEditor.CommitTextUndoable | app/src/main/java/ee/ioc/phon/android/speechutils/editor/InputConnectionCommandEditor.java:614-635 | the state and result of `EditorModel.CommitTextUndoable` |
| CommandEditor.InputConnectionCommandEditor.ReplaceSel | app/src/main/java/ee/ioc/phon/android/speechutils/editor/InputConnectionCommandEditor.java:478-488 | the state and result of `EditorModel.ReplaceSel` |
| CommandEditor.InputConnectionCommandEditor.UcSel | app/src/main/java/ee/ioc/phon/android/speechutils/editor/InputConnectionCommandEditor.java:491-498 | the state and result of `EditorModel.UcSel` |
| CommandEditor.InputConnectionCommandEditor.LcSel | app/src/main/java/ee/ioc/phon/android/speechutils/editor/InputConnectionCommandEditor.java:501-508 | the state and result of `EditorModel.LcSel` |
| CommandEditor.InputConnectionCommandEditor.IncSel | app/src/main/java/ee/ioc/phon/android/speechutils/editor/InputConnectionCommandEditor.java:511-522 | the state and result of `EditorModel.IncSel` |
| CommandEditor.InputConnectionCommandEditor.DeleteLeftWord | app/src/main/java/ee/ioc/phon/android/speechutils/editor/InputConnectionCommandEditor.java:338-375 | the `find` loop computes the `lastIndex` of `ScanWords`, and the whole method leaves the state and result of `EditorModel.DeleteLeftWord` |
| CommandEditor.LastWordIndex | app/src/main/java/ee/ioc/phon/android/speechutils/editor/InputConnectionCommandEditor.java:349-355 | the `find` loop leaves `lastIndex` equal to `ScanWords`, the start of the last `\s*\w+` match |
| CommandEditor.InputConnectionCommandEditor.Execute | app/src/main/java/ee/ioc/phon/android/speechutils/editor/InputConnectionCommandEditor.java:131-133 | the state and result of `EditorModel.Execute` for the dispatched command |
| CommandEditor.InputConnectionCommandEditor.CommitWithOverwrite | app/src/main/java/ee/ioc/phon/android/speechutils/editor/InputConnectionCommandEditor.java:568-607 | the fields become `EditorModel.CommitWithOverwrite` of the old ones, and the new `mAddedLength` is returned |
| CommandEditor.InputConnectionCommandEditor.WriteChanged | app/src/main/java/ee/ioc/phon/android/speechutils/editor/InputConnectionCommandEditor.java:583-604 | when nothing is shared, it writes the glue and the capitalised text and resets the added length. Otherwise it writes the capitalised rest of the text and grows the added length by it |
| CommandEditor.InputConnectionCommandEditor.ApplyCommand | app/src/main/java/ee/ioc/phon/android/speechutils/editor/InputConnectionCommandEditor.java:812-832 | the window loop returns the rewrite and leaves the state of `EditorModel.ApplyCommand` |
| CommandEditor.InputConnectionCommandEditor.CommitFinalResult | app/src/main/java/ee/ioc/phon/android/speechutils/editor/InputConnectionCommandEditor.java:97-139 | the result and the state of `EditorModel.CommitFinal` |
| CommandEditor.InputConnectionCommandEditor.CommitPartialResult | app/src/main/java/ee/ioc/phon/android/speechutils/editor/InputConnectionCommandEditor.java:145-155 | the result and the state of `EditorModel.CommitPartial` |

## Left out

- The Android host.
  - `InputConnection`, `ExtractedText` and batch edits are not modelled. The text field is
    a value, `Document.Doc`, and the header of `document.dfy` states what is assumed of it.
  - `commitText` and `deleteSurroundingText` always succeed.
  - `setSelection(i, j)` succeeds iff `0 <= i <= j <= length`.
  - `getExtractedText`, `getSelectedText` and `getTextBeforeCursor` never return `null`.
  - So the branches for `null` results and failed host calls are not modelled.
  - `endBatchEdit` being skipped on an early `return false` in `undo` and `apply` has no
    effect here.
- Key and IME events are left out because they go to the host and have no document
  semantics here:
  - `goUp`, `goDown`, `goLeft`, `goRight`;
  - `keyCode`, `keyCodeStr`, `imeAction*`;
  - `goToPreviousField` and `goToNextField`.
- The context-menu actions `cut`, `copy`, `paste`, `cutAll`, `copyAll` and
  `deleteAll` are left out. They have no undo and act through the host's clipboard.
- `selectReBefore` and `match` are left out. They compile a user-supplied regular
  expression, and general Java regular expressions are not modelled.
- `deleteLeftWord`'s `\s*\w+` is modelled exactly for Java's default (ASCII) classes.
- `replaceSel` substitutes the selection for each `{}` in the template. The model assumes:
  - the template contains no `$` or `\`, which `replaceAll` would treat specially;
  - the selection has no line terminator, which `^(.*)$` would not match.
- `getInputConnection` and `getUndoStack` are left out. They are accessors, and the undo
  stack is the field `undoStack`.
- The `Op` labels (`toString`) and the `Log.i` calls are left out. They are logging
  only.
- `UtteranceRewriter`, `CommandEditorManager` and `Constants` are not part of this
  model; they are parameters.
  - The dispatcher is a function to a `Command`; `UnknownCmd` fails.
  - Case mapping is a per-character function, so a lower- or upper-cased string keeps its
    length.
  - Java's `trim` is modelled as written: it drops characters up to U+0020.
- Strings.Lower: its contract states only that the length is kept. It maps the given
  per-character function, and `LowerSlice` states what the case-insensitive search
  needs of it.
- Strings.Upper: its contract states only that the length is kept. It maps the given
  per-character function.
- `Integer.parseInt` is modelled for ASCII digits only. Java also accepts other Unicode
  digits.
- `addedLength` and the cursor arithmetic of `move` are unbounded integers. Java's 32-bit
  overflow there is not modelled, as it needs a field of over 2^31 characters. The
  wrap-around of `incSel` is modelled.
- The instrumented tests of this class were written for a different version of it. Those
  tests use `Op.run`, `pushOp` and an op stack, which this version of
  `InputConnectionCommandEditor` does not have. The model follows the Java class where they disagree:
  - undoing a move that started from a selection does not restore the selection
    (`MoveThenUndoCollapses` for all moves, `MoveFromSelectionThenUndo` on "abc");
  - it moves the collapsed cursor back instead.
- Known limitation of `InputConnectionCommandEditor`: added glue is not tracked.
  - The class comment says "keep track of added spaces" (line 22).
  - When a partial result shares no prefix with the previous one, `mAddedLength` is reset
    to the new glue and text. That forgets glue written for the earlier partial result.
  - So undoing the final result can leave a stray space. `StrayGlueAfterUndo` shows this:
    after "Hello", partials "abc" and "xyz", then final "xyz", one `undo` gives "Hello ".
  - The model keeps this behaviour as written. For all inputs, `OverwriteRestarts`
    states that the added length is reset to the new glue and text.
- Known limitation of `InputConnectionCommandEditor`: `deleteLeftWord` gives up when `lastIndex` is 0 and the
  context has 100 characters or more (lines 356-360). `lastIndex` is also 0 when the one
  `\s*\w+` match starts at the start of the context and ends at the cursor, for instance
  when the cursor follows a single word of 100 or more characters. Then nothing is
  deleted and the call fails (`OneMatchContextGivesUp`). The model keeps this as written.
