/**
 * `InputConnectionCommandEditor` as a class: the fields of the Java class, updated step by
 * step as its methods do. The text field behind `mInputConnection` is the field `doc`,
 * changed with the host operations of `Document`. Every method is proved to leave the
 * state that the function of the same name in `EditorModel` computes, so what is proved
 * about those functions holds of the class.
 */
module CommandEditor {
  import opened Wrappers
  import opened Strings
  import opened JavaInt
  import opened Document
  import opened EditorModel

  /**
   * The `find` loop of `deleteLeftWord` over the text before the cursor: for each match of
   * `\s*\w+`, `lastIndex` becomes its start if it ends the text, else its end.
   */
  method LastWordIndex(beforeCursor: string) returns (lastIndex: nat)
    ensures lastIndex == ScanWords(beforeCursor, 0, 0)
  {
    var beforeCursorLength := |beforeCursor|;
    var p: nat := 0;
    lastIndex := 0;
    var m := FindFrom(beforeCursor, p);
    while m.Some?
      invariant p <= beforeCursorLength && lastIndex <= beforeCursorLength
      invariant m == FindFrom(beforeCursor, p)
      invariant ScanWords(beforeCursor, p, lastIndex) == ScanWords(beforeCursor, 0, 0)
      decreases beforeCursorLength - p
    {
      var (start, end) := m.value;
      lastIndex := if beforeCursorLength == end then start else end;
      p := end;
      m := FindFrom(beforeCursor, p);
    }
  }

  class InputConnectionCommandEditor {
    var doc: Doc                                  // the text field of mInputConnection
    var prevText: string                          // mPrevText
    var addedLength: int                          // mAddedLength
    var prevOp: Option<ForwardOp>                 // mPrevOp
    var commandPrefix: seq<string>                // mCommandPrefix
    var undoStack: seq<UndoEntry>                 // mUndoStack, top first
    var rewriter: Option<string -> Rewrite>       // mUtteranceRewriter
    const chars: CharClasses                      // the character tables of Constants
    const dispatch: (string, seq<string>) -> Command  // mCommandEditorManager

    predicate Valid()
      reads this
    {
      doc.Valid()
    }

    /** The fields as an `Engine` value. */
    function State(): Engine
      reads this
    {
      Engine(doc, prevText, addedLength, prevOp, commandPrefix, undoStack)
    }

    function Environment(): Env
      reads this
    {
      Env(chars, rewriter, dispatch)
    }

    /** The constructor; the text field is empty until `SetInputConnection`. */
    constructor (chars: CharClasses, dispatch: (string, seq<string>) -> Command)
      ensures Valid() && State() == Engine(Doc("", 0, 0), "", 0, None, [], [])
      ensures rewriter.None? && this.chars == chars && this.dispatch == dispatch
    {
      doc := Doc("", 0, 0);
      prevText := "";
      addedLength := 0;
      prevOp := None;
      commandPrefix := [];
      undoStack := [];
      rewriter := None;
      this.chars := chars;
      this.dispatch := dispatch;
    }

    method SetInputConnection(d: Doc)
      requires d.Valid()
      modifies this
      ensures Valid() && State() == old(State()).(doc := d) && rewriter == old(rewriter)
    {
      doc := d;
    }

    method SetUtteranceRewriter(rw: Option<string -> Rewrite>)
      modifies this
      ensures State() == old(State()) && rewriter == rw
    {
      rewriter := rw;
    }

    method Reset()
      modifies this
      ensures State() == EditorModel.Reset(old(State())) && rewriter == old(rewriter)
    {
      commandPrefix := [];
      prevText := "";
      addedLength := 0;
    }

    // -------------------------------------------------------------------------------
    // The undo stack

    method Push(entry: UndoEntry)
      modifies this
      ensures State() == EditorModel.Push(old(State()), entry) && rewriter == old(rewriter)
    {
      undoStack := [entry] + undoStack;
    }

    /** `mInputConnection.setSelection(i, j)`. */
    method HostSetSelection(i: int, j: int) returns (ok: bool)
      requires Valid()
      modifies this
      ensures Valid() && rewriter == old(rewriter)
      ensures ok <==> SetSelection(old(doc), i, j).Some?
      ensures State() == old(State()).(doc := if ok then SetSelection(old(doc), i, j).value else old(doc))
    {
      var d := SetSelection(doc, i, j);
      ok := d.Some?;
      if ok {
        doc := d.value;
      }
    }

    /** `execute` of a popped undo entry. */
    method RunEntry(entry: UndoEntry) returns (ok: bool)
      requires Valid()
      modifies this
      ensures Valid() && rewriter == old(rewriter)
      ensures (ok, doc) == EditorModel.RunEntry(entry, old(doc))
      ensures State() == old(State()).(doc := doc)
    {
      match entry
      case DeleteAdded(length, selected, oldStart, oldEnd) =>
        doc := DeleteSurrounding(doc, length, 0);
        ok := true;
        if |selected| > 0 {
          doc := CommitText(doc, selected);
          ok := HostSetSelection(oldStart, oldEnd);
        }
      case UndoReplace1(found, oldStart, oldEnd) =>
        doc := CommitText(doc, found);
        ok := HostSetSelection(oldStart, oldEnd);
      case UndoReplace2(replacementLength, found, oldStart, oldEnd) =>
        doc := DeleteSurrounding(doc, replacementLength, 0);
        doc := CommitText(doc, found);
        ok := HostSetSelection(oldStart, oldEnd);
      case RestoreSelection(oldStart, oldEnd) =>
        ok := HostSetSelection(oldStart, oldEnd);
      case MoveBy(offset) =>
        ok := MoveCursor(offset, false);
      case Reinsert(deleted) =>
        doc := CommitText(doc, deleted, false);
        ok := true;
      case UndoCommitText(newLength, oldText, oldStart, oldEnd) =>
        doc := DeleteSurrounding(doc, newLength, 0);
        doc := CommitText(doc, oldText);
        ok := HostSetSelection(oldStart, oldEnd);
    }

    /** `undo(steps)`: pops and runs entries until `steps` ran, one failed or none is left. */
    method Undo(steps: int) returns (ok: bool)
      requires Valid()
      modifies this
      ensures Valid() && rewriter == old(rewriter)
      ensures Outcome(ok, State()) == EditorModel.Undo(old(State()), steps)
    {
      ghost var target := EditorModel.Undo(State(), steps);
      var i := 0;
      while i < steps
        invariant Valid() && rewriter == old(rewriter)
        invariant EditorModel.Undo(State(), steps - i) == target
        decreases steps - i
      {
        if undoStack == [] {
          break;
        }
        ghost var before := State();
        var entry := undoStack[0];
        undoStack := undoStack[1..];
        var success := RunEntry(entry);
        EditorModel.UndoStep(before, steps - i, success, State());
        if !success {
          return false;
        }
        i := i + 1;
      }
      return true;
    }

    // -------------------------------------------------------------------------------
    // Selection moves

    /** `setSelection(i, j, oldSelectionStart, oldSelectionEnd)`. */
    method SetSelectionUndoable(i: int, j: int, oldStart: nat, oldEnd: nat) returns (ok: bool)
      requires Valid()
      modifies this
      ensures Valid() && rewriter == old(rewriter)
      ensures Outcome(ok, State()) == EditorModel.SetSelectionUndoable(old(State()), i, j, oldStart, oldEnd)
    {
      ok := HostSetSelection(i, j);
      if ok {
        Push(RestoreSelection(oldStart, oldEnd));
      }
    }

    /** `setSelection(i, j)`. */
    method SetSelectionFromCurrent(i: int, j: int) returns (ok: bool)
      requires Valid()
      modifies this
      ensures Valid() && rewriter == old(rewriter)
      ensures Outcome(ok, State()) == EditorModel.SetSelectionFromCurrent(old(State()), i, j)
    {
      ok := SetSelectionUndoable(i, j, doc.selStart, doc.selEnd);
    }

    method GoToCharacterPosition(pos: int) returns (ok: bool)
      requires Valid()
      modifies this
      ensures Valid() && rewriter == old(rewriter)
      ensures Outcome(ok, State()) == EditorModel.GoToCharacterPosition(old(State()), pos)
    {
      ok := SetSelectionFromCurrent(pos, pos);
    }

    method GoToEnd() returns (ok: bool)
      requires Valid()
      modifies this
      ensures Valid() && rewriter == old(rewriter)
      ensures Outcome(ok, State()) == EditorModel.GoToEnd(old(State()))
    {
      var pos := |doc.text|;
      ok := SetSelectionUndoable(pos, pos, doc.selStart, doc.selEnd);
    }

    method SelectAll() returns (ok: bool)
      requires Valid()
      modifies this
      ensures Valid() && rewriter == old(rewriter)
      ensures Outcome(ok, State()) == EditorModel.SelectAll(old(State()))
    {
      ok := SetSelectionUndoable(0, |doc.text|, doc.selStart, doc.selEnd);
    }

    method ResetSel() returns (ok: bool)
      requires Valid()
      modifies this
      ensures Valid() && rewriter == old(rewriter)
      ensures Outcome(ok, State()) == EditorModel.ResetSel(old(State()))
    {
      ok := SetSelectionUndoable(doc.selEnd, doc.selEnd, doc.selStart, doc.selEnd);
    }

    /** `move(numberOfChars, undo)`: with `undo`, pushes the move back. */
    method MoveCursor(numberOfChars: int, undo: bool) returns (ok: bool)
      requires Valid()
      modifies this
      ensures Valid() && rewriter == old(rewriter)
      ensures undo ==> Outcome(ok, State()) == EditorModel.Move(old(State()), numberOfChars)
      ensures !undo ==> ok == MovedCursor(old(doc), numberOfChars).Some?
                        && State() == old(State()).(doc := if ok then MovedCursor(old(doc), numberOfChars).value else old(doc))
    {
      var pos := if numberOfChars < 0 then doc.selStart else doc.selEnd;
      var newPos := pos + numberOfChars;
      ok := HostSetSelection(newPos, newPos);
      if ok && undo {
        Push(MoveBy(-1 * numberOfChars));
      }
    }

    method GoForward(numberOfChars: int) returns (ok: bool)
      requires Valid()
      modifies this
      ensures Valid() && rewriter == old(rewriter)
      ensures Outcome(ok, State()) == EditorModel.Move(old(State()), numberOfChars)
    {
      ok := MoveCursor(numberOfChars, true);
    }

    method GoBackward(numberOfChars: int) returns (ok: bool)
      requires Valid()
      modifies this
      ensures Valid() && rewriter == old(rewriter)
      ensures Outcome(ok, State()) == EditorModel.Move(old(State()), -1 * numberOfChars)
    {
      ok := MoveCursor(-1 * numberOfChars, true);
    }

    // -------------------------------------------------------------------------------
    // select, replace, delete, apply

    /** `execute` of the operation that `select` or `replace` builds. */
    method RunForward(op: ForwardOp) returns (ok: bool)
      requires Valid()
      modifies this
      ensures Valid() && rewriter == old(rewriter)
      ensures Outcome(ok, State()) == ExecForward(chars, old(State()), op)
    {
      match op
      case SelectOp(query) => ok := RunSelect(query);
      case ReplaceOp(query, replacement) => ok := RunReplace(query, replacement);
    }

    /** `execute` of a "select" operation. */
    method RunSelect(query: string) returns (ok: bool)
      requires Valid()
      modifies this
      ensures Valid() && rewriter == old(rewriter)
      ensures Outcome(ok, State()) == SelectOnce(chars, old(State()), query)
    {
      ok := false;
      var idx := SearchBeforeCursor(chars, doc, query);
      if idx >= 0 {
        ok := SetSelectionUndoable(idx, idx + |query|, doc.selStart, doc.selEnd);
      }
    }

    /** `execute` of a "replace" operation. */
    method RunReplace(query: string, replacement: string) returns (ok: bool)
      requires Valid()
      modifies this
      ensures Valid() && rewriter == old(rewriter)
      ensures Outcome(ok, State()) == ReplaceOnce(chars, old(State()), query, replacement)
    {
      ok := false;
      var idx := SearchBeforeCursor(chars, doc, query);
      if idx >= 0 {
        ghost var e := State();
        var oldStart, oldEnd := doc.selStart, doc.selEnd;
        var found := doc.text[idx..idx + |query|];
        ok := HostSetSelection(idx, idx);
        assert ok;  // the match ends before the cursor, so the host accepts [idx, idx)
        if ok {
          doc := DeleteSurrounding(doc, 0, |found|);
          if replacement == [] {
            ReplaceOnceCuts(chars, e, query, idx, found, doc);
            Push(UndoReplace1(found, oldStart, oldEnd));
          } else {
            ReplaceOnceWrites(chars, e, query, replacement, idx, found, doc);
            doc := CommitText(doc, replacement);
            Push(UndoReplace2(|replacement|, found, oldStart, oldEnd));
          }
        }
      } else {
        ReplaceOnceMissing(chars, State(), query, replacement);
      }
    }

    method Select(query: string) returns (ok: bool)
      requires Valid()
      modifies this
      ensures Valid() && rewriter == old(rewriter)
      ensures Outcome(ok, State()) == EditorModel.Select(chars, old(State()), query)
    {
      var op := SelectOp(query);
      prevOp := Some(op);
      ok := RunForward(op);
    }

    method Replace(query: string, replacement: string) returns (ok: bool)
      requires Valid()
      modifies this
      ensures Valid() && rewriter == old(rewriter)
      ensures Outcome(ok, State()) == EditorModel.Replace(chars, old(State()), query, replacement)
    {
      var op := ReplaceOp(query, replacement);
      prevOp := Some(op);
      ok := RunForward(op);
    }

    method Delete(query: string) returns (ok: bool)
      requires Valid()
      modifies this
      ensures Valid() && rewriter == old(rewriter)
      ensures Outcome(ok, State()) == EditorModel.Delete(chars, old(State()), query)
    {
      ok := Replace(query, "");
    }

    /** `apply(steps)`: runs the last operation again until `steps` ran or one failed. */
    method Apply(steps: int) returns (ok: bool)
      requires Valid()
      modifies this
      ensures Valid() && rewriter == old(rewriter)
      ensures Outcome(ok, State()) == EditorModel.Apply(chars, old(State()), steps)
    {
      if prevOp.None? {
        return false;
      }
      ok := RepeatForward(prevOp.value, steps);
    }

    /** The loop of `apply`: `op` runs `steps` times, stopping at the first failure. */
    method RepeatForward(op: ForwardOp, steps: int) returns (ok: bool)
      requires Valid()
      modifies this
      ensures Valid() && rewriter == old(rewriter)
      ensures Outcome(ok, State()) == Repeat(chars, old(State()), op, steps)
    {
      ghost var target := Repeat(chars, State(), op, steps);
      var i := 0;
      while i < steps
        invariant Valid() && rewriter == old(rewriter)
        invariant Repeat(chars, State(), op, steps - i) == target
        decreases steps - i
      {
        ghost var before := State();
        var success := RunForward(op);
        RepeatStep(chars, before, op, steps - i, Outcome(success, State()));
        if !success {
          return false;
        }
        i := i + 1;
      }
      return true;
    }

    // -------------------------------------------------------------------------------
    // Rewriting the selection

    /** The private `commitText(oldText, newText)`. */
    method CommitTextUndoable(oldText: string, newText: string) returns (ok: bool)
      requires Valid()
      modifies this
      ensures Valid() && rewriter == old(rewriter)
      ensures Outcome(ok, State()) == EditorModel.CommitTextUndoable(old(State()), oldText, newText)
    {
      var oldStart, oldEnd := doc.selStart, doc.selEnd;
      doc := CommitText(doc, newText);
      ok := true;
      Push(UndoCommitText(|newText|, oldText, oldStart, oldEnd));
    }

    method ReplaceSel(template: string) returns (ok: bool)
      requires Valid()
      modifies this
      ensures Valid() && rewriter == old(rewriter)
      ensures Outcome(ok, State()) == EditorModel.ReplaceSel(old(State()), template)
    {
      var oldText := doc.Selected();
      ok := CommitTextUndoable(oldText, SubstituteSel(template, oldText));
    }

    method UcSel() returns (ok: bool)
      requires Valid()
      modifies this
      ensures Valid() && rewriter == old(rewriter)
      ensures Outcome(ok, State()) == EditorModel.UcSel(chars, old(State()))
    {
      var oldText := doc.Selected();
      ok := CommitTextUndoable(oldText, Upper(chars, oldText));
    }

    method LcSel() returns (ok: bool)
      requires Valid()
      modifies this
      ensures Valid() && rewriter == old(rewriter)
      ensures Outcome(ok, State()) == EditorModel.LcSel(chars, old(State()))
    {
      var oldText := doc.Selected();
      ok := CommitTextUndoable(oldText, Lower(chars, oldText));
    }

    method IncSel() returns (ok: bool)
      requires Valid()
      modifies this
      ensures Valid() && rewriter == old(rewriter)
      ensures Outcome(ok, State()) == EditorModel.IncSel(old(State()))
    {
      ok := false;
      var oldText := doc.Selected();
      var parsed := ParseInt(oldText);
      if parsed.Some? {
        ok := CommitTextUndoable(oldText, IntToString(Increment(parsed.value)));
      }
    }

    /**
     * `deleteLeftWord`: the `find` loop over the text before the cursor (`LastWordIndex`)
     * leaves in `lastIndex` where the deletion starts.
     */
    method DeleteLeftWord() returns (ok: bool)
      requires Valid()
      modifies this
      ensures Valid() && rewriter == old(rewriter)
      ensures Outcome(ok, State()) == EditorModel.DeleteLeftWord(old(State()))
    {
      var oldText := doc.Selected();
      if |oldText| > 0 {
        ok := CommitTextUndoable(oldText, "");
        return;
      }
      ok := false;
      var beforeCursor := TextBeforeCursor(doc, MaxDeletableContext);
      var beforeCursorLength := |beforeCursor|;
      var lastIndex := LastWordIndex(beforeCursor);
      if lastIndex > 0 {
        doc := DeleteSurrounding(doc, beforeCursorLength - lastIndex, 0);
        ok := true;
      } else if beforeCursorLength < MaxDeletableContext {
        doc := DeleteSurrounding(doc, beforeCursorLength, 0);
        ok := true;
      }
      if ok {
        var cs := if lastIndex > 0 then beforeCursor[lastIndex..] else beforeCursor;
        Push(Reinsert(cs));
      }
    }

    // -------------------------------------------------------------------------------
    // The dispatcher

    /** `mCommandEditorManager.execute(id, args)` after the dispatcher chose `cmd`. */
    method Execute(cmd: Command) returns (ok: bool)
      requires Valid()
      modifies this
      ensures Valid() && rewriter == old(rewriter)
      ensures Outcome(ok, State()) == EditorModel.Execute(chars, old(State()), cmd)
    {
      match cmd
      case SelectCmd(query) => ok := Select(query);
      case ReplaceCmd(query, replacement) => ok := Replace(query, replacement);
      case DeleteCmd(query) => ok := Delete(query);
      case ReplaceSelCmd(template) => ok := ReplaceSel(template);
      case UcSelCmd => ok := UcSel();
      case LcSelCmd => ok := LcSel();
      case IncSelCmd => ok := IncSel();
      case DeleteLeftWordCmd => ok := DeleteLeftWord();
      case GoToCharacterPositionCmd(pos) => ok := GoToCharacterPosition(pos);
      case GoForwardCmd(n) => ok := GoForward(n);
      case GoBackwardCmd(n) => ok := GoBackward(n);
      case GoToEndCmd => ok := GoToEnd();
      case SelectAllCmd => ok := SelectAll();
      case ResetSelCmd => ok := ResetSel();
      case UndoCmd(steps) => ok := Undo(steps);
      case ApplyCmd(steps) => ok := Apply(steps);
      case UnknownCmd => ok := false;
    }

    // -------------------------------------------------------------------------------
    // Committing recognition results

    /** `commitWithOverwrite(text)`: returns the new `mAddedLength`. */
    method CommitWithOverwrite(text: string) returns (added: int)
      requires Valid()
      modifies this
      ensures Valid() && rewriter == old(rewriter)
      ensures State() == EditorModel.CommitWithOverwrite(chars, old(State()), text)
      ensures added == addedLength
    {
      ghost var e := State();
      var commonPrefix := GreatestCommonPrefix(prevText, text);
      var commonPrefixLength := |commonPrefix|;
      CommonPrefixUnique(prevText, text, commonPrefixLength);
      var deletableLength := |prevText| - commonPrefixLength;
      if deletableLength > 0 {
        doc := DeleteSurrounding(doc, deletableLength, 0);
      }
      if |text| == 0 || commonPrefixLength == |text| {
        OverwriteNothingNew(chars, e, text, commonPrefixLength, doc);
        addedLength := addedLength - deletableLength;
      } else {
        OverwriteSomethingNew(chars, e, text, commonPrefixLength, doc);
        WriteChanged(text, commonPrefix, deletableLength);
      }
      added := addedLength;
    }

    /** The writing half of `commitWithOverwrite`. */
    method WriteChanged(text: string, commonPrefix: string, deletableLength: int)
      requires Valid() && |commonPrefix| < |text|
      modifies this
      ensures Valid() && rewriter == old(rewriter)
      ensures State() == EditorModel.WriteChanged(chars, old(State()), text, commonPrefix, deletableLength)
    {
      ghost var e := State();
      var t := text;
      var leftContext: string := "";
      var glue: string := "";
      if |commonPrefix| == 0 {
        leftContext := TextBeforeCursor(doc, MaxDeletableContext);
        glue := GetGlue(chars, t, leftContext);
        addedLength := |glue| + |t|;
        WriteFresh(chars, e, text, deletableLength, leftContext, glue);
      } else {
        t := t[|commonPrefix|..];
        leftContext := commonPrefix;
        addedLength := addedLength - deletableLength + |t|;
        WriteContinuing(chars, e, text, commonPrefix, deletableLength, t);
      }
      t := CapitalizeIfNeeded(chars, t, leftContext);
      assert |commonPrefix| > 0 ==> glue + t == t;
      doc := CommitText(doc, glue + t);
    }

    /** `applyCommand(text)`: tries the windows of the command prefix, longest first. */
    method ApplyCommand(text: string) returns (rewrite: Rewrite)
      requires Valid() && rewriter.Some?
      modifies this
      ensures Valid() && rewriter == old(rewriter)
      ensures (rewrite, State()) == EditorModel.ApplyCommand(old(rewriter).value, old(State()), text)
    {
      var rw := rewriter.value;
      var len := |commandPrefix|;
      var i: nat := Min(MaxUttInCommand, len);
      while i > 0
        invariant i <= len
        invariant State() == old(State()) && rewriter == old(rewriter)
        invariant TryWindows(rw, State(), text, i) == EditorModel.ApplyCommand(rw, State(), text)
        decreases i
      {
        var possibleCommand := Join(" ", commandPrefix[len - i..]);
        if possibleCommand == [] {
          possibleCommand := text;
        } else {
          possibleCommand := possibleCommand + " " + text;
        }
        var r := rw(possibleCommand);
        if r.IsCommand() {
          var undone := Undo(i);
          return r;
        }
        i := i - 1;
      }
      rewrite := rw(text);
    }

    /** `commitFinalResult(text)`: `None` stands for the `null` returned without a rewriter. */
    method CommitFinalResult(text: string) returns (result: Option<CommandResult>)
      requires Valid()
      modifies this
      ensures Valid() && rewriter == old(rewriter)
      ensures FinalOutcome(result, State()) == CommitFinal(old(Environment()), old(State()), text)
    {
      result := None;
      if rewriter.None? {
        var added := CommitWithOverwrite(text);
      } else {
        var oldStart, oldEnd := doc.selStart, doc.selEnd;
        var selectedText := doc.Selected();
        var rewrite := ApplyCommand(text);
        var textRewritten := rewrite.str;
        var len := CommitWithOverwrite(textRewritten);
        if len > 0 {
          Push(DeleteAdded(len, selectedText, oldStart, oldEnd));
        }
        var success := false;
        if rewrite.IsCommand() {
          commandPrefix := [];
          success := Execute(dispatch(rewrite.id.value, rewrite.args));
        } else {
          commandPrefix := commandPrefix + [textRewritten];
        }
        result := Some(CommandResult(success, rewrite));
      }
      prevText := "";
      addedLength := 0;
    }

    /** `commitPartialResult(text)`. */
    method CommitPartialResult(text: string) returns (ok: bool)
      requires Valid()
      modifies this
      ensures Valid() && rewriter == old(rewriter)
      ensures Outcome(ok, State()) == CommitPartial(old(Environment()), old(State()), text)
    {
      if |doc.Selected()| > 0 {
        return false;
      }
      var textRewritten := RewriteText(Environment(), text);
      var added := CommitWithOverwrite(textRewritten);
      prevText := textRewritten;
      ok := true;
    }
  }
}
