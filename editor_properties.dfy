/**
 * What the engine promises, stated over the functions of `EditorModel`: undo reverts each
 * reversible command, undo and apply split into smaller runs, the command windows are
 * resolved longest first, `deleteLeftWord` removes the last word with the whitespace
 * before it, and partial results overwrite one another incrementally.
 */
module EditorProperties {
  import opened Wrappers
  import opened Strings
  import opened JavaInt
  import opened Document
  import opened EditorModel

  // ---------------------------------------------------------------------------------
  // Undo reverts a command

  /**
   * The commands whose undo entry restores the state they started from: everything but
   * `undo`, `apply` and unknown commands, a cursor move that started from a selection
   * (its entry moves a collapsed cursor back), and `deleteLeftWord` without a selection
   * (its entry re-inserts the text but leaves the cursor in front of it).
   */
  predicate UndoRestores(e: Engine, cmd: Command)
    requires e.Valid()
  {
    match cmd
    case GoForwardCmd(_) => e.doc.Collapsed()
    case GoBackwardCmd(_) => e.doc.Collapsed()
    case DeleteLeftWordCmd => e.doc.Selected() != []
    case UndoCmd(_) => false
    case ApplyCmd(_) => false
    case UnknownCmd => false
    case _ => true
  }

  /** A successful reversible command followed by `undo(1)` gives back the document and the stack. */
  lemma ExecuteThenUndo(cc: CharClasses, e: Engine, cmd: Command)
    requires e.Valid() && UndoRestores(e, cmd) && Execute(cc, e, cmd).ok
    ensures var after := Execute(cc, e, cmd).after;
            var r := Undo(after, 1);
            r.ok && r.after == e.(prevOp := after.prevOp)
  {
    match cmd
    case SelectCmd(query) =>
    case ReplaceCmd(query, replacement) => ReplaceThenUndo(cc, e, query, replacement);
    case DeleteCmd(query) => ReplaceThenUndo(cc, e, query, "");
    case ReplaceSelCmd(template) => CommitTextThenUndo(e, SubstituteSel(template, e.doc.Selected()));
    case UcSelCmd => CommitTextThenUndo(e, Upper(cc, e.doc.Selected()));
    case LcSelCmd => CommitTextThenUndo(e, Lower(cc, e.doc.Selected()));
    case IncSelCmd => CommitTextThenUndo(e, IntToString(Increment(ParseInt(e.doc.Selected()).value)));
    case DeleteLeftWordCmd => CommitTextThenUndo(e, "");
    case GoToCharacterPositionCmd(pos) =>
    case GoForwardCmd(n) =>
    case GoBackwardCmd(n) =>
    case GoToEndCmd =>
    case SelectAllCmd =>
    case ResetSelCmd =>
  }

  /** `undo(1)` runs the top entry and pops it. */
  lemma UndoOne(e: Engine)
    requires e.Valid() && e.undo != []
    ensures var (ok, d) := RunEntry(e.undo[0], e.doc);
            Undo(e, 1) == Outcome(ok, e.(doc := d, undo := e.undo[1..]))
  {
  }

  /** Replacing the selection and undoing it restores the document. */
  lemma CommitTextThenUndo(e: Engine, newText: string)
    requires e.Valid()
    ensures var r := Undo(CommitTextUndoable(e, e.doc.Selected(), newText).after, 1);
            r.ok && r.after == e
  {
    UndoOne(CommitTextUndoable(e, e.doc.Selected(), newText).after);
    UndoCommitTextRestores(e.doc, newText);
  }

  /** Undoing `replace` puts the match back and restores the selection. */
  lemma ReplaceThenUndo(cc: CharClasses, e: Engine, query: string, replacement: string)
    requires e.Valid() && Replace(cc, e, query, replacement).ok
    ensures var r := Undo(Replace(cc, e, query, replacement).after, 1);
            r.ok && r.after == e.(prevOp := Some(ReplaceOp(query, replacement)))
  {
    var after := Replace(cc, e, query, replacement).after;
    var idx := SearchBeforeCursor(cc, e.doc, query);
    UndoReplaceRestores(e.doc, idx, |query|, replacement);
    assert after.doc == Doc(e.doc.text[..idx] + replacement + e.doc.text[idx + |query|..],
                            idx + |replacement|, idx + |replacement|);
    UndoOne(after);
  }

  // ---------------------------------------------------------------------------------
  // Undo entries and the edits they revert

  /** The "delete" entry of a committed result removes it and re-selects what it replaced. */
  lemma DeleteAddedRestores(d: Doc, t: string)
    requires d.Valid()
    ensures RunEntry(DeleteAdded(|t|, d.Selected(), d.selStart, d.selEnd), CommitText(d, t)) == (true, d)
  {
    CommitThenDelete(d, t);
    if |d.Selected()| > 0 {
      ReinsertSelection(d);
    } else {
      assert d.text[..d.selStart] + d.text[d.selEnd..] == d.text;
    }
  }

  /** The entry of the private `commitText` swaps the new text back for the old selection. */
  lemma UndoCommitTextRestores(d: Doc, t: string)
    requires d.Valid()
    ensures RunEntry(UndoCommitText(|t|, d.Selected(), d.selStart, d.selEnd), CommitText(d, t)) == (true, d)
  {
    CommitThenDelete(d, t);
    ReinsertSelection(d);
  }

  /**
   * The entry of `replace` puts the match back, where the match of `q` characters at
   * `idx` was replaced by `replacement`, and restores the selection.
   */
  lemma UndoReplaceRestores(d: Doc, idx: nat, q: nat, replacement: string)
    requires d.Valid() && idx + q <= |d.text|
    ensures var found := d.text[idx..idx + q];
            var after := Doc(d.text[..idx] + replacement + d.text[idx + q..], idx + |replacement|, idx + |replacement|);
            var entry := if replacement == [] then UndoReplace1(found, d.selStart, d.selEnd)
                         else UndoReplace2(|replacement|, found, d.selStart, d.selEnd);
            RunEntry(entry, after) == (true, d)
  {
    var found := d.text[idx..idx + q];
    var cut := Doc(d.text[..idx] + d.text[idx + q..], idx, idx);
    var after := Doc(d.text[..idx] + replacement + d.text[idx + q..], idx + |replacement|, idx + |replacement|);
    assert CommitText(cut, found).text == d.text;
    if replacement == [] {
      assert after == cut;
    } else {
      assert after == CommitText(cut, replacement);
      CommitThenDelete(cut, replacement);
    }
  }

  /** The entry of `deleteLeftWord` re-inserts the deleted text in front of the cursor. */
  lemma ReinsertRestores(d: Doc, c: nat)
    requires d.Valid() && d.Collapsed() && c <= d.selStart
    ensures var s := d.selStart;
            RunEntry(Reinsert(d.text[c..s]), Doc(d.text[..c] + d.text[s..], c, c)) == (true, Doc(d.text, c, c))
  {
    var s := d.selStart;
    assert d.text[..c] + d.text[c..s] + d.text[s..] == d.text;
  }

  /**
   * Undoing a move does not restore a selection: the `move` entry moves the collapsed
   * cursor back, so it lands at the end the move started from (`selStart` for a move to
   * the left, else `selEnd`), and a selection of the start is lost.
   */
  lemma MoveThenUndoCollapses(e: Engine, n: int)
    requires e.Valid() && Move(e, n).ok
    ensures var p := if n < 0 then e.doc.selStart else e.doc.selEnd;
            && Undo(Move(e, n).after, 1) == Outcome(true, e.(doc := Doc(e.doc.text, p, p)))
            && (e.doc.selStart < e.doc.selEnd ==> Undo(Move(e, n).after, 1).after.doc != e.doc)
  {
    UndoOne(Move(e, n).after);
  }

  /**
   * A cursor move from a selection is not reverted: the entry moves the collapsed cursor
   * back by the same amount, which is not the selection's start. Here "abc" with "ab"
   * selected, moved forward by one.
   */
  lemma MoveFromSelectionThenUndo(cc: CharClasses)
    ensures var e := Engine(Doc("abc", 0, 2), "", 0, None, [], []);
            var after := Execute(cc, e, GoForwardCmd(1)).after;
            && after.doc == Doc("abc", 3, 3)
            && Undo(after, 1).after.doc == Doc("abc", 2, 2)
  {
  }

  /**
   * `deleteLeftWord` without a selection succeeds exactly when `LeftWordLength` gives a
   * length; it then removes that many characters before the cursor and pushes an entry
   * that re-inserts them.
   */
  lemma DeleteLeftWordShape(e: Engine)
    requires e.Valid() && e.doc.Selected() == []
    ensures var n := LeftWordLength(TextBeforeCursor(e.doc, MaxDeletableContext));
            var s := e.doc.selStart;
            && (DeleteLeftWord(e).ok <==> n.Some?)
            && (n.None? ==> DeleteLeftWord(e).after == e)
            && (n.Some? ==>
                  && n.value <= s
                  && DeleteLeftWord(e).after
                     == e.(doc := Doc(e.doc.text[..s - n.value] + e.doc.text[s..], s - n.value, s - n.value),
                           undo := [Reinsert(e.doc.text[s - n.value..s])] + e.undo))
  {
    var before := TextBeforeCursor(e.doc, MaxDeletableContext);
    match LeftWordLength(before)
    case None => DeleteLeftWordGivesUp(e, before);
    case Some(n) => DeleteLeftWordDeletes(e, before, n);
  }

  /** `deleteLeftWord` without a selection removes the `n` characters `LeftWordLength` gives. */
  lemma DeleteLeftWordDeletes(e: Engine, before: string, n: nat)
    requires e.Valid() && e.doc.Selected() == []
    requires before == TextBeforeCursor(e.doc, MaxDeletableContext) && LeftWordLength(before) == Some(n)
    ensures var s := e.doc.selStart;
            && n <= s
            && DeleteLeftWord(e)
               == Outcome(true, e.(doc := Doc(e.doc.text[..s - n] + e.doc.text[s..], s - n, s - n),
                                   undo := [Reinsert(e.doc.text[s - n..s])] + e.undo))
  {
    DeleteLeftWordFound(e, before, n);
    DeletedBeforeCursor(e, before, n);
  }

  /** Deleting the last `n` characters of the context before a collapsed cursor. */
  lemma DeletedBeforeCursor(e: Engine, before: string, n: nat)
    requires e.Valid() && e.doc.Collapsed()
    requires before == TextBeforeCursor(e.doc, MaxDeletableContext) && n <= |before|
    ensures var s := e.doc.selStart;
            && n <= s
            && Push(e.(doc := DeleteSurrounding(e.doc, n, 0)), Reinsert(before[|before| - n..]))
               == e.(doc := Doc(e.doc.text[..s - n] + e.doc.text[s..], s - n, s - n),
                     undo := [Reinsert(e.doc.text[s - n..s])] + e.undo)
  {
    TextBeforeCursorSpec(e.doc, MaxDeletableContext);
    assert before[|before| - n..] == e.doc.text[e.doc.selStart - n..e.doc.selStart];
    DeleteBeforeCursor(e.doc, n);
  }

  /**
   * `deleteLeftWord` without a selection, undone: the text comes back, with the cursor
   * in front of the re-inserted text.
   */
  lemma DeleteLeftWordThenUndo(e: Engine)
    requires e.Valid() && e.doc.Selected() == [] && DeleteLeftWord(e).ok
    ensures var after := DeleteLeftWord(e).after;
            var r := Undo(after, 1);
            && r.ok && r.after.undo == e.undo && r.after.doc.text == e.doc.text
            && r.after.doc.Collapsed() && r.after.doc.selStart == after.doc.selStart
  {
    DeleteLeftWordShape(e);
    var after := DeleteLeftWord(e).after;
    ReinsertRestores(e.doc, after.doc.selStart);
    UndoOne(after);
  }

  // ---------------------------------------------------------------------------------
  // The undo stack

  /**
   * `undo(m + n)` is `undo(m)` followed by `undo(n)`, unless `undo(m)` already failed.
   * So the commands of a multi-step undo are exactly the top entries, one by one.
   */
  lemma UndoSplit(e: Engine, m: nat, n: nat)
    requires e.Valid()
    ensures var r := Undo(e, m);
            Undo(e, m + n) == if r.ok then Undo(r.after, n) else r
  {
    UndoIsIterate(e, m);
    UndoIsIterate(e, m + n);
    var r := Undo(e, m);
    if r.ok {
      UndoIsIterate(r.after, n);
    }
    IterateSplit(PopAndRun(), e, m, n);
  }

  /** One entry of `undo` as a step: pop the top entry and run it; an empty stack stays. */
  function PopAndRun(): Engine -> Outcome
  {
    (x: Engine) =>
      if x.Valid() && x.undo != [] then
        var (ok, d) := RunEntry(x.undo[0], x.doc);
        Outcome(ok, x.(doc := d, undo := x.undo[1..]))
      else Outcome(true, x)
  }

  lemma {:induction false} UndoIsIterate(e: Engine, k: nat)
    requires e.Valid()
    ensures Undo(e, k) == Iterate(PopAndRun(), e, k)
    decreases k
  {
    if k > 0 {
      var r1 := PopAndRun()(e);
      IterateStep(PopAndRun(), e, k, r1);
      if e.undo == [] {
        UndoIsIterate(e, k - 1);
      } else {
        UndoStep(e, k, r1.ok, r1.after);
        if r1.ok {
          UndoIsIterate(r1.after, k - 1);
        }
      }
    }
  }

  /** A failing entry is dropped: the next `undo` starts with the entry below it. */
  lemma UndoFailureDropsEntry(e: Engine)
    requires e.Valid() && e.undo != [] && !RunEntry(e.undo[0], e.doc).0
    ensures var r := Undo(e, 1);
            !r.ok && r.after.undo == e.undo[1..] && r.after.doc == RunEntry(e.undo[0], e.doc).1
  {
  }

  // ---------------------------------------------------------------------------------
  // apply

  /** Repeating an operation `m + n` times is repeating it `m` times, then `n` more. */
  lemma RepeatSplit(cc: CharClasses, e: Engine, op: ForwardOp, m: nat, n: nat)
    requires e.Valid()
    ensures var r := Repeat(cc, e, op, m);
            Repeat(cc, e, op, m + n) == if r.ok then Repeat(cc, r.after, op, n) else r
  {
    var step := StepOf(cc, op);
    RepeatIsIterate(cc, e, op, m);
    RepeatIsIterate(cc, e, op, m + n);
    var r := Repeat(cc, e, op, m);
    if r.ok {
      RepeatIsIterate(cc, r.after, op, n);
    }
    IterateSplit(step, e, m, n);
  }

  /** `n` runs of an arbitrary operation on engines, stopping at the first failure. */
  function Iterate(step: Engine -> Outcome, e: Engine, k: nat): Outcome
    decreases k
  {
    if k == 0 then Outcome(true, e)
    else
      var r1 := step(e);
      if !r1.ok then r1 else Iterate(step, r1.after, k - 1)
  }

  /** One step of `Iterate`, with the step's outcome named. */
  lemma IterateStep(step: Engine -> Outcome, e: Engine, k: nat, r1: Outcome)
    requires k > 0 && r1 == step(e)
    ensures Iterate(step, e, k) == if r1.ok then Iterate(step, r1.after, k - 1) else r1
  {
  }

  lemma {:induction false} IterateSplit(step: Engine -> Outcome, e: Engine, m: nat, n: nat)
    ensures var r := Iterate(step, e, m);
            Iterate(step, e, m + n) == if r.ok then Iterate(step, r.after, n) else r
    decreases m
  {
    if m > 0 && step(e).ok {
      IterateSplit(step, step(e).after, m - 1, n);
    }
  }

  /** The forward operation as a step on any engine (it fails on an invalid one). */
  function StepOf(cc: CharClasses, op: ForwardOp): Engine -> Outcome
  {
    (x: Engine) => if x.Valid() then ExecForward(cc, x, op) else Outcome(false, x)
  }

  lemma {:induction false} RepeatIsIterate(cc: CharClasses, e: Engine, op: ForwardOp, k: nat)
    requires e.Valid()
    ensures Repeat(cc, e, op, k) == Iterate(StepOf(cc, op), e, k)
    decreases k
  {
    if k > 0 {
      var r1 := ExecForward(cc, e, op);
      assert StepOf(cc, op)(e) == r1;
      IterateStep(StepOf(cc, op), e, k, r1);
      RepeatStep(cc, e, op, k, r1);
      if r1.ok {
        RepeatIsIterate(cc, r1.after, op, k - 1);
      }
    }
  }


  /** `apply(1)` after `select(query)` selects the previous occurrence, as `select(query)` would. */
  lemma ApplyAfterSelect(cc: CharClasses, e: Engine, query: string)
    requires e.Valid()
    ensures var s := Select(cc, e, query).after;
            Apply(cc, s, 1) == Select(cc, s, query)
  {
    var s := Select(cc, e, query).after;
    assert s.(prevOp := Some(SelectOp(query))) == s;
  }

  // ---------------------------------------------------------------------------------
  // Command windows

  lemma {:induction false} TryWindowsFirst(rw: string -> Rewrite, e: Engine, text: string, top: nat, i: nat)
    requires e.Valid() && 1 <= i <= top <= |e.prefix|
    requires rw(Window(e.prefix, i, text)).IsCommand()
    requires forall j | i < j <= top :: !rw(Window(e.prefix, j, text)).IsCommand()
    ensures TryWindows(rw, e, text, top) == (rw(Window(e.prefix, i, text)), Undo(e, i).after)
    decreases top
  {
    if top > i {
      TryWindowsFirst(rw, e, text, top - 1, i);
    }
  }

  lemma {:induction false} TryWindowsNone(rw: string -> Rewrite, e: Engine, text: string, top: nat)
    requires e.Valid() && top <= |e.prefix|
    requires forall j | 1 <= j <= top :: !rw(Window(e.prefix, j, text)).IsCommand()
    ensures TryWindows(rw, e, text, top) == (rw(text), e)
    decreases top
  {
    if top > 0 {
      TryWindowsNone(rw, e, text, top - 1);
    }
  }

  /**
   * `applyCommand`: the longest window (at most three utterances) that rewrites to a
   * command wins, and the entries of the utterances it spans are undone.
   */
  lemma ApplyCommandLongestWins(rw: string -> Rewrite, e: Engine, text: string, i: nat)
    requires e.Valid() && 1 <= i <= Min(MaxUttInCommand, |e.prefix|)
    requires rw(Window(e.prefix, i, text)).IsCommand()
    requires forall j | i < j <= Min(MaxUttInCommand, |e.prefix|) :: !rw(Window(e.prefix, j, text)).IsCommand()
    ensures ApplyCommand(rw, e, text) == (rw(Window(e.prefix, i, text)), Undo(e, i).after)
  {
    TryWindowsFirst(rw, e, text, Min(MaxUttInCommand, |e.prefix|), i);
  }

  /** Without a command in any window, `applyCommand` rewrites the utterance alone and changes nothing. */
  lemma ApplyCommandFallback(rw: string -> Rewrite, e: Engine, text: string)
    requires e.Valid()
    requires forall j | 1 <= j <= Min(MaxUttInCommand, |e.prefix|) :: !rw(Window(e.prefix, j, text)).IsCommand()
    ensures ApplyCommand(rw, e, text) == (rw(text), e)
  {
    TryWindowsNone(rw, e, text, Min(MaxUttInCommand, |e.prefix|));
  }

  // ---------------------------------------------------------------------------------
  // deleteLeftWord

  /** Some `\s*\w+` match lies ahead when the text ends with a word character. */
  lemma FindBeforeWordEnd(s: string, p: nat)
    requires p < |s| && IsRegexWord(s[|s| - 1])
    ensures FindFrom(s, p).Some?
  {
    assert MatchEndAt(s, |s| - 1) == Some(|s|);
  }

  /**
   * A match of `\s*\w+` starting at `r` cannot be extended to the left: `r` is the start
   * of the text, or the character before it is neither whitespace nor part of the same word.
   */
  predicate CannotExtendLeft(s: string, r: nat)
  {
    r == 0 || (r < |s| && !IsRegexSpace(s[r - 1]) && !(IsRegexWord(s[r - 1]) && IsRegexWord(s[r])))
  }

  /** The match `find` returns from `p` cannot be extended to the left. */
  lemma FoundMatchIsMaximal(s: string, p: nat)
    requires p <= |s| && FindFrom(s, p).Some?
    requires p == 0 || (IsRegexWord(s[p - 1]) && (p == |s| || !IsRegexWord(s[p])))
    ensures CannotExtendLeft(s, FindFrom(s, p).value.0)
  {
    var start := FindFrom(s, p).value.0;
    if start > p {
      var i := start - 1;
      assert MatchEndAt(s, i).None?;
      if IsRegexSpace(s[i]) {
        assert RunEnd(s, i, false) == RunEnd(s, start, false);
      }
    }
  }

  /** When `find` returns a match that ends the text, the loop stops with its start. */
  lemma ScanLastMatch(s: string, p: nat, lastIndex: nat)
    requires p <= |s| && lastIndex <= |s| && FindFrom(s, p).Some? && FindFrom(s, p).value.1 == |s|
    ensures ScanWords(s, p, lastIndex) == FindFrom(s, p).value.0
  {
    assert FindFrom(s, |s|).None?;
  }

  /**
   * The `find` loop of `deleteLeftWord`, started at `p`, ends with `lastIndex` at the start
   * of a match that runs to the end of the text and cannot be extended to the left.
   */
  lemma {:induction false} ScanFindsLastWord(s: string, p: nat, lastIndex: nat)
    requires p < |s| && lastIndex <= |s| && IsRegexWord(s[|s| - 1])
    requires p == 0 || (IsRegexWord(s[p - 1]) && !IsRegexWord(s[p]))
    ensures var r := ScanWords(s, p, lastIndex);
            MatchEndAt(s, r) == Some(|s|) && CannotExtendLeft(s, r)
    decreases |s| - p
  {
    FindBeforeWordEnd(s, p);
    FoundMatchIsMaximal(s, p);
    var start := FindFrom(s, p).value.0;
    var end := FindFrom(s, p).value.1;
    if end == |s| {
      ScanLastMatch(s, p, lastIndex);
    } else {
      assert ScanWords(s, p, lastIndex) == ScanWords(s, end, end);
      ScanFindsLastWord(s, end, end);
    }
  }

  /**
   * Without a selection, when the text before the cursor ends with a word character,
   * `deleteLeftWord` deletes the last word together with all the whitespace in front of
   * it (within the last `MaxDeletableContext` characters), and nothing else.
   */
  lemma DeleteLeftWordRemovesLastWord(e: Engine, before: string, cut: nat)
    requires e.Valid() && e.doc.Selected() == []
    requires before == TextBeforeCursor(e.doc, MaxDeletableContext)
    requires before != [] && IsRegexWord(before[|before| - 1]) && LeftWordLength(before) == Some(cut)
    ensures var s := e.doc.selStart;
            && cut <= s
            && DeleteLeftWord(e)
               == Outcome(true, e.(doc := Doc(e.doc.text[..s - cut] + e.doc.text[s..], s - cut, s - cut),
                                   undo := [Reinsert(e.doc.text[s - cut..s])] + e.undo))
            && MatchEndAt(before, |before| - cut) == Some(|before|)
            && CannotExtendLeft(before, |before| - cut)
  {
    LeftWordIsLastMatch(before, cut);
    DeleteLeftWordDeletes(e, before, cut);
  }

  /**
   * A limitation of `InputConnectionCommandEditor`: when the whole context before the cursor is one `\s*\w+`
   * match (for instance a single word of `MaxDeletableContext` or more characters), the
   * scan leaves `lastIndex` at 0, the context is not shorter than the window, and
   * `deleteLeftWord` fails without deleting anything.
   */
  lemma OneMatchContextGivesUp(e: Engine, before: string)
    requires e.Valid() && e.doc.Selected() == []
    requires before == TextBeforeCursor(e.doc, MaxDeletableContext) && |before| == MaxDeletableContext
    requires MatchEndAt(before, 0) == Some(|before|)
    ensures LeftWordLength(before).None?
    ensures DeleteLeftWord(e) == Outcome(false, e)
  {
    ScanLastMatch(before, 0, 0);
    DeleteLeftWordGivesUp(e, before);
  }

  /** A context made only of word characters is one `\s*\w+` match. */
  lemma AllWordIsOneMatch(before: string)
    requires before != [] && forall k | 0 <= k < |before| :: IsRegexWord(before[k])
    ensures MatchEndAt(before, 0) == Some(|before|)
  {
    assert RunEnd(before, 0, false) == 0;
  }

  /** The characters `deleteLeftWord` removes form one `\s*\w+` match that cannot be extended to the left. */
  lemma LeftWordIsLastMatch(before: string, cut: nat)
    requires before != [] && IsRegexWord(before[|before| - 1]) && LeftWordLength(before) == Some(cut)
    ensures MatchEndAt(before, |before| - cut) == Some(|before|) && CannotExtendLeft(before, |before| - cut)
  {
    ScanFindsLastWord(before, 0, 0);
    LeftWordStartIsScan(before);
  }

  /** Whatever `LeftWordLength` answers, the deletion starts where the scan stopped. */
  lemma LeftWordStartIsScan(before: string)
    requires LeftWordLength(before).Some?
    ensures |before| - LeftWordLength(before).value == ScanWords(before, 0, 0)
  {
  }

  // ---------------------------------------------------------------------------------
  // incSel

  /** Below the largest `int`, `incSel` writes the successor, which parses back to it. */
  lemma IncSelWritesSuccessor(e: Engine)
    requires e.Valid()
    requires ParseInt(e.doc.Selected()).Some? && ParseInt(e.doc.Selected()).value < MaxInt32
    ensures var v := ParseInt(e.doc.Selected()).value;
            var r := IncSel(e);
            && r.ok
            && r.after.doc.text == e.doc.text[..e.doc.selStart] + IntToString(v + 1) + e.doc.text[e.doc.selEnd..]
            && ParseInt(IntToString(v + 1)) == Some(v + 1)
  {
    var v := ParseInt(e.doc.Selected()).value;
    ParseIntToString(v + 1);
    var d := CommitText(e.doc, IntToString(v + 1));
    assert d.text == e.doc.text[..e.doc.selStart] + IntToString(v + 1) + e.doc.text[e.doc.selEnd..];
  }

  // ---------------------------------------------------------------------------------
  // Final and partial results

  /**
   * A window search whose answer is not a command found no command window, so it undid
   * nothing and the answer is the rewrite of the utterance alone.
   */
  lemma {:induction false} TryWindowsLiteral(rw: string -> Rewrite, e: Engine, text: string, top: nat)
    requires e.Valid() && top <= |e.prefix|
    requires !TryWindows(rw, e, text, top).0.IsCommand()
    ensures TryWindows(rw, e, text, top) == (rw(text), e)
    decreases top
  {
    if top > 0 {
      TryWindowsLiteral(rw, e, text, top - 1);
    }
  }

  /** The "delete len" entry `commitFinalResult` pushes: one entry when `len > 0`, none otherwise. */
  function DeleteEntryFor(e: Engine, len: int): seq<UndoEntry>
    requires e.Valid()
  {
    if len > 0 then [DeleteAdded(len, e.doc.Selected(), e.doc.selStart, e.doc.selEnd)] else []
  }

  /**
   * A final result that rewrites to a literal, in any state: the rewritten text is written
   * over the pending partial result, a "delete len" entry recording the selection of the
   * start is pushed exactly when `len > 0`, the literal goes onto the prefix, and the
   * partial-result fields are cleared. The command's success is reported as false.
   */
  lemma CommitFinalLiteral(env: Env, e: Engine, text: string)
    requires e.Valid() && env.rewriter.Some?
    requires !ApplyCommand(env.rewriter.value, e, text).0.IsCommand()
    ensures var str := env.rewriter.value(text).str;
            var e2 := CommitWithOverwrite(env.chars, e, str);
            var r := CommitFinal(env, e, text);
            && r.result == Some(CommandResult(false, env.rewriter.value(text)))
            && r.after == e.(doc := e2.doc, prefix := e.prefix + [str], prevText := "", addedLength := 0,
                             undo := DeleteEntryFor(e, e2.addedLength) + e.undo)
  {
    TryWindowsLiteral(env.rewriter.value, e, text, Min(MaxUttInCommand, |e.prefix|));
  }

  /**
   * A final result that rewrites to a command: the winning window's entries are undone,
   * the command's text is written, a "delete len" entry is pushed exactly when `len > 0`,
   * the prefix is cleared, and the dispatched command runs on that state; its success is
   * reported, and the partial-result fields are cleared.
   */
  lemma CommitFinalCommand(env: Env, e: Engine, text: string)
    requires e.Valid() && env.rewriter.Some?
    requires ApplyCommand(env.rewriter.value, e, text).0.IsCommand()
    ensures var (rewrite, e1) := ApplyCommand(env.rewriter.value, e, text);
            var e2 := CommitWithOverwrite(env.chars, e1, rewrite.str);
            var x := Execute(env.chars, e2.(undo := DeleteEntryFor(e, e2.addedLength) + e2.undo, prefix := []),
                             env.dispatch(rewrite.id.value, rewrite.args));
            var r := CommitFinal(env, e, text);
            && r.result == Some(CommandResult(x.ok, rewrite))
            && r.after == x.after.(prevText := "", addedLength := 0)
  {
    var (rewrite, e1) := ApplyCommand(env.rewriter.value, e, text);
    var e2 := CommitWithOverwrite(env.chars, e1, rewrite.str);
    var e3 := if e2.addedLength > 0 then Push(e2, DeleteAdded(e2.addedLength, e.doc.Selected(), e.doc.selStart, e.doc.selEnd))
              else e2;
    assert e3 == e2.(undo := DeleteEntryFor(e, e2.addedLength) + e2.undo);
  }

  /**
   * With nothing pending and an empty rewritten text, nothing is written and no
   * "delete 0" entry is pushed: a literal only extends the prefix, and a command runs
   * on the state its window search left.
   */
  lemma FinalNothingWritten(env: Env, e: Engine, text: string)
    requires e.Valid() && env.rewriter.Some? && e.prevText == "" && e.addedLength == 0
    requires ApplyCommand(env.rewriter.value, e, text).0.str == []
    ensures var (rewrite, e1) := ApplyCommand(env.rewriter.value, e, text);
            var r := CommitFinal(env, e, text);
            && (!rewrite.IsCommand() ==> r.after == e.(prefix := e.prefix + [[]]))
            && (rewrite.IsCommand() ==>
                  var x := Execute(env.chars, e1.(prefix := []), env.dispatch(rewrite.id.value, rewrite.args));
                  r.result == Some(CommandResult(x.ok, rewrite)) && r.after == x.after.(prevText := "", addedLength := 0))
  {
    var (rewrite, e1) := ApplyCommand(env.rewriter.value, e, text);
    CommonPrefixUnique("", [], 0);
    OverwriteNothingNew(env.chars, e1, [], 0, e1.doc);
    if rewrite.IsCommand() {
      CommitFinalCommand(env, e, text);
    } else {
      CommitFinalLiteral(env, e, text);
    }
  }

  /**
   * After a literal final result written without a selection, one `undo` deletes exactly
   * the `len` characters before the cursor that `mAddedLength` counted, whatever partial
   * results came before.
   */
  lemma FinalLiteralUndoDeletes(env: Env, e: Engine, text: string)
    requires e.Valid() && env.rewriter.Some? && e.doc.Selected() == []
    requires !ApplyCommand(env.rewriter.value, e, text).0.IsCommand()
    requires CommitWithOverwrite(env.chars, e, env.rewriter.value(text).str).addedLength > 0
    ensures var len := CommitWithOverwrite(env.chars, e, env.rewriter.value(text).str).addedLength;
            var r := CommitFinal(env, e, text).after;
            Undo(r, 1) == Outcome(true, r.(doc := DeleteSurrounding(r.doc, len, 0), undo := e.undo))
  {
    CommitFinalLiteral(env, e, text);
    UndoDeleteAddedOnly(CommitFinal(env, e, text).after);
  }

  /**
   * A literal final result with no pending partial result goes onto the prefix, and one
   * `undo` removes exactly what it wrote, restoring any selection it replaced.
   */
  lemma FinalLiteralThenUndo(env: Env, e: Engine, text: string)
    requires e.Valid() && env.rewriter.Some? && e.prevText == ""
    requires !ApplyCommand(env.rewriter.value, e, text).0.IsCommand() && env.rewriter.value(text).str != []
    ensures var r := CommitFinal(env, e, text);
            && r.after.prefix == e.prefix + [env.rewriter.value(text).str]
            && Undo(r.after, 1).ok && Undo(r.after, 1).after.doc == e.doc && Undo(r.after, 1).after.undo == e.undo
  {
    var t := FinalLiteralWritten(env, e, text);
    FinalLiteralState(env, e, text);
    UndoOne(CommitFinal(env, e, text).after);
    DeleteAddedRestores(e.doc, t);
  }

  /** What a literal final result writes with no pending partial result: the glue and the capitalised text. */
  function FinalLiteralWritten(env: Env, e: Engine, text: string): string
    requires e.Valid() && env.rewriter.Some? && env.rewriter.value(text).str != []
  {
    var str := env.rewriter.value(text).str;
    var leftContext := TextBeforeCursor(e.doc, MaxDeletableContext);
    GetGlue(env.chars, str, leftContext) + Capitalized(env.chars, str, leftContext)
  }

  /**
   * A non-empty literal final result with no pending partial result writes
   * `FinalLiteralWritten` over the selection, pushes a "delete" entry for it and puts the
   * literal on the prefix.
   */
  lemma FinalLiteralState(env: Env, e: Engine, text: string)
    requires e.Valid() && env.rewriter.Some? && e.prevText == ""
    requires !ApplyCommand(env.rewriter.value, e, text).0.IsCommand() && env.rewriter.value(text).str != []
    ensures var t := FinalLiteralWritten(env, e, text);
            CommitFinal(env, e, text).after
            == e.(doc := CommitText(e.doc, t), addedLength := 0, prefix := e.prefix + [env.rewriter.value(text).str],
                  undo := [DeleteAdded(|t|, e.doc.Selected(), e.doc.selStart, e.doc.selEnd)] + e.undo)
  {
    CommitFinalLiteral(env, e, text);
    FreshWrite(env.chars, e, env.rewriter.value(text).str);
  }

  /** With no previous partial result, `commitWithOverwrite` writes glue and capitalised text. */
  lemma FreshWrite(cc: CharClasses, e: Engine, text: string)
    requires e.Valid() && e.prevText == "" && text != []
    ensures var left := TextBeforeCursor(e.doc, MaxDeletableContext);
            var t := GetGlue(cc, text, left) + Capitalized(cc, text, left);
            CommitWithOverwrite(cc, e, text) == e.(doc := CommitText(e.doc, t), addedLength := |t|)
  {
    CommonPrefixUnique("", text, 0);
    OverwriteSomethingNew(cc, e, text, 0, e.doc);
    assert e.prevText[..0] == "";
  }

  /** Sending the same partial result twice changes nothing the second time. */
  lemma RepeatedPartial(env: Env, e: Engine, text: string)
    requires e.Valid() && e.doc.Selected() == []
    ensures var r1 := CommitPartial(env, e, text);
            var r2 := CommitPartial(env, r1.after, text);
            r1.ok && r2.ok && r2.after == r1.after
  {
    var t := RewriteText(env, text);
    var e1 := CommitPartial(env, e, text).after;
    assert e1.doc.Collapsed() by {
      var k := CommonPrefixLength(e.prevText, t);
      var deletable := |e.prevText| - k;
      if deletable > 0 {
        assert DeleteSurrounding(e.doc, deletable, 0).Selected() == [];
      }
    }
    CommonPrefixUnique(t, t, |t|);
    assert e1.doc.text[e1.doc.selStart..e1.doc.selEnd] == [];
  }

  /**
   * A partial result that extends the previous one only appends its new tail at the
   * cursor (capitalised against what was already written), and counts it as added.
   */
  lemma PartialExtends(env: Env, e: Engine, text: string)
    requires e.Valid() && e.doc.Collapsed()
    requires var t := RewriteText(env, text);
             0 < |e.prevText| < |t| && t[..|e.prevText|] == e.prevText
    ensures var t := RewriteText(env, text);
            var rest := Capitalized(env.chars, t[|e.prevText|..], e.prevText);
            var r := CommitPartial(env, e, text);
            var s := e.doc.selStart;
            && r.ok
            && r.after.doc == Doc(e.doc.text[..s] + rest + e.doc.text[s..], s + |rest|, s + |rest|)
            && r.after.addedLength == e.addedLength + |t| - |e.prevText|
  {
    var t := RewriteText(env, text);
    CommonPrefixUnique(e.prevText, t, |e.prevText|);
    assert e.prevText[..|e.prevText|] == e.prevText;
  }

  /**
   * A partial result that is a prefix of the previous one only deletes the dropped tail
   * before the cursor, and stops counting it as added.
   */
  lemma PartialRetracts(env: Env, e: Engine, text: string)
    requires e.Valid() && e.doc.Collapsed()
    requires var t := RewriteText(env, text);
             |t| <= |e.prevText| <= e.doc.selStart && e.prevText[..|t|] == t
    ensures var t := RewriteText(env, text);
            var cut := |e.prevText| - |t|;
            var r := CommitPartial(env, e, text);
            var s := e.doc.selStart;
            && r.ok
            && r.after.doc == Doc(e.doc.text[..s - cut] + e.doc.text[s..], s - cut, s - cut)
            && r.after.addedLength == e.addedLength - cut
  {
    var t := RewriteText(env, text);
    CommonPrefixUnique(e.prevText, t, |t|);
  }

  /**
   * `commitWithOverwrite` at a collapsed cursor right after the previous partial result,
   * when `text` does not share all of it: it deletes the characters of that result after
   * the shared prefix, and writes `OverwriteWritten` in their place (nothing when `text`
   * adds nothing), with glue and capitalisation from the left context only when no
   * prefix is shared. The added length drops by the deleted count, is reset to the
   * written text when nothing is shared, or else grows by the written rest.
   */
  lemma OverwriteDeleting(cc: CharClasses, e: Engine, text: string, k: nat)
    requires e.Valid() && e.doc.Collapsed() && |e.prevText| <= e.doc.selStart
    requires k == CommonPrefixLength(e.prevText, text) && k < |e.prevText|
    ensures var s := e.doc.selStart;
            var c := s - (|e.prevText| - k);
            var written := OverwriteWritten(cc, e, text);
            && CommitWithOverwrite(cc, e, text).doc
               == Doc(e.doc.text[..c] + written + e.doc.text[s..], c + |written|, c + |written|)
            && CommitWithOverwrite(cc, e, text).addedLength
               == if |text| == 0 || k == |text| then e.addedLength - (|e.prevText| - k)
                  else if k == 0 then |written|
                  else e.addedLength - (|e.prevText| - k) + (|text| - k)
  {
    var s := e.doc.selStart;
    var c := s - (|e.prevText| - k);
    var cut := Doc(e.doc.text[..c] + e.doc.text[s..], c, c);
    var written := OverwriteWritten(cc, e, text);
    OverwriteDeletes(e, k);
    var r := CommitWithOverwrite(cc, e, text);
    if |text| == 0 || k == |text| {
      OverwriteNothingNew(cc, e, text, k, cut);
      assert e.doc.text[..c] + written + e.doc.text[s..] == cut.text;
    } else {
      OverwriteSomethingNew(cc, e, text, k, cut);
      assert r.doc == CommitText(cut, written);
      CommitAtCursor(cut, written);
      assert cut.text[..c] == e.doc.text[..c] && cut.text[c..] == e.doc.text[s..];
    }
  }

  /**
   * `commitWithOverwrite` at a collapsed cursor right after the previous partial result,
   * when `text` starts with all of it: nothing is deleted, and the rest of `text` is
   * written at the cursor and added to the added length.
   */
  lemma OverwriteKeeping(cc: CharClasses, e: Engine, text: string, k: nat)
    requires e.Valid() && e.doc.Collapsed() && |e.prevText| <= e.doc.selStart
    requires k == CommonPrefixLength(e.prevText, text) && k == |e.prevText|
    ensures var s := e.doc.selStart;
            var written := OverwriteWritten(cc, e, text);
            && CommitWithOverwrite(cc, e, text).doc
               == Doc(e.doc.text[..s] + written + e.doc.text[s..], s + |written|, s + |written|)
            && CommitWithOverwrite(cc, e, text).addedLength
               == if |text| == 0 || k == |text| then e.addedLength
                  else if k == 0 then |written|
                  else e.addedLength + (|text| - k)
  {
    var s := e.doc.selStart;
    var written := OverwriteWritten(cc, e, text);
    var r := CommitWithOverwrite(cc, e, text);
    assert e.doc.text[..s] + e.doc.text[s..] == e.doc.text;
    if |text| == 0 || k == |text| {
      OverwriteNothingNew(cc, e, text, k, e.doc);
      assert e.doc.text[..s] + written + e.doc.text[s..] == e.doc.text;
    } else {
      OverwriteSomethingNew(cc, e, text, k, e.doc);
      assert e.(doc := e.doc) == e;
      assert r.doc == CommitText(e.doc, written);
      CommitAtCursor(e.doc, written);
    }
  }

  /** The deletion step of `commitWithOverwrite`: the unshared tail before the cursor goes. */
  lemma OverwriteDeletes(e: Engine, k: nat)
    requires e.Valid() && e.doc.Collapsed() && k < |e.prevText| <= e.doc.selStart
    ensures var s := e.doc.selStart;
            var c := s - (|e.prevText| - k);
            DeleteSurrounding(e.doc, |e.prevText| - k, 0) == Doc(e.doc.text[..c] + e.doc.text[s..], c, c)
  {
    DeleteBeforeCursor(e.doc, |e.prevText| - k);
  }

  /**
   * What `commitWithOverwrite` writes at the cursor, with the cursor right after the
   * previous partial result: nothing when `text` adds nothing; the glue and the
   * capitalised text when no prefix is shared; else the rest of `text`, capitalised
   * against the shared prefix.
   */
  function OverwriteWritten(cc: CharClasses, e: Engine, text: string): string
    requires e.Valid() && |e.prevText| <= e.doc.selStart
  {
    var k := CommonPrefixLength(e.prevText, text);
    var s := e.doc.selStart;
    var c := s - (|e.prevText| - k);
    var left := TextBeforeCursor(Doc(e.doc.text[..c] + e.doc.text[s..], c, c), MaxDeletableContext);
    if |text| == 0 || k == |text| then ""
    else if k == 0 then GetGlue(cc, text, left) + Capitalized(cc, text, left)
    else Capitalized(cc, text[k..], e.prevText[..k])
  }

  /** Writing at a collapsed cursor inserts the text there and moves the cursor past it. */
  lemma CommitAtCursor(d: Doc, t: string)
    requires d.Valid() && d.Collapsed()
    ensures CommitText(d, t) == Doc(d.text[..d.selStart] + t + d.text[d.selStart..], d.selStart + |t|, d.selStart + |t|)
  {
  }

  /**
   * A result that shares no prefix with the previous partial result deletes all of it
   * and writes the new text with freshly computed glue and capitalisation. The added
   * length becomes that glue and text alone, whatever was added before.
   */
  lemma OverwriteRestarts(cc: CharClasses, e: Engine, text: string, cut: Doc, left: string)
    requires e.Valid() && e.doc.Collapsed() && |e.prevText| <= e.doc.selStart
    requires text != [] && (e.prevText == [] || e.prevText[0] != text[0])
    requires var s := e.doc.selStart;
             var c := s - |e.prevText|;
             cut == Doc(e.doc.text[..c] + e.doc.text[s..], c, c)
    requires left == TextBeforeCursor(cut, MaxDeletableContext)
    ensures var glue := GetGlue(cc, text, left);
            CommitWithOverwrite(cc, e, text)
            == e.(doc := CommitText(cut, glue + Capitalized(cc, text, left)), addedLength := |glue| + |text|)
  {
    CommonPrefixUnique(e.prevText, text, 0);
    var glue := GetGlue(cc, text, left);
    if |e.prevText| > 0 {
      OverwriteDeletes(e, 0);
    } else {
      assert cut.text == e.doc.text;
    }
    OverwriteSomethingNew(cc, e, text, 0, cut);
    WriteFresh(cc, e.(doc := cut), text, |e.prevText|, left, glue);
  }

  // ---------------------------------------------------------------------------------
  // A limitation of the added-length bookkeeping

  /** Character tables with ' ' as the only whitespace and '.' ending a sentence. */
  function PlainChars(): CharClasses
  {
    CharClasses({' '}, {'.', ','}, {}, {'.'}, {}, c => c, c => c)
  }

  /** A rewriter that leaves every utterance as literal text. */
  function LiteralEnv(): Env
  {
    Env(PlainChars(), Some(t => Rewrite(t, None, [])), (id, args) => UnknownCmd)
  }

  lemma NoCapitalAfterHello(left: string)
    requires left == "Hello" || left == "Hello "
    ensures !NeedsCapital(PlainChars(), left)
  {
    assert TrimmedEnd(left, |left|) == 5;
    assert TrimEnd(left) == "Hello";
    assert TrimmedStart("Hello", 0) == 0;
  }

  lemma GlueAfterHello()
    ensures GetGlue(PlainChars(), "abc", "Hello") == " "
    ensures GetGlue(PlainChars(), "xyz", "Hello ") == ""
  {
    var cc := PlainChars();
    assert cc.whitespace == {' '};
    assert "Hello"[4] == 'o' && "Hello "[5] == ' ';
    assert 'o' !in cc.whitespace && 'o' !in cc.sticky;
    assert 'a' !in cc.whitespace && 'a' !in cc.punctuation && 'a' !in cc.letters;
  }

  lemma PartialUnfold(env: Env, e: Engine, text: string)
    requires env == LiteralEnv() && e.Valid() && e.doc.Selected() == []
    ensures CommitPartial(env, e, text) == Outcome(true, CommitWithOverwrite(PlainChars(), e, text).(prevText := text))
  {
  }

  lemma WriteAfterHello()
    ensures CommitText(Doc("Hello", 5, 5), " " + "abc") == Doc("Hello abc", 9, 9)
    ensures CommitText(Doc("Hello ", 6, 6), "xyz") == Doc("Hello xyz", 9, 9)
  {
    assert "Hello"[..5] == "Hello" && "Hello"[5..] == [];
    assert "Hello" + (" " + "abc") + [] == "Hello abc";
    assert "Hello "[..6] == "Hello " && "Hello "[6..] == [];
    assert "Hello " + "xyz" + [] == "Hello xyz";
  }

  lemma StrayGlueFirstWrite()
    ensures var e := Engine(Doc("Hello", 5, 5), "", 0, None, [], []);
            CommitWithOverwrite(PlainChars(), e, "abc") == e.(doc := Doc("Hello abc", 9, 9), addedLength := 4)
  {
    var cc := PlainChars();
    var e := Engine(Doc("Hello", 5, 5), "", 0, None, [], []);
    FreshWrite(cc, e, "abc");
    assert TextBeforeCursor(e.doc, MaxDeletableContext) == "Hello";
    NoCapitalAfterHello("Hello");
    CapitalizedNotNeeded(cc, "abc", "Hello");
    GlueAfterHello();
    WriteAfterHello();
  }

  lemma StrayGlueFirstPartial()
    ensures CommitPartial(LiteralEnv(), Engine(Doc("Hello", 5, 5), "", 0, None, [], []), "abc").after
            == Engine(Doc("Hello abc", 9, 9), "abc", 4, None, [], [])
  {
    var e := Engine(Doc("Hello", 5, 5), "", 0, None, [], []);
    assert e.doc.Selected() == [];
    StrayGlueFirstWrite();
    PartialUnfold(LiteralEnv(), e, "abc");
  }

  lemma StrayGlueSecondPartial()
    ensures CommitPartial(LiteralEnv(), Engine(Doc("Hello abc", 9, 9), "abc", 4, None, [], []), "xyz").after
            == Engine(Doc("Hello xyz", 9, 9), "xyz", 3, None, [], [])
  {
    var cc := PlainChars();
    var e := Engine(Doc("Hello abc", 9, 9), "abc", 4, None, [], []);
    assert e.doc.Selected() == [];
    var cut := Doc("Hello ", 6, 6);
    assert cut == Doc("Hello abc"[..6] + "Hello abc"[9..], 6, 6);
    assert TextBeforeCursor(cut, MaxDeletableContext) == "Hello ";
    OverwriteRestarts(cc, e, "xyz", cut, "Hello ");
    NoCapitalAfterHello("Hello ");
    CapitalizedNotNeeded(cc, "xyz", "Hello ");
    assert Capitalized(cc, "xyz", "Hello ") == "xyz";
    GlueAfterHello();
    assert "" + "xyz" == "xyz";
    WriteAfterHello();
    assert CommitWithOverwrite(cc, e, "xyz") == e.(doc := Doc("Hello xyz", 9, 9), addedLength := 3);
    PartialUnfold(LiteralEnv(), e, "xyz");
  }

  lemma StrayGlueFinal()
    ensures CommitFinal(LiteralEnv(), Engine(Doc("Hello xyz", 9, 9), "xyz", 3, None, [], []), "xyz").after
            == Engine(Doc("Hello xyz", 9, 9), "", 0, None, ["xyz"], [DeleteAdded(3, "", 9, 9)])
  {
    var e := Engine(Doc("Hello xyz", 9, 9), "xyz", 3, None, [], []);
    var rw := LiteralEnv().rewriter.value;
    assert e.doc.Selected() == [];
    assert ApplyCommand(rw, e, "xyz") == (Rewrite("xyz", None, []), e);
    CommonPrefixUnique("xyz", "xyz", 3);
    assert CommitWithOverwrite(PlainChars(), e, "xyz") == e;
  }

  /**
   * When a partial result is replaced by one that shares no prefix with it, the added
   * length is reset to the new text and its (empty) glue, forgetting the glue written for
   * the first partial result. Undoing the final result then leaves that glue behind:
   * after "Hello", the partial results "abc" and "xyz" (`StrayGlueFirstPartial`,
   * `StrayGlueSecondPartial`) and the final result "xyz" (`StrayGlueFinal`) leave "Hello xyz"
   * with a "delete 3" entry, and `undo` gives "Hello " where the same final result alone
   * would give back "Hello" (`FinalLiteralThenUndo`).
   */
  lemma StrayGlueAfterUndo()
    ensures var e3 := Engine(Doc("Hello xyz", 9, 9), "", 0, None, ["xyz"], [DeleteAdded(3, "", 9, 9)]);
            Undo(e3, 1).after.doc == Doc("Hello ", 6, 6)
  {
    var e3 := Engine(Doc("Hello xyz", 9, 9), "", 0, None, ["xyz"], [DeleteAdded(3, "", 9, 9)]);
    UndoDeleteAddedOnly(e3);
    DeleteBeforeCursor(e3.doc, 3);
    assert e3.doc.text[..6] + e3.doc.text[9..] == "Hello ";
  }

  /** Undoing a "delete n" entry whose write replaced no selection only deletes. */
  lemma UndoDeleteAddedOnly(e: Engine)
    requires e.Valid() && e.undo != [] && e.undo[0].DeleteAdded? && e.undo[0].selected == []
    ensures Undo(e, 1) == Outcome(true, e.(doc := DeleteSurrounding(e.doc, e.undo[0].length, 0), undo := e.undo[1..]))
  {
    UndoOne(e);
  }
}
