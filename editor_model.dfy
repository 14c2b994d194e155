/**
 * The command-editor engine of `InputConnectionCommandEditor` as pure functions over an
 * `Engine` state value. Every operation takes the state before and returns the state
 * after; the class in `command_editor.dfy` holds the same state in fields and its methods
 * are proved to compute these functions.
 *
 * The undo closures of the Java class become the tagged `UndoEntry` variants, each holding
 * what its closure captured; `RunEntry` is their `execute`. The forward operations that
 * `apply` replays (`mPrevOp`) become `ForwardOp`.
 */
module EditorModel {
  import opened Wrappers
  import opened Strings
  import opened JavaInt
  import opened Document

  /** Maximum number of previous utterances that a command can span. */
  const MaxUttInCommand: nat := 3
  /** How much left context is fetched for glue, capitalisation and `deleteLeftWord`. */
  const MaxDeletableContext: nat := 100

  /** What the utterance rewriter returns: literal text, or a command with its arguments. */
  datatype Rewrite = Rewrite(str: string, id: Option<string>, args: seq<string>)
  {
    predicate IsCommand() { id.Some? }
  }

  /**
   * The engine operations the command dispatcher can select. `Unknown` stands for an id
   * the dispatcher does not know or whose arguments it cannot convert.
   */
  datatype Command =
    | SelectCmd(query: string)
    | ReplaceCmd(query: string, replacement: string)
    | DeleteCmd(query: string)
    | ReplaceSelCmd(template: string)
    | UcSelCmd
    | LcSelCmd
    | IncSelCmd
    | DeleteLeftWordCmd
    | GoToCharacterPositionCmd(pos: int)
    | GoForwardCmd(chars: int)
    | GoBackwardCmd(chars: int)
    | GoToEndCmd
    | SelectAllCmd
    | ResetSelCmd
    | UndoCmd(steps: int)
    | ApplyCmd(steps: int)
    | UnknownCmd

  /** The operations `apply` can replay. */
  datatype ForwardOp = SelectOp(query: string) | ReplaceOp(query: string, replacement: string)

  /** The entries of the undo stack; each comment gives the label the Java class gives it. */
  datatype UndoEntry =
      /** "delete <length>": removes a committed result and restores the selection it replaced */
    | DeleteAdded(length: nat, selected: string, oldStart: nat, oldEnd: nat)
      /** "undo replace1": puts back a match that `replace` deleted */
    | UndoReplace1(found: string, oldStart: nat, oldEnd: nat)
      /** "undo replace2": swaps a replacement back for the match it replaced */
    | UndoReplace2(replacementLength: nat, found: string, oldStart: nat, oldEnd: nat)
      /** "setSelection": restores the selection bounds */
    | RestoreSelection(oldStart: nat, oldEnd: nat)
      /** "move": moves the cursor by `offset` */
    | MoveBy(offset: int)
      /** "commitText: <deleted>": re-inserts what `deleteLeftWord` removed */
    | Reinsert(deleted: string)
      /** "deleteSurroundingText+commitText": reverts a replacement of the selection */
    | UndoCommitText(newLength: nat, oldText: string, oldStart: nat, oldEnd: nat)

  /** The pluggable parts: character tables, the utterance rewriter (if set) and the dispatcher. */
  datatype Env = Env(
    chars: CharClasses,
    rewriter: Option<string -> Rewrite>,
    dispatch: (string, seq<string>) -> Command)

  /** The editor's state: the document and the fields of the Java class. */
  datatype Engine = Engine(
    doc: Doc,                    // the text field
    prevText: string,            // mPrevText: the last partial result written
    addedLength: int,            // mAddedLength: characters added since the last final result
    prevOp: Option<ForwardOp>,   // mPrevOp
    prefix: seq<string>,         // mCommandPrefix
    undo: seq<UndoEntry>)        // mUndoStack, top first
  {
    predicate Valid() { doc.Valid() }
  }

  datatype Outcome = Outcome(ok: bool, after: Engine)

  /** `e'` differs from `e` at most in the document and the undo stack. */
  predicate OnlyDocAndUndo(e: Engine, e': Engine)
  {
    e' == e.(doc := e'.doc, undo := e'.undo)
  }

  // ---------------------------------------------------------------------------------
  // Undo entries

  /** Restores the selection bounds `[oldStart, oldEnd)` if the host accepts them. */
  function Reselect(d: Doc, oldStart: nat, oldEnd: nat): (r: (bool, Doc))
    requires d.Valid()
    ensures r.1.Valid()
  {
    match SetSelection(d, oldStart, oldEnd)
    case Some(d1) => (true, d1)
    case None => (false, d)
  }

  /** The cursor after `move(n)`: `selStart + n` for `n < 0`, else `selEnd + n`. */
  function MovedCursor(d: Doc, n: int): (r: Option<Doc>)
    requires d.Valid()
    ensures r.Some? ==> r.value.Valid() && r.value.Collapsed() && r.value.text == d.text
    ensures r.Some? ==> r.value.selStart == (if n < 0 then d.selStart else d.selEnd) + n
  {
    var pos := if n < 0 then d.selStart else d.selEnd;
    SetSelection(d, pos + n, pos + n)
  }

  /** `execute` of an undo entry: whether it succeeded and the document it leaves. */
  function RunEntry(entry: UndoEntry, d: Doc): (r: (bool, Doc))
    requires d.Valid()
    ensures r.1.Valid()
  {
    match entry
    case DeleteAdded(length, selected, oldStart, oldEnd) =>
      var d1 := DeleteSurrounding(d, length, 0);
      if |selected| > 0 then Reselect(CommitText(d1, selected), oldStart, oldEnd) else (true, d1)
    case UndoReplace1(found, oldStart, oldEnd) =>
      Reselect(CommitText(d, found), oldStart, oldEnd)
    case UndoReplace2(replacementLength, found, oldStart, oldEnd) =>
      Reselect(CommitText(DeleteSurrounding(d, replacementLength, 0), found), oldStart, oldEnd)
    case RestoreSelection(oldStart, oldEnd) =>
      Reselect(d, oldStart, oldEnd)
    case MoveBy(offset) =>
      (match MovedCursor(d, offset)
       case Some(d1) => (true, d1)
       case None => (false, d))
    case Reinsert(deleted) =>
      (true, CommitText(d, deleted, false))
    case UndoCommitText(newLength, oldText, oldStart, oldEnd) =>
      Reselect(CommitText(DeleteSurrounding(d, newLength, 0), oldText), oldStart, oldEnd)
  }

  /** `push`. */
  function Push(e: Engine, entry: UndoEntry): (r: Engine)
    ensures r.undo == [entry] + e.undo && OnlyDocAndUndo(e, r) && r.doc == e.doc
  {
    e.(undo := [entry] + e.undo)
  }

  /**
   * `undo(steps)`: pops and runs up to `steps` entries, top first. A failing entry has
   * already been popped when `undo` gives up; an empty stack ends the loop successfully.
   */
  function Undo(e: Engine, steps: int): (r: Outcome)
    requires e.Valid()
    ensures r.after.Valid() && OnlyDocAndUndo(e, r.after)
    decreases |e.undo|
  {
    if steps <= 0 || e.undo == [] then Outcome(true, e)
    else
      var (ok, d) := RunEntry(e.undo[0], e.doc);
      var e1 := e.(doc := d, undo := e.undo[1..]);
      if !ok then Outcome(false, e1) else Undo(e1, steps - 1)
  }

  /**
   * `undo(steps)` pops entries off the top and no more than `steps` of them; it stops early
   * only when the stack runs out or an entry fails, and a failed entry is popped too.
   */
  lemma {:induction false} UndoPopsEntries(e: Engine, steps: int)
    requires e.Valid()
    ensures var r := Undo(e, steps);
            && |r.after.undo| <= |e.undo| && r.after.undo == e.undo[|e.undo| - |r.after.undo|..]
            && |e.undo| - |r.after.undo| <= (if steps < 0 then 0 else steps)
            && (r.ok ==> |r.after.undo| == 0 || |e.undo| - |r.after.undo| == (if steps < 0 then 0 else steps))
            && (!r.ok ==> |r.after.undo| < |e.undo|)
    decreases |e.undo|
  {
    if steps > 0 && e.undo != [] {
      var (ok, d) := RunEntry(e.undo[0], e.doc);
      var e1 := e.(doc := d, undo := e.undo[1..]);
      UndoStep(e, steps, ok, e1);
      if ok {
        UndoPopsEntries(e1, steps - 1);
      }
    }
  }

  /** One step of `undo`: the top entry ran with outcome `ok`, leaving `e1` with it popped. */
  lemma UndoStep(e: Engine, steps: int, ok: bool, e1: Engine)
    requires e.Valid() && steps > 0 && e.undo != []
    requires ok == RunEntry(e.undo[0], e.doc).0
    requires e1 == e.(doc := RunEntry(e.undo[0], e.doc).1, undo := e.undo[1..])
    ensures Undo(e, steps) == if ok then Undo(e1, steps - 1) else Outcome(false, e1)
  {
  }

  // ---------------------------------------------------------------------------------
  // Selection moves

  /**
   * `setSelection(i, j, oldSelectionStart, oldSelectionEnd)`: selects `[i, j)` and, if the
   * host accepted it, pushes an entry that restores the old bounds.
   */
  function SetSelectionUndoable(e: Engine, i: int, j: int, oldStart: nat, oldEnd: nat): (r: Outcome)
    requires e.Valid()
    ensures r.after.Valid() && OnlyDocAndUndo(e, r.after)
    ensures r.ok <==> 0 <= i <= j <= |e.doc.text|
    ensures r.ok ==> r.after.doc == Doc(e.doc.text, i, j)
                     && r.after.undo == [RestoreSelection(oldStart, oldEnd)] + e.undo
    ensures !r.ok ==> r.after == e
  {
    match SetSelection(e.doc, i, j)
    case Some(d) => Outcome(true, Push(e.(doc := d), RestoreSelection(oldStart, oldEnd)))
    case None => Outcome(false, e)
  }

  /** `setSelection(i, j)` with the current bounds as the ones to restore. */
  function SetSelectionFromCurrent(e: Engine, i: int, j: int): (r: Outcome)
    requires e.Valid()
    ensures r.ok <==> 0 <= i <= j <= |e.doc.text|
    ensures r.ok ==> r.after == e.(doc := Doc(e.doc.text, i, j),
                                   undo := [RestoreSelection(e.doc.selStart, e.doc.selEnd)] + e.undo)
    ensures !r.ok ==> r.after == e
  {
    SetSelectionUndoable(e, i, j, e.doc.selStart, e.doc.selEnd)
  }

  /** `goToCharacterPosition(pos)`. */
  function GoToCharacterPosition(e: Engine, pos: int): (r: Outcome)
    requires e.Valid()
    ensures r.ok <==> 0 <= pos <= |e.doc.text|
    ensures r.ok ==> r.after == e.(doc := Doc(e.doc.text, pos, pos),
                                   undo := [RestoreSelection(e.doc.selStart, e.doc.selEnd)] + e.undo)
    ensures !r.ok ==> r.after == e
  {
    SetSelectionFromCurrent(e, pos, pos)
  }

  /** `goToEnd`. */
  function GoToEnd(e: Engine): (r: Outcome)
    requires e.Valid()
    ensures r.ok && r.after == e.(doc := Doc(e.doc.text, |e.doc.text|, |e.doc.text|),
                                  undo := [RestoreSelection(e.doc.selStart, e.doc.selEnd)] + e.undo)
  {
    SetSelectionFromCurrent(e, |e.doc.text|, |e.doc.text|)
  }

  /** `selectAll`. */
  function SelectAll(e: Engine): (r: Outcome)
    requires e.Valid()
    ensures r.ok && r.after == e.(doc := Doc(e.doc.text, 0, |e.doc.text|),
                                  undo := [RestoreSelection(e.doc.selStart, e.doc.selEnd)] + e.undo)
  {
    SetSelectionFromCurrent(e, 0, |e.doc.text|)
  }

  /** `resetSel`: collapses the selection to its end. */
  function ResetSel(e: Engine): (r: Outcome)
    requires e.Valid()
    ensures r.ok && r.after == e.(doc := Doc(e.doc.text, e.doc.selEnd, e.doc.selEnd),
                                  undo := [RestoreSelection(e.doc.selStart, e.doc.selEnd)] + e.undo)
  {
    SetSelectionFromCurrent(e, e.doc.selEnd, e.doc.selEnd)
  }

  /** `move(n, true)`: moves the cursor and pushes a move by `-n`. */
  function Move(e: Engine, n: int): (r: Outcome)
    requires e.Valid()
    ensures r.after.Valid() && OnlyDocAndUndo(e, r.after)
    ensures r.ok <==> MovedCursor(e.doc, n).Some?
    ensures r.ok ==> r.after.doc == MovedCursor(e.doc, n).value
                     && r.after.undo == [MoveBy(-n)] + e.undo
    ensures !r.ok ==> r.after == e
  {
    match MovedCursor(e.doc, n)
    case Some(d) => Outcome(true, Push(e.(doc := d), MoveBy(-n)))
    case None => Outcome(false, e)
  }

  // ---------------------------------------------------------------------------------
  // Search, select, replace

  /** The query occurs at `j`, ignoring case, and ends before the cursor. */
  predicate MatchesAt(cc: CharClasses, d: Doc, query: string, j: int)
  {
    0 <= j && j + |query| <= d.selStart <= |d.text| && Lower(cc, d.text[j..j + |query|]) == Lower(cc, query)
  }

  /**
   * `lastIndexOf(query, et)`: the start of the last case-insensitive occurrence of `query`
   * in the text before the cursor, or -1.
   */
  function SearchBeforeCursor(cc: CharClasses, d: Doc, query: string): (idx: int)
    requires d.Valid()
    ensures idx == -1 || (0 <= idx && idx + |query| <= d.selStart)
  {
    var input := d.text[..d.selStart];
    LastIndexOf(Lower(cc, input), Lower(cc, query))
  }

  /** The search finds the last case-insensitive match ending before the cursor, or -1 if there is none. */
  lemma SearchBeforeCursorSpec(cc: CharClasses, d: Doc, query: string)
    requires d.Valid()
    ensures var idx := SearchBeforeCursor(cc, d, query);
            && (idx == -1 || MatchesAt(cc, d, query, idx))
            && (forall j | MatchesAt(cc, d, query, j) :: j <= idx)
  {
    SearchMeaning(cc, d, query, SearchBeforeCursor(cc, d, query));
  }

  lemma SearchMeaning(cc: CharClasses, d: Doc, query: string, idx: int)
    requires d.Valid()
    requires idx == LastIndexOf(Lower(cc, d.text[..d.selStart]), Lower(cc, query))
    ensures idx == -1 || MatchesAt(cc, d, query, idx)
    ensures forall j | MatchesAt(cc, d, query, j) :: j <= idx
  {
    forall j | MatchesAt(cc, d, query, j)
      ensures j <= idx
    {
      MatchIffOccurs(cc, d, query, j);
    }
    if idx != -1 {
      MatchIffOccurs(cc, d, query, idx);
    }
  }

  /** A match before the cursor is an occurrence in the lower-cased text before the cursor. */
  lemma MatchIffOccurs(cc: CharClasses, d: Doc, query: string, j: int)
    requires d.Valid() && 0 <= j && j + |query| <= d.selStart
    ensures MatchesAt(cc, d, query, j) <==> OccursAt(Lower(cc, d.text[..d.selStart]), Lower(cc, query), j)
  {
    var input := d.text[..d.selStart];
    LowerSlice(cc, input, j, j + |query|);
    assert input[j..j + |query|] == d.text[j..j + |query|];
  }

  /** The `execute` of the forward operation that `select` and `replace` build. */
  function ExecForward(cc: CharClasses, e: Engine, op: ForwardOp): (r: Outcome)
    requires e.Valid()
    ensures r.after.Valid() && OnlyDocAndUndo(e, r.after)
  {
    match op
    case SelectOp(query) => SelectOnce(cc, e, query)
    case ReplaceOp(query, replacement) => ReplaceOnce(cc, e, query, replacement)
  }

  /** One run of a "select" operation: selects the last match before the cursor. */
  function SelectOnce(cc: CharClasses, e: Engine, query: string): (r: Outcome)
    requires e.Valid()
    ensures r.after.Valid() && OnlyDocAndUndo(e, r.after)
  {
    var idx := SearchBeforeCursor(cc, e.doc, query);
    if idx >= 0 then SetSelectionUndoable(e, idx, idx + |query|, e.doc.selStart, e.doc.selEnd)
    else Outcome(false, e)
  }

  /** One run of a "replace" operation: replaces the last match before the cursor. */
  function ReplaceOnce(cc: CharClasses, e: Engine, query: string, replacement: string): (r: Outcome)
    requires e.Valid()
    ensures r.after.Valid() && OnlyDocAndUndo(e, r.after)
  {
    var idx := SearchBeforeCursor(cc, e.doc, query);
    if idx < 0 then Outcome(false, e)
    else
      var found := e.doc.text[idx..idx + |query|];
      match SetSelection(e.doc, idx, idx)
      case None => Outcome(false, e)
      case Some(d1) =>
        var d2 := DeleteSurrounding(d1, 0, |found|);
        if replacement == [] then
          Outcome(true, Push(e.(doc := d2), UndoReplace1(found, e.doc.selStart, e.doc.selEnd)))
        else
          Outcome(true, Push(e.(doc := CommitText(d2, replacement)),
                             UndoReplace2(|replacement|, found, e.doc.selStart, e.doc.selEnd)))
  }

  /** A "replace" run that finds no match fails and changes nothing. */
  lemma ReplaceOnceMissing(cc: CharClasses, e: Engine, query: string, replacement: string)
    requires e.Valid() && SearchBeforeCursor(cc, e.doc, query) < 0
    ensures ReplaceOnce(cc, e, query, replacement) == Outcome(false, e)
  {
  }

  /** A "replace" run that found `query` at `idx`, with an empty replacement: it cuts the match. */
  lemma ReplaceOnceCuts(cc: CharClasses, e: Engine, query: string, idx: int, found: string, d2: Doc)
    requires e.Valid() && idx == SearchBeforeCursor(cc, e.doc, query) && idx >= 0
    requires found == e.doc.text[idx..idx + |query|]
    requires d2 == DeleteSurrounding(Doc(e.doc.text, idx, idx), 0, |found|)
    ensures ReplaceOnce(cc, e, query, [])
            == Outcome(true, Push(e.(doc := d2), UndoReplace1(found, e.doc.selStart, e.doc.selEnd)))
  {
  }

  /** A "replace" run that found `query` at `idx`: it cuts the match and writes `replacement`. */
  lemma ReplaceOnceWrites(cc: CharClasses, e: Engine, query: string, replacement: string, idx: int, found: string, d2: Doc)
    requires e.Valid() && idx == SearchBeforeCursor(cc, e.doc, query) && idx >= 0 && replacement != []
    requires found == e.doc.text[idx..idx + |query|]
    requires d2 == DeleteSurrounding(Doc(e.doc.text, idx, idx), 0, |found|)
    ensures ReplaceOnce(cc, e, query, replacement)
            == Outcome(true, Push(e.(doc := CommitText(d2, replacement)),
                                  UndoReplace2(|replacement|, found, e.doc.selStart, e.doc.selEnd)))
  {
  }

  /**
   * `select(query)`: selects the last case-insensitive occurrence of `query` before the
   * cursor and remembers the operation for `apply`.
   */
  function Select(cc: CharClasses, e: Engine, query: string): (r: Outcome)
    requires e.Valid()
    ensures r.after.Valid() && r.after.prevOp == Some(SelectOp(query))
    ensures r.ok <==> SearchBeforeCursor(cc, e.doc, query) >= 0
    ensures !r.ok ==> r.after == e.(prevOp := Some(SelectOp(query)))
    ensures r.ok ==> var idx := SearchBeforeCursor(cc, e.doc, query);
                     && r.after == e.(prevOp := r.after.prevOp, doc := r.after.doc, undo := r.after.undo)
                     && r.after.doc == Doc(e.doc.text, idx, idx + |query|)
                     && r.after.undo == [RestoreSelection(e.doc.selStart, e.doc.selEnd)] + e.undo
  {
    ExecForward(cc, e.(prevOp := Some(SelectOp(query))), SelectOp(query))
  }

  /**
   * `replace(query, replacement)`: replaces the last case-insensitive occurrence of
   * `query` before the cursor and remembers the operation for `apply`.
   */
  function Replace(cc: CharClasses, e: Engine, query: string, replacement: string): (r: Outcome)
    requires e.Valid()
    ensures r.after.Valid() && r.after.prevOp == Some(ReplaceOp(query, replacement))
    ensures r.ok <==> SearchBeforeCursor(cc, e.doc, query) >= 0
    ensures !r.ok ==> r.after == e.(prevOp := Some(ReplaceOp(query, replacement)))
    ensures r.ok ==> var idx := SearchBeforeCursor(cc, e.doc, query);
                     var found := e.doc.text[idx..idx + |query|];
                     && r.after == e.(prevOp := r.after.prevOp, doc := r.after.doc, undo := r.after.undo)
                     && r.after.doc.text == e.doc.text[..idx] + replacement + e.doc.text[idx + |query|..]
                     && r.after.doc.Collapsed() && r.after.doc.selStart == idx + |replacement|
                     && r.after.undo == [if replacement == [] then UndoReplace1(found, e.doc.selStart, e.doc.selEnd)
                                         else UndoReplace2(|replacement|, found, e.doc.selStart, e.doc.selEnd)] + e.undo
  {
    var r := ExecForward(cc, e.(prevOp := Some(ReplaceOp(query, replacement))), ReplaceOp(query, replacement));
    var idx := SearchBeforeCursor(cc, e.doc, query);
    if idx >= 0 then
      var d1 := Doc(e.doc.text, idx, idx);
      var d2 := DeleteSurrounding(d1, 0, |query|);
      assert d2.text == e.doc.text[..idx] + e.doc.text[idx + |query|..];
      r
    else r
  }

  /** `delete(query)` is `replace(query, "")`. */
  function Delete(cc: CharClasses, e: Engine, query: string): (r: Outcome)
    requires e.Valid()
    ensures r.after.Valid() && r.after.prevOp == Some(ReplaceOp(query, []))
    ensures r.ok <==> SearchBeforeCursor(cc, e.doc, query) >= 0
    ensures !r.ok ==> r.after == e.(prevOp := Some(ReplaceOp(query, [])))
    ensures r.ok ==> var idx := SearchBeforeCursor(cc, e.doc, query);
                     && r.after == e.(prevOp := r.after.prevOp, doc := r.after.doc, undo := r.after.undo)
                     && r.after.doc == Doc(e.doc.text[..idx] + e.doc.text[idx + |query|..], idx, idx)
                     && r.after.undo == [UndoReplace1(e.doc.text[idx..idx + |query|], e.doc.selStart, e.doc.selEnd)] + e.undo
  {
    Replace(cc, e, query, "")
  }

  // ---------------------------------------------------------------------------------
  // Rewriting the selection

  /**
   * The private `commitText(oldText, newText)`: replaces the selection by `newText` and
   * pushes an entry that deletes `newText`, re-inserts `oldText` and restores the bounds.
   */
  function CommitTextUndoable(e: Engine, oldText: string, newText: string): (r: Outcome)
    requires e.Valid()
    ensures r.ok && r.after.Valid() && OnlyDocAndUndo(e, r.after)
    ensures r.after.doc == CommitText(e.doc, newText)
    ensures r.after.undo == [UndoCommitText(|newText|, oldText, e.doc.selStart, e.doc.selEnd)] + e.undo
  {
    Outcome(true, Push(e.(doc := CommitText(e.doc, newText)),
                       UndoCommitText(|newText|, oldText, e.doc.selStart, e.doc.selEnd)))
  }

  /** `replaceSel(template)`: the selection becomes `template` with each `{}` replaced by it. */
  function ReplaceSel(e: Engine, template: string): (r: Outcome)
    requires e.Valid()
    ensures var sel := e.doc.Selected();
            var out := SubstituteSel(template, sel);
            r.ok && r.after == e.(doc := CommitText(e.doc, out),
                                  undo := [UndoCommitText(|out|, sel, e.doc.selStart, e.doc.selEnd)] + e.undo)
  {
    var oldText := e.doc.Selected();
    CommitTextUndoable(e, oldText, SubstituteSel(template, oldText))
  }

  /** `ucSel`. */
  function UcSel(cc: CharClasses, e: Engine): (r: Outcome)
    requires e.Valid()
    ensures var sel := e.doc.Selected();
            r.ok && r.after == e.(doc := CommitText(e.doc, Upper(cc, sel)),
                                  undo := [UndoCommitText(|sel|, sel, e.doc.selStart, e.doc.selEnd)] + e.undo)
  {
    var oldText := e.doc.Selected();
    CommitTextUndoable(e, oldText, Upper(cc, oldText))
  }

  /** `lcSel`. */
  function LcSel(cc: CharClasses, e: Engine): (r: Outcome)
    requires e.Valid()
    ensures var sel := e.doc.Selected();
            r.ok && r.after == e.(doc := CommitText(e.doc, Lower(cc, sel)),
                                  undo := [UndoCommitText(|sel|, sel, e.doc.selStart, e.doc.selEnd)] + e.undo)
  {
    var oldText := e.doc.Selected();
    CommitTextUndoable(e, oldText, Lower(cc, oldText))
  }

  /**
   * `incSel`: replaces a selected integer by its successor (with Java's wrap-around);
   * fails, changing nothing, when the selection is not an `int`.
   */
  function IncSel(e: Engine): (r: Outcome)
    requires e.Valid()
    ensures r.after.Valid()
    ensures match ParseInt(e.doc.Selected())
            case None => !r.ok && r.after == e
            case Some(v) =>
              var sum := IntToString(Increment(v));
              r.ok && r.after == e.(doc := CommitText(e.doc, sum),
                                    undo := [UndoCommitText(|sum|, e.doc.Selected(), e.doc.selStart, e.doc.selEnd)] + e.undo)
  {
    var oldText := e.doc.Selected();
    match ParseInt(oldText)
    case None => Outcome(false, e)
    case Some(v) => CommitTextUndoable(e, oldText, IntToString(Increment(v)))
  }

  // ---------------------------------------------------------------------------------
  // deleteLeftWord: Java's `\s*\w+`, found repeatedly with `Matcher.find`

  /** Java's `\s` without flags: space, tab, newline, vertical tab, form feed, carriage return. */
  predicate IsRegexSpace(c: char) { c == ' ' || 9 <= c as int <= 13 }

  /** Java's `\w` without flags: ASCII letters, digits and underscore. */
  predicate IsRegexWord(c: char) { 'a' <= c <= 'z' || 'A' <= c <= 'Z' || '0' <= c <= '9' || c == '_' }

  /** The end of the run of characters satisfying `p` that starts at `i`. */
  function RunEnd(s: string, i: nat, word: bool): (j: nat)
    requires i <= |s|
    ensures i <= j <= |s|
    ensures forall k | i <= k < j :: if word then IsRegexWord(s[k]) else IsRegexSpace(s[k])
    ensures j == |s| || !(if word then IsRegexWord(s[j]) else IsRegexSpace(s[j]))
    decreases |s| - i
  {
    if i < |s| && (if word then IsRegexWord(s[i]) else IsRegexSpace(s[i])) then RunEnd(s, i + 1, word) else i
  }

  /** The end of a match of `\s*\w+` that starts at `i`, if one does. */
  function MatchEndAt(s: string, i: nat): (r: Option<nat>)
    requires i <= |s|
    ensures r.Some? ==> i < r.value <= |s| && IsRegexWord(s[r.value - 1])
                        && (r.value == |s| || !IsRegexWord(s[r.value]))
    ensures r.None? <==> var j := RunEnd(s, i, false); j == |s| || !IsRegexWord(s[j])
  {
    var j := RunEnd(s, i, false);
    if j < |s| && IsRegexWord(s[j]) then Some(RunEnd(s, j, true)) else None
  }

  /** `Matcher.find` from position `p`: the first match starting at or after `p`. */
  function FindFrom(s: string, p: nat): (r: Option<(nat, nat)>)
    requires p <= |s|
    ensures r.Some? ==> p <= r.value.0 < r.value.1 <= |s| && MatchEndAt(s, r.value.0) == Some(r.value.1)
    ensures r.Some? ==> forall i | p <= i < r.value.0 :: MatchEndAt(s, i).None?
    ensures r.None? ==> forall i | p <= i <= |s| :: MatchEndAt(s, i).None?
    decreases |s| - p
  {
    if p == |s| then None
    else match MatchEndAt(s, p)
      case Some(end) => Some((p, end))
      case None => FindFrom(s, p + 1)
  }

  /**
   * The value of `lastIndex` after the `find` loop of `deleteLeftWord` that has reached
   * position `p` with `lastIndex` so far: for each match, its start if it ends the text,
   * else its end.
   */
  function ScanWords(s: string, p: nat, lastIndex: nat): (r: nat)
    requires p <= |s| && lastIndex <= |s|
    ensures r <= |s|
    decreases |s| - p
  {
    match FindFrom(s, p)
    case None => lastIndex
    case Some((start, end)) => ScanWords(s, end, if |s| == end then start else end)
  }

  /**
   * How many characters before the cursor `deleteLeftWord` removes, given the context
   * `before` it fetched: back to the `lastIndex` of the scan when it is positive, or the
   * whole context when `lastIndex` is 0 and the context is shorter than
   * `MaxDeletableContext`; `None` when it gives up. `lastIndex` is 0 when no match was
   * found, and also when the one match starts at 0 and runs to the cursor.
   */
  function LeftWordLength(before: string): (n: Option<nat>)
    ensures n.Some? ==> n.value <= |before|
    ensures n.None? <==> ScanWords(before, 0, 0) == 0 && |before| >= MaxDeletableContext
  {
    var lastIndex := ScanWords(before, 0, 0);
    if lastIndex > 0 then Some(|before| - lastIndex)
    else if |before| < MaxDeletableContext then Some(|before|)
    else None
  }

  /**
   * `deleteLeftWord`: deletes the selection if there is one; otherwise deletes back to
   * where the scan stopped (or the whole context when `lastIndex` is 0 and the context is
   * shorter than `MaxDeletableContext`) and pushes an entry that re-inserts what it
   * deleted. `LeftWordLength` is how many characters that is.
   */
  function DeleteLeftWord(e: Engine): (r: Outcome)
    requires e.Valid()
    ensures r.after.Valid() && OnlyDocAndUndo(e, r.after)
  {
    var oldText := e.doc.Selected();
    if |oldText| > 0 then CommitTextUndoable(e, oldText, "")
    else
      var before := TextBeforeCursor(e.doc, MaxDeletableContext);
      var lastIndex := ScanWords(before, 0, 0);
      if lastIndex > 0 then
        Outcome(true, Push(e.(doc := DeleteSurrounding(e.doc, |before| - lastIndex, 0)), Reinsert(before[lastIndex..])))
      else if |before| < MaxDeletableContext then
        Outcome(true, Push(e.(doc := DeleteSurrounding(e.doc, |before|, 0)), Reinsert(before)))
      else Outcome(false, e)
  }

  /** The branch of `DeleteLeftWord` that deletes `n` characters before the cursor. */
  lemma DeleteLeftWordFound(e: Engine, before: string, n: nat)
    requires e.Valid() && e.doc.Selected() == []
    requires before == TextBeforeCursor(e.doc, MaxDeletableContext) && LeftWordLength(before) == Some(n)
    ensures DeleteLeftWord(e)
            == Outcome(true, Push(e.(doc := DeleteSurrounding(e.doc, n, 0)), Reinsert(before[|before| - n..])))
  {
    if ScanWords(before, 0, 0) == 0 {
      assert before[|before| - n..] == before;
    }
  }

  /** The branch of `DeleteLeftWord` that gives up. */
  lemma DeleteLeftWordGivesUp(e: Engine, before: string)
    requires e.Valid() && e.doc.Selected() == []
    requires before == TextBeforeCursor(e.doc, MaxDeletableContext) && LeftWordLength(before).None?
    ensures DeleteLeftWord(e) == Outcome(false, e)
  {
  }

  // ---------------------------------------------------------------------------------
  // apply and the dispatcher

  /** Runs `op` `steps` times, stopping at the first failure. */
  function Repeat(cc: CharClasses, e: Engine, op: ForwardOp, steps: int): (r: Outcome)
    requires e.Valid()
    ensures r.after.Valid() && OnlyDocAndUndo(e, r.after)
    decreases steps
  {
    if steps <= 0 then Outcome(true, e)
    else
      var r1 := ExecForward(cc, e, op);
      if !r1.ok then r1 else Repeat(cc, r1.after, op, steps - 1)
  }

  /** One step of `Repeat`, given the outcome `r1` of the first run. */
  lemma RepeatStep(cc: CharClasses, e: Engine, op: ForwardOp, steps: int, r1: Outcome)
    requires e.Valid() && steps > 0 && r1 == ExecForward(cc, e, op)
    ensures Repeat(cc, e, op, steps) == if r1.ok then Repeat(cc, r1.after, op, steps - 1) else r1
  {
  }

  /** `apply(steps)`: replays the last `select` or `replace`; fails if there is none. */
  function Apply(cc: CharClasses, e: Engine, steps: int): (r: Outcome)
    requires e.Valid()
    ensures r.after.Valid() && OnlyDocAndUndo(e, r.after)
    ensures e.prevOp.None? ==> !r.ok && r.after == e
  {
    match e.prevOp
    case None => Outcome(false, e)
    case Some(op) => Repeat(cc, e, op, steps)
  }

  /** Runs a dispatched command. Only `select`, `replace` and `delete` touch `prevOp`. */
  function Execute(cc: CharClasses, e: Engine, cmd: Command): (r: Outcome)
    requires e.Valid()
    ensures r.after.Valid()
    ensures r.after == e.(doc := r.after.doc, undo := r.after.undo, prevOp := r.after.prevOp)
  {
    match cmd
    case SelectCmd(query) => Select(cc, e, query)
    case ReplaceCmd(query, replacement) => Replace(cc, e, query, replacement)
    case DeleteCmd(query) => Delete(cc, e, query)
    case ReplaceSelCmd(template) => ReplaceSel(e, template)
    case UcSelCmd => UcSel(cc, e)
    case LcSelCmd => LcSel(cc, e)
    case IncSelCmd => IncSel(e)
    case DeleteLeftWordCmd => DeleteLeftWord(e)
    case GoToCharacterPositionCmd(pos) => GoToCharacterPosition(e, pos)
    case GoForwardCmd(n) => Move(e, n)
    case GoBackwardCmd(n) => Move(e, -1 * n)
    case GoToEndCmd => GoToEnd(e)
    case SelectAllCmd => SelectAll(e)
    case ResetSelCmd => ResetSel(e)
    case UndoCmd(steps) => Undo(e, steps)
    case ApplyCmd(steps) => Apply(cc, e, steps)
    case UnknownCmd => Outcome(false, e)
  }

  // ---------------------------------------------------------------------------------
  // Committing recognition results

  /**
   * `commitWithOverwrite(text)`: deletes the part of the previous partial result that
   * `text` does not share, then writes the rest of `text`; on a fresh start (no shared
   * prefix) with glue and capitalisation decided by the text before the cursor, otherwise
   * capitalised against the shared prefix. Returns the state with the new `addedLength`.
   */
  function CommitWithOverwrite(cc: CharClasses, e: Engine, text: string): (r: Engine)
    requires e.Valid()
    ensures r.Valid()
    ensures r == e.(doc := r.doc, addedLength := r.addedLength)
  {
    var k := CommonPrefixLength(e.prevText, text);
    var deletable := |e.prevText| - k;
    var d1 := if deletable > 0 then DeleteSurrounding(e.doc, deletable, 0) else e.doc;
    WriteAfterDeleting(cc, e, text, k, d1)
  }

  /**
   * What `commitWithOverwrite` does once the unshared `|prevText| - k` characters are
   * deleted, leaving `d1`: nothing more when `text` adds nothing, else `WriteChanged`.
   */
  function WriteAfterDeleting(cc: CharClasses, e: Engine, text: string, k: nat, d1: Doc): (r: Engine)
    requires e.Valid() && d1.Valid() && k <= |e.prevText| && k <= |text|
    ensures r.Valid()
    ensures r == e.(doc := r.doc, addedLength := r.addedLength)
  {
    var deletable := |e.prevText| - k;
    if |text| == 0 || k == |text| then
      e.(doc := d1, addedLength := e.addedLength - deletable)
    else
      WriteChanged(cc, e.(doc := d1), text, e.prevText[..k], deletable)
  }

  /**
   * The writing half of `commitWithOverwrite`, once the `deletable` characters of the
   * previous partial result that `text` does not share are deleted: with no shared
   * prefix, the glue and the capitalisation come from the text before the cursor;
   * otherwise only the rest of `text` is written, capitalised against the shared prefix.
   */
  function WriteChanged(cc: CharClasses, e: Engine, text: string, shared: string, deletable: int): (r: Engine)
    requires e.Valid() && |shared| < |text|
    ensures r.Valid()
    ensures r == e.(doc := r.doc, addedLength := r.addedLength)
  {
    if |shared| == 0 then
      var leftContext := TextBeforeCursor(e.doc, MaxDeletableContext);
      var glue := GetGlue(cc, text, leftContext);
      e.(doc := CommitText(e.doc, glue + Capitalized(cc, text, leftContext)), addedLength := |glue| + |text|)
    else
      var rest := text[|shared|..];
      e.(doc := CommitText(e.doc, Capitalized(cc, rest, shared)),
         addedLength := e.addedLength - deletable + |rest|)
  }

  /** `WriteChanged` with nothing shared: glue and capitalisation come from `left`. */
  lemma WriteFresh(cc: CharClasses, e: Engine, text: string, deletable: int, left: string, glue: string)
    requires e.Valid() && |text| > 0
    requires left == TextBeforeCursor(e.doc, MaxDeletableContext) && glue == GetGlue(cc, text, left)
    ensures WriteChanged(cc, e, text, [], deletable)
            == e.(doc := CommitText(e.doc, glue + Capitalized(cc, text, left)), addedLength := |glue| + |text|)
  {
  }

  /** `WriteChanged` with a shared prefix: only the `rest` is written, capitalised against it. */
  lemma WriteContinuing(cc: CharClasses, e: Engine, text: string, shared: string, deletable: int, rest: string)
    requires e.Valid() && 0 < |shared| < |text| && rest == text[|shared|..]
    ensures WriteChanged(cc, e, text, shared, deletable)
            == e.(doc := CommitText(e.doc, Capitalized(cc, rest, shared)), addedLength := e.addedLength - deletable + |rest|)
  {
  }

  /** `CommitWithOverwrite` when `text` adds nothing: only the deletion happens. */
  lemma OverwriteNothingNew(cc: CharClasses, e: Engine, text: string, k: nat, d1: Doc)
    requires e.Valid() && k == CommonPrefixLength(e.prevText, text)
    requires d1 == if |e.prevText| - k > 0 then DeleteSurrounding(e.doc, |e.prevText| - k, 0) else e.doc
    requires |text| == 0 || k == |text|
    ensures CommitWithOverwrite(cc, e, text) == e.(doc := d1, addedLength := e.addedLength - (|e.prevText| - k))
  {
  }

  /** `CommitWithOverwrite` when `text` adds something: `WriteChanged` follows the deletion. */
  lemma OverwriteSomethingNew(cc: CharClasses, e: Engine, text: string, k: nat, d1: Doc)
    requires e.Valid() && k == CommonPrefixLength(e.prevText, text)
    requires d1 == if |e.prevText| - k > 0 then DeleteSurrounding(e.doc, |e.prevText| - k, 0) else e.doc
    requires |text| != 0 && k != |text|
    ensures CommitWithOverwrite(cc, e, text) == WriteChanged(cc, e.(doc := d1), text, e.prevText[..k], |e.prevText| - k)
  {
  }

  /** The text `rewrite(str)` yields: the rewriter's literal, or `str` when there is no rewriter. */
  function RewriteText(env: Env, str: string): (r: string)
    ensures env.rewriter.None? ==> r == str
    ensures env.rewriter.Some? ==> r == env.rewriter.value(str).str
  {
    match env.rewriter
    case None => str
    case Some(rw) => rw(str).str
  }

  /** The utterance tried for window `i`: the last `i` prefix entries joined, then `text`. */
  function Window(prefix: seq<string>, i: nat, text: string): string
    requires i <= |prefix|
  {
    var joined := Join(" ", prefix[|prefix| - i..]);
    if joined == [] then text else joined + " " + text
  }

  /** Every window ends with the new utterance, and the empty window is the utterance alone. */
  lemma WindowEndsWithText(prefix: seq<string>, i: nat, text: string)
    requires i <= |prefix|
    ensures var w := Window(prefix, i, text);
            && |text| <= |w| && w[|w| - |text|..] == text
            && (i == 0 ==> w == text)
  {
    var joined := Join(" ", prefix[|prefix| - i..]);
    if joined != [] {
      var w := joined + " " + text;
      assert w[|w| - |text|..] == text;
    }
  }

  /** The window loop of `applyCommand` from window `i` down to 1. */
  function TryWindows(rw: string -> Rewrite, e: Engine, text: string, i: nat): (r: (Rewrite, Engine))
    requires e.Valid() && i <= |e.prefix|
    ensures r.1.Valid() && OnlyDocAndUndo(e, r.1)
    decreases i
  {
    if i == 0 then (rw(text), e)
    else
      var rewrite := rw(Window(e.prefix, i, text));
      if rewrite.IsCommand() then (rewrite, Undo(e, i).after)
      else TryWindows(rw, e, text, i - 1)
  }

  function Min(a: nat, b: nat): nat { if a < b then a else b }

  /**
   * `applyCommand(text)`: the first window, from `min(3, |prefix|)` utterances down to 1,
   * whose rewrite is a command wins, after undoing that many entries; otherwise the
   * rewrite of `text` alone.
   */
  function ApplyCommand(rw: string -> Rewrite, e: Engine, text: string): (r: (Rewrite, Engine))
    requires e.Valid()
    ensures r.1.Valid() && OnlyDocAndUndo(e, r.1)
  {
    TryWindows(rw, e, text, Min(MaxUttInCommand, |e.prefix|))
  }

  /** What `commitFinalResult` reports: the command's success and the rewrite. */
  datatype CommandResult = CommandResult(success: bool, rewrite: Rewrite)

  datatype FinalOutcome = FinalOutcome(result: Option<CommandResult>, after: Engine)

  /**
   * `commitFinalResult(text)`: with no rewriter, writes `text`. Otherwise resolves the
   * command windows, writes the rewritten text, pushes a "delete" entry if anything is
   * now added, then clears the prefix and runs the command, or appends the literal to
   * the prefix. Always ends with no partial result pending.
   */
  function CommitFinal(env: Env, e: Engine, text: string): (r: FinalOutcome)
    requires e.Valid()
    ensures r.after.Valid()
    ensures r.after.prevText == "" && r.after.addedLength == 0
    ensures r.result.None? <==> env.rewriter.None?
    ensures env.rewriter.None? ==> r.after.prefix == e.prefix && r.after.undo == e.undo
    ensures r.result.Some? && r.result.value.rewrite.IsCommand() ==> r.after.prefix == []
    ensures r.result.Some? && !r.result.value.rewrite.IsCommand() ==>
              && r.after.prefix == e.prefix + [r.result.value.rewrite.str]
              && !r.result.value.success
  {
    match env.rewriter
    case None =>
      var e1 := CommitWithOverwrite(env.chars, e, text);
      FinalOutcome(None, e1.(prevText := "", addedLength := 0))
    case Some(rw) =>
      var selected := e.doc.Selected();
      var (rewrite, e1) := ApplyCommand(rw, e, text);
      var e2 := CommitWithOverwrite(env.chars, e1, rewrite.str);
      var e3 := if e2.addedLength > 0 then Push(e2, DeleteAdded(e2.addedLength, selected, e.doc.selStart, e.doc.selEnd))
                else e2;
      if rewrite.IsCommand() then
        var r := Execute(env.chars, e3.(prefix := []), env.dispatch(rewrite.id.value, rewrite.args));
        FinalOutcome(Some(CommandResult(r.ok, rewrite)), r.after.(prevText := "", addedLength := 0))
      else
        FinalOutcome(Some(CommandResult(false, rewrite)),
                     e3.(prefix := e3.prefix + [rewrite.str], prevText := "", addedLength := 0))
  }

  /**
   * `commitPartialResult(text)`: refused while there is a selection; otherwise writes the
   * rewritten text over the previous partial result and remembers it.
   */
  function CommitPartial(env: Env, e: Engine, text: string): (r: Outcome)
    requires e.Valid()
    ensures r.after.Valid()
    ensures r.ok <==> e.doc.Selected() == []
    ensures !r.ok ==> r.after == e
    ensures r.ok ==> r.after.prevText == RewriteText(env, text)
                     && r.after == e.(doc := r.after.doc, prevText := r.after.prevText, addedLength := r.after.addedLength)
  {
    if |e.doc.Selected()| > 0 then Outcome(false, e)
    else
      var t := RewriteText(env, text);
      Outcome(true, CommitWithOverwrite(env.chars, e, t).(prevText := t))
  }

  /** `reset`: forgets the prefix and the partial result, but not the undo stack. */
  function Reset(e: Engine): (r: Engine)
    ensures r.prefix == [] && r.prevText == "" && r.addedLength == 0
    ensures r.doc == e.doc && r.undo == e.undo && r.prevOp == e.prevOp
  {
    e.(prefix := [], prevText := "", addedLength := 0)
  }
}
