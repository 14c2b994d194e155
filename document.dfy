/**
 * The text field the editor works on. The Java class talks to it through Android's
 * `InputConnection`, which is not part of this model; here it is a value holding the
 * text and the selection `[selStart, selEnd)`. The functions below are ASSUMPTIONS about
 * the host, not code of the editor:
 *  - `commitText(t, 1)` replaces the selection by `t` and puts the cursor after `t`
 *    (`commitText(t, 0)` puts it before `t`), and always succeeds;
 *  - `deleteSurroundingText(b, a)` removes up to `b` characters before `selStart` and up
 *    to `a` characters after `selEnd`, and always succeeds;
 *  - `setSelection(i, j)` succeeds iff `0 <= i <= j <= |text|`;
 *  - `getTextBeforeCursor(n)` returns the last `n` characters before `selStart`;
 *  - `getExtractedText` always returns the text and the selection;
 *  - `beginBatchEdit` and `endBatchEdit` have no effect on the document.
 */
module Document {
  import opened Wrappers

  datatype Doc = Doc(text: string, selStart: nat, selEnd: nat)
  {
    predicate Valid() { selStart <= selEnd <= |text| }

    /** `getSelectedText`. */
    function Selected(): string
      requires Valid()
    {
      text[selStart..selEnd]
    }

    predicate Collapsed() { selStart == selEnd }
  }

  /** `commitText(t, 1)` or, when `!cursorAfter`, `commitText(t, 0)`. */
  function CommitText(d: Doc, t: string, cursorAfter: bool := true): (r: Doc)
    requires d.Valid()
    ensures r.Valid() && r.Collapsed()
    ensures |r.text| == |d.text| - |d.Selected()| + |t|
    ensures r.selStart == if cursorAfter then d.selStart + |t| else d.selStart
  {
    var pos := if cursorAfter then d.selStart + |t| else d.selStart;
    Doc(d.text[..d.selStart] + t + d.text[d.selEnd..], pos, pos)
  }

  /** `commitText` keeps the text before the selection and after it, with `t` between. */
  lemma CommitTextSpec(d: Doc, t: string, cursorAfter: bool)
    requires d.Valid()
    ensures var r := CommitText(d, t, cursorAfter);
            && r.text[..d.selStart] == d.text[..d.selStart]
            && r.text[d.selStart..d.selStart + |t|] == t
            && r.text[d.selStart + |t|..] == d.text[d.selEnd..]
  {
  }

  /** `deleteSurroundingText(before, after)`, clamped to the text that is there. */
  function DeleteSurrounding(d: Doc, before: nat, after: nat): (r: Doc)
    requires d.Valid()
    ensures r.Valid()
    ensures var b := if before <= d.selStart then before else d.selStart;
            && r.selStart == d.selStart - b && r.selEnd == d.selEnd - b
            && r.text[..r.selStart] == d.text[..r.selStart]
            && r.Selected() == d.Selected()
    ensures var a := if after <= |d.text| - d.selEnd then after else |d.text| - d.selEnd;
            r.text[r.selEnd..] == d.text[d.selEnd + a..]
  {
    var b := if before <= d.selStart then before else d.selStart;
    var a := if after <= |d.text| - d.selEnd then after else |d.text| - d.selEnd;
    var t := d.text[..d.selStart - b] + d.text[d.selStart..d.selEnd] + d.text[d.selEnd + a..];
    Doc(t, d.selStart - b, d.selEnd - b)
  }

  /** `setSelection(i, j)`: `None` when the host refuses the bounds. */
  function SetSelection(d: Doc, i: int, j: int): (r: Option<Doc>)
    ensures r.Some? <==> 0 <= i <= j <= |d.text|
    ensures r.Some? ==> r.value.Valid() && r.value.text == d.text
                        && r.value.selStart == i && r.value.selEnd == j
  {
    if 0 <= i <= j <= |d.text| then Some(Doc(d.text, i, j)) else None
  }

  /** `getTextBeforeCursor(n)`. */
  function TextBeforeCursor(d: Doc, n: nat): (r: string)
    requires d.Valid()
    ensures |r| <= n && |r| <= d.selStart
  {
    if n <= d.selStart then d.text[d.selStart - n..d.selStart] else d.text[..d.selStart]
  }

  /** `getTextBeforeCursor(n)` is the `n` characters before the cursor, or all of them. */
  lemma TextBeforeCursorSpec(d: Doc, n: nat)
    requires d.Valid()
    ensures var r := TextBeforeCursor(d, n);
            && r == d.text[d.selStart - |r|..d.selStart]
            && (|r| == n || |r| == d.selStart)
  {
  }

  // ---------------------------------------------------------------------------------
  // How the primitives compose (used by the undo round trips)

  /** Inserting `t` at the selection and deleting `|t|` characters before the cursor
      leaves the text without the selection, with the cursor where the selection began. */
  lemma CommitThenDelete(d: Doc, t: string)
    requires d.Valid()
    ensures DeleteSurrounding(CommitText(d, t), |t|, 0)
            == Doc(d.text[..d.selStart] + d.text[d.selEnd..], d.selStart, d.selStart)
  {
    var c := CommitText(d, t);
    assert c.text[..d.selStart] + c.text[d.selStart + |t|..] == d.text[..d.selStart] + d.text[d.selEnd..];
  }

  /** Deleting `n` characters before a collapsed cursor. */
  lemma DeleteBeforeCursor(d: Doc, n: nat)
    requires d.Valid() && d.Collapsed() && n <= d.selStart
    ensures var c := d.selStart - n;
            DeleteSurrounding(d, n, 0) == Doc(d.text[..c] + d.text[d.selStart..], c, c)
  {
    var c := d.selStart - n;
    assert d.text[..c] + d.text[d.selStart..d.selEnd] + d.text[d.selEnd..] == d.text[..c] + d.text[d.selStart..];
  }

  /** Re-inserting the removed selection and selecting it again restores the document. */
  lemma ReinsertSelection(d: Doc)
    requires d.Valid()
    ensures var cut := Doc(d.text[..d.selStart] + d.text[d.selEnd..], d.selStart, d.selStart);
            && CommitText(cut, d.Selected()).text == d.text
            && CommitText(cut, d.Selected()).selStart == d.selEnd
            && SetSelection(CommitText(cut, d.Selected()), d.selStart, d.selEnd) == Some(d)
  {
    var cut := Doc(d.text[..d.selStart] + d.text[d.selEnd..], d.selStart, d.selStart);
    assert cut.text[..d.selStart] + d.Selected() + cut.text[d.selStart..] == d.text;
  }
}
