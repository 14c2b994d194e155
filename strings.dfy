/**
 * The pure helpers of the command editor: diffing a new recognition result against the
 * previous partial one, the glue and capitalisation heuristics, and the case-insensitive
 * backward search used by `select` and `replace`, together with the small string
 * utilities they need (Java's `trim`, `TextUtils.join`, the `{}` selection reference).
 */
module Strings {

  /**
   * The host's character tables. The Java class reads them from `Constants` (whitespace,
   * punctuation, "sticky" characters that take no space after them, end-of-sentence
   * characters) and from `Character.isLetter`, `Character.toUpperCase` and
   * `Character.toLowerCase`; the model keeps them as parameters.
   */
  datatype CharClasses = CharClasses(
    whitespace: set<char>,
    punctuation: set<char>,
    sticky: set<char>,
    endOfSentence: set<char>,
    letters: set<char>,
    toUpper: char -> char,
    toLower: char -> char)

  // ---------------------------------------------------------------------------------
  // Greatest common prefix

  /** The length of the longest common prefix of `a` and `b`. */
  function CommonPrefixLength(a: string, b: string): (n: nat)
    ensures n <= |a| && n <= |b|
    ensures a[..n] == b[..n]
    ensures n == |a| || n == |b| || a[n] != b[n]
  {
    CommonPrefixFrom(a, b, 0)
  }

  /** The common prefix of `a` and `b`, extended from a common prefix of length `i`. */
  function CommonPrefixFrom(a: string, b: string, i: nat): (n: nat)
    requires i <= |a| && i <= |b| && a[..i] == b[..i]
    ensures i <= n <= |a| && n <= |b|
    ensures a[..n] == b[..n]
    ensures n == |a| || n == |b| || a[n] != b[n]
    decreases |a| - i
  {
    if i == |a| || i == |b| || a[i] != b[i] then i
    else
      assert a[..i + 1] == a[..i] + [a[i]] && b[..i + 1] == b[..i] + [b[i]];
      CommonPrefixFrom(a, b, i + 1)
  }

  /** The three properties of a common prefix pin down its length. */
  lemma CommonPrefixUnique(a: string, b: string, n: nat)
    requires n <= |a| && n <= |b|
    requires a[..n] == b[..n]
    requires n == |a| || n == |b| || a[n] != b[n]
    ensures n == CommonPrefixLength(a, b)
  {
  }

  /**
   * `greatestCommonPrefix`: scans both strings until they differ and returns the shared
   * part of `a`.
   */
  method GreatestCommonPrefix(a: string, b: string) returns (p: string)
    ensures |p| <= |a| && |p| <= |b|
    ensures p == a[..|p|] && p == b[..|p|]
    ensures |p| == |a| || |p| == |b| || a[|p|] != b[|p|]
  {
    var minLength := if |a| < |b| then |a| else |b|;
    var i := 0;
    while i < minLength
      invariant 0 <= i <= minLength
      invariant a[..i] == b[..i]
    {
      if a[i] != b[i] {
        return a[..i];
      }
      i := i + 1;
    }
    return a[..minLength];
  }

  // ---------------------------------------------------------------------------------
  // Java's String.trim: strips characters up to U+0020 from both ends

  predicate IsTrimmed(c: char) { c <= ' ' }

  function TrimEnd(s: string): (r: string)
    ensures |r| <= |s| && r == s[..|r|]
    ensures r == [] || !IsTrimmed(r[|r| - 1])
    ensures forall i | |r| <= i < |s| :: IsTrimmed(s[i])
  {
    s[..TrimmedEnd(s, |s|)]
  }

  /** Where `s[..j]` ends once the characters up to U+0020 at its end are dropped. */
  function TrimmedEnd(s: string, j: nat): (n: nat)
    requires j <= |s|
    ensures n <= j && (n == 0 || !IsTrimmed(s[n - 1]))
    ensures forall i | n <= i < j :: IsTrimmed(s[i])
  {
    if j > 0 && IsTrimmed(s[j - 1]) then TrimmedEnd(s, j - 1) else j
  }

  function TrimStart(s: string): (r: string)
    ensures |r| <= |s| && r == s[|s| - |r|..]
    ensures r == [] || !IsTrimmed(r[0])
    ensures forall i | 0 <= i < |s| - |r| :: IsTrimmed(s[i])
  {
    s[TrimmedStart(s, 0)..]
  }

  /** Where `s[i..]` starts once the characters up to U+0020 at its start are dropped. */
  function TrimmedStart(s: string, i: nat): (n: nat)
    requires i <= |s|
    ensures i <= n <= |s| && (n == |s| || !IsTrimmed(s[n]))
    ensures forall j | i <= j < n :: IsTrimmed(s[j])
    decreases |s| - i
  {
    if i < |s| && IsTrimmed(s[i]) then TrimmedStart(s, i + 1) else i
  }

  function Trim(s: string): string
  {
    TrimStart(TrimEnd(s))
  }

  /** The last character of `Trim(s)` is the last character of `s` above U+0020. */
  lemma TrimLast(s: string)
    ensures Trim(s) == [] <==> forall i | 0 <= i < |s| :: IsTrimmed(s[i])
    ensures Trim(s) != [] ==> Trim(s)[|Trim(s)| - 1] == TrimEnd(s)[|TrimEnd(s)| - 1]
  {
    var e := TrimEnd(s);
    var t := TrimStart(e);
    if t == [] {
      assert e == [];
    }
  }

  // ---------------------------------------------------------------------------------
  // Capitalisation

  /** The index of the first character of `s` that is not whitespace, or `|s|` if none. */
  function FirstNonWhitespace(whitespace: set<char>, s: string): (k: nat)
    ensures k <= |s|
    ensures forall i | 0 <= i < k :: s[i] in whitespace
    ensures k < |s| ==> s[k] !in whitespace
  {
    FirstNonWhitespaceFrom(whitespace, s, 0)
  }

  /** The first index at or after `i` whose character is not whitespace, or `|s|`. */
  function FirstNonWhitespaceFrom(whitespace: set<char>, s: string, i: nat): (k: nat)
    requires i <= |s|
    ensures i <= k <= |s|
    ensures forall j | i <= j < k :: s[j] in whitespace
    ensures k < |s| ==> s[k] !in whitespace
    decreases |s| - i
  {
    if i == |s| || s[i] !in whitespace then i else FirstNonWhitespaceFrom(whitespace, s, i + 1)
  }

  /**
   * The left context asks for a capital: once trimmed it is empty or ends in an
   * end-of-sentence character.
   */
  predicate NeedsCapital(cc: CharClasses, leftContext: string)
  {
    var t := Trim(leftContext);
    t == [] || t[|t| - 1] in cc.endOfSentence
  }

  /**
   * `text` with its first non-whitespace character upper-cased when the context asks for
   * it: every other character is kept.
   */
  function Capitalized(cc: CharClasses, text: string, leftContext: string): (r: string)
    ensures |r| == |text|
    ensures forall i {:trigger r[i]} | 0 <= i < |text| ::
              r[i] == if i == FirstNonWhitespace(cc.whitespace, text) && NeedsCapital(cc, leftContext)
                      then cc.toUpper(text[i]) else text[i]
  {
    var k := FirstNonWhitespace(cc.whitespace, text);
    if NeedsCapital(cc, leftContext) && k < |text| then text[..k] + [cc.toUpper(text[k])] + text[k + 1..]
    else text
  }

  /** `capitalizeIfNeeded`; its scan for the first non-whitespace character is `FirstNonWhitespaceIndex`. */
  method CapitalizeIfNeeded(cc: CharClasses, text: string, leftContext: string) returns (r: string)
    ensures r == Capitalized(cc, text, leftContext)
  {
    var leftContextTrimmed := Trim(leftContext);
    if |leftContextTrimmed| == 0 || leftContextTrimmed[|leftContextTrimmed| - 1] in cc.endOfSentence {
      var firstNonWhitespaceIndex := FirstNonWhitespaceIndex(cc.whitespace, text);
      if firstNonWhitespaceIndex > -1 {
        var k := firstNonWhitespaceIndex;
        var newText := text[..k] + [cc.toUpper(text[k])];
        var rest := if k < |text| - 1 then text[k + 1..] else [];
        newText := newText + rest;
        CapitalizedAt(cc, text, leftContext, k, rest);
        return newText;
      }
      CapitalizedAllWhitespace(cc, text, leftContext);
    } else {
      CapitalizedNotNeeded(cc, text, leftContext);
    }
    return text;
  }

  /**
   * The early-exit scan of `capitalizeIfNeeded` for the first non-whitespace character:
   * its index, or -1 when there is none.
   */
  method FirstNonWhitespaceIndex(whitespace: set<char>, text: string) returns (index: int)
    ensures index == (if FirstNonWhitespace(whitespace, text) < |text| then FirstNonWhitespace(whitespace, text) else -1)
  {
    index := -1;
    var i := 0;
    while i < |text|
      invariant 0 <= i <= |text|
      invariant forall j | 0 <= j < i :: text[j] in whitespace
      invariant index == -1
    {
      if text[i] !in whitespace {
        index := i;
        break;
      }
      i := i + 1;
    }
    CommonWhitespacePrefix(whitespace, text, i);
  }

  /** The branch of `Capitalized` that upper-cases the character at `k`. */
  lemma CapitalizedAt(cc: CharClasses, text: string, leftContext: string, k: nat, rest: string)
    requires NeedsCapital(cc, leftContext) && k == FirstNonWhitespace(cc.whitespace, text) && k < |text|
    requires rest == if k < |text| - 1 then text[k + 1..] else []
    ensures Capitalized(cc, text, leftContext) == text[..k] + [cc.toUpper(text[k])] + rest
  {
  }

  /** A text of whitespace only is left alone. */
  lemma CapitalizedAllWhitespace(cc: CharClasses, text: string, leftContext: string)
    requires FirstNonWhitespace(cc.whitespace, text) == |text|
    ensures Capitalized(cc, text, leftContext) == text
  {
  }

  /** A text whose left context asks for no capital is left alone. */
  lemma CapitalizedNotNeeded(cc: CharClasses, text: string, leftContext: string)
    requires !NeedsCapital(cc, leftContext)
    ensures Capitalized(cc, text, leftContext) == text
  {
  }

  /** A whitespace run that ends at a non-whitespace character (or the end) is the first one. */
  lemma CommonWhitespacePrefix(whitespace: set<char>, s: string, i: nat)
    requires i <= |s|
    requires forall j | 0 <= j < i :: s[j] in whitespace
    requires i < |s| ==> s[i] !in whitespace
    ensures FirstNonWhitespace(whitespace, s) == i
  {
  }

  // ---------------------------------------------------------------------------------
  // Glue

  /**
   * `getGlue`: a single space separates the new text from its left context, except
   * before a one-letter text, at the start of the field, before whitespace or
   * punctuation, and after whitespace or a sticky character.
   */
  function GetGlue(cc: CharClasses, text: string, leftContext: string): (glue: string)
    requires |text| > 0
    ensures glue == "" || glue == " "
    ensures glue == " " <==>
              && !(|text| == 1 && text[0] in cc.letters)
              && leftContext != []
              && text[0] !in cc.whitespace && text[0] !in cc.punctuation
              && leftContext[|leftContext| - 1] !in cc.whitespace
              && leftContext[|leftContext| - 1] !in cc.sticky
  {
    var firstChar := text[0];
    if |text| == 1 && firstChar in cc.letters then ""
    else if |leftContext| == 0 || firstChar in cc.whitespace || firstChar in cc.punctuation then ""
    else
      var prevChar := leftContext[|leftContext| - 1];
      if prevChar in cc.whitespace || prevChar in cc.sticky then "" else " "
  }

  // ---------------------------------------------------------------------------------
  // Case mapping and case-insensitive search

  /** `toLowerCase`, character by character (so the length is kept). */
  function Lower(cc: CharClasses, s: string): (r: string)
    ensures |r| == |s|
  {
    seq(|s|, i requires 0 <= i < |s| => cc.toLower(s[i]))
  }

  /** `toUpperCase`, character by character. */
  function Upper(cc: CharClasses, s: string): (r: string)
    ensures |r| == |s|
  {
    seq(|s|, i requires 0 <= i < |s| => cc.toUpper(s[i]))
  }

  /** Lower-casing commutes with taking a slice. */
  lemma LowerSlice(cc: CharClasses, s: string, i: nat, j: nat)
    requires i <= j <= |s|
    ensures Lower(cc, s)[i..j] == Lower(cc, s[i..j])
  {
  }

  predicate OccursAt(hay: string, needle: string, i: int)
  {
    0 <= i && i + |needle| <= |hay| && hay[i..i + |needle|] == needle
  }

  /** The last occurrence of `needle` in `hay` starting at or before `i`, or -1. */
  function LastIndexAtOrBefore(hay: string, needle: string, i: int): (r: int)
    requires -1 <= i && i + |needle| <= |hay|
    ensures -1 <= r <= i
    ensures r == -1 || OccursAt(hay, needle, r)
    ensures forall j | r < j <= i :: !OccursAt(hay, needle, j)
    decreases i + 1
  {
    if i < 0 then -1
    else if OccursAt(hay, needle, i) then i
    else LastIndexAtOrBefore(hay, needle, i - 1)
  }

  /** Java's `String.lastIndexOf`: the greatest index where `needle` occurs, or -1. */
  function LastIndexOf(hay: string, needle: string): (r: int)
    ensures r == -1 || OccursAt(hay, needle, r)
    ensures forall j | OccursAt(hay, needle, j) :: j <= r
  {
    if |needle| > |hay| then -1 else LastIndexAtOrBefore(hay, needle, |hay| - |needle|)
  }

  // ---------------------------------------------------------------------------------
  // Joining utterances and the selection reference

  /** `TextUtils.join(sep, parts)`. */
  function Join(sep: string, parts: seq<string>): string
  {
    if |parts| == 0 then ""
    else if |parts| == 1 then parts[0]
    else parts[0] + sep + Join(sep, parts[1..])
  }

  /**
   * Every `{}` of `template` replaced, left to right, by `sel`; a template without `{}`
   * is written as it is, whatever the selection.
   */
  function SubstituteSel(template: string, sel: string): (r: string)
    ensures !HasSelRef(template) ==> r == template
  {
    if |template| < 2 then template
    else if template[0] == '{' && template[1] == '}' then
      assert HasSelRef(template) by { assert template[0] == '{' && template[0 + 1] == '}'; }
      sel + SubstituteSel(template[2..], sel)
    else
      TailHasNoSelRef(template);
      [template[0]] + SubstituteSel(template[1..], sel)
  }

  predicate HasSelRef(template: string)
  {
    exists i | 0 <= i < |template| - 1 :: template[i] == '{' && template[i + 1] == '}'
  }

  /** Dropping the first character of a template without `{}` leaves one without `{}`. */
  lemma TailHasNoSelRef(template: string)
    requires |template| >= 1
    ensures !HasSelRef(template) ==> !HasSelRef(template[1..])
  {
    var tail := template[1..];
    if !HasSelRef(template) {
      forall i | 0 <= i < |tail| - 1
        ensures !(tail[i] == '{' && tail[i + 1] == '}')
      {
        assert tail[i] == template[i + 1] && tail[i + 1] == template[i + 2];
      }
    }
  }

  /**
   * The first `{}` of a template is replaced by the selection: the text before it is
   * kept and the rest of the template is substituted in turn.
   */
  lemma {:induction false} SubstituteSelFirstRef(p: string, q: string, sel: string)
    requires !HasSelRef(p)
    ensures SubstituteSel(p + "{}" + q, sel) == p + sel + SubstituteSel(q, sel)
    decreases |p|
  {
    var rest := SubstituteSel(q, sel);
    if p == [] {
      RefHeadStep(q, sel);
      assert p + "{}" + q == "{}" + q;
      assert p + sel + rest == sel + rest;
    } else {
      var tail := p[1..];
      PlainHeadStep(p, q, sel);
      SubstituteSelFirstRef(tail, q, sel);
      ConsConcat(p, sel, rest);
    }
  }

  /** Putting the first character of `p` back in front of the rest of a concatenation. */
  lemma ConsConcat(p: string, a: string, b: string)
    requires p != []
    ensures [p[0]] + (p[1..] + a + b) == p + a + b
  {
    assert [p[0]] + p[1..] == p;
  }

  /** A template that starts with `{}` starts with the selection. */
  lemma RefHeadStep(q: string, sel: string)
    ensures SubstituteSel("{}" + q, sel) == sel + SubstituteSel(q, sel)
  {
    var t := "{}" + q;
    assert t[0] == '{' && t[1] == '}' && t[2..] == q;
  }

  /** Before the first `{}`, a character of the template is copied and the scan goes on. */
  lemma PlainHeadStep(p: string, q: string, sel: string)
    requires p != [] && !HasSelRef(p)
    ensures !HasSelRef(p[1..])
    ensures SubstituteSel(p + "{}" + q, sel) == [p[0]] + SubstituteSel(p[1..] + "{}" + q, sel)
  {
    var t := p + "{}" + q;
    assert t[0] == p[0];
    assert !(t[0] == '{' && t[1] == '}') by {
      if |p| >= 2 {
        assert t[1] == p[1];
        assert !(p[0] == '{' && p[0 + 1] == '}');
      } else {
        assert t[1] == '{';
      }
    }
    TailHasNoSelRef(p);
    assert t[1..] == p[1..] + "{}" + q;
  }
}
