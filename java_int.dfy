/**
 * The integer conversions `incSel` relies on: `Integer.parseInt`, `String.valueOf(int)`
 * and Java's 32-bit wrap-around of `+ 1`. Only the ASCII digits '0'..'9' are modelled.
 */
module JavaInt {
  import opened Wrappers

  const MinInt32: int := -0x8000_0000
  const MaxInt32: int := 0x7fff_ffff

  predicate InInt32(n: int) { MinInt32 <= n <= MaxInt32 }

  /** Two's-complement wrap-around of a mathematical integer into the `int` range. */
  function Wrap32(n: int): (r: int)
    ensures InInt32(r)
    ensures InInt32(n) ==> r == n
    ensures (r - n) % 0x1_0000_0000 == 0
  {
    (n - MinInt32) % 0x1_0000_0000 + MinInt32
  }

  /** Java's `v + 1` on an `int`: the largest value wraps to the smallest. */
  function Increment(v: int): (r: int)
    requires InInt32(v)
    ensures InInt32(r) && r == Wrap32(v + 1)
    ensures v < MaxInt32 ==> r == v + 1
  {
    if v == MaxInt32 then MinInt32 else v + 1
  }

  predicate IsDigit(c: char) { '0' <= c <= '9' }

  predicate AllDigits(s: string) { forall i | 0 <= i < |s| :: IsDigit(s[i]) }

  function DigitValue(c: char): nat
    requires IsDigit(c)
  {
    (c as int) - ('0' as int)
  }

  function DigitChar(d: nat): (c: char)
    requires d < 10
    ensures IsDigit(c) && DigitValue(c) == d
  {
    (('0' as int) + d) as char
  }

  /** The value of a string of decimal digits, read left to right. */
  function DigitsValue(s: string): nat
    requires AllDigits(s)
  {
    if s == [] then 0 else DigitsValue(s[..|s| - 1]) * 10 + DigitValue(s[|s| - 1])
  }

  /** `Integer.parseInt(s)`: an optional sign followed by at least one digit, within range. */
  function ParseInt(s: string): (r: Option<int>)
    ensures r.Some? ==> InInt32(r.value)
  {
    if |s| == 0 then None
    else if s[0] == '-' || s[0] == '+' then
      if |s| == 1 || !AllDigits(s[1..]) then None
      else
        var magnitude: int := DigitsValue(s[1..]);
        var v := if s[0] == '-' then -magnitude else magnitude;
        if InInt32(v) then Some(v) else None
    else if AllDigits(s) then
      var v := DigitsValue(s);
      if v <= MaxInt32 then Some(v) else None
    else None
  }

  /** The shortest decimal digits of `n`. */
  function NatToString(n: nat): (s: string)
    ensures |s| > 0 && AllDigits(s)
  {
    if n < 10 then [DigitChar(n)] else NatToString(n / 10) + [DigitChar(n % 10)]
  }

  /** `String.valueOf(int)`. */
  function IntToString(n: int): string
  {
    if n < 0 then "-" + NatToString(-n) else NatToString(n)
  }

  lemma {:induction false} DigitsValueOfNatToString(n: nat)
    ensures DigitsValue(NatToString(n)) == n
  {
    var s := NatToString(n);
    if n >= 10 {
      DigitsValueOfNatToString(n / 10);
      assert s[..|s| - 1] == NatToString(n / 10);
    }
  }

  /** `Integer.parseInt` reads back what `String.valueOf` writes, for every `int`. */
  lemma ParseIntToString(n: int)
    requires InInt32(n)
    ensures ParseInt(IntToString(n)) == Some(n)
  {
    var s := IntToString(n);
    if n < 0 {
      DigitsValueOfNatToString(-n);
      assert s[1..] == NatToString(-n);
    } else {
      DigitsValueOfNatToString(n);
      assert IsDigit(s[0]);
    }
  }

  /** `Integer.parseInt(s) + 1` wraps from the largest `int` to the smallest. */
  lemma IncrementWraps()
    ensures ParseInt(IntToString(MaxInt32)) == Some(MaxInt32)
    ensures Increment(MaxInt32) == MinInt32
    ensures IntToString(Increment(MaxInt32)) == "-2147483648"
  {
    ParseIntToString(MaxInt32);
    MinInt32Digits();
  }

  /** The digits of 2^31, written one at a time from the most significant. */
  lemma MinInt32Digits()
    ensures NatToString(0x8000_0000) == "2147483648"
  {
    assert NatToString(2) == "2";
    assert NatToString(21) == NatToString(2) + "1";
    assert NatToString(214) == NatToString(21) + "4";
    assert NatToString(2147) == NatToString(214) + "7";
    assert NatToString(21474) == NatToString(2147) + "4";
    assert NatToString(214748) == NatToString(21474) + "8";
    assert NatToString(2147483) == NatToString(214748) + "3";
    assert NatToString(21474836) == NatToString(2147483) + "6";
    assert NatToString(214748364) == NatToString(21474836) + "4";
    assert NatToString(2147483648) == NatToString(214748364) + "8";
  }
}
