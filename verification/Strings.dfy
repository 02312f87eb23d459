/** Substring search and decimal reading from the runtime library. */
module Strings {
  import opened Util
  import opened Numerals
  import opened PrintfFormat
  import opened PrintfText
  import S = IntegerStandard
  import I = PrintfInteger
  import R = PrintfResults

  // ---------- strstr ----------

  predicate OccursAt(str: string, substring: string, o: nat) {
    o + |substring| <= |str| && str[o..o + |substring|] == substring
  }

  /** `strlen` on the characters before the terminator. */
  method Strlen(str: string) returns (len: nat)
    ensures len == |str|
  {
    len := 0;
    while len < |str|
      invariant 0 <= len <= |str|
    {
      len := len + 1;
    }
  }

  /** The least offset at which the substring occurs, and nothing exactly when it occurs nowhere. */
  method Strstr(text: string, substring: string) returns (r: Option<nat>)
    ensures r.Some? ==>
      OccursAt(text, substring, r.value) && forall o :: 0 <= o < r.value ==> !OccursAt(text, substring, o)
    ensures r.None? ==> forall o: nat :: !OccursAt(text, substring, o)
  {
    var str, a, b := 0, 0, 0;
    while true
      invariant 0 <= str && a == str + b <= |text| && b <= |substring|
      invariant text[str..a] == substring[..b]
      invariant forall o :: 0 <= o < str ==> !OccursAt(text, substring, o)
      decreases |text| - str, |substring| - b
    {
      if b == |substring| {
        return Some(str);
      }
      if a == |text| {
        forall o: nat
          ensures !OccursAt(text, substring, o)
        {
          if o >= str { assert o + |substring| > |text|; }
        }
        return None;
      }
      if text[a] != substring[b] {
        MismatchHere(text, substring, str, b);
        str := str + 1;
        a, b := str, 0;
      } else {
        assert text[str..a + 1] == text[str..a] + [text[a]];
        a, b := a + 1, b + 1;
      }
    }
  }

  lemma MismatchHere(text: string, substring: string, str: nat, b: nat)
    requires b < |substring| && str + b < |text| && text[str + b] != substring[b]
    ensures !OccursAt(text, substring, str)
  {
    assert str + |substring| <= |text| ==> text[str..str + |substring|][b] == text[str + b];
  }

  // ---------- string_to_int ----------

  /** A 32-bit signed result; nothing where the arithmetic would overflow. */
  function Checked(x: int): Option<int> { if -TWO_31 <= x < TWO_31 then Some(x) else None }

  /** `res * 10 + str[i] - '0'`, evaluated left to right. */
  function AddDigit(res: int, c: char): Option<int> {
    var times := Checked(res * 10);
    if times.None? then None
    else
      var plus := Checked(times.value + c as int);
      if plus.None? then None else Checked(plus.value - '0' as int)
  }

  function ParseInt(s: string): Option<int> {
    if s == "" then Some(0)
    else
      var r := ParseInt(s[..|s| - 1]);
      if r.None? then None else AddDigit(r.value, s[|s| - 1])
  }

  lemma {:induction false} ParseIntFails(s: string, i: nat)
    requires i <= |s| && ParseInt(s[..i]).None?
    ensures ParseInt(s).None?
    decreases |s|
  {
    if i < |s| {
      assert s[..|s| - 1][..i] == s[..i];
      ParseIntFails(s[..|s| - 1], i);
    } else {
      assert s[..i] == s;
    }
  }

  /** Nothing if some intermediate value overflows an int. */
  method StringToInt(str: string) returns (r: Option<int>)
    ensures r == ParseInt(str)
  {
    var res := 0;
    for i := 0 to |str|
      invariant ParseInt(str[..i]) == Some(res)
    {
      assert str[..i + 1][..i] == str[..i];
      var next := AddDigit(res, str[i]);
      if next.None? {
        ParseIntFails(str, i + 1);
        return None;
      }
      res := next.value;
    }
    assert str[..|str|] == str;
    r := Some(res);
  }

  /** What the code adds up, the first character counting most; a character need not be a digit. */
  function Sum(s: string): int {
    if s == "" then 0 else (s[0] as int - '0' as int) * Pow(10, |s| - 1) + Sum(s[1..])
  }

  lemma {:induction false} SumSnoc(s: string, c: char)
    ensures Sum(s + [c]) == Sum(s) * 10 + (c as int - '0' as int)
  {
    var d := c as int - '0' as int;
    if s == "" {
      assert s + [c] == [c] && [c][1..] == "" && Pow(10, 0) == 1;
    } else {
      assert (s + [c])[1..] == s[1..] + [c] && (s + [c])[0] == s[0];
      SumSnoc(s[1..], c);
      assert Pow(10, |s|) == 10 * Pow(10, |s| - 1);
      MulAssoc(s[0] as int - '0' as int, Pow(10, |s| - 1), 10);
    }
  }

  /** Of every string, digits or not, the number read is that sum. */
  lemma {:induction false} ParsesSum(s: string)
    ensures ParseInt(s).Some? ==> ParseInt(s).value == Sum(s)
    decreases |s|
  {
    if s != "" {
      var n := |s| - 1;
      ParsesSum(s[..n]);
      SumSnoc(s[..n], s[n]);
      assert s[..n] + [s[n]] == s;
    }
  }

  /** One more digit overflows exactly when the sum is within 48 of the limit. */
  lemma AddsDigit(q: nat, d: nat)
    requires d < 10
    ensures AddDigit(q, DigitChar(d, false)) == if q * 10 + d + 48 < TWO_31 then Some(q * 10 + d) else None
  {}

  lemma ParseSnoc(s: string, c: char)
    ensures ParseInt(s + [c]) == if ParseInt(s).None? then None else AddDigit(ParseInt(s).value, c)
  {
    assert (s + [c])[..|s|] == s;
  }

  lemma ParseStep(s: string, q: nat, d: nat)
    requires d < 10 && ParseInt(s) == if q <= TWO_31 - 1 - 48 then Some(q) else None
    ensures ParseInt(s + [DigitChar(d, false)]) == if q * 10 + d <= TWO_31 - 1 - 48 then Some(q * 10 + d) else None
  {
    hide *;
    ParseSnoc(s, DigitChar(d, false));
    AddsDigit(q, d);
  }

  /** Reading a decimal numeral works without overflow exactly up to INT_MAX - 48, because '0' is subtracted last. */
  lemma {:induction false} ParsesNumeralIff(n: nat)
    ensures ParseInt(Numeral(n, 10, false)) == if n <= TWO_31 - 1 - 48 then Some(n) else None
  {
    DivShrinks(n, 10);
    var c := DigitChar(n % 10, false);
    if n < 10 {
      DivModUnique(n, 10, 0, n);
      ParseStep("", 0, n);
      assert "" + [c] == [c];
    } else {
      assert Numeral(n, 10, false) == Numeral(n / 10, 10, false) + [c];
      hide *;
      ParsesNumeralIff(n / 10);
      ParseStep(Numeral(n / 10, 10, false), n / 10, n % 10);
    }
  }

  /** The failing case: an int that the code reads with an overflow. */
  lemma OverflowsBelowLimit()
    ensures 2147483600 < TWO_31 && ParseInt(Numeral(2147483600, 10, false)).None?
  {
    ParsesNumeralIff(2147483600);
  }

  /** `string_to_int` undoes a plain %d of n for exactly those numbers. */
  lemma StringToIntUndoesPrintf(n: nat, rest: seq<Arg>, front: FloatFront)
    requires n < TWO_31
    ensures ParseInt(ItemText(Directive("", NoSize, false, NoSize, "", 'd'), [Word(n)] + rest, front)) == Some(n)
      <==> n <= TWO_31 - 1 - 48
  {
    PlainInt(n, rest, front);
    ParsesNumeralIff(n);
  }

  lemma PlainInt(n: nat, rest: seq<Arg>, front: FloatFront)
    requires n < TWO_31
    ensures ItemText(Directive("", NoSize, false, NoSize, "", 'd'), [Word(n)] + rest, front) == Numeral(n, 10, false)
  {
    var d := Directive("", NoSize, false, NoSize, "", 'd');
    var args := [Word(n)] + rest;
    var f := Resolve(d, args);
    R.PlainFields("", 'd', args);
    assert WordOf(args) == n;
    assert !f.flags.isLong && !f.flags.isLongLong && !f.flags.isChar && !f.flags.isShort;
    DivModUnique(n, TWO_32, 0, n);
    assert ItemText(d, args, front) == I.IntegerText('d', n, 0, 0, f.flags);
    hide Resolve, ItemText, I.IntegerText, S.Text, WordOf, Numeral;
    I.MeetsStandardInRange('d', n, 0, 0, f.flags);
    R.PlainSigned(n, I.SpecOf(0, 0, f.flags));
    assert "" + Numeral(n, 10, false) == Numeral(n, 10, false);
  }
}
