/** Positional numerals: the digit loop of `_ntoa` against the usual most-significant-first text. */
module Numerals {
  import opened Util

  function DigitChar(d: nat, upper: bool): (c: char)
    requires d < 16
    ensures c != ' ' && c != '+' && c != '-'
    ensures c == '0' <==> d == 0
    ensures DigitValue(c) == d
  {
    if d < 10 then ('0' as int + d) as char
    else if upper then ('A' as int + d - 10) as char
    else ('a' as int + d - 10) as char
  }

  /** The digits of both alphabets, written out. */
  lemma DigitCharIs(d: nat)
    requires d < 16
    ensures DigitChar(d, false) == "0123456789abcdef"[d] && DigitChar(d, true) == "0123456789ABCDEF"[d]
  {}

  function DigitValue(c: char): nat {
    if '0' <= c <= '9' then c as int - '0' as int
    else if 'a' <= c <= 'f' then c as int - 'a' as int + 10
    else if 'A' <= c <= 'F' then c as int - 'A' as int + 10
    else 0
  }

  /** The number a most-significant-first digit text denotes. */
  function ValueOf(s: string, base: nat): nat {
    if s == "" then 0 else ValueOf(s[..|s| - 1], base) * base + DigitValue(s[|s| - 1])
  }

  lemma ValueOfSnoc(s: string, c: char, base: nat)
    ensures ValueOf(s + [c], base) == ValueOf(s, base) * base + DigitValue(c)
  {
    assert (s + [c])[..|s|] == s;
  }

  /** The first digit counts most. */
  lemma {:induction false} ValueOfCons(c: char, s: string, base: nat)
    ensures ValueOf([c] + s, base) == DigitValue(c) * Pow(base, |s|) + ValueOf(s, base)
    decreases |s|
  {
    if s == "" {
      assert [c] + s == [c] && [c][..0] == "" && ValueOf([c], base) == ValueOf("", base) * base + DigitValue(c);
    } else {
      var k := |s| - 1;
      assert ([c] + s)[..|s|] == [c] + s[..k] && ([c] + s)[|s|] == s[k];
      assert ValueOf([c] + s, base) == ValueOf([c] + s[..k], base) * base + DigitValue(s[k]);
      assert Pow(base, |s|) == base * Pow(base, k);
      ValueOfCons(c, s[..k], base);
      assert ValueOf(s, base) == ValueOf(s[..k], base) * base + DigitValue(s[k]);
      hide *;
      Spread(DigitValue(c), Pow(base, k), ValueOf(s[..k], base), base);
    }
  }

  lemma Spread(d: nat, p: nat, v: nat, b: nat)
    ensures (d * p + v) * b == d * (b * p) + v * b
  {
    MulAssoc(d, p, b);
  }

  /** The usual numeral of `value`. */
  function Numeral(value: nat, base: nat, upper: bool): (s: string)
    requires 2 <= base <= 16
    ensures |s| >= 1
  {
    DivShrinks(value, base);
    if value < base then [DigitChar(value, upper)]
    else Numeral(value / base, base, upper) + [DigitChar(value % base, upper)]
  }

  lemma DivShrinks(value: nat, base: nat)
    requires 2 <= base
    ensures value == value / base * base + value % base
    ensures value > 0 ==> value / base < value
    ensures value / base == 0 <==> value < base
  {
    MulLe(2, base, value / base);
    if value < base { DivModUnique(value, base, 0, value); }
  }

  /** Only digits of the base, and no leading zero except in the numeral of zero. */
  lemma {:induction false} NumeralDigits(value: nat, base: nat, upper: bool)
    requires 2 <= base <= 16
    ensures var s := Numeral(value, base, upper);
      (s[0] == '0' <==> value == 0)
      && forall i :: 0 <= i < |s| ==> s[i] == DigitChar(DigitValue(s[i]) % 16, upper) && DigitValue(s[i]) < base
  {
    if value >= base {
      DivShrinks(value, base);
      NumeralDigits(value / base, base, upper);
    }
  }

  /** Reading a numeral back gives the number: with `NumeralDigits`, this pins the text. */
  lemma {:induction false} NumeralDenotes(value: nat, base: nat, upper: bool)
    requires 2 <= base <= 16
    ensures ValueOf(Numeral(value, base, upper), base) == value
  {
    DivShrinks(value, base);
    var c := DigitChar(value % base, upper);
    if value < base {
      DivModUnique(value, base, 0, value);
      ValueOfSnoc("", c, base);
      assert "" + [c] == [c];
    } else {
      var rest := Numeral(value / base, base, upper);
      NumeralDenotes(value / base, base, upper);
      ValueOfSnoc(rest, c, base);
    }
  }

  /** A number below base^k without its last digit is below base^(k-1). */
  lemma DropDigitBound(value: nat, base: nat, k: nat)
    requires 2 <= base <= value && k >= 1 && value < Pow(base, k)
    ensures k >= 2 && value / base < Pow(base, k - 1)
  {
    DivShrinks(value, base);
    assert Pow(base, 0) == 1;
    var p := Pow(base, k - 1);
    assert Pow(base, k) == base * p;
    if value / base >= p {
      MulLe(p, value / base, base);
      assert false;
    }
  }

  lemma {:induction false} NumeralLength(value: nat, base: nat, upper: bool, k: nat)
    requires 2 <= base <= 16 && k >= 1 && value < Pow(base, k)
    ensures |Numeral(value, base, upper)| <= k
  {
    if value >= base {
      DropDigitBound(value, base, k);
      DivShrinks(value, base);
      NumeralLength(value / base, base, upper, k - 1);
    }
  }

  /** How many digits a 64-bit word can have. */
  function WordDigits(base: nat): nat { if base == 8 then 22 else if base == 10 then 20 else 16 }

  /** Every 64-bit word has at most 22 octal, 20 decimal or 16 hexadecimal digits. */
  lemma WordLength(value: u64, base: nat, upper: bool)
    requires base == 8 || base == 10 || base == 16
    ensures |Numeral(value, base, upper)| <= WordDigits(base)
    ensures value < Pow(base, 32)
  {
    var k := WordDigits(base);
    WordBound(base);
    PowMonotone(base, k, 32);
    NumeralLength(value, base, upper, k);
  }

  lemma WordBound(base: nat)
    requires base == 8 || base == 10 || base == 16
    ensures TWO_64 <= Pow(base, WordDigits(base))
  {
    var p4 := Pow(base, 4);
    assert p4 == base * (base * (base * (base * Pow(base, 0))));
    assert p4 == if base == 8 then 4096 else if base == 10 then 10000 else 65536;
    PowAdd(base, 4, 4);
    PowAdd(base, 8, 8);
    assert Pow(base, 16) == (p4 * p4) * (p4 * p4);
    assert Pow(base, 16) == if base == 8 then 281474976710656 else if base == 10 then 10000000000000000 else TWO_64;
    PowAdd(base, 16, 4);
    PowAdd(base, 20, 2);
    assert Pow(base, 2) == base * (base * Pow(base, 0));
  }

  /** What the do-while of `_ntoa` leaves in its buffer: least significant digit first, at most `cap` of them. */
  function LsdDigits(value: nat, base: nat, upper: bool, cap: nat): (s: string)
    requires 2 <= base <= 16 && cap >= 1
    decreases cap
  {
    [DigitChar(value % base, upper)]
    + if value / base != 0 && cap > 1 then LsdDigits(value / base, base, upper, cap - 1) else []
  }

  lemma ReverseCons(c: char, s: string)
    ensures Reverse([c] + s) == Reverse(s) + [c]
  {
    ReverseConcat([c], s);
  }

  /** The generated digits denote the value modulo base^cap, in every base. */
  lemma {:induction false} LsdDigitsDenote(value: nat, base: nat, upper: bool, cap: nat)
    requires 2 <= base <= 16 && cap >= 1
    ensures ValueOf(Reverse(LsdDigits(value, base, upper, cap)), base) == value % Pow(base, cap)
    ensures |LsdDigits(value, base, upper, cap)| <= cap
    decreases cap
  {
    hide Reverse, ValueOf;
    var c := DigitChar(value % base, upper);
    var more := value / base != 0 && cap > 1;
    var rest := if more then LsdDigits(value / base, base, upper, cap - 1) else [];
    assert LsdDigits(value, base, upper, cap) == [c] + rest;
    hide LsdDigits, DigitChar, Pow;
    assert ValueOf(Reverse([c] + rest), base) == ValueOf(Reverse(rest), base) * base + value % base by {
      ReverseCons(c, rest);
      ValueOfSnoc(Reverse(rest), c, base);
    }
    assert value % Pow(base, cap) == value / base % Pow(base, cap - 1) * base + value % base
      by { ModStep(value, base, cap - 1); }
    if more {
      LsdDigitsDenote(value / base, base, upper, cap - 1);
    } else {
      EmptyDenotes(base);
      PowZero(base);
      ZeroOrOne(value / base, Pow(base, cap - 1));
    }
  }

  lemma PowZero(base: nat)
    ensures Pow(base, 0) == 1
  {}

  lemma EmptyDenotes(base: nat)
    ensures ValueOf(Reverse<char>([]), base) == 0
  {
    assert Reverse<char>([]) == [];
  }

  lemma ZeroOrOne(x: nat, m: nat)
    requires m > 0 && (x == 0 || m == 1)
    ensures x % m == 0
  {
    DivModUnique(x, m, x, 0);
  }

  /** A value that fits is written as its numeral, reversed. */
  lemma {:induction false} LsdDigitsAreNumeral(value: nat, base: nat, upper: bool, cap: nat)
    requires 2 <= base <= 16 && cap >= 1 && value < Pow(base, cap)
    ensures Reverse(LsdDigits(value, base, upper, cap)) == Numeral(value, base, upper)
    decreases cap
  {
    DivShrinks(value, base);
    var c := DigitChar(value % base, upper);
    if value < base {
      assert LsdDigits(value, base, upper, cap) == [c] + [] == [c];
      assert Reverse([c]) == [c];
    } else {
      DropDigitBound(value, base, cap);
      LsdDigitsAreNumeral(value / base, base, upper, cap - 1);
      ReverseCons(c, LsdDigits(value / base, base, upper, cap - 1));
    }
  }

  /** Leading zeros do not change what digits denote. */
  lemma {:induction false} LeadingZeros(n: nat, digits: string, base: nat)
    ensures ValueOf(Repeat('0', n) + digits, base) == ValueOf(digits, base)
  {
    if digits != "" {
      var k := |digits| - 1;
      LeadingZeros(n, digits[..k], base);
      assert (Repeat('0', n) + digits)[..n + k] == Repeat('0', n) + digits[..k];
    } else if n > 0 {
      LeadingZeros(n - 1, "", base);
      assert (Repeat('0', n) + "")[..n - 1] == Repeat('0', n - 1) + "";
    } else {
      assert Repeat('0', n) + "" == "";
    }
  }
}
