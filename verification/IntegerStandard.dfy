/**
 What an integer conversion should print, after section 7.21.6.1 of ISO/IEC 9899:2011:
 a sign, a base prefix, leading zeros, digits, and padding to the field width.
 */
module IntegerStandard {
  import opened Util
  import opened Numerals

  /** The five flags, the field width and the precision of a directive. */
  datatype Spec = Spec(minus: bool, plus: bool, space: bool, hash: bool, zero: bool, width: nat, precision: Option<nat>)

  function Base(conv: char): nat {
    if conv == 'o' then 8 else if conv == 'x' || conv == 'X' then 16 else 10
  }

  /** The conversions that take an argument: the standard's, and b. */
  const WITH_ARGUMENT := "diouxXbfFeEgGcsp"

  predicate IsSigned(conv: char) { conv == 'd' || conv == 'i' }

  predicate IsInteger(conv: char) {
    conv == 'd' || conv == 'i' || conv == 'u' || conv == 'x' || conv == 'X' || conv == 'o'
  }

  function Sign(conv: char, value: int, spec: Spec): string {
    if !IsSigned(conv) then ""
    else if value < 0 then "-"
    else if spec.plus then "+"
    else if spec.space then " "
    else ""
  }

  function Prefix(conv: char, value: int, spec: Spec): string {
    if spec.hash && value != 0 && conv == 'x' then "0x"
    else if spec.hash && value != 0 && conv == 'X' then "0X"
    else ""
  }

  /** At least `precision` digits, one by default; zero with precision zero has none. */
  function Digits(conv: char, value: int, spec: Spec): string {
    var magnitude := if value < 0 then -value else value;
    var numeral := if magnitude == 0 then "" else Numeral(magnitude, Base(conv), conv == 'X');
    var wanted := if spec.precision.Some? then spec.precision.value else 1;
    var digits := Repeat('0', Max(0, wanted - |numeral|)) + numeral;
    // the alternative octal form raises the precision just enough to lead with a zero
    if conv == 'o' && spec.hash && (digits == "" || digits[0] != '0') then "0" + digits else digits
  }

  /** The zero flag is ignored beside a minus flag or a precision. */
  predicate ZeroPads(spec: Spec) { spec.zero && !spec.minus && spec.precision.None? }

  function Text(conv: char, value: int, spec: Spec): string {
    var head := Sign(conv, value, spec) + Prefix(conv, value, spec);
    var digits := Digits(conv, value, spec);
    var gap := Max(0, spec.width - |head| - |digits|);
    if spec.minus then head + digits + Repeat(' ', gap)
    else if ZeroPads(spec) then head + Repeat('0', gap) + digits
    else Repeat(' ', gap) + head + digits
  }
}
