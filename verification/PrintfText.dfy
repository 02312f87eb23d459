/** What a scanned format prints for a list of arguments. */
module PrintfText {
  import opened Util
  import opened Numerals
  import opened PrintfFlags
  import opened PrintfFormat
  import S = IntegerStandard
  import I = PrintfInteger

  /**
   A variadic argument: a machine word, or a pointer to characters, with the memory from there on to the end
   of its object. A missing argument reads as zero.
   */
  datatype Arg = Word(bits: u64) | Chars(mem: string)

  /** The characters before the first NUL, or all of the memory if it holds none. */
  function TextLength(mem: string): (n: nat)
    ensures n <= |mem| && (n < |mem| ==> mem[n] == NUL)
    ensures forall k :: 0 <= k < n ==> mem[k] != NUL
  {
    if mem == "" || mem[0] == NUL then 0 else 1 + TextLength(mem[1..])
  }

  /** The string a pointer stands for. */
  function CString(mem: string): string { mem[..TextLength(mem)] }

  /**
   The floating-point front end, which is not modelled: what it prints for value, precision, width and
   flags, and whether exponential notation is preferred.
   */
  type FloatFront = (int, nat, nat, Flags, bool) -> string

  function WordOf(args: seq<Arg>): u64 { if args != [] && args[0].Word? then args[0].bits else 0 }

  function Rest(args: seq<Arg>): seq<Arg> { if args == [] then [] else args[1..] }

  // ---------- flags, width, precision and length ----------

  function FlagsOf(flags: string): Flags {
    NO_FLAGS.(zeropad := '0' in flags, left := '-' in flags,
              plus := '+' in flags, space := ' ' in flags, hash := '#' in flags)
  }

  function LengthFlags(length: string, f: Flags): Flags {
    f.(isLong := length != "" && length[0] != 'h',
       isLongLong := length == "ll",
       isShort := length != "" && length[0] == 'h',
       isChar := length == "hh")
  }

  /** Flags, width and precision once every '*' has taken its argument. */
  datatype Fields = Fields(flags: Flags, width: nat, precision: nat, args: seq<Arg>)

  function ResolveWidth(flags: Flags, width: Size, args: seq<Arg>): Fields {
    match width
    case NoSize => Fields(flags, 0, 0, args)
    case Digits(text) => Fields(flags, Atoi(text), 0, args)
    case Star =>
      var w := Signed(WordOf(args), TWO_32);
      Fields(flags.(left := flags.left || w < 0), if w < 0 then -w else w, 0, Rest(args))
  }

  function ResolvePrecision(f: Fields, dot: bool, precision: Size): Fields {
    if !dot then f
    else
      var flags := f.flags.(precision := true);
      match precision
      case NoSize => f.(flags := flags)
      case Digits(text) => f.(flags := flags, precision := Atoi(text))
      case Star => f.(flags := flags, precision := Max(0, Signed(WordOf(f.args), TWO_32)), args := Rest(f.args))
  }

  function Resolve(d: Item, args: seq<Arg>): Fields
    requires d.Directive?
  {
    var f := ResolvePrecision(ResolveWidth(FlagsOf(d.flags), d.width, args), d.dot, d.precision);
    f.(flags := LengthFlags(d.length, f.flags))
  }

  // ---------- conversions ----------

  /** The argument of an integer directive, narrowed to the type its length names. */
  function IntegerValue(conv: char, f: Flags, bits: u64): (v: int)
    ensures if conv == 'd' || conv == 'i' then -TWO_63 <= v < TWO_63 else 0 <= v < TWO_64
  {
    var modulus :=
      if f.isLongLong || f.isLong then TWO_64 else if f.isChar then TWO_8 else if f.isShort then TWO_16 else TWO_32;
    if conv == 'd' || conv == 'i' then Signed(bits, modulus) else bits % modulus
  }

  /** `l` columns of text padded with spaces to the field width. */
  function Spaced(text: string, l: nat, width: nat, left: bool): string {
    var gap := Repeat(' ', Max(0, width - l));
    if left then text + gap else gap + text
  }

  function CharText(f: Fields): string {
    Spaced([(WordOf(f.args) % TWO_8) as char], 1, f.width, f.flags.left)
  }

  /** The part of a string a precision lets through. */
  function Shown(text: string, f: Fields): string {
    if f.flags.precision then text[..Min(|text|, f.precision)] else text
  }

  /** `_strnlen_s`: the bounded length, kept in 32 bits. */
  function StrnlenOf(length: nat, maxsize: nat): nat { Min(length, maxsize) % TWO_32 }

  /** The bound `_strnlen_s` is given. */
  function ScanBound(f: Fields): nat { if f.precision != 0 then f.precision else TWO_64 - 1 }

  /** The columns the code counts for a string. */
  function ShownColumns(text: string, f: Fields): nat {
    var l := StrnlenOf(|text|, ScanBound(f));
    if f.flags.precision then Min(l, f.precision) else l
  }

  function StringText(f: Fields): string {
    if f.args != [] && f.args[0].Chars? then
      var text := CString(f.args[0].mem);
      Spaced(Shown(text, f), ShownColumns(text, f), f.width, f.flags.left)
    else I.Field(")llun(", f.width, f.flags)
  }

  const POINTER_WIDTH := 18

  function PointerText(f: Fields): string {
    var flags := f.flags.(zeropad := true, pointer := true);
    if WordOf(f.args) == 0 then I.Field(")lin(", POINTER_WIDTH, flags)
    else I.NtoaText(WordOf(f.args), false, BASE_HEX, f.precision, POINTER_WIDTH, flags)
  }

  predicate IsFloat(c: char) { c == 'f' || c == 'F' || c == 'e' || c == 'E' || c == 'g' || c == 'G' }

  function FloatFlags(c: char, f: Flags): Flags {
    f.(upper := c == 'F' || c == 'E' || c == 'G', adaptExp := c == 'g' || c == 'G')
  }

  /** `PRINTF_PREFER_EXPONENTIAL` */
  predicate PrefersExponential(c: char) { c == 'e' || c == 'E' || c == 'g' || c == 'G' }

  predicate TakesArgument(c: char) {
    S.IsInteger(c) || c == 'b' || IsFloat(c) || c == 'c' || c == 's' || c == 'p'
  }

  function Converted(conv: char, f: Fields, front: FloatFront): string {
    if S.IsInteger(conv) || conv == 'b' then
      I.IntegerText(conv, IntegerValue(conv, f.flags, WordOf(f.args)), f.precision, f.width, f.flags)
    else if IsFloat(conv) then
      front(Signed(WordOf(f.args), TWO_32), f.precision, f.width, FloatFlags(conv, f.flags), PrefersExponential(conv))
    else if conv == 'c' then CharText(f)
    else if conv == 's' then StringText(f)
    else if conv == 'p' then PointerText(f)
    else [conv]
  }

  // ---------- whole formats ----------

  function ItemText(item: Item, args: seq<Arg>, front: FloatFront): string {
    if item.Literal? then [item.c] else Converted(item.conv, Resolve(item, args), front)
  }

  function ItemArgs(item: Item, args: seq<Arg>): seq<Arg> {
    if item.Literal? then args
    else
      var left := Resolve(item, args).args;
      if TakesArgument(item.conv) then Rest(left) else left
  }

  /** The text of a list of items, each taking its arguments from what the ones before it left. */
  function Output(items: seq<Item>, args: seq<Arg>, front: FloatFront): string {
    if items == [] then ""
    else ItemText(items[0], args, front) + Output(items[1..], ItemArgs(items[0], args), front)
  }

  function ArgsAfter(items: seq<Item>, args: seq<Arg>): seq<Arg> {
    if items == [] then args else ArgsAfter(items[1..], ItemArgs(items[0], args))
  }

  function FormatText(format: string, args: seq<Arg>, front: FloatFront): string
    requires Complete(format)
  {
    Output(Scan(format).value, args, front)
  }

  lemma {:induction false} OutputConcat(a: seq<Item>, b: seq<Item>, args: seq<Arg>, front: FloatFront)
    ensures Output(a + b, args, front) == Output(a, args, front) + Output(b, ArgsAfter(a, args), front)
  {
    if a == [] {
      assert a + b == b;
    } else {
      hide ItemText, ItemArgs;
      assert (a + b)[1..] == a[1..] + b && (a + b)[0] == a[0];
      OutputConcat(a[1..], b, ItemArgs(a[0], args), front);
    }
  }

  /** The output of a concatenation of complete formats is the concatenation of their outputs, the arguments split. */
  lemma FormatConcat(s: string, t: string, args: seq<Arg>, front: FloatFront)
    requires NulFree(s) && NulFree(t) && Complete(s) && Complete(t)
    ensures Complete(s + t)
    ensures FormatText(s + t, args, front)
            == FormatText(s, args, front) + FormatText(t, ArgsAfter(Scan(s).value, args), front)
  {
    ScanConcat(s, t);
    OutputConcat(Scan(s).value, Scan(t).value, args, front);
  }

  // ---------- what directives mean ----------

  /** Width and precision digits denote their value modulo 2^32. */
  lemma {:induction false} AtoiDenotes(digits: string)
    requires forall i :: 0 <= i < |digits| ==> IsDigit(digits[i])
    ensures Atoi(digits) == ValueOf(digits, 10) % TWO_32
  {
    if digits != "" {
      var n := |digits| - 1;
      AtoiDenotes(digits[..n]);
      var v := ValueOf(digits[..n], 10);
      assert DigitValue(digits[n]) == digits[n] as int - '0' as int;
      ModOfStep(v, DigitValue(digits[n]));
    }
  }

  lemma ModOfStep(v: nat, d: nat)
    ensures (v % TWO_32 * 10 + d) % TWO_32 == (v * 10 + d) % TWO_32
  {
    var q := v / TWO_32;
    var w := v % TWO_32 * 10 + d;
    DivModUnique(v * 10 + d, TWO_32, q * 10 + w / TWO_32, w % TWO_32);
  }

  predicate AllDigits(s: string) { forall i :: 0 <= i < |s| ==> IsDigit(s[i]) }

  lemma NumeralAllDigits(n: nat)
    ensures AllDigits(Numeral(n, 10, false))
  {
    NumeralDigits(n, 10, false);
    var s := Numeral(n, 10, false);
    forall i | 0 <= i < |s| ensures IsDigit(s[i]) {
      assert s[i] == DigitChar(DigitValue(s[i]) % 16, false);
    }
  }

  /** So the decimal numeral of a width or precision below 2^32 is read back as that number. */
  lemma AtoiReadsNumeral(n: u32)
    ensures Atoi(Numeral(n, 10, false)) == n
  {
    NumeralAllDigits(n);
    NumeralDenotes(n, 10, false);
    AtoiDenotes(Numeral(n, 10, false));
  }
}
