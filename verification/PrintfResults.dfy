/** What directives print, against the standard and read back. */
module PrintfResults {
  import opened Util
  import opened Numerals
  import opened PrintfFlags
  import opened PrintfFormat
  import opened PrintfText
  import S = IntegerStandard
  import I = PrintfInteger

  // ---------- directives against section 7.21.6.1 ----------

  predicate SizeFits(size: Size) { size.Digits? ==> ValueOf(size.text, 10) < TWO_32 }

  /** The argument a '*' takes, as an `int`. */
  function StarValue(args: seq<Arg>): int { Signed(WordOf(args), TWO_32) }

  function PrecisionArgs(d: Item, args: seq<Arg>): seq<Arg>
    requires d.Directive?
  {
    if d.width.Star? then Rest(args) else args
  }

  function StandardWidth(width: Size, args: seq<Arg>): int {
    match width
    case NoSize => 0
    case Digits(text) => ValueOf(text, 10)
    case Star => StarValue(args)
  }

  function StandardPrecision(dot: bool, precision: Size, args: seq<Arg>): Option<nat> {
    if !dot then None
    else
      match precision
      case NoSize => Some(0)
      case Digits(text) => Some(ValueOf(text, 10))
      case Star => if StarValue(args) < 0 then None else Some(StarValue(args))
  }

  /**
   The directive as the standard reads it: a negative '*' width is a minus flag and its magnitude,
   a negative '*' precision is no precision.
   */
  function StandardSpec(d: Item, args: seq<Arg>): S.Spec
    requires d.Directive?
  {
    var w := StandardWidth(d.width, args);
    S.Spec('-' in d.flags || w < 0, '+' in d.flags, ' ' in d.flags, '#' in d.flags, '0' in d.flags,
           if w < 0 then -w else w, StandardPrecision(d.dot, d.precision, PrecisionArgs(d, args)))
  }

  predicate NegativePrecision(d: Item, args: seq<Arg>)
    requires d.Directive?
  {
    d.dot && d.precision.Star? && StarValue(PrecisionArgs(d, args)) < 0
  }

  /** The size of the type a length modifier names. */
  function TypeSize(length: string): int {
    if length == "hh" then TWO_8 else if length == "h" then TWO_16 else if length == "" then TWO_32 else TWO_64
  }

  /** The argument of an integer directive, after those of its '*' fields, converted to its type. */
  function DirectiveValue(d: Item, args: seq<Arg>): int
    requires d.Directive?
  {
    var own := PrecisionArgs(d, args);
    var word := WordOf(if d.dot && d.precision.Star? then Rest(own) else own);
    if S.IsSigned(d.conv) then Signed(word, TypeSize(d.length)) else word % TypeSize(d.length)
  }

  /** What the code narrows is that argument. */
  lemma ResolvedValue(d: Item, args: seq<Arg>)
    requires d.Directive? && WellFormed(d) && S.IsInteger(d.conv)
    ensures var f := Resolve(d, args); IntegerValue(d.conv, f.flags, WordOf(f.args)) == DirectiveValue(d, args)
  {
    hide Signed, FlagsOf, Atoi;
    assert ScanLength(PrintEnd(d)) == d.length;
    LengthNames(d.length, d.conv);
  }

  lemma LengthNames(length: string, conv: char)
    requires ScanLength(length + [conv]) == length && S.IsInteger(conv)
    ensures length == "" || length == "h" || length == "hh" || (length[0] != 'h' && (length == "ll" || |length| == 1))
  {
    var s := length + [conv];
    assert |s| == |length| + 1;
  }

  /** Taking a precision of zero for no precision shows unless the digits and the padding agree. */
  predicate ZeroForNone(conv: char, value: int, spec: S.Spec) {
    && (value != 0 || (conv == 'o' && spec.hash))
    && (spec.zero && !spec.minus ==>
          spec.width <= |S.Sign(conv, value, spec)| + |S.Prefix(conv, value, spec)| + |S.Digits(conv, value, spec)|)
  }

  lemma AtoiExact(size: Size)
    requires ValidSize(size) && SizeFits(size) && size.Digits?
    ensures Atoi(size.text) == ValueOf(size.text, 10)
  {
    AtoiDenotes(size.text);
    DivModUnique(ValueOf(size.text, 10), TWO_32, 0, ValueOf(size.text, 10));
  }

  predicate SameMarks(f: Flags, g: Flags) {
    && f.zeropad == g.zeropad && f.plus == g.plus && f.space == g.space && f.hash == g.hash
    && f.upper == g.upper && f.pointer == g.pointer
  }

  lemma ResolvedWidth(flags: Flags, width: Size, args: seq<Arg>)
    requires ValidSize(width) && SizeFits(width)
    ensures var f := ResolveWidth(flags, width, args);
      var w := StandardWidth(width, args);
      && f.flags.left == (flags.left || w < 0) && SameMarks(f.flags, flags) && f.flags.precision == flags.precision
      && f.width == (if w < 0 then -w else w)
      && f.precision == 0 && f.args == if width.Star? then Rest(args) else args
  {
    hide Atoi, ValueOf, Signed;
    if width.Digits? { AtoiExact(width); }
  }

  lemma ResolvedPrecision(f: Fields, dot: bool, precision: Size)
    requires (dot ==> ValidSize(precision)) && SizeFits(precision) && f.precision == 0
    ensures var g := ResolvePrecision(f, dot, precision);
      && g.flags.precision == (f.flags.precision || dot) && g.flags.left == f.flags.left && SameMarks(g.flags, f.flags)
      && g.width == f.width && (!dot ==> g.precision == 0)
      && (dot ==> Some(g.precision) == if precision.Star? && StarValue(f.args) < 0 then Some(0)
                                       else StandardPrecision(dot, precision, f.args))
  {
    hide Atoi, ValueOf, Signed;
    if dot && precision.Digits? { AtoiExact(precision); }
  }

  /** The scanned fields are the standard's, but for a negative '*' precision. */
  lemma ResolvedSpec(d: Item, args: seq<Arg>)
    requires d.Directive? && WellFormed(d) && SizeFits(d.width) && SizeFits(d.precision)
    ensures var f := Resolve(d, args);
      && I.FromScan(f.precision, f.flags)
      && I.SpecOf(f.precision, f.width, f.flags)
         == if NegativePrecision(d, args) then StandardSpec(d, args).(precision := Some(0)) else StandardSpec(d, args)
  {
    hide ResolveWidth, ResolvePrecision, StandardWidth, Atoi, ValueOf, Signed;
    ResolvedWidth(FlagsOf(d.flags), d.width, args);
    ResolvedPrecision(ResolveWidth(FlagsOf(d.flags), d.width, args), d.dot, d.precision);
  }

  // ---------- a precision of zero against none ----------

  lemma SameDigits(conv: char, value: int, spec: S.Spec)
    requires S.IsInteger(conv) && spec.precision.None?
    requires value != 0 || (conv == 'o' && spec.hash)
    ensures S.Digits(conv, value, spec.(precision := Some(0))) == S.Digits(conv, value, spec)
  {
    if value == 0 {
      assert Repeat('0', 1) == "0" && Repeat('0', 0) == "";
    }
  }

  lemma ZeroDigits(conv: char, spec: S.Spec)
    requires S.IsInteger(conv) && spec.precision.None? && !(conv == 'o' && spec.hash)
    ensures S.Digits(conv, 0, spec) == "0" && S.Digits(conv, 0, spec.(precision := Some(0))) == ""
  {
    assert Repeat('0', 1) == "0";
  }

  /** Zeros or spaces in a non-empty gap: the character before the digits tells them apart. */
  lemma GapShows(head: string, digits: string, gap: nat)
    requires gap > 0 && (|head| <= 1 || head[0] == '0')
    ensures head + Repeat('0', gap) + digits != Repeat(' ', gap) + head + digits
  {
    var zeros := head + Repeat('0', gap) + digits;
    var spaces := Repeat(' ', gap) + head + digits;
    if head == "" || head[0] == '0' {
      assert zeros[0] == '0' && spaces[0] == ' ';
    } else {
      assert zeros[gap] == '0' && spaces[gap] == head[0] && zeros[0] == head[0] && spaces[0] == ' ';
    }
  }

  /** Where the standard sees no precision and the code a precision of zero, the texts agree exactly in this case. */
  lemma ZeroForNoneIff(conv: char, value: int, spec: S.Spec)
    requires S.IsInteger(conv) && I.InRange(conv, value) && spec.precision.None?
    ensures S.Text(conv, value, spec.(precision := Some(0))) == S.Text(conv, value, spec)
      <==> ZeroForNone(conv, value, spec)
  {
    if value != 0 || (conv == 'o' && spec.hash) {
      SameDigits(conv, value, spec);
      SameHead(conv, value, spec);
      HeadKinds(conv, value, spec);
      GapDecides(S.Sign(conv, value, spec) + S.Prefix(conv, value, spec), S.Digits(conv, value, spec), conv, value,
        spec);
    } else {
      ZeroDigits(conv, spec);
      HeadKinds(conv, value, spec);
      ZeroShows(conv, spec, S.Sign(conv, value, spec) + S.Prefix(conv, value, spec));
    }
  }

  /** With the same head and digits, only a zero-filled gap tells no precision from a precision of zero. */
  lemma GapDecides(head: string, digits: string, conv: char, value: int, spec: S.Spec)
    requires spec.precision.None? && (|head| <= 1 || head[0] == '0')
    requires head == S.Sign(conv, value, spec) + S.Prefix(conv, value, spec)
    requires head == S.Sign(conv, value, spec.(precision := Some(0)))
      + S.Prefix(conv, value, spec.(precision := Some(0)))
    requires digits == S.Digits(conv, value, spec) && digits == S.Digits(conv, value, spec.(precision := Some(0)))
    ensures S.Text(conv, value, spec.(precision := Some(0))) == S.Text(conv, value, spec)
      <==> (spec.zero && !spec.minus ==> spec.width <= |head| + |digits|)
  {
    hide S.Sign, S.Prefix, S.Digits;
    var gap := Max(0, spec.width - |head| - |digits|);
    if spec.zero && !spec.minus {
      if gap > 0 {
        GapShows(head, digits, gap);
      } else {
        assert head + Repeat('0', gap) + digits == Repeat(' ', gap) + head + digits;
      }
    }
  }

  lemma HeadKinds(conv: char, value: int, spec: S.Spec)
    ensures var head := S.Sign(conv, value, spec) + S.Prefix(conv, value, spec);
      && (|head| <= 1 || head[0] == '0')
      && (value == 0 ==> |head| <= 1 && (|head| == 1 ==> head[0] != '0'))
  {}

  /** A zero shows as a digit without a precision and as nothing with precision zero. */
  lemma ZeroShows(conv: char, spec: S.Spec, head: string)
    requires S.IsInteger(conv) && spec.precision.None?
    requires head == S.Sign(conv, 0, spec) + S.Prefix(conv, 0, spec) && |head| <= 1 && (|head| == 1 ==> head[0] != '0')
    requires S.Digits(conv, 0, spec) == "0" && S.Digits(conv, 0, spec.(precision := Some(0))) == ""
    ensures S.Text(conv, 0, spec.(precision := Some(0))) != S.Text(conv, 0, spec)
  {
    hide S.Digits, S.Sign, S.Prefix;
    var spec0 := spec.(precision := Some(0));
    assert S.Sign(conv, 0, spec0) + S.Prefix(conv, 0, spec0) == head by { SameHead(conv, 0, spec); }
    var none, zero := S.Text(conv, 0, spec), S.Text(conv, 0, spec0);
    if |none| == |zero| {
      if spec.minus {
        assert none[|head|] == '0' && zero[|head|] == ' ';
      } else {
        assert none[|none| - 1] == '0';
        assert zero[|zero| - 1] == if head == "" then ' ' else head[0];
      }
    }
  }

  lemma SameHead(conv: char, value: int, spec: S.Spec)
    ensures S.Sign(conv, value, spec.(precision := Some(0))) == S.Sign(conv, value, spec)
    ensures S.Prefix(conv, value, spec.(precision := Some(0))) == S.Prefix(conv, value, spec)
  {}

  /** When a directive prints what the standard asks for. */
  predicate Conforms(d: Item, args: seq<Arg>)
    requires d.Directive?
  {
    var spec := StandardSpec(d, args);
    var value := DirectiveValue(d, args);
    if NegativePrecision(d, args) then ZeroForNone(d.conv, value, spec)
    else I.Fits(d.conv, value, spec) || I.SpaceForSpace(d.conv, value, spec)
  }

  /**
   Main result for d, i, u, x, X and o: a directive prints what section 7.21.6.1 asks for exactly when
   its sign, prefix and zeros fit the scratch buffer and its precision is not a negative '*' argument
   whose absence would show.
   */
  lemma DirectiveMeetsStandardIff(d: Item, args: seq<Arg>, front: FloatFront)
    requires d.Directive? && WellFormed(d) && SizeFits(d.width) && SizeFits(d.precision) && S.IsInteger(d.conv)
    ensures ItemText(d, args, front) == S.Text(d.conv, DirectiveValue(d, args), StandardSpec(d, args))
      <==> Conforms(d, args)
  {
    var f := Resolve(d, args);
    var value := DirectiveValue(d, args);
    ResolvedSpec(d, args);
    ResolvedValue(d, args);
    assert I.Legal(d.conv, value, f.precision, f.width, f.flags);
    I.MeetsStandardIff(d.conv, value, f.precision, f.width, f.flags);
    if NegativePrecision(d, args) {
      ZeroForNoneIff(d.conv, value, StandardSpec(d, args));
    }
  }

  /** The failing case for a negative precision: "%.*d" of -1 and 0 prints nothing where a zero is due. */
  lemma NegativeStarShows(front: FloatFront)
    ensures var d := Directive("", NoSize, true, Star, "", 'd');
      var args := [Word(TWO_64 - 1), Word(0)];
      S.Text('d', DirectiveValue(d, args), StandardSpec(d, args)) == "0" && ItemText(d, args, front) != "0"
  {
    var d := Directive("", NoSize, true, Star, "", 'd');
    var args := [Word(TWO_64 - 1), Word(0)];
    var rest := Rest(args);
    assert rest == [Word(0)] && Rest(rest) == [];
    DivModUnique(TWO_64 - 1, TWO_32, TWO_32 - 1, TWO_32 - 1);
    assert StarValue(args) == -1 && DirectiveValue(d, args) == 0;
    var spec := S.Spec(false, false, false, false, false, 0, None);
    assert StandardSpec(d, args) == spec && NegativePrecision(d, args);
    NothingElse(spec);
    assert !Conforms(d, args);
    DirectiveMeetsStandardIff(d, args, front);
  }

  lemma NothingElse(spec: S.Spec)
    requires spec == S.Spec(false, false, false, false, false, 0, None)
    ensures S.Text('d', 0, spec) == "0" && !ZeroForNone('d', 0, spec)
  {
    assert Repeat('0', 1) == "0" && Repeat(' ', 0) == "";
    assert S.Digits('d', 0, spec) == "0";
    assert "" + "" + "" + "0" == "0";
  }

  // ---------- strings ----------

  /** What the standard prints for %s: at most `precision` characters, padded with spaces to the width. */
  function StandardString(text: string, f: Fields): string {
    var shown := if f.flags.precision && f.precision < |text| then text[..f.precision] else text;
    var gap := Repeat(' ', Max(0, f.width - |shown|));
    if f.flags.left then shown + gap else gap + shown
  }

  lemma SpacedLength(text: string, l: nat, width: nat, left: bool)
    ensures |Spaced(text, l, width, left)| == |text| + Max(0, width - l)
    ensures width <= l ==> Spaced(text, l, width, left) == text
  {
    assert Repeat(' ', 0) == "" && text + "" == text;
  }

  lemma CStringLength(mem: string)
    ensures |CString(mem)| <= |mem|
  {}

  /**
   %s of a string is right exactly when its columns fit 32 bits, or a precision bounds them, or no padding
   depends on them.
   */
  lemma StringMeetsStandardIff(mem: string, rest: seq<Arg>, f: Fields)
    requires f.args == [Chars(mem)] + rest && f.precision < TWO_32 && f.width < TWO_32
    requires |mem| < TWO_64 && (!f.flags.precision ==> f.precision == 0)
    ensures var text := CString(mem);
      StringText(f) == StandardString(text, f)
      <==> f.flags.precision || |text| < TWO_32 || |text| % TWO_32 >= f.width
  {
    var text := CString(mem);
    hide CString, TextLength;
    assert |text| <= |mem| by { CStringLength(mem); }
    var l := ShownColumns(text, f);
    if f.flags.precision {
      if f.precision != 0 { DivModUnique(Min(|text|, f.precision), TWO_32, 0, Min(|text|, f.precision)); }
    } else if |text| < TWO_32 {
      DivModUnique(|text|, TWO_32, 0, |text|);
    } else {
      assert l == |text| % TWO_32;
      SpacedLength(text, l, f.width, f.flags.left);
      SpacedLength(text, |text|, f.width, f.flags.left);
    }
  }

  lemma NoTerminator(mem: string)
    requires NUL !in mem
    ensures CString(mem) == mem
  {}

  /** The failing case: 2^32 characters count as no columns, so a width of one is still padded. */
  lemma LongStringPadded(f: Fields)
    requires f.args == [Chars(Repeat('a', TWO_32))] && f.width == 1 && !f.flags.precision && f.precision == 0
    ensures StringText(f) != StandardString(CString(Repeat('a', TWO_32)), f)
  {
    var mem := Repeat('a', TWO_32);
    NoTerminator(mem);
    DivModUnique(TWO_32, TWO_32, 1, 0);
    assert f.args == [Chars(mem)] + [];
    StringMeetsStandardIff(mem, [], f);
  }

  /**
   Null strings print as a name that no precision cuts and that zero padding leaves unpadded; null pointers
   as one that only a minus pads, to the pointer width whatever the width given.
   */
  lemma NullTexts(d: Item, args: seq<Arg>, front: FloatFront)
    requires d.Directive? && (d.conv == 's' || d.conv == 'p')
    requires var f := Resolve(d, args); f.args != [] && f.args[0] == Word(0)
    ensures var f := Resolve(d, args);
      var text := ItemText(d, args, front);
      if d.conv == 'p' then text == if f.flags.left then "(nil)" + Repeat(' ', 13) else "(nil)"
      else if f.flags.zeropad && !f.flags.left then text == "(null)"
      else if f.flags.left then text == "(null)" + Repeat(' ', Max(0, f.width - 6))
      else text == Repeat(' ', Max(0, f.width - 6)) + "(null)"
  {
    hide *;
    var f := Resolve(d, args);
    if d.conv == 'p' { NullPointer(f); } else { NullString(f); }
    ItemTextIs(d, args, front);
  }

  lemma ItemTextIs(d: Item, args: seq<Arg>, front: FloatFront)
    requires d.Directive? && (d.conv == 's' || d.conv == 'p')
    ensures var f := Resolve(d, args);
      ItemText(d, args, front) == if d.conv == 'p' then PointerText(f) else StringText(f)
  {
    hide Resolve, PointerText, StringText;
  }

  lemma NullPointer(f: Fields)
    requires f.args != [] && f.args[0] == Word(0)
    ensures PointerText(f) == if f.flags.left then "(nil)" + Repeat(' ', 13) else "(nil)"
  {
    hide I.Field, Repeat;
    FieldOfNull(")lin(", "(nil)", POINTER_WIDTH, f.flags.(zeropad := true, pointer := true));
  }

  lemma NullString(f: Fields)
    requires f.args != [] && f.args[0] == Word(0)
    ensures var gap := Repeat(' ', Max(0, f.width - 6));
      StringText(f)
      == if f.flags.left then "(null)" + gap else if f.flags.zeropad then "(null)" else gap + "(null)"
  {
    hide I.Field, Repeat;
    FieldOfNull(")llun(", "(null)", f.width, f.flags);
  }

  lemma FieldOfNull(reversed: string, text: string, width: nat, flags: Flags)
    requires |reversed| == |text| && forall k :: 0 <= k < |text| ==> text[k] == reversed[|text| - 1 - k]
    ensures var gap := Repeat(' ', Max(0, width - |text|));
      I.Field(reversed, width, flags)
      == if flags.left then text + gap else if flags.zeropad then text else gap + text
  {
    assert Reverse(reversed) == text;
  }

  // ---------- reading back ----------

  /** The number a signed decimal text denotes. */
  function SignedValueOf(s: string): int {
    if s != "" && s[0] == '-' then 0 - ValueOf(s[1..], 10) else ValueOf(s, 10)
  }

  lemma SignedTextReadsBack(v: int)
    ensures SignedValueOf((if v < 0 then "-" else "") + Numeral(I.Magnitude(v), 10, false)) == v
  {
    var numeral := Numeral(I.Magnitude(v), 10, false);
    NumeralDigits(I.Magnitude(v), 10, false);
    NumeralDenotes(I.Magnitude(v), 10, false);
    hide Numeral, ValueOf;
    if v < 0 {
      assert ("-" + numeral)[1..] == numeral;
    } else {
      assert "" + numeral == numeral;
      assert numeral[0] == DigitChar(DigitValue(numeral[0]) % 16, false);
    }
  }

  lemma PlainFields(length: string, conv: char, args: seq<Arg>)
    ensures var f := Resolve(Directive("", NoSize, false, NoSize, length, conv), args);
      && f.args == args && f.width == 0 && f.precision == 0 && SameMarks(f.flags, NO_FLAGS)
      && !f.flags.left && !f.flags.precision && (length == "ll" ==> f.flags.isLongLong)
  {}

  /**
   %lld without flags, width or precision: the text reads back to every signed 64-bit argument, the
   minimum included.
   */
  lemma SignedReadsBack(bits: u64, rest: seq<Arg>, front: FloatFront)
    ensures SignedValueOf(ItemText(Directive("", NoSize, false, NoSize, "ll", 'd'), [Word(bits)] + rest, front))
      == Signed(bits, TWO_64)
  {
    var d := Directive("", NoSize, false, NoSize, "ll", 'd');
    var args := [Word(bits)] + rest;
    var f := Resolve(d, args);
    var v := Signed(bits, TWO_64);
    PlainFields("ll", 'd', args);
    assert WordOf(args) == bits;
    assert ItemText(d, args, front) == I.IntegerText('d', v, 0, 0, f.flags);
    hide Resolve, ItemText, I.IntegerText, Signed, S.Text, SignedValueOf, WordOf;
    I.MeetsStandardInRange('d', v, 0, 0, f.flags);
    PlainSigned(v, I.SpecOf(0, 0, f.flags));
    SignedTextReadsBack(v);
  }

  lemma PlainSigned(v: int, spec: S.Spec)
    requires spec == S.Spec(false, false, false, false, false, 0, None)
    ensures S.Text('d', v, spec) == (if v < 0 then "-" else "") + Numeral(I.Magnitude(v), 10, false)
  {
    var numeral := Numeral(I.Magnitude(v), 10, false);
    assert Repeat(' ', 0) == "" && Repeat('0', 0) == "" && Repeat('0', 1) == "0";
    if v == 0 { assert numeral == "0"; }
    assert S.Digits('d', v, spec) == numeral;
    var sign := if v < 0 then "-" else "";
    assert "" + (sign + "") + numeral == sign + numeral;
  }

  /** Sixteen columns of hexadecimal digits that read back to a value. */
  ghost predicate HexWord(s: string, bits: u64) {
    && |s| == 16 && ValueOf(s, 16) == bits
    && forall i :: 0 <= i < 16 ==> DigitValue(s[i]) < 16 && s[i] == DigitChar(DigitValue(s[i]) % 16, false)
  }

  lemma ZeroDigitChar()
    ensures DigitValue('0') == 0 && DigitChar(0, false) == '0'
  {}

  lemma PaddedHexWord(bits: u64)
    ensures var numeral := Numeral(bits, 16, false);
      |numeral| <= 16 && HexWord(Repeat('0', 16 - |numeral|) + numeral, bits)
  {
    var numeral := Numeral(bits, 16, false);
    WordLength(bits, 16, false);
    NumeralDigits(bits, 16, false);
    NumeralDenotes(bits, 16, false);
    LeadingZeros(16 - |numeral|, numeral, 16);
    hide Numeral, ValueOf;
    PaddedDigits(numeral, 16 - |numeral|);
  }

  lemma PaddedDigits(numeral: string, n: nat)
    requires forall i :: 0 <= i < |numeral| ==>
      numeral[i] == DigitChar(DigitValue(numeral[i]) % 16, false) && DigitValue(numeral[i]) < 16
    ensures var text := Repeat('0', n) + numeral;
      forall i :: 0 <= i < |text| ==> DigitValue(text[i]) < 16 && text[i] == DigitChar(DigitValue(text[i]) % 16, false)
  {
    ZeroDigitChar();
    hide DigitChar, DigitValue;
    var text := Repeat('0', n) + numeral;
    forall i | 0 <= i < |text|
      ensures DigitValue(text[i]) < 16 && text[i] == DigitChar(DigitValue(text[i]) % 16, false)
    {
      if i < n { assert text[i] == '0'; } else { assert text[i] == numeral[i - n]; }
    }
  }

  lemma PlainPointer(bits: u64, rest: seq<Arg>, front: FloatFront)
    requires bits != 0
    ensures var numeral := Numeral(bits, 16, false);
      |numeral| <= 16
      && ItemText(Directive("", NoSize, false, NoSize, "", 'p'), [Word(bits)] + rest, front)
         == "0x" + (Repeat('0', 16 - |numeral|) + numeral)
  {
    hide Resolve, I.NtoaText, Numeral, Repeat;
    var args := [Word(bits)] + rest;
    var f := Resolve(Directive("", NoSize, false, NoSize, "", 'p'), args);
    PlainFields("", 'p', args);
    assert WordOf(args) == bits;
    PointerShape(bits, f.flags.(zeropad := true, pointer := true));
  }

  /** A plain %p of a non-null pointer: "0x" and exactly 16 hexadecimal digits, which read back to it. */
  lemma PointerReadsBack(bits: u64, rest: seq<Arg>, front: FloatFront)
    requires bits != 0
    ensures var text := ItemText(Directive("", NoSize, false, NoSize, "", 'p'), [Word(bits)] + rest, front);
      |text| == 18 && text[..2] == "0x" && HexWord(text[2..], bits)
  {
    hide ItemText, HexWord, Numeral;
    PlainPointer(bits, rest, front);
    PaddedHexWord(bits);
    var word := Repeat('0', 16 - |Numeral(bits, 16, false)|) + Numeral(bits, 16, false);
    assert |word| == 16;
    assert ("0x" + word)[2..] == word;
  }

  /** Without a sign, a zero-filled field is the scratch buffer reversed. */
  lemma ZeroPaddedText(bits: u64, flags: Flags)
    requires flags.zeropad && !flags.left && !flags.plus && !flags.space
    ensures I.NtoaText(bits, false, BASE_HEX, 0, POINTER_WIDTH, flags)
      == Reverse(I.FormatBody(I.NtoaDigits(bits, BASE_HEX, flags), false, BASE_HEX, 0, POINTER_WIDTH,
        I.NtoaFlags(bits, BASE_HEX, flags)))
  {
    hide I.FormatBody, I.NtoaDigits, Reverse;
  }

  lemma PointerShape(bits: u64, flags: Flags)
    requires bits != 0 && flags.zeropad && flags.pointer && !flags.left && !flags.plus && !flags.space && !flags.upper
    requires !flags.precision
    ensures var numeral := Numeral(bits, 16, false);
      |numeral| <= 16
      && I.NtoaText(bits, false, BASE_HEX, 0, POINTER_WIDTH, flags) == "0x" + (Repeat('0', 16 - |numeral|) + numeral)
  {
    hide I.NtoaText, I.FormatBody, I.NtoaDigits, Numeral, Reverse, Repeat;
    var digits := I.NtoaDigits(bits, BASE_HEX, flags);
    I.NtoaDigitsForward(bits, 16, flags);
    WordLength(bits, 16, false);
    ReverseLength(digits);
    PointerBody(digits, I.NtoaFlags(bits, BASE_HEX, flags));
    ZeroPaddedText(bits, flags);
    PointerReversed(digits, 16 - |digits|);
  }

  lemma PointerReversed(digits: string, k: nat)
    ensures Reverse(digits + Repeat('0', k) + "x0") == "0x" + (Repeat('0', k) + Reverse(digits))
  {}

  /** The field is full of zeros, and two of them make room for the prefix. */
  lemma PointerBody(digits: string, flags: Flags)
    requires 1 <= |digits| <= 16 && flags.zeropad && flags.pointer && !flags.left && !flags.plus && !flags.space
    requires !flags.upper && !flags.precision
    ensures I.FormatBody(digits, false, BASE_HEX, 0, POINTER_WIDTH, flags) == digits + Repeat('0', 16 - |digits|) + "x0"
  {
    var padded := digits + Repeat('0', 18 - |digits|);
    assert I.Padded(digits, 0, 18, flags) == padded by { assert padded + [] == padded; }
    assert padded[..16] == digits + Repeat('0', 16 - |digits|);
    assert padded[..16] + ['x'] + ['0'] == padded[..16] + "x0";
    I.FormatBodyParts(digits, false, BASE_HEX, 0, POINTER_WIDTH, flags, padded);
  }
}
