/** What whole formats print: the text around directives, the arguments each item takes, and the output read back. */
module PrintfWhole {
  import opened Util
  import opened Numerals
  import opened PrintfFlags
  import opened PrintfFormat
  import opened PrintfText
  import opened PrintfSink
  import opened PrintfEngine
  import opened PrintfResults
  import S = IntegerStandard
  import I = PrintfInteger

  // ---------- literal text ----------

  /** Text without directives is printed as it stands and takes no argument. */
  lemma {:induction false} PlainText(s: string, args: seq<Arg>, front: FloatFront)
    requires NulFree(s) && '%' !in s
    ensures Complete(s) && FormatText(s, args, front) == s && ArgsAfter(Scan(s).value, args) == args
    decreases |s|
  {
    if s != "" {
      PlainText(s[1..], args, front);
      LiteralFirst(s);
      hide Scan, Output, ArgsAfter;
      LiteralOutput(s[0], Scan(s[1..]).value, args, front);
      assert s == [s[0]] + s[1..];
    }
  }

  lemma LiteralFirst(s: string)
    requires s != "" && s[0] != '%' && Complete(s[1..])
    ensures Complete(s) && Scan(s).value == [Literal(s[0])] + Scan(s[1..]).value
  {
    assert ScanItem(s) == Some(Literal(s[0]));
  }

  lemma LiteralOutput(c: char, items: seq<Item>, args: seq<Arg>, front: FloatFront)
    ensures Output([Literal(c)] + items, args, front) == [c] + Output(items, args, front)
    ensures ArgsAfter([Literal(c)] + items, args) == ArgsAfter(items, args)
  {
    assert ([Literal(c)] + items)[1..] == items;
  }

  /** A directive as it is spelled. */
  function Spelled(d: Item): string
    requires d.Directive?
  {
    "%" + d.flags + SpelledSize(d.width) + (if d.dot then "." + SpelledSize(d.precision) else "") + d.length + [d.conv]
  }

  function SpelledSize(size: Size): string {
    match size
    case NoSize => ""
    case Star => "*"
    case Digits(text) => text
  }

  lemma SpelledIsPrinted(d: Item)
    requires d.Directive?
    ensures Print(d) == Spelled(d)
  {
    var end, width := d.length + [d.conv], SpelledSize(d.width);
    if d.dot {
      var precision := SpelledSize(d.precision);
      assert "." + (precision + end) == "." + precision + d.length + [d.conv];
      assert "%" + (d.flags + (width + ("." + (precision + end))))
             == "%" + d.flags + width + ("." + precision) + d.length + [d.conv];
    } else {
      assert "%" + (d.flags + (width + end)) == "%" + d.flags + width + "" + d.length + [d.conv];
    }
  }

  lemma {:induction false} SizeHasNoNul(size: Size)
    requires ValidSize(size)
    ensures NulFree(SpelledSize(size))
  {}

  lemma SpelledNulFree(d: Item)
    requires d.Directive? && WellFormed(d)
    ensures NulFree(Spelled(d))
  {
    SizeHasNoNul(d.width);
    if d.dot { SizeHasNoNul(d.precision); }
    assert NulFree(d.length) by { LengthHasNoNul(d); }
    hide SpelledSize, WellFormed;
    assert NulFree("%" + d.flags) by { FlagsHaveNoNul(d); }
    assert d.conv != NUL by { FlagsHaveNoNul(d); }
  }

  lemma FlagsHaveNoNul(d: Item)
    requires d.Directive? && WellFormed(d)
    ensures NulFree(d.flags) && d.conv != NUL
  {}

  lemma LengthHasNoNul(d: Item)
    requires d.Directive? && WellFormed(d)
    ensures NulFree(d.length)
  {
    assert PrintEnd(d)[..|d.length|] == d.length;
  }

  /** A well-formed directive alone is a complete format. */
  lemma DirectiveAlone(d: Item, args: seq<Arg>, front: FloatFront)
    requires d.Directive? && WellFormed(d)
    ensures var s := Spelled(d);
      && NulFree(s) && Complete(s) && Scan(s).value == [d] && FormatText(s, args, front) == ItemText(d, args, front)
  {
    hide WellFormed, Spelled, ItemText, ItemArgs;
    SpelledIsPrinted(d);
    SpelledNulFree(d);
    assert PrintAll([d]) == Print(d) + PrintAll([]) == Print(d) by { assert [d][1..] == []; }
    ScanPrint([d]);
    assert [d] + [] == [d];
    OutputCons("", d, [], args, front);
  }

  /** Main result: literal text around a directive comes out as written, and the directive as it does alone. */
  lemma DirectiveInText(pre: string, d: Item, post: string, args: seq<Arg>, front: FloatFront)
    requires NulFree(pre) && '%' !in pre && NulFree(post) && '%' !in post && d.Directive? && WellFormed(d)
    ensures var s := pre + Spelled(d) + post;
      Complete(s) && FormatText(s, args, front) == pre + ItemText(d, args, front) + post
  {
    hide WellFormed, Spelled, ItemText, ItemArgs, Scan, Output;
    PlainText(pre, args, front);
    DirectiveAlone(d, args, front);
    FormatConcat(pre, Spelled(d), args, front);
    PlainText(post, ArgsAfter(Scan(pre + Spelled(d)).value, args), front);
    FormatConcat(pre + Spelled(d), post, args, front);
  }

  /** A directive as the standard writes it. */
  predicate Standard(d: Item) {
    && d.Directive? && (forall i :: 0 <= i < |d.flags| ==> d.flags[i] in "-+ #0")
    && StandardSize(d.width) && (d.width.Digits? ==> d.width.text[0] != '0')
    && StandardSize(d.precision) && (!d.dot ==> d.precision.NoSize?)
    && (d.length == "" || d.length == "hh" || d.length == "h" || d.length == "l" || d.length == "ll" || d.length == "j"
        || d.length == "z" || d.length == "t")
  }

  /** Nothing, an asterisk, or the digits of a number the code can keep. */
  predicate StandardSize(size: Size) {
    size.Digits? ==>
      && size.text != "" && SizeFits(size)
      && forall i :: 0 <= i < |size.text| ==> size.text[i] in "0123456789"
  }

  lemma StandardWellFormed(d: Item)
    requires Standard(d) && (d.conv in S.WITH_ARGUMENT || d.conv == '%')
    ensures WellFormed(d) && SizeFits(d.width) && SizeFits(d.precision)
  {
    StandardEnd(d.length, d.conv);
    StandardSizeValid(d.width);
    StandardSizeValid(d.precision);
    hide ValueOf, OrdinaryEnd, WellFormed, ValidSize, SizeFits;
    assert forall i :: 0 <= i < |d.flags| ==> IsFlag(d.flags[i]);
    OrdinaryDirectives(d);
  }

  lemma StandardSizeValid(size: Size)
    requires StandardSize(size)
    ensures ValidSize(size) && SizeFits(size)
  {}

  lemma StandardEnd(length: string, conv: char)
    requires conv in S.WITH_ARGUMENT || conv == '%'
    requires length == "" || length == "hh" || length == "h" || length == "l" || length == "ll" || length == "j"
             || length == "z" || length == "t"
    ensures OrdinaryEnd(length, conv)
  {}

  /**
   Main result, from the characters of a format to those of the output: an integer directive as the standard
   writes it, with any text around it, prints that text around what section 7.21.6.1 asks for exactly when
   its sign, prefix and zeros fit the scratch buffer and no negative '*' precision shows.
   */
  lemma FormatMeetsStandardIff(pre: string, d: Item, post: string, args: seq<Arg>, front: FloatFront)
    requires NulFree(pre) && '%' !in pre && NulFree(post) && '%' !in post && Standard(d) && d.conv in "diouxX"
    ensures var s := pre + Spelled(d) + post;
      && Complete(s)
      && (FormatText(s, args, front) == pre + S.Text(d.conv, DirectiveValue(d, args), StandardSpec(d, args)) + post
          <==> Conforms(d, args))
  {
    StandardWellFormed(d);
    hide WellFormed, Spelled, ItemText, Scan, Output, S.Text, Conforms, DirectiveValue, StandardSpec;
    DirectiveInText(pre, d, post, args, front);
    DirectiveMeetsStandardIff(d, args, front);
    SameMiddle(pre, ItemText(d, args, front), S.Text(d.conv, DirectiveValue(d, args), StandardSpec(d, args)), post);
  }

  lemma SameMiddle(pre: string, a: string, b: string, post: string)
    ensures pre + a + post == pre + b + post <==> a == b
  {
    var x, y := pre + a + post, pre + b + post;
    if x == y {
      assert |a| == |b|;
      assert a == x[|pre|..|pre| + |a|] && b == y[|pre|..|pre| + |b|];
    }
  }

  /** A character that is no conversion prints itself, and so does a second '%', whatever stands in between. */
  lemma OthersPrintThemselves(d: Item, args: seq<Arg>, front: FloatFront)
    requires d.Directive? && d.conv !in S.WITH_ARGUMENT
    ensures ItemText(d, args, front) == [d.conv]
  {}

  lemma PercentPrintsPercent(args: seq<Arg>, front: FloatFront)
    ensures Complete("%%") && FormatText("%%", args, front) == "%" && ArgsAfter(Scan("%%").value, args) == args
  {
    var d := Directive("", NoSize, false, NoSize, "", '%');
    PercentDirective(d);
    hide *;
    DirectiveAlone(d, args, front);
    OthersPrintThemselves(d, args, front);
    ItemsTake([d], args);
    RestIsDrop(args);
    assert FormatText("%%", args, front) == [d.conv];
  }

  lemma PercentDirective(d: Item)
    requires d == Directive("", NoSize, false, NoSize, "", '%')
    ensures WellFormed(d) && Spelled(d) == "%%" && NeedsAll([d]) == 0 && d.conv !in S.WITH_ARGUMENT
  {
    StandardWellFormed(d);
    assert [d][1..] == [];
  }

  // ---------- arguments ----------

  /** What is left of an argument list after n of them. */
  function Drop(args: seq<Arg>, n: nat): seq<Arg> { if n <= |args| then args[n..] else [] }

  function Stars(d: Item): nat
    requires d.Directive?
  {
    (if d.width == Star then 1 else 0) + if d.dot && d.precision == Star then 1 else 0
  }

  /** How many arguments an item takes: one for each '*', and one for its conversion. */
  function Needs(item: Item): nat {
    match item
    case Literal(_) => 0
    case Directive(_, _, _, _, _, conv) => Stars(item) + if conv in S.WITH_ARGUMENT then 1 else 0
  }

  function NeedsAll(items: seq<Item>): nat {
    if items == [] then 0 else Needs(items[0]) + NeedsAll(items[1..])
  }

  lemma DropDrop(args: seq<Arg>, m: nat, n: nat)
    ensures Drop(Drop(args, m), n) == Drop(args, m + n)
  {}

  lemma RestIsDrop(args: seq<Arg>)
    ensures Rest(args) == Drop(args, 1) && args == Drop(args, 0)
  {}

  /** The conversion finds the arguments after those of its '*' fields. */
  lemma ArgumentAfterStars(d: Item, args: seq<Arg>)
    requires d.Directive?
    ensures Resolve(d, args).args == Drop(args, Stars(d))
  {
    RestIsDrop(args);
    RestIsDrop(Rest(args));
    DropDrop(args, 1, 1);
  }

  lemma TakesIffListed(conv: char)
    ensures TakesArgument(conv) <==> conv in S.WITH_ARGUMENT
  {}

  /** An item leaves the arguments shortened by exactly those it takes. */
  lemma ItemTakes(item: Item, args: seq<Arg>)
    ensures ItemArgs(item, args) == Drop(args, Needs(item))
  {
    if item.Directive? {
      ArgumentAfterStars(item, args);
      TakesIffListed(item.conv);
      hide Resolve, TakesArgument;
      RestIsDrop(Drop(args, Stars(item)));
      DropDrop(args, Stars(item), 1);
    } else {
      RestIsDrop(args);
    }
  }

  lemma {:induction false} ItemsTake(items: seq<Item>, args: seq<Arg>)
    ensures ArgsAfter(items, args) == Drop(args, NeedsAll(items))
  {
    if items == [] {
      RestIsDrop(args);
    } else {
      ItemTakes(items[0], args);
      ItemsTake(items[1..], ItemArgs(items[0], args));
      DropDrop(args, Needs(items[0]), NeedsAll(items[1..]));
    }
  }

  /**
   Main result: the k-th item of a format prints from the arguments that the items before it left, which are
   all but as many as those items take.
   */
  lemma ItemPrintsFrom(items: seq<Item>, k: nat, args: seq<Arg>, front: FloatFront)
    requires k < |items|
    ensures Output(items, args, front)
      == Output(items[..k], args, front) + ItemText(items[k], Drop(args, NeedsAll(items[..k])), front)
         + Output(items[k + 1..], Drop(args, NeedsAll(items[..k]) + Needs(items[k])), front)
  {
    hide ItemText, ItemArgs, NeedsAll, Needs;
    var before := items[..k];
    var rest := Drop(args, NeedsAll(before));
    assert items == before + items[k..];
    OutputConcat(before, items[k..], args, front);
    ItemsTake(before, args);
    assert items[k..] == [items[k]] + items[k + 1..];
    OutputCons(Output(before, args, front), items[k], items[k + 1..], rest, front);
    ItemTakes(items[k], rest);
    DropDrop(args, NeedsAll(before), Needs(items[k]));
  }

  // ---------- characters ----------

  /** %c prints the low byte of its argument at the end of a field of blanks that the minus flag chooses. */
  lemma CharacterInField(d: Item, args: seq<Arg>, front: FloatFront)
    requires d.Directive? && WellFormed(d) && SizeFits(d.width) && SizeFits(d.precision) && d.conv == 'c'
    ensures var text := ItemText(d, args, front);
      var spec := StandardSpec(d, args);
      var at := if spec.minus then 0 else |text| - 1;
      && |text| == Max(1, spec.width)
      && text[at] as int == WordOf(Drop(args, Stars(d))) % 256
      && forall k :: 0 <= k < |text| && k != at ==> text[k] == ' '
  {
    ResolvedSpec(d, args);
    ArgumentAfterStars(d, args);
    hide Resolve, StandardSpec, WellFormed, ValueOf, Drop, Stars;
    CharacterAt(Resolve(d, args));
  }

  lemma CharacterAt(f: Fields)
    ensures var text := CharText(f);
      var at := if f.flags.left then 0 else |text| - 1;
      && |text| == Max(1, f.width) && text[at] as int == WordOf(f.args) % 256
      && forall k :: 0 <= k < |text| && k != at ==> text[k] == ' '
  {}

  // ---------- what the floating-point front end is given ----------

  lemma FloatConversion(conv: char, f: Fields, front: FloatFront)
    requires conv in "fFeEgG"
    ensures Converted(conv, f, front)
      == front(Signed(WordOf(f.args), TWO_32), f.precision, f.width, FloatFlags(conv, f.flags), conv in "eEgG")
  {
    hide FloatFlags;
  }

  lemma FloatStyle(conv: char, f: Flags)
    requires conv in "fFeEgG"
    ensures FloatFlags(conv, f) == f.(upper := conv in "FEG", adaptExp := conv in "gG")
  {}

  /** The low 32 bits of the argument as an int, and the case, style and notation its conversion names. */
  lemma FrontIsGiven(d: Item, args: seq<Arg>, front: FloatFront)
    requires d.Directive? && d.conv in "fFeEgG"
    ensures var f := Resolve(d, args);
      var flags := f.flags.(upper := d.conv in "FEG", adaptExp := d.conv in "gG");
      var value := Signed(WordOf(Drop(args, Stars(d))), TWO_32);
      ItemText(d, args, front) == front(value, f.precision, f.width, flags, d.conv in "eEgG")
  {
    hide Converted, Resolve, FloatFlags, Drop, Stars;
    ArgumentAfterStars(d, args);
    FloatConversion(d.conv, Resolve(d, args), front);
    FloatStyle(d.conv, Resolve(d, args).flags);
  }

  // ---------- base two ----------

  /** The flag word and digits of a %llb without width and precision. */
  lemma BinaryField(flags: string, bits: u64, rest: seq<Arg>, front: FloatFront)
    requires flags == "" || flags == "#"
    ensures var f := Resolve(Directive(flags, NoSize, false, NoSize, "ll", 'b'), [Word(bits)] + rest).flags;
      && !f.left && !f.zeropad && !f.plus && !f.space && !f.precision && !f.upper && !f.pointer
      && f.hash == (flags == "#")
      && ItemText(Directive(flags, NoSize, false, NoSize, "ll", 'b'), [Word(bits)] + rest, front)
         == I.IntegerText('b', bits, 0, 0, f)
  {
    var d := Directive(flags, NoSize, false, NoSize, "ll", 'b');
    assert WordOf([Word(bits)] + rest) == bits;
    DivModUnique(bits, TWO_64, 0, bits);
  }

  lemma BinaryText(value: u64, f: Flags)
    requires !f.left && !f.zeropad && !f.plus && !f.space && !f.precision && !f.upper && !f.pointer
    ensures var digits := I.NtoaDigits(value, 2, f);
      I.IntegerText('b', value, 0, 0, f)
      == (if f.hash && value != 0 then Reverse(I.Push(I.Push(digits, 'b'), '0')) else Reverse(digits))
  {
    assert value != 0 ==> I.NtoaDigits(value, 2, f) != "";
    hide LsdDigits, Reverse, I.Push, I.FormatBody, I.Field;
    var f' := I.NtoaFlags(value, 2, I.IntegerFlags('b', f));
    var digits := I.NtoaDigits(value, 2, f);
    assert I.NtoaDigits(value, 2, I.IntegerFlags('b', f)) == digits;
    BinaryBody(digits, f');
    UnpaddedField(I.FormatBody(digits, false, 2, 0, 0, f'), f');
  }

  lemma UnpaddedField(body: string, f: Flags)
    requires !f.left && !f.zeropad
    ensures I.Field(body, 0, f) == Reverse(body)
  {
    assert Repeat(' ', 0) == "" && "" + Reverse(body) == Reverse(body);
  }

  lemma BinaryBody(digits: string, f: Flags)
    requires |digits| <= BUFFER_SIZE
    requires !f.left && !f.zeropad && !f.plus && !f.space && !f.precision && !f.upper && !f.pointer
    requires f.hash ==> digits != ""
    ensures I.FormatBody(digits, false, 2, 0, 0, f) == if f.hash then I.Push(I.Push(digits, 'b'), '0') else digits
  {
    hide I.Push;
    var padded := I.Padded(digits, 0, 0, f);
    assert padded == digits by { assert digits + [] == digits; }
    assert digits[..|digits|] == digits;
    I.FormatBodyParts(digits, false, 2, 0, 0, f, digits);
  }

  lemma {:induction false} BinaryChars(value: nat, cap: nat)
    requires cap >= 1
    ensures forall k :: 0 <= k < |LsdDigits(value, 2, false, cap)| ==> LsdDigits(value, 2, false, cap)[k] in "01"
    decreases cap
  {
    if value / 2 != 0 && cap > 1 { BinaryChars(value / 2, cap - 1); }
  }

  /** %llb prints ones and zeros that denote the low 32 bits of its argument, which is all the buffer holds. */
  lemma BinaryReadsBack(bits: u64, rest: seq<Arg>, front: FloatFront)
    ensures var text := ItemText(Directive("", NoSize, false, NoSize, "ll", 'b'), [Word(bits)] + rest, front);
      && ValueOf(text, 2) == bits % TWO_32
      && forall k :: 0 <= k < |text| ==> text[k] in "01"
  {
    hide ItemText, Resolve, I.IntegerText, ValueOf, LsdDigits, DigitChar;
    BinaryField("", bits, rest, front);
    var f := Resolve(Directive("", NoSize, false, NoSize, "ll", 'b'), [Word(bits)] + rest).flags;
    BinaryText(bits, f);
    if bits == 0 {
      ZeroBinary();
    } else {
      LsdDigitsDenote(bits, 2, false, BUFFER_SIZE);
      PowTwo32();
      BinaryChars(bits, BUFFER_SIZE);
    }
  }

  lemma ZeroBinary()
    ensures Reverse("0") == "0" && ValueOf("0", 2) == 0
  {}

  lemma PowTwo32()
    ensures Pow(2, 32) == TWO_32
  {
    assert Pow(2, 4) == 2 * (2 * (2 * (2 * Pow(2, 0)))) == 16;
    PowAdd(2, 4, 4);
    PowAdd(2, 8, 8);
    PowAdd(2, 16, 16);
  }

  /** With '#' the numeral of a number of at most 30 bits stands after "0b"; zero has no prefix. */
  lemma BinaryPrefix(bits: u64, rest: seq<Arg>, front: FloatFront)
    requires |Numeral(bits, 2, false)| <= 30
    ensures ItemText(Directive("#", NoSize, false, NoSize, "ll", 'b'), [Word(bits)] + rest, front)
      == if bits == 0 then "0" else "0b" + Numeral(bits, 2, false)
  {
    hide ItemText, Resolve, I.IntegerText, LsdDigits, DigitChar, Numeral;
    BinaryField("#", bits, rest, front);
    var f := Resolve(Directive("#", NoSize, false, NoSize, "ll", 'b'), [Word(bits)] + rest).flags;
    BinaryText(bits, f);
    if bits == 0 {
      ZeroBinary();
    } else {
      NumeralBelow(bits, 30);
      PowMonotone(2, 30, 32);
      LsdDigitsAreNumeral(bits, 2, false, BUFFER_SIZE);
      var digits := LsdDigits(bits, 2, false, BUFFER_SIZE);
      ReverseLength(digits);
      assert I.Push(I.Push(digits, 'b'), '0') == digits + "b0";
      ReverseConcat(digits, "b0");
      assert Reverse("b0") == "0b";
    }
  }

  lemma {:induction false} NumeralBelow(v: nat, room: nat)
    requires |Numeral(v, 2, false)| <= room
    ensures v < Pow(2, room)
  {
    DivShrinks(v, 2);
    if v < 2 {
      PowMonotone(2, 1, room);
      assert Pow(2, 1) == 2 * Pow(2, 0);
    } else {
      NumeralBelow(v / 2, room - 1);
    }
  }

  // ---------- pointers with a precision or a minus ----------

  /** The zeros before a pointer's digits: those of the precision, and on the right of the field those of the width. */
  function PointerZeros(n: nat, f: Fields): nat {
    Max(0, (if f.flags.left then f.precision else Max(18, f.precision)) - n)
  }

  predicate PlainPointerFlags(f: Flags) { f.zeropad && f.pointer && !f.plus && !f.space && !f.upper }

  lemma PointerBuffer(digits: string, f: Fields)
    requires 1 <= |digits| <= 16 && f.precision <= 30 && (!f.flags.precision ==> f.precision == 0 && f.flags.left)
    requires PlainPointerFlags(f.flags)
    ensures I.FormatBody(digits, false, BASE_HEX, f.precision, POINTER_WIDTH, f.flags)
      == digits + Repeat('0', PointerZeros(|digits|, f)) + "x0"
  {
    var zeros := Repeat('0', PointerZeros(|digits|, f));
    var padded := digits + zeros;
    assert I.Padded(digits, f.precision, POINTER_WIDTH, f.flags) == padded by { PointerPadded(digits, f); }
    assert padded[..|padded|] == padded && padded + ['x'] + ['0'] == padded + "x0";
    I.FormatBodyParts(digits, false, BASE_HEX, f.precision, POINTER_WIDTH, f.flags, padded);
  }

  lemma PointerPadded(digits: string, f: Fields)
    requires 1 <= |digits| <= 16 && f.precision <= 30 && PlainPointerFlags(f.flags)
    ensures I.Padded(digits, f.precision, POINTER_WIDTH, f.flags) == digits + Repeat('0', PointerZeros(|digits|, f))
  {}

  lemma PointerForward(digits: string, zeros: nat)
    ensures Reverse(digits + Repeat('0', zeros) + "x0") == "0x" + Repeat('0', zeros) + Reverse(digits)
  {}

  /**
   %p with a precision of at most 30 fills the width of 18 with zeros after the prefix, which makes room for
   none; with a minus it has the zeros of the precision only, and blanks after the digits.
   */
  lemma PointerField(f: Fields)
    requires WordOf(f.args) != 0 && f.precision <= 30 && (!f.flags.precision ==> f.precision == 0 && f.flags.left)
    requires !f.flags.plus && !f.flags.space && !f.flags.upper
    ensures var numeral := Numeral(WordOf(f.args), 16, false);
      var zeros := PointerZeros(|numeral|, f);
      PointerText(f)
      == "0x" + Repeat('0', zeros) + numeral
         + Repeat(' ', if f.flags.left then Max(0, 16 - zeros - |numeral|) else 0)
  {
    hide PointerText, PointerZeros, PlainPointerFlags;
    hide I.Field, I.FormatBody, I.NtoaDigits, I.NtoaFlags, Numeral, Repeat;
    var value, numeral := WordOf(f.args), Numeral(WordOf(f.args), 16, false);
    var all := f.flags.(zeropad := true, pointer := true);
    var g := f.(flags := I.NtoaFlags(value, BASE_HEX, all));
    var digits := I.NtoaDigits(value, BASE_HEX, all);
    PointerDigits(value, all);
    PointerFlags(value, f, g);
    PointerBuffer(digits, g);
    PointerIsField(f);
    PointerAssembled(digits, f, g, numeral);
  }

  lemma PointerDigits(value: u64, all: Flags)
    requires value != 0 && !all.upper
    ensures var digits := I.NtoaDigits(value, BASE_HEX, all);
      Reverse(digits) == Numeral(value, 16, false) && 1 <= |digits| == |Numeral(value, 16, false)| <= 16
  {
    I.NtoaDigitsForward(value, 16, all);
    WordLength(value, 16, false);
    hide I.NtoaDigits;
    ReverseLength(I.NtoaDigits(value, BASE_HEX, all));
  }

  lemma PointerFlags(value: u64, f: Fields, g: Fields)
    requires value != 0 && !f.flags.plus && !f.flags.space && !f.flags.upper
    requires g == f.(flags := I.NtoaFlags(value, BASE_HEX, f.flags.(zeropad := true, pointer := true)))
    ensures PlainPointerFlags(g.flags) && g.flags.left == f.flags.left && g.flags.precision == f.flags.precision
    ensures forall n: nat :: PointerZeros(n, g) == PointerZeros(n, f)
  {}

  lemma PointerAssembled(digits: string, f: Fields, g: Fields, numeral: string)
    requires Reverse(digits) == numeral && |digits| == |numeral| && PlainPointerFlags(g.flags)
    requires g.flags.left == f.flags.left && PointerZeros(|digits|, g) == PointerZeros(|digits|, f)
    ensures var zeros := PointerZeros(|numeral|, f);
      I.Field(digits + Repeat('0', PointerZeros(|digits|, g)) + "x0", POINTER_WIDTH, g.flags)
      == "0x" + Repeat('0', zeros) + numeral + Repeat(' ', if f.flags.left then Max(0, 16 - zeros - |numeral|) else 0)
  {
    hide PointerZeros, Reverse, I.Field;
    var zeros := PointerZeros(|numeral|, f);
    PointerForward(digits, zeros);
    FieldAround(digits + Repeat('0', zeros) + "x0", g.flags);
    NoBlanks("0x" + Repeat('0', zeros) + numeral);
  }

  lemma NoBlanks(s: string)
    ensures s + Repeat(' ', 0) == s
  {}

  lemma PointerIsField(f: Fields)
    requires WordOf(f.args) != 0 && !f.flags.plus && !f.flags.space
    ensures var value := WordOf(f.args);
      var all := f.flags.(zeropad := true, pointer := true);
      var flags := I.NtoaFlags(value, BASE_HEX, all);
      PointerText(f)
      == I.Field(I.FormatBody(I.NtoaDigits(value, BASE_HEX, all), false, BASE_HEX, f.precision, POINTER_WIDTH, flags),
                 POINTER_WIDTH, flags)
  {
    hide I.FormatBody, I.NtoaDigits, I.Field;
  }

  lemma FieldAround(body: string, flags: Flags)
    requires flags.zeropad
    ensures I.Field(body, POINTER_WIDTH, flags)
      == if flags.left then Reverse(body) + Repeat(' ', Max(0, 18 - |body|)) else Reverse(body)
  {}

  // ---------- what is kept of a text ----------

  /** A callback is given everything but NUL characters, in order. */
  lemma {:induction false} WithoutNulConcat(a: string, b: string)
    ensures WithoutNul(a + b) == WithoutNul(a) + WithoutNul(b)
    decreases |b|
  {
    if b == "" {
      assert a + b == a;
    } else {
      var k := |b| - 1;
      assert (a + b)[..|a| + k] == a + b[..k];
      WithoutNulConcat(a, b[..k]);
    }
  }

  lemma {:induction false} WithoutNulSame(s: string)
    requires NulFree(s)
    ensures WithoutNul(s) == s
  {
    if s != "" { WithoutNulSame(s[..|s| - 1]); }
  }

  lemma OnlyNulDropped(a: string, b: string)
    requires NulFree(a)
    ensures WithoutNul(a + "\0" + b) == a + WithoutNul(b)
  {
    NulDropped();
    hide WithoutNul;
    WithoutNulConcat(a + "\0", b);
    WithoutNulConcat(a, "\0");
    WithoutNulSame(a);
    assert a + "" == a;
  }

  lemma NulDropped()
    ensures WithoutNul("\0") == ""
  {
    assert "\0"[..0] == "";
  }

  /** Read as a string again, a bounded output is the longest prefix of the text that leaves room for the NUL. */
  lemma TruncatedReads(memory: string, text: string, count: nat)
    requires HasSpace(|memory|, |text|, count) && count > 0 && NulFree(text)
    ensures var r := Truncated(memory, text, count);
      && CString(r) == text[..Min(|text|, count - 1)]
      && forall k :: Min(|text|, count - 1) < k < |memory| ==> r[k] == memory[k]
  {
    var m := Min(|text|, count - 1);
    LengthIs(Truncated(memory, text, count), m);
  }

  lemma LengthIs(mem: string, n: nat)
    requires n < |mem| && mem[n] == NUL && forall k :: 0 <= k < n ==> mem[k] != NUL
    ensures TextLength(mem) == n
  {}
}
