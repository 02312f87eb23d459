/** The integer conversion of `_ntoa` and `_ntoa_format`, as values, and when it meets the standard. */
module PrintfInteger {
  import opened Util
  import opened Numerals
  import opened PrintfFlags
  import S = IntegerStandard

  // ---------- what the code computes ----------

  /** Append while the scratch buffer has room. */
  function Push(buf: string, c: char): (r: string)
    ensures |r| <= Max(|buf|, BUFFER_SIZE)
  {
    if |buf| < BUFFER_SIZE then buf + [c] else buf
  }

  /** Append zeros up to length `n`, while the scratch buffer has room. */
  function PadZeros(buf: string, n: nat): (r: string)
    ensures |r| <= Max(|buf|, BUFFER_SIZE)
  {
    buf + Repeat('0', Max(0, Min(n, BUFFER_SIZE) - |buf|))
  }

  /** A sign takes one column of a zero-padded field. */
  function SignedWidth(negative: bool, width: nat, flags: Flags): nat {
    if !flags.left && width != 0 && flags.zeropad && (negative || flags.plus || flags.space) then width - 1 else width
  }

  function Padded(digits: string, precision: nat, width: nat, flags: Flags): string {
    PadZeros(if !flags.left && flags.zeropad then PadZeros(digits, width) else digits, precision)
  }

  /** The number of padding zeros given back to make room for the prefix. */
  function GiveBack(unpadded: nat, len: nat, base: nat, precision: nat, width: nat, flags: Flags): (n: nat)
    requires unpadded <= len
    ensures n <= len - unpadded
  {
    if !flags.precision && len != 0 && (len == precision || len == width) then
      Min(len - unpadded, if base == BASE_HEX && len > 1 then 2 else 1)
    else 0
  }

  function Hashed(buf: string, unpadded: nat, base: nat, precision: nat, width: nat, flags: Flags): string
    requires unpadded <= |buf|
  {
    if flags.hash || flags.pointer then
      var kept := buf[..|buf| - GiveBack(unpadded, |buf|, base, precision, width, flags)];
      var marked :=
        if base == BASE_HEX then Push(kept, if flags.upper then 'X' else 'x')
        else if base == BASE_BINARY then Push(kept, 'b')
        else kept;
      Push(marked, '0')
    else buf
  }

  function SignMarked(buf: string, negative: bool, flags: Flags): string {
    if negative then Push(buf, '-')
    else if flags.plus then Push(buf, '+')
    else if flags.space then Push(buf, ' ')
    else buf
  }

  /** The scratch buffer `_ntoa_format` hands to `_out_rev`: the text reversed. */
  function FormatBody(digits: string, negative: bool, base: nat, precision: nat, width: nat,
    flags: Flags): (buf: string)
    requires |digits| <= BUFFER_SIZE
  {
    var w := SignedWidth(negative, width, flags);
    var padded := Padded(digits, precision, w, flags);
    var flags' := flags.(hash := flags.hash && !(base == BASE_OCTAL && |padded| > |digits|));
    SignMarked(Hashed(padded, |digits|, base, precision, w, flags'), negative, flags')
  }

  lemma FormatBodyParts(digits: string, negative: bool, base: nat, precision: nat, width: nat, flags: Flags,
    padded: string)
    requires |digits| <= BUFFER_SIZE && padded == Padded(digits, precision, SignedWidth(negative, width, flags), flags)
    ensures var f := flags.(hash := flags.hash && !(base == BASE_OCTAL && |padded| > |digits|));
      FormatBody(digits, negative, base, precision, width, flags)
      == SignMarked(Hashed(padded, |digits|, base, precision, SignedWidth(negative, width, flags), f), negative, f)
  {
    hide Padded, SignedWidth, Hashed, SignMarked;
  }

  lemma FormatBodyFits(digits: string, negative: bool, base: nat, precision: nat, width: nat, flags: Flags)
    requires |digits| <= BUFFER_SIZE
    ensures |FormatBody(digits, negative, base, precision, width, flags)| <= BUFFER_SIZE
  {}

  /** What `_out_rev` emits for a reversed text. */
  function Field(reversed: string, width: nat, flags: Flags): string {
    var gap := Repeat(' ', Max(0, width - |reversed|));
    if flags.left then Reverse(reversed) + gap
    else if flags.zeropad then Reverse(reversed)
    else gap + Reverse(reversed)
  }

  function NtoaFlags(value: nat, base: nat, flags: Flags): Flags {
    flags.(hash := flags.hash && !(value == 0 && (!flags.precision || base == BASE_HEX)))
  }

  function NtoaDigits(value: nat, base: nat, flags: Flags): (s: string)
    requires 2 <= base <= 16
    ensures |s| <= BUFFER_SIZE
  {
    if value == 0 then if flags.precision then "" else "0"
    else
      LsdDigitsDenote(value, base, flags.upper, BUFFER_SIZE);
      LsdDigits(value, base, flags.upper, BUFFER_SIZE)
  }

  /** The characters one call of `_ntoa` emits. */
  function NtoaText(value: nat, negative: bool, base: nat, precision: nat, width: nat, flags: Flags): string
    requires 2 <= base <= 16
  {
    var digits := NtoaDigits(value, base, flags);
    var flags' := NtoaFlags(value, base, flags);
    Field(FormatBody(digits, negative, base, precision, width, flags'), SignedWidth(negative, width, flags'), flags')
  }

  /** NTOA_ABS: negation in unsigned 64-bit arithmetic. */
  function NtoaAbs(x: int): (r: int)
    requires -TWO_63 <= x < TWO_63
  {
    if x > 0 then x else (TWO_64 - x % TWO_64) % TWO_64
  }

  /** The magnitude is right for every signed word, the minimum included. */
  lemma NtoaAbsIsMagnitude(x: int)
    requires -TWO_63 <= x < TWO_63
    ensures NtoaAbs(x) == if x < 0 then -x else x
  {
    if x < 0 {
      DivModUnique(x, TWO_64, -1, x + TWO_64);
      DivModUnique(-x, TWO_64, 0, -x);
    }
  }

  function BaseOf(conv: char): nat {
    if conv == 'x' || conv == 'X' then BASE_HEX
    else if conv == 'o' then BASE_OCTAL
    else if conv == 'b' then BASE_BINARY
    else BASE_DECIMAL
  }

  /** The flag adjustments `_vsnprintf` makes before an integer conversion. */
  function IntegerFlags(conv: char, flags: Flags): Flags {
    var signed := conv == 'i' || conv == 'd';
    flags.(hash := flags.hash && BaseOf(conv) != BASE_DECIMAL,
           upper := flags.upper || conv == 'X',
           plus := flags.plus && signed,
           space := flags.space && signed,
           zeropad := flags.zeropad && !flags.precision)
  }

  /** The characters emitted for an integer directive, the argument already narrowed to its type. */
  function IntegerText(conv: char, value: int, precision: nat, width: nat, flags: Flags): string
    requires S.IsInteger(conv) || conv == 'b'
    requires if conv == 'd' || conv == 'i' then -TWO_63 <= value < TWO_63 else 0 <= value < TWO_64
  {
    var magnitude := if conv == 'd' || conv == 'i' then NtoaAbs(value) else value;
    NtoaText(magnitude, value < 0, BaseOf(conv), precision, width, IntegerFlags(conv, flags))
  }

  // ---------- when that is what the standard says ----------

  /** The directive a flag word, width and precision came from. */
  function SpecOf(precision: nat, width: nat, flags: Flags): S.Spec {
    S.Spec(flags.left, flags.plus, flags.space, flags.hash, flags.zeropad, width,
           if flags.precision then Some(precision) else None)
  }

  /** Sign, prefix and zeros fit the scratch buffer. */
  predicate Fits(conv: char, value: int, spec: S.Spec) {
    && (S.ZeroPads(spec) ==> spec.width <= BUFFER_SIZE)
    && (spec.precision.Some? ==>
          spec.precision.value + |S.Sign(conv, value, spec)| + |S.Prefix(conv, value, spec)| <= BUFFER_SIZE)
  }

  /** The sign is dropped for want of room, but a padding space stands where the space sign belongs. */
  predicate SpaceForSpace(conv: char, value: int, spec: S.Spec) {
    S.Sign(conv, value, spec) == " " && spec.precision == Some(BUFFER_SIZE) && !spec.minus && spec.width > BUFFER_SIZE
  }

  predicate InRange(conv: char, value: int) {
    if S.IsSigned(conv) then -TWO_63 <= value < TWO_63 else 0 <= value < TWO_64
  }

  /** Flag words as the directive scanner produces them. */
  predicate FromScan(precision: nat, flags: Flags) {
    !flags.upper && !flags.pointer && (!flags.precision ==> precision == 0)
  }

  /** The digits of the code, read forwards. */
  lemma NtoaDigitsForward(value: u64, base: nat, flags: Flags)
    requires base == 8 || base == 10 || base == 16
    ensures |NtoaDigits(value, base, flags)| <= 22
    ensures Reverse(NtoaDigits(value, base, flags)) ==
            if value == 0 then if flags.precision then "" else "0" else Numeral(value, base, flags.upper)
  {
    WordLength(value, base, flags.upper);
    if value != 0 {
      LsdDigitsAreNumeral(value, base, flags.upper, BUFFER_SIZE);
    } else {
      assert Reverse("0") == "0" && Reverse("") == "";
    }
  }

  lemma ReverseBody(digits: string, k: nat, prefix: string, sign: string)
    ensures Reverse(digits + Repeat('0', k) + Reverse(prefix) + Reverse(sign))
            == sign + prefix + Repeat('0', k) + Reverse(digits)
  {
    assert Reverse(Reverse(sign)) == sign && Reverse(Reverse(prefix)) == prefix;
    ReverseConcat(digits + Repeat('0', k) + Reverse(prefix), Reverse(sign));
    ReverseConcat(digits + Repeat('0', k), Reverse(prefix));
    ReverseConcat(digits, Repeat('0', k));
    ReverseRepeat('0', k);
    assert sign + (prefix + (Repeat('0', k) + Reverse(digits))) == sign + prefix + Repeat('0', k) + Reverse(digits);
  }

  /** The hypotheses the lemmas below share. */
  predicate Legal(conv: char, value: int, precision: nat, width: nat, flags: Flags) {
    S.IsInteger(conv) && InRange(conv, value) && FromScan(precision, flags)
  }

  function Magnitude(value: int): nat { if value < 0 then -value else value }

  /** The prefix replaces up to two zeros that only filled the field, and none that a precision asked for. */
  lemma HexPrefix(digits: string, pads: nat, precision: nat, w: nat, f: Flags)
    requires f.hash && |digits| >= 1 && |digits| <= 22
    requires !f.precision ==> precision == 0 && (pads > 0 ==> |digits| + pads == w <= BUFFER_SIZE)
    requires f.precision ==> |digits| + pads + 2 <= BUFFER_SIZE
    ensures Hashed(digits + Repeat('0', pads), |digits|, BASE_HEX, precision, w, f)
            == digits + Repeat('0', if f.precision then pads else Max(0, pads - 2))
               + [if f.upper then 'X' else 'x', '0']
  {
    var padded := digits + Repeat('0', pads);
    var give := GiveBack(|digits|, |padded|, BASE_HEX, precision, w, f);
    assert give == if f.precision then 0 else Min(2, pads);
    var kept := padded[..|padded| - give];
    assert kept == digits + Repeat('0', pads - give);
    var x := if f.upper then 'X' else 'x';
    assert (kept + [x]) + ['0'] == kept + [x, '0'];
  }

  /** The octal zero is added only where no padding zero stands already. */
  lemma OctalPrefix(digits: string, precision: nat, w: nat, f: Flags)
    requires f.hash && |digits| <= 22
    ensures Hashed(digits, |digits|, BASE_OCTAL, precision, w, f) == digits + "0"
  {
    assert digits[..|digits|] == digits;
  }

  /** The number of padding zeros the loops of `_ntoa_format` append. */
  function PadCount(n: nat, precision: nat, w: nat, f: Flags): nat {
    if !f.left && f.zeropad then Max(0, w - n) else Max(0, precision - n)
  }

  predicate PadsFit(precision: nat, w: nat, f: Flags) {
    precision <= BUFFER_SIZE && (!f.left && f.zeropad ==> w <= BUFFER_SIZE && precision == 0)
  }

  lemma PaddedShape(digits: string, precision: nat, w: nat, f: Flags)
    requires PadsFit(precision, w, f)
    ensures Padded(digits, precision, w, f) == digits + Repeat('0', PadCount(|digits|, precision, w, f))
  {}

  function HashOf(base: nat, pads: nat, f: Flags): Flags {
    f.(hash := f.hash && !(base == BASE_OCTAL && pads > 0))
  }

  lemma HexBody(digits: string, precision: nat, w: nat, f: Flags)
    requires PadsFit(precision, w, f) && |digits| <= 22 && !f.pointer
    requires f.hash ==>
      && |digits| >= 1 && (!f.precision ==> precision == 0)
      && (f.precision ==> precision + 2 <= BUFFER_SIZE)
    requires f.precision ==> !f.zeropad
    ensures var pads := PadCount(|digits|, precision, w, f);
      Hashed(digits + Repeat('0', pads), |digits|, BASE_HEX, precision, w, f)
      == if !f.hash then digits + Repeat('0', pads)
         else digits + Repeat('0', if f.precision then pads else Max(0, pads - 2)) + [if f.upper then 'X' else 'x', '0']
  {
    if f.hash {
      HexPrefix(digits, PadCount(|digits|, precision, w, f), precision, w, f);
    }
  }

  lemma OctalBody(digits: string, precision: nat, w: nat, f: Flags)
    requires PadsFit(precision, w, f) && |digits| <= 22 && !f.pointer
    ensures var pads := PadCount(|digits|, precision, w, f);
      Hashed(digits + Repeat('0', pads), |digits|, BASE_OCTAL, precision, w, HashOf(BASE_OCTAL, pads, f))
      == digits + Repeat('0', if pads == 0 && f.hash then 1 else pads)
  {
    var pads := PadCount(|digits|, precision, w, f);
    var f' := HashOf(BASE_OCTAL, pads, f);
    assert f'.hash == (f.hash && pads == 0) && !f'.pointer;
    if pads == 0 && f.hash {
      assert digits + Repeat('0', pads) == digits;
      OctalPrefix(digits, precision, w, f');
      assert Repeat('0', 1) == "0";
    }
  }

  /** The number of zeros between prefix and digits in the scratch buffer, when everything fits. */
  function ZeroCount(base: nat, n: nat, precision: nat, w: nat, f: Flags): nat {
    var pads := PadCount(n, precision, w, f);
    if base == BASE_HEX && f.hash && !f.precision then Max(0, pads - 2)
    else if base == BASE_OCTAL && f.hash && pads == 0 then 1
    else pads
  }

  function PrefixText(base: nat, f: Flags): string {
    if base == BASE_HEX && f.hash then if f.upper then "0X" else "0x" else ""
  }

  function SignText(negative: bool, f: Flags): string {
    if negative then "-" else if f.plus then "+" else if f.space then " " else ""
  }

  function SignLength(negative: bool, f: Flags): nat { if negative || f.plus || f.space then 1 else 0 }

  function PrefixLength(base: nat, f: Flags): nat { if base == BASE_HEX && f.hash then 2 else 0 }

  predicate Room(base: nat, n: nat, negative: bool, precision: nat, width: nat, f: Flags) {
    && n <= 22 && !f.pointer
    && (base == BASE_DECIMAL ==> !f.hash)
    && (base == BASE_HEX && f.hash ==> n >= 1)
    && (base != BASE_DECIMAL ==> SignLength(negative, f) == 0)
    && (base == BASE_OCTAL || base == BASE_DECIMAL || base == BASE_HEX)
    && (f.precision ==> !f.zeropad)
    && (!f.precision ==> precision == 0)
    && precision + SignLength(negative, f) + PrefixLength(base, f) <= BUFFER_SIZE
    && (!f.left && f.zeropad ==> width <= BUFFER_SIZE)
  }

  lemma RoomPads(n: nat, negative: bool, base: nat, precision: nat, width: nat, f: Flags)
    requires Room(base, n, negative, precision, width, f)
    ensures PadsFit(precision, SignedWidth(negative, width, f), f)
  {}

  lemma HashedShape(digits: string, negative: bool, base: nat, precision: nat, width: nat, f: Flags)
    requires Room(base, |digits|, negative, precision, width, f)
    ensures var w := SignedWidth(negative, width, f);
      var pads := PadCount(|digits|, precision, w, f);
      Hashed(digits + Repeat('0', pads), |digits|, base, precision, w, HashOf(base, pads, f))
      == digits + Repeat('0', ZeroCount(base, |digits|, precision, w, f)) + Reverse(PrefixText(base, f))
  {
    assert Reverse("") == "" && Reverse("0x") == "x0" && Reverse("0X") == "X0";
    var w := SignedWidth(negative, width, f);
    RoomPads(|digits|, negative, base, precision, width, f);
    if base == BASE_HEX {
      HexBody(digits, precision, w, f);
    } else if base == BASE_OCTAL {
      OctalBody(digits, precision, w, f);
    }
  }

  /** Digits, zeros, prefix and sign stay within the scratch buffer. */
  lemma RoomSuffices(n: nat, negative: bool, base: nat, precision: nat, width: nat, f: Flags)
    requires Room(base, n, negative, precision, width, f)
    ensures n + ZeroCount(base, n, precision, SignedWidth(negative, width, f), f)
            + PrefixLength(base, f) + SignLength(negative, f) <= BUFFER_SIZE
  {}

  lemma FormatBodySteps(digits: string, negative: bool, base: nat, precision: nat, width: nat, f: Flags)
    requires |digits| <= BUFFER_SIZE && PadsFit(precision, SignedWidth(negative, width, f), f)
    ensures var w := SignedWidth(negative, width, f);
      var pads := PadCount(|digits|, precision, w, f);
      FormatBody(digits, negative, base, precision, width, f)
      == SignMarked(Hashed(digits + Repeat('0', pads), |digits|, base, precision, w, HashOf(base, pads, f)),
        negative, f)
  {
    PaddedShape(digits, precision, SignedWidth(negative, width, f), f);
  }

  lemma Signing(buf: string, negative: bool, base: nat, pads: nat, f: Flags)
    requires |buf| + SignLength(negative, f) <= BUFFER_SIZE
    ensures SignMarked(buf, negative, HashOf(base, pads, f)) == buf + Reverse(SignText(negative, f))
  {
    assert Reverse("") == "" && Reverse("-") == "-" && Reverse("+") == "+" && Reverse(" ") == " ";
  }

  function ShapedBody(digits: string, negative: bool, base: nat, precision: nat, width: nat, f: Flags): string {
    digits + Repeat('0', ZeroCount(base, |digits|, precision, SignedWidth(negative, width, f), f))
      + Reverse(PrefixText(base, f))
  }

  lemma ShapedLength(digits: string, negative: bool, base: nat, precision: nat, width: nat, f: Flags)
    requires Room(base, |digits|, negative, precision, width, f)
    ensures |ShapedBody(digits, negative, base, precision, width, f)| + SignLength(negative, f) <= BUFFER_SIZE
  {
    RoomSuffices(|digits|, negative, base, precision, width, f);
    assert |PrefixText(base, f)| == PrefixLength(base, f);
  }

  /** With room for everything, the scratch buffer holds digits, zeros, prefix and sign, reversed. */
  lemma BodyShape(digits: string, negative: bool, base: nat, precision: nat, width: nat, f: Flags)
    requires Room(base, |digits|, negative, precision, width, f)
    ensures FormatBody(digits, negative, base, precision, width, f)
      == ShapedBody(digits, negative, base, precision, width, f) + Reverse(SignText(negative, f))
  {
    RoomPads(|digits|, negative, base, precision, width, f);
    FormatBodySteps(digits, negative, base, precision, width, f);
    HashedShape(digits, negative, base, precision, width, f);
    ShapedLength(digits, negative, base, precision, width, f);
    Signing(ShapedBody(digits, negative, base, precision, width, f), negative, base,
            PadCount(|digits|, precision, SignedWidth(negative, width, f), f), f);
  }

  /** The flag word `_ntoa_format` gets for a directive. */
  function FinalFlags(conv: char, value: int, flags: Flags): Flags {
    NtoaFlags(Magnitude(value), BaseOf(conv), IntegerFlags(conv, flags))
  }

  /** The digits `_ntoa_format` gets for a directive, least significant first. */
  function FinalDigits(conv: char, value: int, flags: Flags): (s: string)
    ensures |s| <= BUFFER_SIZE
  {
    NtoaDigits(Magnitude(value), BaseOf(conv), IntegerFlags(conv, flags))
  }

  lemma FinalDigitsForward(conv: char, value: int, precision: nat, width: nat, flags: Flags)
    requires Legal(conv, value, precision, width, flags)
    ensures var d := FinalDigits(conv, value, flags);
      && |d| <= 22
      && (FinalFlags(conv, value, flags).hash && BaseOf(conv) == BASE_HEX ==> |d| >= 1)
      && Reverse(d) == if value == 0 then if flags.precision then "" else "0"
                       else Numeral(Magnitude(value), BaseOf(conv), conv == 'X')
  {
    NtoaDigitsForward(Magnitude(value), BaseOf(conv), IntegerFlags(conv, flags));
    assert |Reverse(FinalDigits(conv, value, flags))| == |FinalDigits(conv, value, flags)|;
  }

  lemma FinalSizes(conv: char, value: int, precision: nat, width: nat, flags: Flags)
    requires Legal(conv, value, precision, width, flags)
    requires Fits(conv, value, SpecOf(precision, width, flags))
    ensures var f := FinalFlags(conv, value, flags);
      && precision + SignLength(value < 0, f) + PrefixLength(BaseOf(conv), f) <= BUFFER_SIZE
      && (!f.left && f.zeropad ==> width <= BUFFER_SIZE)
  {}

  lemma FinalShape(conv: char, value: int, precision: nat, width: nat, flags: Flags)
    requires Legal(conv, value, precision, width, flags)
    ensures var f := FinalFlags(conv, value, flags);
      && !f.pointer
      && (BaseOf(conv) == BASE_DECIMAL ==> !f.hash)
      && (BaseOf(conv) != BASE_DECIMAL ==> SignLength(value < 0, f) == 0)
      && (BaseOf(conv) == BASE_OCTAL || BaseOf(conv) == BASE_DECIMAL || BaseOf(conv) == BASE_HEX)
      && (f.precision ==> !f.zeropad)
      && (!f.precision ==> precision == 0)
  {}

  /** A legal directive that fits leaves room in the scratch buffer. */
  lemma LegalRoom(conv: char, value: int, precision: nat, width: nat, flags: Flags)
    requires Legal(conv, value, precision, width, flags)
    requires Fits(conv, value, SpecOf(precision, width, flags))
    ensures Room(BaseOf(conv), |FinalDigits(conv, value, flags)|, value < 0, precision, width,
      FinalFlags(conv, value, flags))
  {
    FinalDigitsForward(conv, value, precision, width, flags);
    FinalSizes(conv, value, precision, width, flags);
    FinalShape(conv, value, precision, width, flags);
  }

  /** How many zeros the standard puts before the digits the code generates. */
  function StandardZeros(conv: char, n: nat, precision: nat, f: Flags): nat {
    var k := Max(0, precision - n);
    if BaseOf(conv) == BASE_OCTAL && f.hash && k == 0 then 1 else k
  }

  lemma StandardDigits(conv: char, value: int, precision: nat, width: nat, flags: Flags)
    requires Legal(conv, value, precision, width, flags)
    ensures var digits := FinalDigits(conv, value, flags);
      S.Digits(conv, value, SpecOf(precision, width, flags))
      == Repeat('0', StandardZeros(conv, |digits|, precision, FinalFlags(conv, value, flags))) + Reverse(digits)
  {
    FinalDigitsForward(conv, value, precision, width, flags);
    if value == 0 {
      ZeroDigits(conv, precision, width, flags);
    } else {
      NonzeroDigits(conv, value, precision, width, flags);
    }
  }

  lemma NonzeroDigits(conv: char, value: int, precision: nat, width: nat, flags: Flags)
    requires Legal(conv, value, precision, width, flags) && value != 0
    ensures var numeral := Numeral(Magnitude(value), BaseOf(conv), conv == 'X');
      var k := Max(0, precision - |numeral|);
      S.Digits(conv, value, SpecOf(precision, width, flags))
      == Repeat('0', if conv == 'o' && flags.hash && k == 0 then 1 else k) + numeral
  {
    var numeral := Numeral(Magnitude(value), BaseOf(conv), conv == 'X');
    NumeralDigits(Magnitude(value), BaseOf(conv), conv == 'X');
    assert Repeat('0', 0) == "" && Repeat('0', 1) == "0";
    assert "" + numeral == numeral;
  }

  lemma ZeroDigits(conv: char, precision: nat, width: nat, flags: Flags)
    requires Legal(conv, 0, precision, width, flags)
    ensures S.Digits(conv, 0, SpecOf(precision, width, flags))
      == if !flags.precision then "0"
         else if precision == 0 && conv == 'o' && flags.hash then "0"
         else Repeat('0', precision)
  {
    assert Repeat('0', 1) == "0" && Repeat('0', 0) == "";
    assert Repeat('0', precision) + "" == Repeat('0', precision);
  }

  /** Sign and prefix of the standard, from the final flag word. */
  lemma StandardHead(conv: char, value: int, precision: nat, width: nat, flags: Flags)
    requires Legal(conv, value, precision, width, flags)
    ensures var f := FinalFlags(conv, value, flags);
      var spec := SpecOf(precision, width, flags);
      && S.Sign(conv, value, spec) == SignText(value < 0, f)
      && S.Prefix(conv, value, spec) == PrefixText(BaseOf(conv), f)
      && S.ZeroPads(spec) == (f.zeropad && !f.left)
      && spec.minus == f.left
      && (f.zeropad ==> precision == 0)
  {}

  /** Forwards, the body is sign, prefix, zeros and digits. */
  lemma BodyForward(conv: char, value: int, precision: nat, width: nat, flags: Flags)
    requires Legal(conv, value, precision, width, flags)
    requires Fits(conv, value, SpecOf(precision, width, flags))
    ensures var f := FinalFlags(conv, value, flags);
      var d := FinalDigits(conv, value, flags);
      Reverse(FormatBody(d, value < 0, BaseOf(conv), precision, width, f))
      == SignText(value < 0, f) + PrefixText(BaseOf(conv), f)
         + Repeat('0', ZeroCount(BaseOf(conv), |d|, precision, SignedWidth(value < 0, width, f), f)) + Reverse(d)
  {
    var f := FinalFlags(conv, value, flags);
    var d := FinalDigits(conv, value, flags);
    LegalRoom(conv, value, precision, width, flags);
    BodyShape(d, value < 0, BaseOf(conv), precision, width, f);
    ReverseBody(d, ZeroCount(BaseOf(conv), |d|, precision, SignedWidth(value < 0, width, f), f),
                PrefixText(BaseOf(conv), f), SignText(value < 0, f));
  }

  /** In a zero-padded field, the zeros of the code are the standard's gap and its digit zeros together. */
  lemma ZeroPadCount(conv: char, value: int, precision: nat, width: nat, flags: Flags)
    requires Legal(conv, value, precision, width, flags)
    ensures var f := FinalFlags(conv, value, flags);
      var n := |FinalDigits(conv, value, flags)|;
      var k := StandardZeros(conv, n, precision, f);
      var code := ZeroCount(BaseOf(conv), n, precision, SignedWidth(value < 0, width, f), f);
      if f.zeropad && !f.left then
        code == k + Max(0, width - SignLength(value < 0, f) - PrefixLength(BaseOf(conv), f) - k - n)
      else code == k
  {
    FinalShape(conv, value, precision, width, flags);
  }

  lemma PadLeftZeros(head: string, gap: nat, k: nat, digits: string)
    ensures head + Repeat('0', gap) + (Repeat('0', k) + digits) == head + Repeat('0', k + gap) + digits
  {}

  /** The call `_vsnprintf` makes for a directive, by its final flag word. */
  lemma IntegerTextIsField(conv: char, value: int, precision: nat, width: nat, flags: Flags)
    requires Legal(conv, value, precision, width, flags)
    ensures var f := FinalFlags(conv, value, flags);
      IntegerText(conv, value, precision, width, flags)
      == Field(FormatBody(FinalDigits(conv, value, flags), value < 0, BaseOf(conv), precision, width, f),
               SignedWidth(value < 0, width, f), f)
  {
    if S.IsSigned(conv) { NtoaAbsIsMagnitude(value); }
  }

  /** The standard's text in the terms of the final flag word. */
  lemma StandardText(conv: char, value: int, precision: nat, width: nat, flags: Flags)
    requires Legal(conv, value, precision, width, flags)
    ensures var f := FinalFlags(conv, value, flags);
      var d := FinalDigits(conv, value, flags);
      var head := SignText(value < 0, f) + PrefixText(BaseOf(conv), f);
      var all := Repeat('0', StandardZeros(conv, |d|, precision, f)) + Reverse(d);
      var gap := Max(0, width - |head| - |all|);
      S.Text(conv, value, SpecOf(precision, width, flags))
      == if f.left then head + all + Repeat(' ', gap)
         else if f.zeropad then head + Repeat('0', gap) + all
         else Repeat(' ', gap) + head + all
  {
    StandardHead(conv, value, precision, width, flags);
    StandardDigits(conv, value, precision, width, flags);
  }

  lemma BodyCounts(conv: char, value: int, precision: nat, width: nat, flags: Flags)
    requires Legal(conv, value, precision, width, flags)
    requires Fits(conv, value, SpecOf(precision, width, flags))
    ensures var f := FinalFlags(conv, value, flags);
      var d := FinalDigits(conv, value, flags);
      var (sign, prefix) := (SignText(value < 0, f), PrefixText(BaseOf(conv), f));
      var k := StandardZeros(conv, |d|, precision, f);
      var gap := Max(0, width - |sign| - |prefix| - k - |Reverse(d)|);
      Reverse(FormatBody(d, value < 0, BaseOf(conv), precision, width, f))
      == sign + prefix + Repeat('0', if f.zeropad && !f.left then k + gap else k) + Reverse(d)
  {
    var f := FinalFlags(conv, value, flags);
    BodyForward(conv, value, precision, width, flags);
    ZeroPadCount(conv, value, precision, width, flags);
    assert |SignText(value < 0, f)| == SignLength(value < 0, f);
    assert |PrefixText(BaseOf(conv), f)| == PrefixLength(BaseOf(conv), f);
  }

  lemma MeetsWhenFits(conv: char, value: int, precision: nat, width: nat, flags: Flags)
    requires Legal(conv, value, precision, width, flags)
    requires Fits(conv, value, SpecOf(precision, width, flags))
    ensures IntegerText(conv, value, precision, width, flags) == S.Text(conv, value, SpecOf(precision, width, flags))
  {
    hide *;
    var f := FinalFlags(conv, value, flags);
    var d := FinalDigits(conv, value, flags);
    IntegerTextIsField(conv, value, precision, width, flags);
    StandardText(conv, value, precision, width, flags);
    BodyCounts(conv, value, precision, width, flags);
    FieldsAgree(FormatBody(d, value < 0, BaseOf(conv), precision, width, f), SignText(value < 0, f),
                PrefixText(BaseOf(conv), f), StandardZeros(conv, |d|, precision, f), Reverse(d), value < 0, width, f);
  }

  /** Field padding of the code against that of the standard, given the same sign, prefix and digits. */
  lemma FieldsAgree(body: string, sign: string, prefix: string, k: nat, digits: string, negative: bool, width: nat,
    f: Flags)
    requires sign == SignText(negative, f)
    requires var gap := Max(0, width - |sign| - |prefix| - k - |digits|);
      Reverse(body) == sign + prefix + Repeat('0', if f.zeropad && !f.left then k + gap else k) + digits
    ensures var head := sign + prefix;
      var all := Repeat('0', k) + digits;
      var gap := Max(0, width - |head| - |all|);
      Field(body, SignedWidth(negative, width, f), f)
      == if f.left then head + all + Repeat(' ', gap)
         else if f.zeropad then head + Repeat('0', gap) + all
         else Repeat(' ', gap) + head + all
  {
    var head := sign + prefix;
    var gap := Max(0, width - |sign| - |prefix| - k - |digits|);
    assert |body| == |Reverse(body)|;
    if f.zeropad && !f.left {
      PadLeftZeros(head, gap, k, digits);
    } else {
      assert head + Repeat('0', k) + digits == head + (Repeat('0', k) + digits);
    }
  }

  // ---------- when it is not ----------

  predicate NoSpace(s: string) { forall i :: 0 <= i < |s| ==> s[i] != ' ' }

  lemma DigitsHaveNoSpace(conv: char, value: int, precision: nat, width: nat, flags: Flags)
    requires Legal(conv, value, precision, width, flags)
    ensures NoSpace(Reverse(FinalDigits(conv, value, flags)))
  {
    FinalDigitsForward(conv, value, precision, width, flags);
    if value != 0 {
      NumeralDigits(Magnitude(value), BaseOf(conv), conv == 'X');
    }
  }

  /** Thirty-three columns of head and digits, the first not a space, differ from any field of a shorter body. */
  lemma TooLong(body: string, head: string, all: string, width: nat, f: Flags)
    requires |body| <= BUFFER_SIZE < |head| + |all| && !f.zeropad
    requires |head| <= 2 && |all| >= 31 && NoSpace(all)
    requires |head| == 2 ==> head[1] != ' '
    requires |head| + |all| == BUFFER_SIZE + 1 && |head| > 0 ==>
      f.left || head[0] != ' ' || width <= BUFFER_SIZE
    requires |head| == 2 ==> head[0] != ' '
    ensures var gap := Max(0, width - |head| - |all|);
      Field(body, width, f) != if f.left then head + all + Repeat(' ', gap) else Repeat(' ', gap) + head + all
  {
    var gap := Max(0, width - |head| - |all|);
    var code := Field(body, width, f);
    if f.left {
      var text := head + all + Repeat(' ', gap);
      if |code| == |text| {
        assert code[BUFFER_SIZE] == ' ';
        assert text[BUFFER_SIZE] == all[BUFFER_SIZE - |head|];
      }
    } else {
      var text := Repeat(' ', gap) + head + all;
      if |code| == |text| {
        var j := width - BUFFER_SIZE - 1;
        assert code[j] == ' ';
        assert text[j] == (head + all)[|head| + |all| - BUFFER_SIZE - 1];
      }
    }
  }

  lemma SpaceStands(conv: char, value: int, precision: nat, width: nat, flags: Flags)
    requires Legal(conv, value, precision, width, flags)
    requires SpaceForSpace(conv, value, SpecOf(precision, width, flags))
    ensures IntegerText(conv, value, precision, width, flags) == S.Text(conv, value, SpecOf(precision, width, flags))
  {
    var f := FinalFlags(conv, value, flags);
    var d := FinalDigits(conv, value, flags);
    IntegerTextIsField(conv, value, precision, width, flags);
    StandardText(conv, value, precision, width, flags);
    StandardHead(conv, value, precision, width, flags);
    FinalDigitsForward(conv, value, precision, width, flags);
    FinalShape(conv, value, precision, width, flags);
    var all := Repeat('0', BUFFER_SIZE - |d|) + Reverse(d);
    FormatBodySteps(d, false, BASE_DECIMAL, precision, width, f);
    assert FormatBody(d, false, BASE_DECIMAL, precision, width, f) == d + Repeat('0', BUFFER_SIZE - |d|);
    ReverseConcat(d, Repeat('0', BUFFER_SIZE - |d|));
    ReverseRepeat('0', BUFFER_SIZE - |d|);
    RepeatSplit(' ', width - BUFFER_SIZE - 1, 1);
    assert Repeat(' ', 1) == " " && " " + "" == " ";
  }

  /** Too much precision leaves a head and digits that `TooLong` applies to. */
  lemma OverlongHead(conv: char, value: int, precision: nat, width: nat, flags: Flags)
    requires Legal(conv, value, precision, width, flags)
    requires !Fits(conv, value, SpecOf(precision, width, flags))
    requires !SpaceForSpace(conv, value, SpecOf(precision, width, flags))
    requires !S.ZeroPads(SpecOf(precision, width, flags))
    ensures var f := FinalFlags(conv, value, flags);
      var head := SignText(value < 0, f) + PrefixText(BaseOf(conv), f);
      var count := StandardZeros(conv, |FinalDigits(conv, value, flags)|, precision, f)
        + |FinalDigits(conv, value, flags)|;
      && !f.zeropad
      && |head| <= 2 && (|head| == 2 ==> head == "0x" || head == "0X")
      && BUFFER_SIZE < |head| + count && count >= 31
      && (|head| + count == BUFFER_SIZE + 1 && |head| > 0 ==> f.left || head[0] != ' ' || width <= BUFFER_SIZE)
  {
    var f := FinalFlags(conv, value, flags);
    StandardHead(conv, value, precision, width, flags);
    FinalDigitsForward(conv, value, precision, width, flags);
    FinalShape(conv, value, precision, width, flags);
    assert SignText(value < 0, f) + "" == SignText(value < 0, f);
    assert "" + PrefixText(BaseOf(conv), f) == PrefixText(BaseOf(conv), f);
  }

  lemma MissesZeroPadded(conv: char, value: int, precision: nat, width: nat, flags: Flags)
    requires Legal(conv, value, precision, width, flags)
    requires S.ZeroPads(SpecOf(precision, width, flags)) && width > BUFFER_SIZE
    ensures IntegerText(conv, value, precision, width, flags) != S.Text(conv, value, SpecOf(precision, width, flags))
  {
    var f := FinalFlags(conv, value, flags);
    FinalDigitsForward(conv, value, precision, width, flags);
    IntegerTextIsField(conv, value, precision, width, flags);
    FormatBodyFits(FinalDigits(conv, value, flags), value < 0, BaseOf(conv), precision, width, f);
    StandardHead(conv, value, precision, width, flags);
    assert |IntegerText(conv, value, precision, width, flags)| <= BUFFER_SIZE;
  }

  lemma MissesPrecise(conv: char, value: int, precision: nat, width: nat, flags: Flags)
    requires Legal(conv, value, precision, width, flags)
    requires !Fits(conv, value, SpecOf(precision, width, flags))
    requires !SpaceForSpace(conv, value, SpecOf(precision, width, flags))
    requires !S.ZeroPads(SpecOf(precision, width, flags))
    ensures IntegerText(conv, value, precision, width, flags) != S.Text(conv, value, SpecOf(precision, width, flags))
  {
    var f := FinalFlags(conv, value, flags);
    var d := FinalDigits(conv, value, flags);
    FinalDigitsForward(conv, value, precision, width, flags);
    IntegerTextIsField(conv, value, precision, width, flags);
    StandardText(conv, value, precision, width, flags);
    FormatBodyFits(d, value < 0, BaseOf(conv), precision, width, f);
    DigitsHaveNoSpace(conv, value, precision, width, flags);
    OverlongHead(conv, value, precision, width, flags);
    TooLong(FormatBody(d, value < 0, BaseOf(conv), precision, width, f),
      SignText(value < 0, f) + PrefixText(BaseOf(conv), f),
            Repeat('0', StandardZeros(conv, |d|, precision, f)) + Reverse(d), width, f);
  }

  lemma MissesOtherwise(conv: char, value: int, precision: nat, width: nat, flags: Flags)
    requires Legal(conv, value, precision, width, flags)
    requires !Fits(conv, value, SpecOf(precision, width, flags))
    requires !SpaceForSpace(conv, value, SpecOf(precision, width, flags))
    ensures IntegerText(conv, value, precision, width, flags) != S.Text(conv, value, SpecOf(precision, width, flags))
  {
    if S.ZeroPads(SpecOf(precision, width, flags)) {
      MissesZeroPadded(conv, value, precision, width, flags);
    } else {
      MissesPrecise(conv, value, precision, width, flags);
    }
  }

  /**
   Main result: over all 64-bit arguments, flags, widths and precisions, the characters emitted for
   d, i, u, x, X and o are those the standard asks for exactly when sign, prefix and zeros fit the
   scratch buffer, or when the only thing that does not fit is a space.
   */
  lemma MeetsStandardIff(conv: char, value: int, precision: nat, width: nat, flags: Flags)
    requires Legal(conv, value, precision, width, flags)
    ensures IntegerText(conv, value, precision, width, flags) == S.Text(conv, value, SpecOf(precision, width, flags))
      <==>
         || Fits(conv, value, SpecOf(precision, width, flags))
         || SpaceForSpace(conv, value, SpecOf(precision, width, flags))
  {
    if Fits(conv, value, SpecOf(precision, width, flags)) {
      MeetsWhenFits(conv, value, precision, width, flags);
    } else if SpaceForSpace(conv, value, SpecOf(precision, width, flags)) {
      SpaceStands(conv, value, precision, width, flags);
    } else {
      MissesOtherwise(conv, value, precision, width, flags);
    }
  }

  /** In particular, precisions up to 30, and widths up to 32 where zeros fill the field, are always right. */
  lemma MeetsStandardInRange(conv: char, value: int, precision: nat, width: nat, flags: Flags)
    requires Legal(conv, value, precision, width, flags)
    requires precision <= 30 && (flags.zeropad && !flags.left && !flags.precision ==> width <= 32)
    ensures IntegerText(conv, value, precision, width, flags) == S.Text(conv, value, SpecOf(precision, width, flags))
  {
    StandardHead(conv, value, precision, width, flags);
    FinalShape(conv, value, precision, width, flags);
    MeetsWhenFits(conv, value, precision, width, flags);
  }
}
