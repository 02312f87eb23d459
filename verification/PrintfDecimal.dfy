/** `sprint_broken_up_decimal`: a number given as an integral part and a fractional part in units of 10^-precision. */
module PrintfDecimal {
  import opened Util
  import opened Numerals
  import opened PrintfFlags
  import opened PrintfFormat
  import opened PrintfText
  import opened PrintfSink
  import opened PrintfEngine
  import I = PrintfInteger

  datatype Components = Components(integral: nat, fractional: nat, negative: bool)

  // ---------- what the code computes ----------

  /** The trailing zeros of a fraction, and the places they took, dropped. */
  function Strip(fractional: nat, count: nat): (r: (nat, nat))
    requires 0 < fractional < Pow(10, count)
    decreases fractional
  {
    if fractional % 10 != 0 then (fractional, count)
    else
      StripShrinks(fractional, count);
      Strip(fractional / 10, count - 1)
  }

  lemma StripShrinks(fractional: nat, count: nat)
    requires 0 < fractional < Pow(10, count) && fractional % 10 == 0
    ensures count >= 1 && 0 < fractional / 10 < fractional && fractional / 10 < Pow(10, count - 1)
    ensures fractional == fractional / 10 * 10
  {}

  /** %g and %G drop trailing zeros, unless the # flag is given. */
  predicate Strips(flags: Flags) { flags.adaptExp && !flags.hash }

  /** The fraction and the number of places left of it. */
  function Kept(fractional: nat, precision: nat, flags: Flags): (r: (nat, nat))
    requires fractional < Pow(10, precision)
  {
    if Strips(flags) && fractional > 0 then Strip(fractional, precision) else (fractional, precision)
  }

  /** Append the digits of a value, least significant first, while there is room. */
  function AddDigits(buf: string, value: nat): (r: string)
    requires |buf| <= BUFFER_SIZE
    ensures |r| <= BUFFER_SIZE
  {
    if |buf| < BUFFER_SIZE then
      LsdDigitsDenote(value, 10, false, BUFFER_SIZE - |buf|);
      buf + LsdDigits(value, 10, false, BUFFER_SIZE - |buf|)
    else buf
  }

  /** The fractional digits, the missing leading zeros of the fraction and the point, after what the buffer held. */
  function FractionBuffer(initial: string, fractional: nat, precision: nat, flags: Flags): (r: string)
    requires |initial| <= BUFFER_SIZE && fractional < Pow(10, precision)
    ensures |r| <= BUFFER_SIZE
  {
    if precision != 0 then
      var (f, count) := Kept(fractional, precision, flags);
      if f > 0 || !Strips(flags) then I.Push(I.PadZeros(AddDigits(initial, f), |initial| + count), '.') else initial
    else if flags.hash then I.Push(initial, '.')
    else initial
  }

  /** The scratch buffer handed to `_out_rev`: the text reversed. */
  function DecimalBody(initial: string, n: Components, precision: nat, width: nat, flags: Flags): (r: string)
    requires |initial| <= BUFFER_SIZE && n.fractional < Pow(10, precision)
  {
    var digits := AddDigits(FractionBuffer(initial, n.fractional, precision, flags), n.integral);
    var w := I.SignedWidth(n.negative, width, flags);
    var padded := if !flags.left && flags.zeropad then I.PadZeros(digits, w) else digits;
    I.SignMarked(padded, n.negative, flags)
  }

  function DecimalText(initial: string, n: Components, precision: nat, width: nat, flags: Flags): string
    requires |initial| <= BUFFER_SIZE && n.fractional < Pow(10, precision)
  {
    I.Field(DecimalBody(initial, n, precision, width, flags), I.SignedWidth(n.negative, width, flags), flags)
  }

  // ---------- the method ----------

  method StripZeros(fractional: nat, precision: nat) returns (f: nat, count: nat)
    requires 0 < fractional < Pow(10, precision)
    ensures (f, count) == Strip(fractional, precision)
  {
    f, count := fractional, precision;
    while f % 10 == 0
      invariant 0 < f < Pow(10, count)
      invariant Strip(f, count) == Strip(fractional, precision)
      decreases f
    {
      StripShrinks(f, count);
      count := count - 1;
      f := f / 10;
    }
  }

  method AppendNumber(buf: array<char>, start: nat, value: nat) returns (len: nat)
    requires buf.Length == BUFFER_SIZE && start <= BUFFER_SIZE
    modifies buf
    ensures len <= BUFFER_SIZE && buf[..len] == AddDigits(old(buf[..start]), value)
  {
    len := start;
    if len < BUFFER_SIZE {
      len := GenerateDigits(buf, len, value, 10, false);
    }
  }

  /** The point and what comes after it. */
  method AppendFraction(buf: array<char>, start: nat, fractional: nat, precision: nat, flags: Flags) returns (len: nat)
    requires buf.Length == BUFFER_SIZE && start <= BUFFER_SIZE && fractional < Pow(10, precision)
    modifies buf
    ensures len <= BUFFER_SIZE && buf[..len] == FractionBuffer(old(buf[..start]), fractional, precision, flags)
  {
    len := start;
    if precision != 0 {
      var f, count := fractional, precision;
      if flags.adaptExp && !flags.hash && f > 0 {
        f, count := StripZeros(f, count);
      }
      if f > 0 || !flags.adaptExp || flags.hash {
        len := AppendNumber(buf, len, f);
        len := AppendZeros(buf, len, start + count);
        len := Append(buf, len, '.');
      }
    } else if flags.hash {
      len := Append(buf, len, '.');
    }
  }

  /** `buf[..start]` is what the caller put there already, to come out reversed after the number. */
  method SprintBrokenUpDecimal(n: Components, sink: Sink, idx: nat, precision: nat, width: nat, flags: Flags,
                               buf: array<char>, start: nat)
    returns (next: nat)
    requires buf.Length == BUFFER_SIZE && start <= BUFFER_SIZE && n.fractional < Pow(10, precision)
    requires sink.Valid() && sink.InStep() && idx == |sink.calls| && buf !in sink.Cells()
    modifies sink`received, sink`calls, sink.Cells(), buf
    ensures sink.Valid() && sink.InStep() && next == |sink.calls|
    ensures sink.Text() == old(sink.Text()) + DecimalText(old(buf[..start]), n, precision, width, flags)
  {
    var len, w := AppendDecimal(buf, start, n, precision, width, flags);
    next := OutRev(sink, idx, buf[..len], w, flags);
  }

  method AppendDecimal(buf: array<char>, start: nat, n: Components, precision: nat, width: nat, flags: Flags)
    returns (len: nat, w: nat)
    requires buf.Length == BUFFER_SIZE && start <= BUFFER_SIZE && n.fractional < Pow(10, precision)
    modifies buf
    ensures len <= BUFFER_SIZE && buf[..len] == DecimalBody(old(buf[..start]), n, precision, width, flags)
    ensures w == I.SignedWidth(n.negative, width, flags)
  {
    w := width;
    len := AppendFraction(buf, start, n.fractional, precision, flags);
    len := AppendNumber(buf, len, n.integral);
    if !flags.left && flags.zeropad {
      if w != 0 && (n.negative || flags.plus || flags.space) {
        w := w - 1;
      }
      len := AppendZeros(buf, len, w);
    }
    len := AppendSign(buf, len, n.negative, flags);
  }

  /** The largest precision whose fraction the code can hold. */
  const MAX_PRECISION := 17

  /**
   What the caller does about a larger precision: it puts zeros at the far end of the text first, as
   many as the precision is too large while the buffer holds them, and asks for that many places fewer.
   */
  method LimitPrecision(buf: array<char>, precision: nat) returns (len: nat, limited: nat)
    requires buf.Length == BUFFER_SIZE
    modifies buf
    ensures len == Min(BUFFER_SIZE, Max(0, precision - MAX_PRECISION)) && limited + len == precision
    ensures buf[..len] == Repeat('0', len)
    ensures precision <= MAX_PRECISION + BUFFER_SIZE <==> limited <= MAX_PRECISION
  {
    len, limited := 0, precision;
    while len < BUFFER_SIZE && limited > MAX_PRECISION
      invariant len <= BUFFER_SIZE && limited + len == precision
      invariant len > 0 ==> limited >= MAX_PRECISION
      invariant buf[..len] == Repeat('0', len)
    {
      buf[len] := '0';
      len := len + 1;
      limited := limited - 1;
    }
  }

  // ---------- what the text says ----------

  /** `count` places of a fraction. */
  function Places(f: nat, count: nat): string {
    Repeat('0', Max(0, count - |Numeral(f, 10, false)|)) + Numeral(f, 10, false)
  }

  function FractionText(fractional: nat, precision: nat, flags: Flags): string
    requires fractional < Pow(10, precision)
  {
    if precision == 0 then if flags.hash then "." else ""
    else
      var (f, count) := Kept(fractional, precision, flags);
      if f == 0 && Strips(flags) then "" else "." + Places(f, count)
  }

  /** The integral part, the point and its places, and what the buffer held before. */
  function NumberText(initial: string, n: Components, precision: nat, flags: Flags): string
    requires n.fractional < Pow(10, precision)
  {
    Numeral(n.integral, 10, false) + FractionText(n.fractional, precision, flags) + Reverse(initial)
  }

  /** Sign and number fit the scratch buffer, and so does a zero-filled field. */
  predicate Fits(initial: string, n: Components, precision: nat, width: nat, flags: Flags)
    requires n.fractional < Pow(10, precision)
  {
    && |I.SignText(n.negative, flags)| + |NumberText(initial, n, precision, flags)| <= BUFFER_SIZE
    && (flags.zeropad && !flags.left ==> width <= BUFFER_SIZE)
  }

  /** A numeral of at most `room` digits is below 10^room. */
  lemma {:induction false} ShortNumeral(v: nat, room: nat)
    requires |Numeral(v, 10, false)| <= room
    ensures v < Pow(10, room)
  {
    if v < 10 {
      PowMonotone(10, 1, room);
      assert Pow(10, 1) == 10 * Pow(10, 0);
    } else {
      DivShrinks(v, 10);
      ShortNumeral(v / 10, room - 1);
    }
  }

  lemma AddDigitsForward(buf: string, v: nat)
    requires |buf| + |Numeral(v, 10, false)| <= BUFFER_SIZE
    ensures Reverse(AddDigits(buf, v)) == Numeral(v, 10, false) + Reverse(buf)
    ensures |AddDigits(buf, v)| == |buf| + |Numeral(v, 10, false)|
  {
    var room := BUFFER_SIZE - |buf|;
    ShortNumeral(v, room);
    LsdDigitsAreNumeral(v, 10, false, room);
    ReverseConcat(buf, LsdDigits(v, 10, false, room));
    ReverseLength(LsdDigits(v, 10, false, room));
  }

  lemma PadZerosForward(buf: string, n: nat)
    requires |buf| <= BUFFER_SIZE && n <= BUFFER_SIZE
    ensures Reverse(I.PadZeros(buf, n)) == Repeat('0', Max(0, n - |buf|)) + Reverse(buf)
    ensures |I.PadZeros(buf, n)| == Max(n, |buf|)
  {
    ReverseConcat(buf, Repeat('0', Max(0, n - |buf|)));
    ReverseRepeat('0', Max(0, n - |buf|));
  }

  lemma PushForward(buf: string, c: char)
    requires |buf| < BUFFER_SIZE
    ensures Reverse(I.Push(buf, c)) == [c] + Reverse(buf) && |I.Push(buf, c)| == |buf| + 1
  {
    ReverseConcat(buf, [c]);
    assert Reverse([c]) == [c];
  }

  lemma FractionForward(initial: string, fractional: nat, precision: nat, flags: Flags)
    requires fractional < Pow(10, precision)
    requires |initial| + |FractionText(fractional, precision, flags)| < BUFFER_SIZE
    ensures Reverse(FractionBuffer(initial, fractional, precision, flags))
      == FractionText(fractional, precision, flags) + Reverse(initial)
  {
    hide AddDigits, I.PadZeros, I.Push, Places, Reverse, Strip, Pow;
    var tail := Reverse(initial);
    assert "" + tail == tail;
    if precision != 0 {
      var (f, count) := Kept(fractional, precision, flags);
      if !(f == 0 && Strips(flags)) {
        PlacesForward(initial, f, count);
      }
    } else {
      PushForward(initial, '.');
    }
  }

  lemma PlacesForward(initial: string, f: nat, count: nat)
    requires |initial| + |Places(f, count)| + 1 < BUFFER_SIZE
    ensures Reverse(I.Push(I.PadZeros(AddDigits(initial, f), |initial| + count), '.'))
      == "." + Places(f, count) + Reverse(initial)
  {
    hide AddDigits, I.PadZeros, I.Push, Numeral, Reverse;
    var digits := AddDigits(initial, f);
    AddDigitsForward(initial, f);
    PadZerosForward(digits, |initial| + count);
    PushForward(I.PadZeros(digits, |initial| + count), '.');
  }

  /** Zeros that fill the field before a number of `len` columns. */
  function FieldZeros(n: Components, len: nat, width: nat, flags: Flags): nat {
    if !flags.left && flags.zeropad then Max(0, I.SignedWidth(n.negative, width, flags) - len) else 0
  }

  /** What fits is printed whole: sign, field zeros and number. */
  lemma DecimalForward(initial: string, n: Components, precision: nat, width: nat, flags: Flags)
    requires |initial| <= BUFFER_SIZE && n.fractional < Pow(10, precision) && Fits(initial, n, precision, width, flags)
    ensures var number := NumberText(initial, n, precision, flags);
      Reverse(DecimalBody(initial, n, precision, width, flags))
      == I.SignText(n.negative, flags) + (Repeat('0', FieldZeros(n, |number|, width, flags)) + number)
  {
    hide FractionBuffer, FractionText, AddDigits, Numeral, I.PadZeros, I.SignMarked, Reverse;
    var frac := FractionBuffer(initial, n.fractional, precision, flags);
    ReverseLength(initial);
    FractionForward(initial, n.fractional, precision, flags);
    ReverseLength(frac);
    AddDigitsForward(frac, n.integral);
    var digits := AddDigits(frac, n.integral);
    assert Reverse(digits) == NumberText(initial, n, precision, flags);
    var w := I.SignedWidth(n.negative, width, flags);
    var padded := if !flags.left && flags.zeropad then I.PadZeros(digits, w) else digits;
    assert Reverse(padded) == Repeat('0', FieldZeros(n, |digits|, width, flags)) + Reverse(digits)
           && |padded| + |I.SignText(n.negative, flags)| <= BUFFER_SIZE by {
      PaddingForward(n, digits, width, flags);
    }
    SignForward(padded, n, flags);
  }

  lemma PaddingForward(n: Components, digits: string, width: nat, flags: Flags)
    requires |digits| + |I.SignText(n.negative, flags)| <= BUFFER_SIZE
      && (flags.zeropad && !flags.left ==> width <= BUFFER_SIZE)
    ensures var w := I.SignedWidth(n.negative, width, flags);
      var padded := if !flags.left && flags.zeropad then I.PadZeros(digits, w) else digits;
      && Reverse(padded) == Repeat('0', FieldZeros(n, |digits|, width, flags)) + Reverse(digits)
      && |padded| + |I.SignText(n.negative, flags)| <= BUFFER_SIZE
  {
    if !flags.left && flags.zeropad {
      PadZerosForward(digits, I.SignedWidth(n.negative, width, flags));
    } else {
      assert Repeat('0', 0) + Reverse(digits) == Reverse(digits);
    }
  }

  lemma SignForward(buf: string, n: Components, flags: Flags)
    requires |buf| + |I.SignText(n.negative, flags)| <= BUFFER_SIZE
    ensures Reverse(I.SignMarked(buf, n.negative, flags)) == I.SignText(n.negative, flags) + Reverse(buf)
  {
    if I.SignText(n.negative, flags) != "" {
      PushForward(buf, I.SignText(n.negative, flags)[0]);
    } else {
      assert "" + Reverse(buf) == Reverse(buf);
    }
  }

  /**
   Main result: what fits is printed as sign, integral part, fraction and the zeros put there before, in a
   field padded as the flags say.
   */
  lemma DecimalPrinted(initial: string, n: Components, precision: nat, width: nat, flags: Flags)
    requires |initial| <= BUFFER_SIZE && n.fractional < Pow(10, precision) && Fits(initial, n, precision, width, flags)
    ensures var sign := I.SignText(n.negative, flags);
      var number := NumberText(initial, n, precision, flags);
      var gap := Max(0, width - |sign| - |number|);
      DecimalText(initial, n, precision, width, flags)
      == if flags.left then sign + number + Repeat(' ', gap)
         else if flags.zeropad then sign + Repeat('0', gap) + number
         else Repeat(' ', gap) + sign + number
  {
    hide Fits, DecimalBody, NumberText, I.Field;
    var sign := I.SignText(n.negative, flags);
    var number := NumberText(initial, n, precision, flags);
    var body := DecimalBody(initial, n, precision, width, flags);
    DecimalForward(initial, n, precision, width, flags);
    ZerosCount(n, |number|, width, flags);
    assert sign + "" == sign && Repeat('0', 0) + number == number;
    assert forall k: nat :: sign + (Repeat('0', k) + number) == sign + "" + Repeat('0', k) + number;
    I.FieldsAgree(body, sign, "", 0, number, n.negative, width, flags);
  }

  lemma ZerosCount(n: Components, len: nat, width: nat, flags: Flags)
    ensures FieldZeros(n, len, width, flags)
      == if flags.zeropad && !flags.left then Max(0, width - |I.SignText(n.negative, flags)| - len) else 0
  {}

  // ---------- reading the number back ----------

  /** Stripping divides by ten once per place dropped, and stops at a digit that is not zero. */
  lemma {:induction false} StripExact(fractional: nat, count: nat)
    requires 0 < fractional < Pow(10, count)
    ensures var (f, c) := Strip(fractional, count);
      && 1 <= c <= count && 0 < f < Pow(10, c) && f % 10 != 0
      && f * Pow(10, count - c) == fractional
    decreases fractional
  {
    if fractional % 10 != 0 {
      assert Pow(10, 0) == 1;
    } else {
      StripShrinks(fractional, count);
      StripExact(fractional / 10, count - 1);
      var (f, c) := Strip(fractional / 10, count - 1);
      assert Pow(10, count - c) == 10 * Pow(10, count - 1 - c);
      hide Pow, Strip;
      TimesTen(f, Pow(10, count - 1 - c), fractional / 10);
    }
  }

  lemma TimesTen(f: nat, p: nat, v: nat)
    requires f * p == v
    ensures f * (10 * p) == v * 10
  {
    MulAssoc(f, 10, p);
  }

  lemma {:induction false} ValueOfConcat(a: string, b: string)
    ensures ValueOf(a + b, 10) == ValueOf(a, 10) * Pow(10, |b|) + ValueOf(b, 10)
  {
    if b == "" {
      assert a + b == a && Pow(10, 0) == 1;
    } else {
      var k := |b| - 1;
      ValueOfConcat(a, b[..k]);
      assert (a + b)[..|a| + k] == a + b[..k];
      assert Pow(10, |b|) == 10 * Pow(10, k);
      MulAssoc(ValueOf(a, 10), Pow(10, k), 10);
    }
  }

  lemma PlacesDenote(f: nat, count: nat)
    requires count >= 1 && f < Pow(10, count)
    ensures |Places(f, count)| == count && ValueOf(Places(f, count), 10) == f
  {
    NumeralLength(f, 10, false, count);
    NumeralDenotes(f, 10, false);
    LeadingZeros(count - |Numeral(f, 10, false)|, Numeral(f, 10, false), 10);
  }

  // A reader of printed numbers, which knows nothing of how they were put together.

  function DigitOrNone(c: char): string { if IsDigit(c) then [c] else "" }

  /** The decimal digits of a text, in order; padding, sign and point are passed over. */
  function DigitsIn(text: string): string {
    if text == "" then "" else DigitOrNone(text[0]) + DigitsIn(text[1..])
  }

  /** The number of digits after the first point, if there is one. */
  function PlacesIn(text: string): nat {
    if text == "" then 0 else if text[0] == '.' then |DigitsIn(text[1..])| else PlacesIn(text[1..])
  }

  lemma {:induction false} DigitsConcat(a: string, b: string)
    ensures DigitsIn(a + b) == DigitsIn(a) + DigitsIn(b)
  {
    if a == "" {
      assert a + b == b;
    } else {
      hide DigitOrNone;
      assert (a + b)[1..] == a[1..] + b && (a + b)[0] == a[0];
      DigitsConcat(a[1..], b);
      assert DigitsIn(a + b) == DigitOrNone(a[0]) + (DigitsIn(a[1..]) + DigitsIn(b));
    }
  }

  lemma {:induction false} PlacesConcat(a: string, b: string)
    ensures PlacesIn(a + b) == if '.' in a then PlacesIn(a) + |DigitsIn(b)| else PlacesIn(b)
  {
    if a == "" {
      assert a + b == b;
    } else {
      assert (a + b)[1..] == a[1..] + b;
      assert a == [a[0]] + a[1..];
      if a[0] == '.' { DigitsConcat(a[1..], b); } else { PlacesConcat(a[1..], b); }
    }
  }

  lemma {:induction false} ReadsWhole(s: string)
    requires AllDigits(s)
    ensures DigitsIn(s) == s && PlacesIn(s) == 0
  {
    if s != "" { ReadsWhole(s[1..]); }
  }

  lemma ReadsParts(whole: string, places: string)
    requires AllDigits(whole) && AllDigits(places)
    ensures DigitsIn(whole + ("." + places)) == whole + places && PlacesIn(whole + ("." + places)) == |places|
  {
    ReadsWhole(whole);
    ReadsWhole(places);
    PointReads(places);
    hide DigitsIn, PlacesIn;
    DigitsConcat(whole, "." + places);
    PlacesConcat(whole, "." + places);
  }

  lemma PointReads(places: string)
    ensures DigitsIn("." + places) == DigitsIn(places) && PlacesIn("." + places) == |DigitsIn(places)|
  {
    assert ("." + places)[1..] == places;
    assert "" + DigitsIn(places) == DigitsIn(places);
  }

  /** The number in units of its last place. */
  function Scaled(n: Components, precision: nat): nat { n.integral * Pow(10, precision) + n.fractional }

  /** The digits of the number without the point, when the buffer held some zeros before. */
  function DigitsOf(n: Components, precision: nat, zeros: nat, flags: Flags): string
    requires n.fractional < Pow(10, precision)
  {
    var frac := FractionText(n.fractional, precision, flags);
    Numeral(n.integral, 10, false) + (if frac == "" then "" else frac[1..]) + Repeat('0', zeros)
  }

  /** The number of digits after the point. */
  function PlacesOf(n: Components, precision: nat, zeros: nat, flags: Flags): nat
    requires n.fractional < Pow(10, precision)
  {
    var frac := FractionText(n.fractional, precision, flags);
    if frac == "" then 0 else |frac| - 1 + zeros
  }

  lemma PlacesAllDigits(f: nat, count: nat)
    ensures AllDigits(Places(f, count))
  {
    NumeralAllDigits(f);
  }

  /** The reader finds those digits and places in the number as it is printed after such zeros. */
  lemma ReadsNumber(n: Components, precision: nat, zeros: nat, flags: Flags)
    requires n.fractional < Pow(10, precision)
    ensures var text := NumberText(Repeat('0', zeros), n, precision, flags);
      DigitsIn(text) == DigitsOf(n, precision, zeros, flags) && PlacesIn(text) == PlacesOf(n, precision, zeros, flags)
  {
    hide Numeral, FractionText, Repeat, Reverse, DigitsIn, PlacesIn;
    var numeral, tail := Numeral(n.integral, 10, false), Repeat('0', zeros);
    var frac := FractionText(n.fractional, precision, flags);
    ReverseRepeat('0', zeros);
    NumeralAllDigits(n.integral);
    FractionDigits(n.fractional, precision, flags);
    RepeatDigits(zeros);
    if frac == "" {
      assert numeral + frac + tail == numeral + "" + tail == numeral + tail;
      ReadsWhole(numeral + tail);
    } else {
      assert numeral + frac + tail == numeral + ("." + (frac[1..] + tail));
      assert numeral + frac[1..] + tail == numeral + (frac[1..] + tail);
      ReadsParts(numeral, frac[1..] + tail);
    }
  }

  lemma RepeatDigits(n: nat)
    ensures AllDigits(Repeat('0', n)) && |Repeat('0', n)| == n
  {}

  lemma FractionDigits(fractional: nat, precision: nat, flags: Flags)
    requires fractional < Pow(10, precision)
    ensures var frac := FractionText(fractional, precision, flags);
      frac != "" ==> frac == "." + frac[1..] && AllDigits(frac[1..])
  {
    if precision != 0 {
      var (f, count) := Kept(fractional, precision, flags);
      PlacesAllDigits(f, count);
    }
  }

  lemma ZerosDenote(s: string, zeros: nat)
    ensures ValueOf(s + Repeat('0', zeros), 10) == ValueOf(s, 10) * Pow(10, zeros)
  {
    ValueOfConcat(s, Repeat('0', zeros));
    LeadingZeros(zeros, "", 10);
    assert Repeat('0', zeros) + "" == Repeat('0', zeros);
  }

  lemma ExactDigits(n: Components, precision: nat, zeros: nat, flags: Flags)
    requires n.fractional < Pow(10, precision) && precision > 0 && !Strips(flags)
    ensures FractionText(n.fractional, precision, flags) != "" && FractionText(n.fractional, precision, flags)[0] == '.'
    ensures PlacesOf(n, precision, zeros, flags) == precision + zeros
    ensures ValueOf(DigitsOf(n, precision, zeros, flags), 10) == Scaled(n, precision) * Pow(10, zeros)
  {
    var places := Places(n.fractional, precision);
    PlacesDenote(n.fractional, precision);
    NumeralDenotes(n.integral, 10, false);
    ValueOfConcat(Numeral(n.integral, 10, false), places);
    assert ("." + places)[1..] == places;
    ZerosDenote(Numeral(n.integral, 10, false) + places, zeros);
  }

  lemma StrippedText(n: Components, precision: nat, zeros: nat, flags: Flags)
    requires n.fractional < Pow(10, precision) && precision > 0 && Strips(flags)
    ensures n.fractional == 0 ==>
      && FractionText(n.fractional, precision, flags) == ""
      && DigitsOf(n, precision, zeros, flags) == Numeral(n.integral, 10, false) + Repeat('0', zeros)
    ensures n.fractional > 0 ==>
      var (f, c) := Strip(n.fractional, precision);
      && f > 0 && FractionText(n.fractional, precision, flags) == "." + Places(f, c)
      && DigitsOf(n, precision, zeros, flags) == Numeral(n.integral, 10, false) + Places(f, c) + Repeat('0', zeros)
  {
    var numeral := Numeral(n.integral, 10, false);
    assert numeral + "" == numeral;
    if n.fractional > 0 {
      StripExact(n.fractional, precision);
      var (f, c) := Strip(n.fractional, precision);
      assert ("." + Places(f, c))[1..] == Places(f, c);
    }
  }

  /** The number its kept places denote, times ten for every place dropped. */
  lemma StrippedValue(n: Components, precision: nat)
    requires 0 < n.fractional < Pow(10, precision)
    ensures var (f, c) := Strip(n.fractional, precision);
      var places := Places(f, c);
      && 1 <= c <= precision && |places| == c && places[c - 1] != '0'
      && ValueOf(Numeral(n.integral, 10, false) + places, 10) * Pow(10, precision - c)
         == Scaled(n, precision)
  {
    StripExact(n.fractional, precision);
    var (f, c) := Strip(n.fractional, precision);
    PlacesDenote(f, c);
    LastPlace(f, c);
    NumeralDenotes(n.integral, 10, false);
    ValueOfConcat(Numeral(n.integral, 10, false), Places(f, c));
    hide Places, Numeral, ValueOf, Strip;
    Rescale(n.integral, f, c, precision - c, n.fractional);
  }

  lemma StrippedDigits(n: Components, precision: nat, zeros: nat, flags: Flags)
    requires n.fractional < Pow(10, precision) && precision > 0 && Strips(flags)
    ensures var frac := FractionText(n.fractional, precision, flags);
      var value := ValueOf(DigitsOf(n, precision, zeros, flags), 10);
      && (n.fractional == 0 ==> frac == "" && value == n.integral * Pow(10, zeros))
      && (n.fractional > 0 ==>
            2 <= |frac| <= precision + 1 && frac[0] == '.' && frac[|frac| - 1] != '0'
            && value * Pow(10, precision + 1 - |frac|) == Scaled(n, precision) * Pow(10, zeros))
  {
    hide FractionText, DigitsOf, Places, Numeral, ValueOf, Strip;
    StrippedText(n, precision, zeros, flags);
    NumeralDenotes(n.integral, 10, false);
    if n.fractional > 0 {
      StrippedValue(n, precision);
      var (f, c) := Strip(n.fractional, precision);
      ZerosDenote(Numeral(n.integral, 10, false) + Places(f, c), zeros);
      Swap(ValueOf(Numeral(n.integral, 10, false) + Places(f, c), 10), Pow(10, zeros), Pow(10, precision - c));
    } else {
      ZerosDenote(Numeral(n.integral, 10, false), zeros);
    }
  }

  lemma Swap(x: nat, y: nat, z: nat)
    ensures x * y * z == x * z * y
  {
    MulAssoc(x, y, z);
    MulAssoc(x, z, y);
  }

  predicate DigitsDenote(n: Components, precision: nat, zeros: nat, flags: Flags)
    requires n.fractional < Pow(10, precision)
  {
    ValueOf(DigitsOf(n, precision, zeros, flags), 10) * Pow(10, precision)
    == Scaled(n, precision) * Pow(10, PlacesOf(n, precision, zeros, flags))
  }

  predicate PrintsPoint(n: Components, precision: nat, flags: Flags) {
    flags.hash || (precision > 0 && (n.fractional > 0 || !flags.adaptExp))
  }

  lemma DigitsDenoteIff(n: Components, precision: nat, zeros: nat, flags: Flags)
    requires n.fractional < Pow(10, precision)
    ensures DigitsDenote(n, precision, zeros, flags)
      <==> zeros == 0 || n.integral == 0 || PrintsPoint(n, precision, flags)
  {
    hide DigitsDenote, FractionText, DigitsOf, PlacesOf, ValueOf;
    if PrintsPoint(n, precision, flags) {
      WithPoint(n, precision, zeros, flags);
    } else {
      WithoutPoint(n, precision, zeros, flags);
    }
  }

  lemma WithPoint(n: Components, precision: nat, zeros: nat, flags: Flags)
    requires n.fractional < Pow(10, precision) && PrintsPoint(n, precision, flags)
    ensures DigitsDenote(n, precision, zeros, flags)
  {
    if precision == 0 {
      BarePoint(n, zeros, flags);
    } else if !Strips(flags) {
      AllPlaces(n, precision, zeros, flags);
    } else {
      KeptPlaces(n, precision, zeros, flags);
    }
  }

  lemma AllPlaces(n: Components, precision: nat, zeros: nat, flags: Flags)
    requires n.fractional < Pow(10, precision) && precision > 0 && !Strips(flags)
    ensures DigitsDenote(n, precision, zeros, flags)
  {
    hide FractionText, DigitsOf, PlacesOf, ValueOf, Scaled, Pow;
    ExactDigits(n, precision, zeros, flags);
    PowAdd(10, precision, zeros);
    Regroup(ValueOf(DigitsOf(n, precision, zeros, flags), 10), Scaled(n, precision), 1, Pow(10, precision),
      Pow(10, zeros));
  }

  lemma KeptPlaces(n: Components, precision: nat, zeros: nat, flags: Flags)
    requires n.fractional < Pow(10, precision) && precision > 0 && Strips(flags) && n.fractional > 0
    ensures DigitsDenote(n, precision, zeros, flags)
  {
    hide FractionText, DigitsOf, ValueOf, Scaled, Pow;
    StrippedDigits(n, precision, zeros, flags);
    var value := ValueOf(DigitsOf(n, precision, zeros, flags), 10);
    var c := |FractionText(n.fractional, precision, flags)| - 1;
    PowAdd(10, precision - c, c);
    PowAdd(10, c, zeros);
    Regroup(value, Scaled(n, precision), Pow(10, precision - c), Pow(10, c), Pow(10, zeros));
  }

  /** From value * dropped == scaled * zeros. */
  lemma Regroup(value: nat, scaled: nat, dropped: nat, kept: nat, zeros: nat)
    requires value * dropped == scaled * zeros
    ensures value * (dropped * kept) == scaled * (kept * zeros)
  {
    MulAssoc(value, dropped, kept);
    MulAssoc(scaled, kept, zeros);
    Swap(scaled, kept, zeros);
  }

  /** Precision zero with #: the point and the zeros. */
  lemma BarePoint(n: Components, zeros: nat, flags: Flags)
    requires n.fractional < Pow(10, 0) && flags.hash
    ensures DigitsDenote(n, 0, zeros, flags)
  {
    var numeral := Numeral(n.integral, 10, false);
    assert Pow(10, 0) == 1 && "."[1..] == "" && numeral + "" == numeral;
    NumeralDenotes(n.integral, 10, false);
    ZerosDenote(numeral, zeros);
  }

  lemma WithoutPoint(n: Components, precision: nat, zeros: nat, flags: Flags)
    requires n.fractional < Pow(10, precision) && !PrintsPoint(n, precision, flags)
    ensures DigitsDenote(n, precision, zeros, flags) <==> zeros == 0 || n.integral == 0
  {
    var numeral := Numeral(n.integral, 10, false);
    assert n.fractional == 0 by { assert Pow(10, 0) == 1; }
    assert numeral + "" == numeral;
    NumeralDenotes(n.integral, 10, false);
    ZerosDenote(numeral, zeros);
    hide Numeral, ValueOf;
    LargerIff(n.integral, Pow(10, precision), zeros);
  }

  lemma LargerIff(x: nat, p: nat, zeros: nat)
    requires p > 0
    ensures x * Pow(10, zeros) * p == x * p * 1 <==> zeros == 0 || x == 0
  {
    assert Pow(10, 0) == 1;
    Swap(x, Pow(10, zeros), p);
    if zeros > 0 && x > 0 {
      assert Pow(10, zeros) == 10 * Pow(10, zeros - 1);
      MulGrows(x, p);
      MulLe(10, Pow(10, zeros), x * p);
    }
  }

  lemma LastPlace(f: nat, count: nat)
    requires count >= 1 && f < Pow(10, count) && f % 10 != 0
    ensures |Places(f, count)| == count && Places(f, count)[count - 1] != '0'
  {
    NumeralLength(f, 10, false, count);
    var numeral := Numeral(f, 10, false);
    assert numeral[|numeral| - 1] == DigitChar(f % 10, false) by {
      if f < 10 { DivModUnique(f, 10, 0, f); }
    }
  }

  lemma Rescale(i: nat, f: nat, c: nat, d: nat, fractional: nat)
    requires f * Pow(10, d) == fractional
    ensures (i * Pow(10, c) + f) * Pow(10, d) == i * Pow(10, c + d) + fractional
  {
    PowAdd(10, c, d);
    MulAssoc(i, Pow(10, c), Pow(10, d));
  }

  // ---------- main results ----------

  /**
   Main result: the printed number is its integral part, the point, exactly `precision` places and the
   zeros put there before; its digits denote integral * 10^precision + fractional, times ten for every
   such zero.
   */
  lemma DecimalExact(n: Components, precision: nat, zeros: nat, flags: Flags)
    requires n.fractional < Pow(10, precision) && precision > 0 && !Strips(flags)
    ensures var text := NumberText(Repeat('0', zeros), n, precision, flags);
      var whole := Numeral(n.integral, 10, false);
      && |text| == |whole| + 1 + precision + zeros && text[..|whole|] == whole && text[|whole|] == '.'
      && PlacesIn(text) == precision + zeros
      && ValueOf(DigitsIn(text), 10) == Scaled(n, precision) * Pow(10, zeros)
  {
    hide FractionText, DigitsOf, DigitsIn, PlacesIn, ValueOf, Scaled, Numeral;
    ReadsNumber(n, precision, zeros, flags);
    ExactDigits(n, precision, zeros, flags);
    ReverseRepeat('0', zeros);
  }

  /**
   Main result for %g without #: a zero fraction leaves no point, and zeros put there before follow the
   integral part; otherwise the last place kept is not zero, and putting the dropped places back gives
   the same number.
   */
  lemma DecimalStripped(n: Components, precision: nat, zeros: nat, flags: Flags)
    requires n.fractional < Pow(10, precision) && precision > 0 && Strips(flags)
    ensures var text := NumberText(Repeat('0', zeros), n, precision, flags);
      var value := ValueOf(DigitsIn(text), 10);
      && (n.fractional == 0 ==> '.' !in text && value == n.integral * Pow(10, zeros))
      && (n.fractional > 0 ==>
            var kept := PlacesIn(text) - zeros;
            && 1 <= kept <= precision && |text| > zeros && text[|text| - 1 - zeros] != '0'
            && value * Pow(10, precision - kept) == Scaled(n, precision) * Pow(10, zeros))
  {
    hide FractionText, DigitsOf, DigitsIn, PlacesIn, ValueOf, Scaled, Numeral;
    ReadsNumber(n, precision, zeros, flags);
    StrippedDigits(n, precision, zeros, flags);
    ReverseRepeat('0', zeros);
    NumeralAllDigits(n.integral);
  }

  /** Whether a text, read as a decimal number, is the number given. */
  predicate Denotes(text: string, n: Components, precision: nat) {
    ValueOf(DigitsIn(text), 10) * Pow(10, precision) == Scaled(n, precision) * Pow(10, PlacesIn(text))
  }

  /**
   Main result: the printed number denotes the one given exactly when a point is printed, when there are no
   zeros to come after it, or when the integral part is zero. Otherwise those zeros make it larger.
   */
  lemma DenotesIff(n: Components, precision: nat, zeros: nat, flags: Flags)
    requires n.fractional < Pow(10, precision)
    ensures Denotes(NumberText(Repeat('0', zeros), n, precision, flags), n, precision)
      <==> zeros == 0 || n.integral == 0 || PrintsPoint(n, precision, flags)
  {
    hide NumberText, DigitsOf, PlacesOf, DigitsIn, PlacesIn, ValueOf, Scaled;
    ReadsNumber(n, precision, zeros, flags);
    DigitsDenoteIff(n, precision, zeros, flags);
  }

  // ---------- the whole field ----------

  lemma {:induction false} NoDigits(s: string)
    requires forall i :: 0 <= i < |s| ==> !IsDigit(s[i])
    ensures DigitsIn(s) == ""
  {
    if s != "" { NoDigits(s[1..]); }
  }

  lemma {:induction false} NoPoint(s: string)
    requires '.' !in s
    ensures PlacesIn(s) == 0
  {
    if s != "" { NoPoint(s[1..]); }
  }

  /** Blanks, signs and zeros before a number, and blanks after it, do not change what is read. */
  lemma PaddingUnread(before: string, zeros: nat, number: string, after: string)
    requires forall i :: 0 <= i < |before| ==> !IsDigit(before[i]) && before[i] != '.'
    requires forall i :: 0 <= i < |after| ==> !IsDigit(after[i]) && after[i] != '.'
    ensures var text := before + Repeat('0', zeros) + number + after;
      ValueOf(DigitsIn(text), 10) == ValueOf(DigitsIn(number), 10) && PlacesIn(text) == PlacesIn(number)
  {
    hide DigitsIn, PlacesIn, ValueOf;
    var filled := before + Repeat('0', zeros);
    RepeatDigits(zeros);
    NoDigits(before);
    NoDigits(after);
    NoPoint(after);
    ReadsWhole(Repeat('0', zeros));
    DigitsConcat(before, Repeat('0', zeros));
    DigitsConcat(filled, number);
    DigitsConcat(filled + number, after);
    LeadingZeros(zeros, DigitsIn(number), 10);
    assert DigitsIn(filled + number + after) == Repeat('0', zeros) + DigitsIn(number);
    PlacesConcat(filled, number);
    PlacesConcat(filled + number, after);
    if '.' !in number { NoPoint(number); }
  }

  /** Sign, padding and number of the field, in the order they come. */
  lemma FieldShape(n: Components, precision: nat, zeros: nat, width: nat, flags: Flags)
    returns (before: string, fill: nat, after: string)
    requires zeros <= BUFFER_SIZE && n.fractional < Pow(10, precision)
    requires Fits(Repeat('0', zeros), n, precision, width, flags)
    ensures DecimalText(Repeat('0', zeros), n, precision, width, flags)
      == before + Repeat('0', fill) + NumberText(Repeat('0', zeros), n, precision, flags) + after
    ensures forall i :: 0 <= i < |before| ==> before[i] == ' ' || before[i] == '+' || before[i] == '-'
    ensures forall i :: 0 <= i < |after| ==> after[i] == ' '
    ensures '-' in before <==> n.negative
  {
    hide Fits, DecimalText, NumberText;
    var sign := I.SignText(n.negative, flags);
    var number := NumberText(Repeat('0', zeros), n, precision, flags);
    var gap := Max(0, width - |sign| - |number|);
    DecimalPrinted(Repeat('0', zeros), n, precision, width, flags);
    before, fill, after := sign, 0, "";
    if flags.left {
      after := Repeat(' ', gap);
    } else if flags.zeropad {
      fill := gap;
    } else {
      before := Repeat(' ', gap) + sign;
    }
    assert before + Repeat('0', 0) == before;
    assert sign + Repeat('0', fill) + number + "" == sign + Repeat('0', fill) + number;
    assert before + number + "" == before + number;
  }

  /** Main result: so it is with the emitted field, whatever its width and padding, and its sign is right. */
  lemma FieldDenotesIff(n: Components, precision: nat, zeros: nat, width: nat, flags: Flags)
    requires zeros <= BUFFER_SIZE && n.fractional < Pow(10, precision)
    requires Fits(Repeat('0', zeros), n, precision, width, flags)
    ensures var text := DecimalText(Repeat('0', zeros), n, precision, width, flags);
      && ('-' in text <==> n.negative)
      && (Denotes(text, n, precision) <==> zeros == 0 || n.integral == 0 || PrintsPoint(n, precision, flags))
  {
    hide Fits, DecimalText, NumberText, DigitsIn, PlacesIn, ValueOf, Scaled;
    var before, fill, after := FieldShape(n, precision, zeros, width, flags);
    PaddingUnread(before, fill, NumberText(Repeat('0', zeros), n, precision, flags), after);
    DenotesIff(n, precision, zeros, flags);
    NoMinus(n, precision, zeros, flags);
  }

  lemma NoMinus(n: Components, precision: nat, zeros: nat, flags: Flags)
    requires n.fractional < Pow(10, precision)
    ensures '-' !in NumberText(Repeat('0', zeros), n, precision, flags)
  {
    hide FractionText, Numeral;
    ReverseRepeat('0', zeros);
    NumeralAllDigits(n.integral);
    FractionDigits(n.fractional, precision, flags);
  }

  /** The failing case: "3000" for the number 3. */
  lemma ZerosMultiply()
    ensures var (n, flags) := (Components(3, 0, false), NO_FLAGS.(adaptExp := true));
      && 0 < Pow(10, 16) && Fits("000", n, 16, 0, flags)
      && DecimalText("000", n, 16, 0, flags) == "3000" && !Denotes("3000", n, 16)
  {
    var (n, flags) := (Components(3, 0, false), NO_FLAGS.(adaptExp := true));
    assert Repeat('0', 3) == "000" && Reverse("000") == "000";
    assert Numeral(3, 10, false) == "3";
    assert NumberText("000", n, 16, flags) == "3000";
    DecimalPrinted("000", n, 16, 0, flags);
    DenotesIff(n, 16, 3, flags);
  }
}
