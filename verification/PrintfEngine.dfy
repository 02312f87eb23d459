/** The formatter itself: `_out_rev`, `_ntoa_format`, `_ntoa`, `_vsnprintf` and the wrappers around it. */
module PrintfEngine {
  import opened Util
  import opened Numerals
  import opened PrintfFlags
  import opened PrintfFormat
  import opened PrintfText
  import opened PrintfReads
  import opened PrintfSink
  import S = IntegerStandard
  import I = PrintfInteger

  // ---------- integer output ----------

  lemma TextSnoc(before: string, s: string, k: nat, c: char)
    requires k < |s| && s[k] == c
    ensures before + s[..k] + [c] == before + s[..k + 1]
  {}

  /** Spaces, up to the field width. */
  method PadSpaces(sink: Sink, idx: nat, count: nat) returns (next: nat)
    requires sink.Valid() && sink.InStep() && idx == |sink.calls|
    modifies sink`received, sink`calls, sink.Cells()
    ensures sink.Valid() && sink.InStep() && next == |sink.calls| == idx + count
    ensures sink.Text() == old(sink.Text()) + Repeat(' ', count)
  {
    next := idx;
    ghost var before := sink.Text();
    assert before + [] == before;
    var i := 0;
    while i < count
      invariant 0 <= i <= count && next == |sink.calls| == idx + i
      invariant sink.Valid() && sink.InStep()
      invariant sink.Text() == before + Repeat(' ', i)
    {
      next := sink.Put(' ', next);
      assert before + Repeat(' ', i) + [' '] == before + Repeat(' ', i + 1);
      i := i + 1;
    }
  }

  /** Emit a reversed text forwards. */
  method EmitReversed(sink: Sink, idx: nat, buf: string) returns (next: nat)
    requires sink.Valid() && sink.InStep() && idx == |sink.calls|
    modifies sink`received, sink`calls, sink.Cells()
    ensures sink.Valid() && sink.InStep() && next == |sink.calls| == idx + |buf|
    ensures sink.Text() == old(sink.Text()) + Reverse(buf)
  {
    hide Reverse;
    ReverseLength(buf);
    next := idx;
    var len := |buf|;
    ghost var before, text := sink.Text(), Reverse(buf);
    assert before + text[..0] == before;
    while len != 0
      invariant 0 <= len <= |buf| && next == |sink.calls| == idx + |buf| - len
      invariant sink.Valid() && sink.InStep()
      invariant sink.Text() == before + text[..|buf| - len]
    {
      len := len - 1;
      next := sink.Put(buf[len], next);
      ReverseAt(buf, |buf| - len - 1);
      TextSnoc(before, text, |buf| - len - 1, buf[len]);
    }
    assert text[..|buf|] == text;
  }

  lemma FieldParts(before: string, buf: string, width: nat, flags: Flags)
    ensures var gap := Repeat(' ', Max(0, width - |buf|));
      before + I.Field(buf, width, flags)
      == if flags.left then before + Reverse(buf) + gap
         else if flags.zeropad then before + Reverse(buf)
         else before + gap + Reverse(buf)
  {
    var gap := Repeat(' ', Max(0, width - |buf|));
    assert before + (Reverse(buf) + gap) == before + Reverse(buf) + gap;
    assert before + (gap + Reverse(buf)) == before + gap + Reverse(buf);
  }

  /** Output a reversed text, padded with spaces to the field width. */
  method OutRev(sink: Sink, idx: nat, buf: string, width: nat, flags: Flags) returns (next: nat)
    requires sink.Valid() && sink.InStep() && idx == |sink.calls|
    modifies sink`received, sink`calls, sink.Cells()
    ensures sink.Valid() && sink.InStep() && next == |sink.calls|
    ensures sink.Text() == old(sink.Text()) + I.Field(buf, width, flags)
  {
    hide I.Field, Repeat, Reverse;
    next := idx;
    FieldParts(sink.Text(), buf, width, flags);
    if !flags.left && !flags.zeropad {
      next := PadSpaces(sink, next, Max(0, width - |buf|));
    }
    next := EmitReversed(sink, next, buf);
    if flags.left {
      next := PadSpaces(sink, next, Max(0, width - (next - idx)));
    }
  }

  /** Append one character while the scratch buffer has room. */
  method Append(buf: array<char>, len: nat, c: char) returns (len': nat)
    requires buf.Length == BUFFER_SIZE && len <= BUFFER_SIZE
    modifies buf
    ensures len <= len' <= BUFFER_SIZE && buf[..len'] == I.Push(old(buf[..len]), c)
  {
    len' := len;
    if len' < BUFFER_SIZE {
      buf[len'] := c;
      len' := len' + 1;
    }
  }

  /** Append zeros up to length `n` while the scratch buffer has room. */
  method AppendZeros(buf: array<char>, len: nat, n: nat) returns (len': nat)
    requires buf.Length == BUFFER_SIZE && len <= BUFFER_SIZE
    modifies buf
    ensures len <= len' <= BUFFER_SIZE && buf[..len'] == I.PadZeros(old(buf[..len]), n)
  {
    len' := len;
    ghost var before := buf[..len];
    assert before + [] == before;
    while len' < n && len' < BUFFER_SIZE
      invariant len <= len' <= BUFFER_SIZE && (len' > len ==> len' <= n)
      invariant buf[..len'] == before + Repeat('0', len' - len)
    {
      buf[len'] := '0';
      assert before + Repeat('0', len' - len) + ['0'] == before + Repeat('0', len' + 1 - len);
      len' := len' + 1;
    }
  }

  /** The zeros that only fill the field give way to the base prefix. */
  method MakeRoom(len: nat, unpadded: nat, base: nat, precision: nat, width: nat, flags: Flags) returns (len': nat)
    requires unpadded <= len
    ensures len' == len - I.GiveBack(unpadded, len, base, precision, width, flags)
  {
    len' := len;
    if !flags.precision && len' != 0 && (len' == precision || len' == width) {
      if unpadded < len' {
        len' := len' - 1;
      }
      if len' != 0 && base == BASE_HEX {
        if unpadded < len' {
          len' := len' - 1;
        }
      }
    }
  }

  /** The base prefix, for which padding zeros that only fill the field make room. */
  method AppendPrefix(buf: array<char>, len: nat, unpadded: nat, base: nat, precision: nat, width: nat, flags: Flags)
    returns (len': nat)
    requires buf.Length == BUFFER_SIZE && unpadded <= len <= BUFFER_SIZE
    modifies buf
    ensures len' <= BUFFER_SIZE && buf[..len'] == I.Hashed(old(buf[..len]), unpadded, base, precision, width, flags)
  {
    len' := len;
    if flags.hash || flags.pointer {
      len' := MakeRoom(len, unpadded, base, precision, width, flags);
      assert buf[..len'] == old(buf[..len])[..len'];
      if base == BASE_HEX && !flags.upper {
        len' := Append(buf, len', 'x');
      } else if base == BASE_HEX && flags.upper {
        len' := Append(buf, len', 'X');
      } else if base == BASE_BINARY {
        len' := Append(buf, len', 'b');
      }
      len' := Append(buf, len', '0');
    }
  }

  method AppendSign(buf: array<char>, len: nat, negative: bool, flags: Flags) returns (len': nat)
    requires buf.Length == BUFFER_SIZE && len <= BUFFER_SIZE
    modifies buf
    ensures len' <= BUFFER_SIZE && buf[..len'] == I.SignMarked(old(buf[..len]), negative, flags)
  {
    len' := len;
    if negative {
      len' := Append(buf, len', '-');
    } else if flags.plus {
      len' := Append(buf, len', '+');
    } else if flags.space {
      len' := Append(buf, len', ' ');
    }
  }

  /** A sign takes one column of a zero-padded field; then zeros, up to the width and up to the precision. */
  method AppendPadding(buf: array<char>, digits: nat, negative: bool, precision: nat, fieldWidth: nat, flags: Flags)
    returns (len: nat, width: nat)
    requires buf.Length == BUFFER_SIZE && digits <= BUFFER_SIZE
    modifies buf
    ensures width == I.SignedWidth(negative, fieldWidth, flags)
    ensures digits <= len <= BUFFER_SIZE && buf[..len] == I.Padded(old(buf[..digits]), precision, width, flags)
  {
    len, width := digits, fieldWidth;
    if !flags.left {
      if width != 0 && flags.zeropad && (negative || flags.plus || flags.space) {
        width := width - 1;
      }
      if flags.zeropad {
        len := AppendZeros(buf, len, width);
      }
    }
    len := AppendZeros(buf, len, precision);
  }

  /** What `_ntoa_format` does to the scratch buffer, and the width left for `_out_rev`. */
  method FormatBuffer(buf: array<char>, digits: nat, negative: bool, base: nat, precision: nat, fieldWidth: nat,
    flags: Flags)
    returns (len: nat, width: nat)
    requires buf.Length == BUFFER_SIZE && digits <= BUFFER_SIZE
    modifies buf
    ensures width == I.SignedWidth(negative, fieldWidth, flags)
    ensures len <= BUFFER_SIZE
    ensures buf[..len] == I.FormatBody(old(buf[..digits]), negative, base, precision, fieldWidth, flags)
  {
    hide I.FormatBody, I.Padded, I.Hashed, I.SignMarked, I.SignedWidth;
    ghost var first := buf[..digits];
    len, width := AppendPadding(buf, digits, negative, precision, fieldWidth, flags);
    I.FormatBodyParts(first, negative, base, precision, fieldWidth, flags, buf[..len]);
    var flags' := flags.(hash := flags.hash && !(base == BASE_OCTAL && len > digits));
    len := AppendPrefix(buf, len, digits, base, precision, width, flags');
    len := AppendSign(buf, len, negative, flags');
  }

  method NtoaFormat(sink: Sink, idx: nat, buf: array<char>, digits: nat, negative: bool, base: nat, precision: nat,
                    fieldWidth: nat, flags: Flags)
    returns (next: nat)
    requires sink.Valid() && sink.InStep() && idx == |sink.calls|
    requires buf.Length == BUFFER_SIZE && digits <= BUFFER_SIZE && buf !in sink.Cells()
    modifies buf, sink`received, sink`calls, sink.Cells()
    ensures sink.Valid() && sink.InStep() && next == |sink.calls|
    ensures sink.Text() == old(sink.Text())
      + I.Field(I.FormatBody(old(buf[..digits]), negative, base, precision, fieldWidth, flags),
                I.SignedWidth(negative, fieldWidth, flags), flags)
  {
    var len, width := FormatBuffer(buf, digits, negative, base, precision, fieldWidth, flags);
    next := OutRev(sink, idx, buf[..len], width, flags);
  }

  method Ntoa(sink: Sink, idx: nat, magnitude: nat, negative: bool, base: nat, precision: nat, width: nat, flags: Flags)
    returns (next: nat)
    requires sink.Valid() && sink.InStep() && idx == |sink.calls| && 2 <= base <= 16
    modifies sink`received, sink`calls, sink.Cells()
    ensures sink.Valid() && sink.InStep() && next == |sink.calls|
    ensures sink.Text() == old(sink.Text()) + I.NtoaText(magnitude, negative, base, precision, width, flags)
  {
    var buf := new char[BUFFER_SIZE];
    var len := FirstDigits(buf, magnitude, base, flags);
    next := NtoaFormat(sink, idx, buf, len, negative, base, precision, width, I.NtoaFlags(magnitude, base, flags));
  }

  /** The digits of a value; of zero, one digit unless a precision was given. */
  method FirstDigits(buf: array<char>, magnitude: nat, base: nat, flags: Flags) returns (len: nat)
    requires buf.Length == BUFFER_SIZE && 2 <= base <= 16
    modifies buf
    ensures len <= BUFFER_SIZE && buf[..len] == I.NtoaDigits(magnitude, base, flags)
  {
    len := 0;
    if magnitude != 0 {
      len := GenerateDigits(buf, 0, magnitude, base, flags.upper);
      assert forall s: string :: [] + s == s;
    } else if !flags.precision {
      buf[len] := '0';
      len := len + 1;
    }
  }

  /** What the do-while still has to generate after one digit. */
  ghost function LsdTail(value: nat, base: nat, upper: bool, cap: nat): string
    requires 2 <= base <= 16 && cap >= 1
  {
    if value / base != 0 && cap > 1 then LsdDigits(value / base, base, upper, cap - 1) else []
  }

  lemma LsdStep(before: string, value: nat, base: nat, upper: bool, cap: nat)
    requires 2 <= base <= 16 && cap >= 1
    ensures before + LsdDigits(value, base, upper, cap)
      == before + [DigitChar(value % base, upper)] + LsdTail(value, base, upper, cap)
  {
    assert LsdDigits(value, base, upper, cap) == [DigitChar(value % base, upper)] + LsdTail(value, base, upper, cap);
  }

  /** The do-while that divides the value down, least significant digit first. */
  method GenerateDigits(buf: array<char>, start: nat, magnitude: nat, base: nat, upper: bool) returns (len: nat)
    requires buf.Length == BUFFER_SIZE && start < BUFFER_SIZE && 2 <= base <= 16
    modifies buf
    ensures len <= BUFFER_SIZE
      && buf[..len] == old(buf[..start]) + LsdDigits(magnitude, base, upper, BUFFER_SIZE - start)
  {
    hide LsdDigits;
    len := start;
    ghost var all := buf[..start] + LsdDigits(magnitude, base, upper, BUFFER_SIZE - start);
    ghost var todo := LsdDigits(magnitude, base, upper, BUFFER_SIZE - start);
    var value: nat, more := magnitude, true;
    while more
      invariant 0 <= len <= BUFFER_SIZE && (more ==> len < BUFFER_SIZE)
      invariant all == buf[..len] + todo
      invariant todo == if more then LsdDigits(value, base, upper, BUFFER_SIZE - len) else []
      decreases BUFFER_SIZE - len, more
    {
      ghost var before := buf[..len];
      QuotientNat(value, base);
      LsdStep(before, value, base, upper, BUFFER_SIZE - len);
      todo := LsdTail(value, base, upper, BUFFER_SIZE - len);
      buf[len] := DigitChar(value % base, upper);
      assert buf[..len + 1] == before + [DigitChar(value % base, upper)];
      value := value / base;
      len := len + 1;
      more := value != 0 && len < BUFFER_SIZE;
    }
  }

  // ---------- scanning ----------

  /** The character under the format pointer. */
  function At(format: string, pos: nat): (c: char)
    requires pos <= |format|
    ensures c == Head(format[pos..])
  {
    if pos < |format| then format[pos] else NUL
  }

  lemma FlagRunStep(format: string, start: nat, pos: nat)
    requires start <= pos < |format| && IsFlag(format[pos])
    requires FlagRun(format[start..]) == format[start..pos] + FlagRun(format[pos..])
    ensures FlagRun(format[start..]) == format[start..pos + 1] + FlagRun(format[pos + 1..])
    ensures format[start..pos + 1] == format[start..pos] + [format[pos]]
  {
    assert format[pos..][1..] == format[pos + 1..];
  }

  /** The flag a character of the flag run sets. */
  function AddFlag(f: Flags, c: char): Flags {
    match c
    case '0' => f.(zeropad := true)
    case '-' => f.(left := true)
    case '+' => f.(plus := true)
    case ' ' => f.(space := true)
    case '#' => f.(hash := true)
    case _ => f
  }

  lemma FlagsOfSnoc(run: string, c: char)
    ensures FlagsOf(run + [c]) == AddFlag(FlagsOf(run), c)
  {
    assert forall d: char :: d in run + [c] <==> d in run || d == c;
  }

  method ScanFlags(format: string, start: nat) returns (flags: Flags, pos: nat)
    requires start <= |format|
    ensures start <= pos <= |format| && format[start..pos] == FlagRun(format[start..])
    ensures flags == FlagsOf(FlagRun(format[start..]))
  {
    flags, pos := NO_FLAGS, start;
    assert NO_FLAGS == FlagsOf("");
    while IsFlag(At(format, pos))
      invariant start <= pos <= |format|
      invariant FlagRun(format[start..]) == format[start..pos] + FlagRun(format[pos..])
      invariant flags == FlagsOf(format[start..pos])
      decreases |format| - pos
    {
      FlagRunStep(format, start, pos);
      FlagsOfSnoc(format[start..pos], format[pos]);
      flags := AddFlag(flags, format[pos]);
      pos := pos + 1;
    }
  }

  lemma DigitRunStep(format: string, start: nat, pos: nat)
    requires start <= pos < |format| && IsDigit(format[pos])
    requires DigitRun(format[start..]) == format[start..pos] + DigitRun(format[pos..])
    ensures DigitRun(format[start..]) == format[start..pos + 1] + DigitRun(format[pos + 1..])
    ensures Atoi(format[start..pos + 1]) == (Atoi(format[start..pos]) * 10 + (format[pos] as int - '0' as int)) % TWO_32
  {
    assert format[pos..][1..] == format[pos + 1..];
    assert format[start..pos + 1] == format[start..pos] + [format[pos]];
  }

  method ReadNumber(format: string, start: nat) returns (i: u32, pos: nat)
    requires start <= |format|
    ensures start <= pos <= |format| && format[start..pos] == DigitRun(format[start..])
    ensures i == Atoi(DigitRun(format[start..]))
  {
    i, pos := 0, start;
    while IsDigit(At(format, pos))
      invariant start <= pos <= |format|
      invariant DigitRun(format[start..]) == format[start..pos] + DigitRun(format[pos..])
      invariant i == Atoi(format[start..pos])
      decreases |format| - pos
    {
      DigitRunStep(format, start, pos);
      i := (i * 10 + (format[pos] as int - '0' as int)) % TWO_32;
      pos := pos + 1;
    }
  }

  method ReadWidth(format: string, start: nat, flags: Flags, va: seq<Arg>) returns (f: Fields, pos: nat)
    requires start <= |format|
    ensures f == ResolveWidth(flags, ScanSize(format[start..]), va)
    ensures start <= pos <= |format| && format[start..pos] == PrintSize(ScanSize(format[start..]))
  {
    hide DigitRun, Atoi;
    pos := start;
    assert At(format, pos) == Head(format[start..]);
    if IsDigit(At(format, pos)) {
      var width;
      width, pos := ReadNumber(format, pos);
      f := Fields(flags, width, 0, va);
    } else if At(format, pos) == '*' {
      var w := Signed(WordOf(va), TWO_32);
      if w < 0 {
        f := Fields(flags.(left := true), -w, 0, Rest(va));
      } else {
        f := Fields(flags, w, 0, Rest(va));
      }
      pos := pos + 1;
      assert format[start] == '*' && format[start..pos] == [format[start]] == "*";
    } else {
      f := Fields(flags, 0, 0, va);
      assert format[start..pos] == "";
    }
  }

  method ReadPrecision(format: string, start: nat, before: Fields) returns (f: Fields, pos: nat)
    requires start <= |format| && before.precision == 0
    ensures var dot := Head(format[start..]) == '.';
      var precision := if dot then ScanSize(format[start..][1..]) else NoSize;
      && f == ResolvePrecision(before, dot, precision)
      && start <= pos <= |format|
      && format[start..pos] == if dot then "." + PrintSize(precision) else ""
  {
    f, pos := before, start;
    if At(format, pos) == '.' {
      f := f.(flags := f.flags.(precision := true));
      pos := pos + 1;
      assert format[pos..] == format[start..][1..];
      if IsDigit(At(format, pos)) {
        var precision;
        precision, pos := ReadNumber(format, pos);
        f := f.(precision := precision);
      } else if At(format, pos) == '*' {
        var precision := Signed(WordOf(f.args), TWO_32);
        f := f.(precision := if precision > 0 then precision else 0, args := Rest(f.args));
        pos := pos + 1;
        assert format[start + 1..pos] == "*";
      }
      assert format[start..pos] == "." + format[start + 1..pos];
    }
  }

  lemma LengthAt(format: string, start: nat)
    requires start < |format|
    ensures ScanLength(format[start..]) == match format[start]
           case 'l' => if At(format, start + 1) == 'l' then "ll" else "l"
           case 'h' => if At(format, start + 1) == 'h' then "hh" else "h"
           case 't' => "t"
           case 'j' => "j"
           case 'z' => "z"
           case _ => ""
    ensures var l := ScanLength(format[start..]);
      |l| <= |format| - start && format[start..start + |l|] == l
  {
    assert format[start..][1..] == format[start + 1..];
  }

  predicate NoLength(f: Flags) { !f.isLong && !f.isLongLong && !f.isShort && !f.isChar }

  /** On this machine `long`, `ptrdiff_t`, `intmax_t` and `size_t` have the same size. */
  method ReadLength(format: string, start: nat, before: Flags) returns (flags: Flags, pos: nat)
    requires start <= |format|
    requires NoLength(before)
    ensures flags == LengthFlags(ScanLength(format[start..]), before)
    ensures start <= pos <= |format| && format[start..pos] == ScanLength(format[start..])
  {
    flags, pos := before, start;
    if start < |format| {
      LengthAt(format, start);
      match format[start] {
        case 'l' =>
          pos := pos + 1;
          var second := At(format, pos) == 'l';
          flags := flags.(isLong := true, isLongLong := second);
          if second {
            pos := pos + 1;
          }
        case 'h' =>
          pos := pos + 1;
          var second := At(format, pos) == 'h';
          flags := flags.(isShort := true, isChar := second);
          if second {
            pos := pos + 1;
          }
        case 't' =>
          flags := flags.(isLong := true);
          pos := pos + 1;
        case 'j' =>
          flags := flags.(isLong := true);
          pos := pos + 1;
        case 'z' =>
          flags := flags.(isLong := true);
          pos := pos + 1;
        case _ =>
      }
    }
  }

  // ---------- conversions ----------

  /** Emit a text left to right. */
  method PutAll(sink: Sink, idx: nat, text: string) returns (next: nat)
    requires sink.Valid() && sink.InStep() && idx == |sink.calls|
    modifies sink`received, sink`calls, sink.Cells()
    ensures sink.Valid() && sink.InStep() && next == |sink.calls|
    ensures sink.Text() == old(sink.Text()) + text
  {
    next := idx;
    ghost var before := sink.Text();
    assert before + text[..0] == before;
    for i := 0 to |text|
      invariant sink.Valid() && sink.InStep() && next == |sink.calls|
      invariant sink.Text() == before + text[..i]
    {
      next := sink.Put(text[i], next);
      TextSnoc(before, text, i, text[i]);
    }
    assert text[..|text|] == text;
  }

  /** A text of `l` columns with spaces before or after it. */
  method PutSpaced(sink: Sink, idx: nat, text: string, l: nat, width: nat, left: bool) returns (next: nat)
    requires sink.Valid() && sink.InStep() && idx == |sink.calls|
    modifies sink`received, sink`calls, sink.Cells()
    ensures sink.Valid() && sink.InStep() && next == |sink.calls|
    ensures sink.Text() == old(sink.Text()) + Spaced(text, l, width, left)
  {
    hide Spaced, Repeat;
    next := idx;
    SpacedParts(sink.Text(), text, l, width, left);
    if !left {
      next := PadSpaces(sink, next, Max(0, width - l));
    }
    next := PutAll(sink, next, text);
    if left {
      next := PadSpaces(sink, next, Max(0, width - l));
    }
  }

  lemma SpacedParts(before: string, text: string, l: nat, width: nat, left: bool)
    ensures var gap := Repeat(' ', Max(0, width - l));
      before + Spaced(text, l, width, left) == if left then before + text + gap else before + gap + text
  {
    var gap := Repeat(' ', Max(0, width - l));
    assert before + (text + gap) == before + text + gap;
    assert before + (gap + text) == before + gap + text;
  }

  method PutString(sink: Sink, idx: nat, f: Fields) returns (next: nat)
    requires sink.Valid() && sink.InStep() && idx == |sink.calls|
    modifies sink`received, sink`calls, sink.Cells()
    ensures sink.Valid() && sink.InStep() && next == |sink.calls|
    ensures sink.Text() == old(sink.Text()) + StringText(f)
  {
    if f.args != [] && f.args[0].Chars? {
      var l, shown, _ := ReadString(f.args[0].mem, f);
      next := PutSpaced(sink, idx, shown, l, f.width, f.flags.left);
    } else {
      next := OutRev(sink, idx, ")llun(", f.width, f.flags);
    }
  }

  method PutPointer(sink: Sink, idx: nat, f: Fields) returns (next: nat)
    requires sink.Valid() && sink.InStep() && idx == |sink.calls|
    modifies sink`received, sink`calls, sink.Cells()
    ensures sink.Valid() && sink.InStep() && next == |sink.calls|
    ensures sink.Text() == old(sink.Text()) + PointerText(f)
  {
    var flags := f.flags.(zeropad := true, pointer := true);
    var value := WordOf(f.args);
    if value == 0 {
      next := OutRev(sink, idx, ")lin(", POINTER_WIDTH, flags);
    } else {
      next := Ntoa(sink, idx, value, false, BASE_HEX, f.precision, POINTER_WIDTH, flags);
    }
  }

  method PutInteger(sink: Sink, idx: nat, conv: char, f: Fields) returns (next: nat)
    requires sink.Valid() && sink.InStep() && idx == |sink.calls|
    requires S.IsInteger(conv) || conv == 'b'
    modifies sink`received, sink`calls, sink.Cells()
    ensures sink.Valid() && sink.InStep() && next == |sink.calls|
    ensures sink.Text() == old(sink.Text())
      + I.IntegerText(conv, IntegerValue(conv, f.flags, WordOf(f.args)), f.precision, f.width, f.flags)
  {
    var flags := I.IntegerFlags(conv, f.flags);
    var value := IntegerValue(conv, f.flags, WordOf(f.args));
    if conv == 'i' || conv == 'd' {
      next := Ntoa(sink, idx, I.NtoaAbs(value), value < 0, I.BaseOf(conv), f.precision, f.width, flags);
    } else {
      next := Ntoa(sink, idx, value, false, I.BaseOf(conv), f.precision, f.width, flags);
    }
  }

  /** The specifier switch of `_vsnprintf`. */
  method Convert(sink: Sink, idx: nat, conv: char, f: Fields, front: FloatFront) returns (next: nat, va: seq<Arg>)
    requires sink.Valid() && sink.InStep() && idx == |sink.calls|
    modifies sink`received, sink`calls, sink.Cells()
    ensures sink.Valid() && sink.InStep() && next == |sink.calls|
    ensures sink.Text() == old(sink.Text()) + Converted(conv, f, front)
    ensures va == if TakesArgument(conv) then Rest(f.args) else f.args
  {
    va := f.args;
    if S.IsInteger(conv) || conv == 'b' {
      next := PutInteger(sink, idx, conv, f);
      va := Rest(va);
    } else if IsFloat(conv) {
      var value := Signed(WordOf(f.args), TWO_32);
      var text := front(value, f.precision, f.width, FloatFlags(conv, f.flags), PrefersExponential(conv));
      next := PutAll(sink, idx, text);
      va := Rest(va);
    } else if conv == 'c' {
      next := PutSpaced(sink, idx, [(WordOf(f.args) % TWO_8) as char], 1, f.width, f.flags.left);
      va := Rest(va);
    } else if conv == 's' {
      next := PutString(sink, idx, f);
      va := Rest(va);
    } else if conv == 'p' {
      next := PutPointer(sink, idx, f);
      va := Rest(va);
    } else {
      next := PutAll(sink, idx, [conv]);
    }
  }

  lemma DropRead(format: string, a: nat, b: nat, read: string)
    requires a <= b <= |format| && format[a..b] == read
    ensures |read| <= |format[a..]| && format[a..][|read|..] == format[b..]
  {}

  lemma WidthStage(format: string, p1: nat, p2: nat, flags: string)
    requires p1 <= p2 <= |format| && format[p1..p2] == PrintSize(ScanSize(format[p1..]))
    ensures ScanWidth(format[p1..], flags) == ScanPrecision(format[p2..], flags, ScanSize(format[p1..]))
  {
    DropRead(format, p1, p2, PrintSize(ScanSize(format[p1..])));
  }

  lemma PrecisionStage(format: string, p2: nat, p3: nat, flags: string, width: Size)
    requires p2 <= p3 <= |format|
    requires var dot := Head(format[p2..]) == '.';
      format[p2..p3] == if dot then "." + PrintSize(ScanSize(format[p2..][1..])) else ""
    ensures var dot := Head(format[p2..]) == '.';
      ScanPrecision(format[p2..], flags, width)
      == ScanEnd(format[p3..], flags, width, dot, if dot then ScanSize(format[p2..][1..]) else NoSize)
  {
    if Head(format[p2..]) == '.' {
      var precision := ScanSize(format[p2..][1..]);
      assert format[p2..][1..] == format[p2 + 1..];
      assert format[p2 + 1..p3] == PrintSize(precision);
      DropRead(format, p2 + 1, p3, PrintSize(precision));
    }
  }

  lemma EndStage(format: string, p3: nat, p4: nat, flags: string, width: Size, dot: bool, precision: Size)
    requires p3 <= p4 <= |format| && format[p3..p4] == ScanLength(format[p3..])
    requires ScanEnd(format[p3..], flags, width, dot, precision).Some?
    ensures p4 < |format|
    ensures ScanEnd(format[p3..], flags, width, dot, precision)
      == Some(Directive(flags, width, dot, precision, ScanLength(format[p3..]), format[p4]))
  {
    DropRead(format, p3, p4, ScanLength(format[p3..]));
  }

  lemma StaysLengthless(f: Fields, flags: string, width: Size, dot: bool, precision: Size, va: seq<Arg>)
    ensures NoLength(FlagsOf(flags)) && NoLength(ResolveWidth(FlagsOf(flags), width, va).flags)
    ensures ResolveWidth(FlagsOf(flags), width, va).precision == 0
    ensures NoLength(f.flags) ==> NoLength(ResolvePrecision(f, dot, precision).flags)
  {}

  /** Precision, length and conversion character. */
  method ReadFromPrecision(format: string, start: nat, before: Fields, ghost flags: string, ghost width: Size)
    returns (f: Fields, pos: nat)
    requires start <= |format| && ScanPrecision(format[start..], flags, width).Some?
    requires before.precision == 0 && NoLength(before.flags)
    ensures var d := ScanPrecision(format[start..], flags, width).value;
      && start <= pos < |format| && format[pos] == d.conv
      && format[start..pos + 1] == PrintPrecision(d)
      && f == ResolvePrecision(before, d.dot, d.precision).(flags :=
                LengthFlags(d.length, ResolvePrecision(before, d.dot, d.precision).flags))
  {
    f, pos := ReadPrecision(format, start, before);
    ghost var p3 := pos;
    ghost var dot := Head(format[start..]) == '.';
    ghost var precision := if dot then ScanSize(format[start..][1..]) else NoSize;
    PrecisionStage(format, start, p3, flags, width);
    StaysLengthless(before, flags, width, dot, precision, []);
    var lengthFlags;
    lengthFlags, pos := ReadLength(format, pos, f.flags);
    f := f.(flags := lengthFlags);
    EndStage(format, p3, pos, flags, width, dot, precision);
    PrecisionPieces(format, start, p3, pos,
      Directive(flags, width, dot, precision, ScanLength(format[p3..]), format[pos]));
  }

  lemma PrecisionPieces(format: string, p2: nat, p3: nat, p4: nat, d: Item)
    requires p2 <= p3 <= p4 < |format| && d.Directive?
    requires format[p2..p3] == if d.dot then "." + PrintSize(d.precision) else ""
    requires format[p3..p4] == d.length && format[p4] == d.conv
    ensures format[p2..p4 + 1] == PrintPrecision(d)
  {
    assert format[p3..p4 + 1] == PrintEnd(d);
    assert format[p2..p4 + 1] == format[p2..p3] + PrintEnd(d);
  }

  lemma Join(format: string, a: nat, b: nat, c: nat, x: string, y: string)
    requires a <= b <= c <= |format| && format[a..b] == x && format[b..c] == y
    ensures format[a..c] == x + y
  {}

  /** Width and everything after it. */
  method ReadFromWidth(format: string, start: nat, flags: Flags, va: seq<Arg>, ghost run: string)
    returns (f: Fields, pos: nat)
    requires start <= |format| && ScanWidth(format[start..], run).Some?
    requires flags == FlagsOf(run)
    ensures var d := ScanWidth(format[start..], run).value;
      && start <= pos < |format| && format[pos] == d.conv
      && format[start..pos + 1] == PrintWidth(d)
      && f == Resolve(d, va)
  {
    hide ScanWidth, ScanPrecision, ResolveWidth, ResolvePrecision, LengthFlags, FlagsOf;
    f, pos := ReadWidth(format, start, flags, va);
    ghost var p2, width := pos, ScanSize(format[start..]);
    WidthStage(format, start, p2, run);
    StaysLengthless(f, run, width, false, NoSize, va);
    f, pos := ReadFromPrecision(format, pos, f, run, width);
    Join(format, start, p2, pos + 1, PrintSize(width), PrintPrecision(ScanPrecision(format[p2..], run, width).value));
  }

  /** The directive after a '%', up to its conversion character. */
  method ReadDirective(format: string, start: nat, va: seq<Arg>) returns (f: Fields, pos: nat)
    requires start <= |format| && ScanDirective(format[start..]).Some?
    ensures var d := ScanDirective(format[start..]).value;
      && start <= pos < |format| && format[pos] == d.conv
      && format[start..pos + 1] == PrintTail(d)
      && f == Resolve(d, va)
  {
    hide ScanWidth, Resolve, FlagRun, FlagsOf, PrintWidth;
    var flags, p1 := ScanFlags(format, start);
    ghost var run := FlagRun(format[start..]);
    DropRead(format, start, p1, run);
    f, pos := ReadFromWidth(format, p1, flags, va, run);
    Join(format, start, p1, pos + 1, run, PrintWidth(ScanWidth(format[p1..], run).value));
  }

  // ---------- whole formats ----------

  lemma DirectiveHere(format: string, pos: nat)
    requires pos < |format| && format[pos] == '%'
    ensures ScanItem(format[pos..]) == ScanDirective(format[pos + 1..])
  {
    assert format[pos..][1..] == format[pos + 1..];
  }

  /** The scan of a suffix that starts with a directive, one step on. */
  lemma DirectiveStep(format: string, pos: nat, end: nat, d: Item)
    requires pos < end <= |format| && format[pos] == '%' && Complete(format[pos..])
    requires ScanDirective(format[pos + 1..]) == Some(d) && format[pos + 1..end] == PrintTail(d)
    ensures Complete(format[end..]) && Scan(format[pos..]).value == [d] + Scan(format[end..]).value
  {
    hide ScanDirective, Scan, PrintTail;
    assert format[pos..][1..] == format[pos + 1..];
    ScanDirectiveStep(format[pos..], d);
    Join(format, pos, pos + 1, end, "%", PrintTail(d));
    DropRead(format, pos, end, Print(d));
  }

  lemma DirectivePresent(format: string, pos: nat)
    requires pos < |format| && format[pos] == '%' && Complete(format[pos..])
    ensures ScanDirective(format[pos + 1..]).Some?
  {
    DirectiveHere(format, pos);
    ScanStep(format[pos..]);
  }

  lemma LiteralStep(format: string, pos: nat)
    requires pos < |format| && format[pos] != '%' && Complete(format[pos..])
    ensures Complete(format[pos + 1..])
    ensures Scan(format[pos..]).value == [Literal(format[pos])] + Scan(format[pos + 1..]).value
  {
    ScanStep(format[pos..]);
    assert format[pos..][1..] == format[pos + 1..];
  }

  lemma OutputCons(before: string, item: Item, items: seq<Item>, args: seq<Arg>, front: FloatFront)
    ensures before + Output([item] + items, args, front)
      == before + ItemText(item, args, front) + Output(items, ItemArgs(item, args), front)
  {
    hide ItemText, ItemArgs;
    assert ([item] + items)[1..] == items;
  }

  /** The calls that carry a text: its characters in order, at the indices 0, 1, 2, ... */
  ghost function Stream(text: string): seq<Call> { seq(|text|, k requires 0 <= k < |text| => Call(text[k], k)) }

  /** The index of the terminating call. */
  function LastIndex(length: nat, maxlen: u64): nat {
    if length < maxlen then length else (maxlen - 1) % TWO_64
  }

  /** A character that is not a '%' goes straight out. */
  method LiteralCharacter(sink: Sink, format: string, pos: nat, idx: nat, ghost va: seq<Arg>, ghost front: FloatFront)
    returns (idx': nat)
    requires pos < |format| && format[pos] != '%' && Complete(format[pos..])
    requires sink.Valid() && sink.InStep() && idx == |sink.calls|
    modifies sink`received, sink`calls, sink.Cells()
    ensures Complete(format[pos + 1..])
    ensures sink.Valid() && sink.InStep() && idx' == |sink.calls|
    ensures old(sink.Text()) + Output(Scan(format[pos..]).value, va, front)
      == sink.Text() + Output(Scan(format[pos + 1..]).value, va, front)
  {
    LiteralStep(format, pos);
    OutputCons(sink.Text(), Literal(format[pos]), Scan(format[pos + 1..]).value, va, front);
    idx' := sink.Put(format[pos], idx);
  }

  /** A directive is read and its conversion carried out. */
  method DirectiveAt(sink: Sink, format: string, pos: nat, idx: nat, va: seq<Arg>, front: FloatFront)
    returns (pos': nat, idx': nat, va': seq<Arg>)
    requires pos < |format| && format[pos] == '%' && Complete(format[pos..])
    requires sink.Valid() && sink.InStep() && idx == |sink.calls|
    modifies sink`received, sink`calls, sink.Cells()
    ensures pos < pos' <= |format| && Complete(format[pos'..])
    ensures sink.Valid() && sink.InStep() && idx' == |sink.calls|
    ensures old(sink.Text()) + Output(Scan(format[pos..]).value, va, front)
      == sink.Text() + Output(Scan(format[pos'..]).value, va', front)
  {
    hide ScanDirective, Resolve, Output, Scan, Converted, ItemText, ItemArgs;
    DirectivePresent(format, pos);
    ghost var d := ScanDirective(format[pos + 1..]).value;
    var f, end := ReadDirective(format, pos + 1, va);
    DirectiveStep(format, pos, end + 1, d);
    OutputCons(sink.Text(), d, Scan(format[end + 1..]).value, va, front);
    DirectiveMeaning(d, va, front);
    idx', va' := Convert(sink, idx, format[end], f, front);
    pos' := end + 1;
  }

  lemma DirectiveMeaning(d: Item, va: seq<Arg>, front: FloatFront)
    requires d.Directive?
    ensures var f := Resolve(d, va);
      && ItemText(d, va, front) == Converted(d.conv, f, front)
      && ItemArgs(d, va) == if TakesArgument(d.conv) then Rest(f.args) else f.args
  {}

  /** The loop of `_vsnprintf` over the format. */
  method FormatLoop(sink: Sink, format: string, args: seq<Arg>, front: FloatFront) returns (idx: nat)
    requires sink.Valid() && sink.calls == [] && Complete(format)
    modifies sink`received, sink`calls, sink.Cells()
    ensures sink.Valid() && sink.InStep() && idx == |sink.calls|
    ensures sink.Text() == FormatText(format, args, front)
  {
    idx := 0;
    var pos, va := 0, args;
    ghost var all := FormatText(format, args, front);
    assert format[pos..] == format && sink.Text() == "";
    assert "" + all == all;
    while pos < |format|
      invariant 0 <= pos <= |format| && Complete(format[pos..])
      invariant sink.Valid() && sink.InStep() && idx == |sink.calls|
      invariant all == sink.Text() + Output(Scan(format[pos..]).value, va, front)
      decreases |format| - pos
    {
      if format[pos] != '%' {
        idx := LiteralCharacter(sink, format, pos, idx, va, front);
        pos := pos + 1;
      } else {
        pos, idx, va := DirectiveAt(sink, format, pos, idx, va, front);
      }
    }
  }

  method Vsnprintf(sink: Sink, format: string, args: seq<Arg>, front: FloatFront) returns (n: int)
    requires sink.Valid() && sink.calls == [] && Complete(format) && sink.maxlen < TWO_64
    modifies sink`received, sink`calls, sink.Cells()
    ensures sink.Valid()
    ensures var text := FormatText(format, args, front);
      && sink.calls == Stream(text) + [Call(NUL, LastIndex(|text|, sink.maxlen))]
      && n == Signed(|text|, TWO_32)
  {
    var idx := FormatLoop(sink, format, args, front);
    assert sink.calls == Stream(sink.Text());
    sink.Out(NUL, LastIndex(idx, sink.maxlen));
    n := Signed(idx, TWO_32);
  }

  // ---------- truncation ----------

  /** Text cut at `count` with its terminator ends inside the memory. */
  predicate HasSpace(size: nat, length: nat, count: nat) { count == 0 || Min(length, count - 1) < size }

  /** Memory after a bounded output: the text cut to leave room for a terminator, and nothing else touched. */
  function Truncated(memory: string, text: string, count: nat): (r: string)
    requires HasSpace(|memory|, |text|, count)
    ensures |r| == |memory|
  {
    if count == 0 then memory
    else
      var m := Min(|text|, count - 1);
      text[..m] + [NUL] + memory[m + 1..]
  }

  lemma {:induction false} StreamStored(memory: string, text: string, maxlen: nat)
    ensures var m := Min(|text|, Min(maxlen, |memory|));
      StoreAll(memory, Stream(text), maxlen) == text[..m] + memory[m..]
  {
    var calls := Stream(text);
    if text == "" {
      assert calls == [];
    } else {
      var n := |text| - 1;
      assert calls[..n] == Stream(text[..n]);
      StreamStored(memory, text[..n], maxlen);
      assert calls[n] == Call(text[n], n);
    }
  }

  lemma LastIndexWithin(length: nat, maxlen: u64)
    ensures LastIndex(length, maxlen) == if maxlen == 0 then TWO_64 - 1 else Min(length, maxlen - 1)
  {
    DivModUnique(maxlen - 1, TWO_64, if maxlen > 0 then 0 else -1, if maxlen > 0 then maxlen - 1 else TWO_64 - 1);
  }

  /** Every store of a bounded output stays in the memory exactly when the cut text and its terminator do. */
  lemma InBoundsIff(text: string, maxlen: u64, size: nat)
    ensures InBounds(Stream(text) + [Call(NUL, LastIndex(|text|, maxlen))], maxlen, size)
      <==> HasSpace(size, |text|, maxlen)
  {
    LastIndexWithin(|text|, maxlen);
    var calls := Stream(text) + [Call(NUL, LastIndex(|text|, maxlen))];
    assert calls[|text|].idx == LastIndex(|text|, maxlen);
    assert forall k :: 0 <= k < |text| ==> calls[k].idx == k;
  }

  lemma StreamTruncates(memory: string, text: string, maxlen: u64)
    requires HasSpace(|memory|, |text|, maxlen)
    ensures StoreAll(memory, Stream(text) + [Call(NUL, LastIndex(|text|, maxlen))], maxlen)
      == Truncated(memory, text, maxlen)
  {
    var last := Call(NUL, LastIndex(|text|, maxlen));
    StoreAllSnoc(memory, Stream(text), last, maxlen);
    StreamStored(memory, text, maxlen);
    LastIndexWithin(|text|, maxlen);
    TerminatorStored(memory, text, last.idx, maxlen);
  }

  lemma TerminatorStored(memory: string, text: string, last: nat, maxlen: nat)
    requires HasSpace(|memory|, |text|, maxlen) && if maxlen == 0 then true else last == Min(|text|, maxlen - 1)
    ensures var m := Min(|text|, Min(maxlen, |memory|));
      Store(text[..m] + memory[m..], Call(NUL, last), maxlen) == Truncated(memory, text, maxlen)
  {
    var m := Min(|text|, Min(maxlen, |memory|));
    var stored := text[..m] + memory[m..];
    if maxlen == 0 {
      assert stored == memory;
    } else {
      assert stored[last := NUL] == text[..last] + [NUL] + memory[last + 1..];
    }
  }

  lemma StoreAllSnoc(memory: string, calls: seq<Call>, last: Call, maxlen: nat)
    ensures StoreAll(memory, calls + [last], maxlen) == Store(StoreAll(memory, calls, maxlen), last, maxlen)
  {
    assert (calls + [last])[..|calls|] == calls;
  }

  lemma {:induction false} StreamDelivered(text: string)
    ensures Delivered(Stream(text)) == WithoutNul(text)
  {
    var calls := Stream(text);
    if text == "" {
      assert calls == [];
    } else {
      var n := |text| - 1;
      assert calls[..n] == Stream(text[..n]);
      StreamDelivered(text[..n]);
    }
  }

  /**
   `snprintf`: a prefix of the full text and a NUL, whatever the count, if the buffer has the space for
   them; the length of the full text.
   */
  method Snprintf(buffer: array?<char>, count: u64, format: string, args: seq<Arg>, front: FloatFront) returns (n: int)
    requires Complete(format)
    modifies if buffer == null then {} else {buffer}
    ensures n == Signed(|FormatText(format, args, front)|, TWO_32)
    ensures buffer != null && HasSpace(buffer.Length, |FormatText(format, args, front)|, count) ==>
      buffer[..] == Truncated(old(buffer[..]), FormatText(format, args, front), count)
  {
    var dest := if buffer == null then Null else Memory(buffer);
    var sink := new Sink(OutBuffer, dest, count);
    n := Vsnprintf(sink, format, args, front);
    ghost var text := FormatText(format, args, front);
    if buffer != null && HasSpace(buffer.Length, |text|, count) {
      StreamTruncates(sink.initial, text, count);
    }
  }

  lemma WholeText(memory: string, text: string, count: nat)
    requires |text| < Min(|memory|, count)
    ensures HasSpace(|memory|, |text|, count)
    ensures Truncated(memory, text, count) == text + [NUL] + memory[|text| + 1..]
  {
    assert text[..|text|] == text;
  }

  /** `sprintf`: the whole text and a NUL. */
  method Sprintf(buffer: array<char>, format: string, args: seq<Arg>, front: FloatFront) returns (n: int)
    requires Complete(format) && |FormatText(format, args, front)| < Min(buffer.Length, TWO_64 - 1)
    modifies buffer
    ensures n == Signed(|FormatText(format, args, front)|, TWO_32)
    ensures var text := FormatText(format, args, front);
      buffer[..] == text + [NUL] + old(buffer[..])[|text| + 1..]
  {
    ghost var text := FormatText(format, args, front);
    hide *;
    WholeText(buffer[..], text, TWO_64 - 1);
    n := Snprintf(buffer, TWO_64 - 1, format, args, front);
  }

  /** `vfctprintf`: the callback receives the text without its NUL characters. */
  method Vfctprintf(format: string, args: seq<Arg>, front: FloatFront) returns (n: int, received: string)
    requires Complete(format)
    ensures n == Signed(|FormatText(format, args, front)|, TWO_32)
    ensures received == WithoutNul(FormatText(format, args, front))
  {
    var sink := new Sink(OutCallback, Wrapped, TWO_64 - 1);
    n := Vsnprintf(sink, format, args, front);
    received := sink.received;
    ghost var text := FormatText(format, args, front);
    assert sink.calls[..|text|] == Stream(text);
    StreamDelivered(text);
  }

  /** `vprintf`: nothing is kept of the text but its length. */
  method Vprintf(format: string, args: seq<Arg>, front: FloatFront) returns (n: int)
    requires Complete(format)
    ensures n == Signed(|FormatText(format, args, front)|, TWO_32)
  {
    var sink := new Sink(OutChar, Wrapped, TWO_64 - 1);
    n := Vsnprintf(sink, format, args, front);
  }
}
