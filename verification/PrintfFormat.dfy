/**
 Format strings: the scan of `_vsnprintf` as functions on the text still ahead of the format pointer,
 and the inverse that writes literals and directives out again.
 */
module PrintfFormat {
  import opened Util

  /** A width or precision field, with its digits as written. */
  datatype Size = NoSize | Star | Digits(text: string)

  datatype Item =
    | Literal(c: char)
    | Directive(flags: string, width: Size, dot: bool, precision: Size, length: string, conv: char)

  const NUL: char := '\0'

  /** The character under the format pointer: the terminator once the text is used up. */
  function Head(s: string): char { if s == "" then NUL else s[0] }

  predicate IsFlag(c: char) { c == '0' || c == '-' || c == '+' || c == ' ' || c == '#' }

  predicate IsDigit(c: char) { '0' <= c <= '9' }

  // ---------- scanning ----------

  function FlagRun(s: string): (r: string)
    ensures |r| <= |s|
  {
    if IsFlag(Head(s)) then [s[0]] + FlagRun(s[1..]) else ""
  }

  function DigitRun(s: string): (r: string)
    ensures |r| <= |s|
  {
    if IsDigit(Head(s)) then [s[0]] + DigitRun(s[1..]) else ""
  }

  /** A run is a prefix of flag characters, and the longest one. */
  lemma {:induction false} FlagRunFacts(s: string)
    ensures var r := FlagRun(s);
      r <= s && (forall i :: 0 <= i < |r| ==> IsFlag(r[i])) && !IsFlag(Head(s[|r|..]))
  {
    if IsFlag(Head(s)) {
      FlagRunFacts(s[1..]);
      assert s == [s[0]] + s[1..];
    }
  }

  lemma {:induction false} DigitRunFacts(s: string)
    ensures var r := DigitRun(s);
      r <= s && (forall i :: 0 <= i < |r| ==> IsDigit(r[i])) && !IsDigit(Head(s[|r|..]))
  {
    if IsDigit(Head(s)) {
      DigitRunFacts(s[1..]);
      assert s == [s[0]] + s[1..];
    }
  }

  function ScanSize(s: string): Size {
    if IsDigit(Head(s)) then Digits(DigitRun(s))
    else if Head(s) == '*' then Star
    else NoSize
  }

  function PrintSize(size: Size): string {
    match size
    case NoSize => ""
    case Star => "*"
    case Digits(text) => text
  }

  function ScanLength(s: string): (r: string)
    ensures r <= s
  {
    if Head(s) == 'l' then if Head(s[1..]) == 'l' then s[..2] else s[..1]
    else if Head(s) == 'h' then if Head(s[1..]) == 'h' then s[..2] else s[..1]
    else if Head(s) == 't' || Head(s) == 'j' || Head(s) == 'z' then s[..1]
    else ""
  }

  lemma ScanSizePrefix(s: string)
    ensures PrintSize(ScanSize(s)) <= s
  {
    DigitRunFacts(s);
  }

  /** The length modifier and the conversion character; nothing if the format ends first. */
  function ScanEnd(s: string, flags: string, width: Size, dot: bool, precision: Size): (r: Option<Item>)
    ensures r.Some? ==>
      r.value.Directive? && r.value == Directive(flags, width, dot, precision, r.value.length, r.value.conv)
  {
    var length := ScanLength(s);
    var rest := s[|length|..];
    if rest == "" then None else Some(Directive(flags, width, dot, precision, length, rest[0]))
  }

  function ScanPrecision(s: string, flags: string, width: Size): (r: Option<Item>)
    ensures r.Some? ==> r.value.Directive? && r.value.flags == flags && r.value.width == width
  {
    if Head(s) == '.' then
      ScanSizePrefix(s[1..]);
      var precision := ScanSize(s[1..]);
      ScanEnd(s[1..][|PrintSize(precision)|..], flags, width, true, precision)
    else ScanEnd(s, flags, width, false, NoSize)
  }

  function ScanWidth(s: string, flags: string): (r: Option<Item>)
    ensures r.Some? ==> r.value.Directive? && r.value.flags == flags
  {
    ScanSizePrefix(s);
    var width := ScanSize(s);
    ScanPrecision(s[|PrintSize(width)|..], flags, width)
  }

  /** What follows the '%' of a directive, up to and including its conversion character. */
  function ScanDirective(s: string): (r: Option<Item>)
    ensures r.Some? ==> r.value.Directive?
  {
    var flags := FlagRun(s);
    ScanWidth(s[|flags|..], flags)
  }

  /** One literal or directive; nothing if the format ends inside a directive. */
  function ScanItem(s: string): Option<Item>
    requires s != ""
  {
    if s[0] == '%' then ScanDirective(s[1..]) else Some(Literal(s[0]))
  }

  /** All literals and directives of a format; nothing if it ends inside a directive. */
  function Scan(s: string): Option<seq<Item>>
    decreases |s|
  {
    if s == "" then Some([])
    else
      var item := ScanItem(s);
      if item.None? then None
      else
        ScanItemPrints(s);
        var rest := Scan(s[|Print(item.value)|..]);
        if rest.None? then None else Some([item.value] + rest.value)
  }

  predicate Complete(s: string) { Scan(s).Some? }

  // ---------- printing ----------

  function PrintEnd(d: Item): string
    requires d.Directive?
  {
    d.length + [d.conv]
  }

  function PrintPrecision(d: Item): string
    requires d.Directive?
  {
    if d.dot then "." + (PrintSize(d.precision) + PrintEnd(d)) else PrintEnd(d)
  }

  function PrintWidth(d: Item): string
    requires d.Directive?
  {
    PrintSize(d.width) + PrintPrecision(d)
  }

  function PrintTail(d: Item): string
    requires d.Directive?
  {
    d.flags + PrintWidth(d)
  }

  function Print(item: Item): string {
    match item
    case Literal(c) => [c]
    case Directive(_, _, _, _, _, _) => "%" + PrintTail(item)
  }

  function PrintAll(items: seq<Item>): string {
    if items == [] then "" else Print(items[0]) + PrintAll(items[1..])
  }

  predicate ValidSize(size: Size) {
    size.Digits? ==> size.text != "" && forall i :: 0 <= i < |size.text| ==> IsDigit(size.text[i])
  }

  /** Whether a field would take in a character that follows it. */
  predicate Swallows(size: Size, c: char) {
    match size
    case NoSize => IsDigit(c) || c == '*'
    case Star => false
    case Digits(_) => IsDigit(c)
  }

  /**
   Literals and directives that a format string can spell: each field is valid, and what is printed
   after it does not begin with a character it would swallow.
   */
  predicate WellFormed(item: Item) {
    match item
    case Literal(c) => c != '%' && c != NUL
    case Directive(flags, width, dot, precision, length, conv) =>
      && (forall i :: 0 <= i < |flags| ==> IsFlag(flags[i])) && !IsFlag(Head(PrintWidth(item)))
      && ValidSize(width) && !Swallows(width, Head(PrintPrecision(item)))
      && (if dot then ValidSize(precision) && !Swallows(precision, Head(PrintEnd(item)))
          else precision.NoSize? && Head(PrintEnd(item)) != '.')
      && ScanLength(PrintEnd(item)) == length
      && conv != NUL
  }

  predicate AllWellFormed(items: seq<Item>) { forall i :: 0 <= i < |items| ==> WellFormed(items[i]) }

  // ---------- printing what was scanned ----------

  lemma PrefixConcat(a: string, b: string, s: string)
    requires a <= s && b <= s[|a|..]
    ensures a + b <= s && s[|a|..][|b|..] == s[|a + b|..]
  {
    assert s == a + s[|a|..];
  }

  lemma EndPrints(s: string, flags: string, width: Size, dot: bool, precision: Size)
    ensures var r := ScanEnd(s, flags, width, dot, precision); r.Some? ==> PrintEnd(r.value) <= s
  {
    var length := ScanLength(s);
    if s[|length|..] != "" { PrefixConcat(length, [s[|length|..][0]], s); }
  }

  lemma PrecisionPrints(s: string, flags: string, width: Size)
    ensures var r := ScanPrecision(s, flags, width); r.Some? ==> PrintPrecision(r.value) <= s
  {
    var r := ScanPrecision(s, flags, width);
    if Head(s) == '.' {
      ScanSizePrefix(s[1..]);
      var precision := ScanSize(s[1..]);
      var rest := s[1..][|PrintSize(precision)|..];
      EndPrints(rest, flags, width, true, precision);
      if r.Some? {
        PrefixConcat(PrintSize(precision), PrintEnd(r.value), s[1..]);
        PrefixConcat(".", PrintSize(precision) + PrintEnd(r.value), s);
      }
    } else {
      EndPrints(s, flags, width, false, NoSize);
    }
  }

  lemma WidthPrints(s: string, flags: string)
    ensures var r := ScanWidth(s, flags); r.Some? ==> PrintWidth(r.value) <= s
  {
    ScanSizePrefix(s);
    var width := ScanSize(s);
    PrecisionPrints(s[|PrintSize(width)|..], flags, width);
    var r := ScanWidth(s, flags);
    if r.Some? { PrefixConcat(PrintSize(width), PrintPrecision(r.value), s); }
  }

  lemma DirectiveScanPrints(s: string)
    ensures ScanDirective(s).Some? ==> PrintTail(ScanDirective(s).value) <= s
  {
    var flags := FlagRun(s);
    FlagRunFacts(s);
    WidthPrints(s[|flags|..], flags);
    var r := ScanDirective(s);
    if r.Some? { PrefixConcat(flags, PrintWidth(r.value), s); }
  }

  lemma ScanItemPrints(s: string)
    requires s != ""
    ensures ScanItem(s).Some? ==> Print(ScanItem(s).value) <= s && Print(ScanItem(s).value) != ""
  {
    if s[0] == '%' {
      DirectiveScanPrints(s[1..]);
      assert s == "%" + s[1..];
    }
  }

  predicate NulFree(s: string) { forall i :: 0 <= i < |s| ==> s[i] != NUL }

  /** A scanned format prints back to itself, and everything scanned is well formed. */
  lemma {:induction false} PrintScan(s: string)
    requires NulFree(s) && Complete(s)
    ensures PrintAll(Scan(s).value) == s
    ensures AllWellFormed(Scan(s).value)
    decreases |s|
  {
    if s != "" {
      ScanStep(s);
      var item := ScanItem(s).value;
      ScannedWellFormed(s);
      var rest := s[|Print(item)|..];
      PrintScan(rest);
      ConsItems(item, Scan(rest).value);
    }
  }

  lemma ScanStep(s: string)
    requires s != "" && Complete(s)
    ensures ScanItem(s).Some?
    ensures var item := ScanItem(s).value;
      Print(item) != "" && Print(item) <= s && s == Print(item) + s[|Print(item)|..]
      && Complete(s[|Print(item)|..]) && Scan(s).value == [item] + Scan(s[|Print(item)|..]).value
  {
    hide ScanItem, Print;
    ScanItemPrints(s);
  }

  lemma ScanDirectiveStep(s: string, d: Item)
    requires s != "" && s[0] == '%' && Complete(s) && ScanDirective(s[1..]) == Some(d)
    ensures |Print(d)| <= |s| && s == Print(d) + s[|Print(d)|..]
    ensures Complete(s[|Print(d)|..]) && Scan(s).value == [d] + Scan(s[|Print(d)|..]).value
  {
    hide ScanDirective, Print, Scan;
    ScanStep(s);
  }

  lemma ConsItems(item: Item, items: seq<Item>)
    ensures PrintAll([item] + items) == Print(item) + PrintAll(items)
    ensures WellFormed(item) && AllWellFormed(items) ==> AllWellFormed([item] + items)
  {
    assert ([item] + items)[1..] == items;
  }

  lemma ScanCons(item: Item, rest: string)
    requires WellFormed(item) && Complete(rest)
    ensures Scan(Print(item) + rest) == Some([item] + Scan(rest).value)
  {
    ItemExact(item, rest);
    DropPrefix(Print(item), rest);
  }

  lemma ScannedWellFormed(s: string)
    requires s != "" && NulFree(s) && ScanItem(s).Some?
    ensures WellFormed(ScanItem(s).value)
  {
    if s[0] == '%' {
      var t := s[1..];
      var flags := FlagRun(t);
      FlagRunFacts(t);
      var t1 := t[|flags|..];
      WidthPrints(t1, flags);
      WidthWellFormed(t1, flags);
    }
  }

  lemma ScanSizeValid(s: string)
    ensures ValidSize(ScanSize(s))
    ensures |PrintSize(ScanSize(s))| <= |s| && !Swallows(ScanSize(s), Head(s[|PrintSize(ScanSize(s))|..]))
  {
    ScanSizePrefix(s);
    DigitRunFacts(s);
    if IsDigit(Head(s)) { assert DigitRun(s) != ""; }
  }

  lemma EndWellFormed(s: string, flags: string, width: Size, dot: bool, precision: Size)
    requires NulFree(s)
    ensures var r := ScanEnd(s, flags, width, dot, precision);
      r.Some? ==>
        && ScanLength(PrintEnd(r.value)) == r.value.length && r.value.conv != NUL
        && Head(PrintEnd(r.value)) == Head(s)
  {
    EndPrints(s, flags, width, dot, precision);
    var length := ScanLength(s);
    var rest := s[|length|..];
    if rest != "" {
      var end := length + [rest[0]];
      assert end <= s && |end| == |length| + 1;
      assert forall i :: 0 <= i < |end| ==> end[i] == s[i];
      if |end| > 1 { assert end[1..][0] == s[1..][0]; }
    }
  }

  lemma PrecisionWellFormed(s: string, flags: string, width: Size)
    requires NulFree(s)
    ensures var r := ScanPrecision(s, flags, width);
      r.Some? ==>
        var d := r.value;
        && (if d.dot then ValidSize(d.precision) && !Swallows(d.precision, Head(PrintEnd(d)))
            else d.precision.NoSize? && Head(PrintEnd(d)) != '.')
        && ScanLength(PrintEnd(d)) == d.length && d.conv != NUL && Head(PrintPrecision(d)) == Head(s)
  {
    if Head(s) == '.' {
      ScanSizeValid(s[1..]);
      ScanSizePrefix(s[1..]);
      var precision := ScanSize(s[1..]);
      EndWellFormed(s[1..][|PrintSize(precision)|..], flags, width, true, precision);
    } else {
      EndWellFormed(s, flags, width, false, NoSize);
    }
  }

  lemma WidthWellFormed(s: string, flags: string)
    requires NulFree(s) && !IsFlag(Head(s)) && forall i :: 0 <= i < |flags| ==> IsFlag(flags[i])
    ensures ScanWidth(s, flags).Some? ==> WellFormed(ScanWidth(s, flags).value)
  {
    ScanSizePrefix(s);
    ScanSizeValid(s);
    var width := ScanSize(s);
    PrecisionWellFormed(s[|PrintSize(width)|..], flags, width);
    WidthPrints(s, flags);
  }

  // ---------- scanning what was printed ----------

  lemma {:induction false} FlagRunExact(flags: string, rest: string)
    requires (forall i :: 0 <= i < |flags| ==> IsFlag(flags[i])) && !IsFlag(Head(rest))
    ensures FlagRun(flags + rest) == flags
  {
    if flags == "" {
      assert "" + rest == rest;
    } else {
      assert (flags + rest)[1..] == flags[1..] + rest;
      FlagRunExact(flags[1..], rest);
    }
  }

  lemma {:induction false} DigitRunExact(digits: string, rest: string)
    requires (forall i :: 0 <= i < |digits| ==> IsDigit(digits[i])) && !IsDigit(Head(rest))
    ensures DigitRun(digits + rest) == digits
  {
    if digits == "" {
      assert "" + rest == rest;
    } else {
      assert (digits + rest)[1..] == digits[1..] + rest;
      DigitRunExact(digits[1..], rest);
    }
  }

  lemma ScanSizeExact(size: Size, rest: string)
    requires ValidSize(size) && !Swallows(size, Head(rest))
    ensures ScanSize(PrintSize(size) + rest) == size
  {
    match size
    case NoSize => assert "" + rest == rest;
    case Star =>
    case Digits(text) =>
      DigitRunExact(text, rest);
  }

  lemma DropPrefix(a: string, b: string)
    ensures (a + b)[|a|..] == b
  {}

  lemma HeadConcat(a: string, b: string)
    requires a != ""
    ensures Head(a + b) == Head(a)
  {}

  lemma EndExact(d: Item, rest: string)
    requires d.Directive? && ScanLength(PrintEnd(d)) == d.length
    ensures ScanEnd(PrintEnd(d) + rest, d.flags, d.width, d.dot, d.precision) == Some(d)
  {
    var s := PrintEnd(d) + rest;
    assert ScanLength(s) == d.length by {
      assert PrintEnd(d) <= s && |PrintEnd(d)| == |d.length| + 1;
      assert s[0] == PrintEnd(d)[0];
      assert |PrintEnd(d)| > 1 ==> s[1] == PrintEnd(d)[1];
    }
    assert s[|d.length|] == d.conv;
  }

  lemma PrecisionExact(d: Item, rest: string)
    requires d.Directive? && WellFormed(d)
    ensures ScanPrecision(PrintPrecision(d) + rest, d.flags, d.width) == Some(d)
  {
    EndExact(d, rest);
    HeadConcat(PrintEnd(d), rest);
    if d.dot {
      var tail := PrintEnd(d) + rest;
      var s := PrintPrecision(d) + rest;
      assert s[1..] == PrintSize(d.precision) + tail;
      ScanSizeExact(d.precision, tail);
      DropPrefix(PrintSize(d.precision), tail);
    }
  }

  lemma WidthExact(d: Item, rest: string)
    requires d.Directive? && WellFormed(d)
    ensures ScanWidth(PrintWidth(d) + rest, d.flags) == Some(d)
  {
    var tail := PrintPrecision(d) + rest;
    assert PrintWidth(d) + rest == PrintSize(d.width) + tail;
    HeadConcat(PrintPrecision(d), rest);
    ScanSizeExact(d.width, tail);
    DropPrefix(PrintSize(d.width), tail);
    PrecisionExact(d, rest);
  }

  lemma ItemExact(item: Item, rest: string)
    requires WellFormed(item)
    ensures ScanItem(Print(item) + rest) == Some(item)
  {
    if item.Directive? {
      var tail := PrintWidth(item) + rest;
      assert (Print(item) + rest)[1..] == item.flags + tail;
      HeadConcat(PrintWidth(item), rest);
      FlagRunExact(item.flags, tail);
      DropPrefix(item.flags, tail);
      WidthExact(item, rest);
    }
  }

  /** Printing any well-formed items and scanning the text recovers exactly those items, in order. */
  lemma {:induction false} ScanPrint(items: seq<Item>)
    requires AllWellFormed(items)
    ensures Scan(PrintAll(items)) == Some(items)
  {
    if items != [] {
      ScanPrint(items[1..]);
      ScanCons(items[0], PrintAll(items[1..]));
      assert [items[0]] + items[1..] == items;
    }
  }

  lemma {:induction false} PrintAllConcat(a: seq<Item>, b: seq<Item>)
    ensures PrintAll(a + b) == PrintAll(a) + PrintAll(b)
  {
    if a == [] {
      assert a + b == b;
    } else {
      assert (a + b)[1..] == a[1..] + b;
      PrintAllConcat(a[1..], b);
    }
  }

  /** A concatenation of complete formats scans to the concatenation of their items. */
  lemma ScanConcat(s: string, t: string)
    requires NulFree(s) && NulFree(t) && Complete(s) && Complete(t)
    ensures Scan(s + t) == Some(Scan(s).value + Scan(t).value)
  {
    PrintScan(s);
    PrintScan(t);
    PrintAllConcat(Scan(s).value, Scan(t).value);
    ScanPrint(Scan(s).value + Scan(t).value);
  }

  /** The spellings the standard knows are well formed whatever flags, sizes and length go with them. */
  lemma OrdinaryDirectives(d: Item)
    requires d.Directive?
    requires forall i :: 0 <= i < |d.flags| ==> IsFlag(d.flags[i])
    requires ValidSize(d.width) && (d.width.Digits? ==> d.width.text[0] != '0')
    requires ValidSize(d.precision) && (!d.dot ==> d.precision.NoSize?)
    requires OrdinaryEnd(d.length, d.conv)
    ensures WellFormed(d)
  {
    OrdinaryEnds(d.length, d.conv);
    assert PrintEnd(d) == d.length + [d.conv];
  }

  predicate OrdinaryEnd(length: string, conv: char) {
    && (|length| <= 1 || length == [length[0], length[0]])
    && (|length| == 1 ==>
          length[0] == 'l' || length[0] == 'h' || length[0] == 't' || length[0] == 'j' || length[0] == 'z')
    && (|length| == 2 ==> length[0] == 'l' || length[0] == 'h')
    && (conv == '%' || 'b' <= conv <= 'g' || conv == 'i' || conv == 'o' || conv == 'p' || conv == 's' || conv == 'u'
        || conv == 'x' || conv == 'X' || conv == 'E' || conv == 'F' || conv == 'G')
  }

  lemma OrdinaryEnds(length: string, conv: char)
    requires OrdinaryEnd(length, conv)
    ensures ScanLength(length + [conv]) == length
    ensures var c := Head(length + [conv]); !IsFlag(c) && !IsDigit(c) && c != '*' && c != '.'
  {
    if length == "" { assert length + [conv] == [conv]; }
  }

  // ---------- numbers in formats ----------

  /** `_atoi`, in 32-bit unsigned arithmetic. */
  function Atoi(digits: string): (r: u32) {
    if digits == "" then 0
    else
      var n := |digits| - 1;
      (Atoi(digits[..n]) * 10 + (digits[n] as int - '0' as int)) % TWO_32
  }
}
