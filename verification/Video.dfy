/** Text on the framebuffer: clipped glyphs, one pixel at a time. */
module Video {
  import opened Util

  const GLYPH_WIDTH := 8
  const GLYPH_HEIGHT := 16
  const FONT_BYTES := 4096

  // ---------- pixels in memory ----------

  /** A video mode with 16-bit fields, whose rows have room for their pixels. */
  datatype Mode = Mode(width: nat, height: nat, pitch: nat)

  predicate ValidMode(m: Mode) {
    m.width < TWO_16 && m.height < TWO_16 && m.pitch < TWO_16 && 4 * m.width <= m.pitch
  }

  predicate OnScreen(m: Mode, x: int, y: int) { 0 <= x < m.width && 0 <= y < m.height }

  /** The byte offset of a pixel, in 32-bit arithmetic. */
  function Offset(m: Mode, x: nat, y: nat): u32 { (x * 4 + y * m.pitch) % TWO_32 }

  /** No offset wraps, and every pixel lies inside the frame. */
  lemma OffsetExact(m: Mode, x: nat, y: nat)
    requires ValidMode(m) && OnScreen(m, x, y)
    ensures Offset(m, x, y) == x * 4 + y * m.pitch
    ensures Offset(m, x, y) + 4 <= m.pitch * m.height < TWO_32
  {
    var row := y * m.pitch;
    FrameFits(m.pitch, m.height, y);
    DivModUnique(x * 4 + row, TWO_32, 0, x * 4 + row);
  }

  /** The rows up to one on the screen end inside the frame, and the frame below 2^32. */
  lemma FrameFits(pitch: nat, height: nat, y: nat)
    requires pitch < TWO_16 && height < TWO_16 && y < height
    ensures y * pitch + pitch <= pitch * height < TWO_32
  {
    MulLe(y + 1, height, pitch);
    assert (y + 1) * pitch == y * pitch + pitch;
    MulLe(height, TWO_16 - 1, pitch);
    assert (TWO_16 - 1) * pitch < TWO_32;
    assert height * pitch == pitch * height;
  }

  /** Distinct pixels have disjoint slots of four bytes. */
  lemma SlotsDisjoint(m: Mode, x: nat, y: nat, x': nat, y': nat)
    requires ValidMode(m) && OnScreen(m, x, y) && OnScreen(m, x', y') && (x, y) != (x', y')
    ensures Offset(m, x, y) + 4 <= Offset(m, x', y') || Offset(m, x', y') + 4 <= Offset(m, x, y)
  {
    OffsetExact(m, x, y);
    OffsetExact(m, x', y');
    if y < y' {
      RowBelow(m, x, y, x', y');
    } else if y' < y {
      RowBelow(m, x', y', x, y);
    }
  }

  lemma RowBelow(m: Mode, x: nat, y: nat, x': nat, y': nat)
    requires ValidMode(m) && x < m.width && y < y'
    ensures x * 4 + y * m.pitch + 4 <= x' * 4 + y' * m.pitch
  {
    MulLe(y + 1, y', m.pitch);
    assert (y + 1) * m.pitch == y * m.pitch + m.pitch;
  }

  /** Whether a byte of the frame belongs to some pixel. */
  ghost predicate InSlot(m: Mode, k: nat) {
    exists x: nat, y: nat :: OnScreen(m, x, y) && Offset(m, x, y) <= k < Offset(m, x, y) + 4
  }

  /** The bytes that belong to none are those of a row past its pixels, up to the pitch. */
  lemma InSlotIff(m: Mode, k: nat)
    requires ValidMode(m) && k < m.pitch * m.height
    ensures m.pitch > 0 && (InSlot(m, k) <==> k % m.pitch < 4 * m.width)
  {
    SomePitch(m);
    if InSlot(m, k) {
      var x: nat, y: nat :| OnScreen(m, x, y) && Offset(m, x, y) <= k < Offset(m, x, y) + 4;
      OffsetExact(m, x, y);
      DivModUnique(k, m.pitch, y, k - y * m.pitch);
    }
    if k % m.pitch < 4 * m.width {
      RowOf(m, k);
      var x, y := k % m.pitch / 4, k / m.pitch;
      OffsetExact(m, x, y);
      assert Offset(m, x, y) <= k < Offset(m, x, y) + 4;
    }
  }

  lemma SomePitch(m: Mode)
    ensures m.pitch == 0 ==> m.pitch * m.height == 0
  {}

  lemma RowOf(m: Mode, k: nat)
    requires m.pitch > 0 && k < m.pitch * m.height
    ensures 0 <= k / m.pitch < m.height && k == k / m.pitch * m.pitch + k % m.pitch
  {
    QuotientNat(k, m.pitch);
    assert m.height * m.pitch == m.pitch * m.height;
    if k / m.pitch >= m.height {
      MulLe(m.height, k / m.pitch, m.pitch);
      assert false;
    }
  }

  /** Every byte that belongs to no pixel keeps its value. */
  ghost predicate RestKept(mem: seq<u8>, before: seq<u8>, m: Mode)
    requires |mem| == |before|
  {
    forall k :: 0 <= k < |mem| && !InSlot(m, k) ==> mem[k] == before[k]
  }

  /** The bytes of a 32-bit colour, least significant first. */
  function Bytes(color: u32): seq<u8> { [color % 256, color / 256 % 256, color / 65536 % 256, color / 16777216 % 256] }

  /** They denote the colour. */
  lemma BytesDenote(color: u32)
    ensures var b := Bytes(color);
      |b| == 4 && b[0] as int + 256 * (b[1] as int) + 65536 * (b[2] as int) + 16777216 * (b[3] as int) == color
  {
    SplitWord(color, 256);
    SplitWord(color, 65536);
    assert color == 256 * (color / 256) + color % 256;
    assert color / 16777216 < 256;
  }

  lemma SplitWord(x: nat, d: nat)
    requires d == 256 || d == 65536
    ensures x / d == 256 * (x / (256 * d)) + x / d % 256
  {
    if d == 256 { assert x / 256 / 256 == x / 65536; } else { assert x / 65536 / 256 == x / 16777216; }
  }

  /** The bytes of a pixel. */
  function Pixel(mem: seq<u8>, m: Mode, x: nat, y: nat): seq<u8>
    requires Offset(m, x, y) + 4 <= |mem|
  {
    mem[Offset(m, x, y)..Offset(m, x, y) + 4]
  }

  // ---------- glyphs ----------

  datatype Glyph = Glyph(c: nat, x: nat, y: nat)

  function Weight(column: nat): (w: nat)
    requires column < 8
    ensures w > 0
  {
    Pow(2, 7 - column)
  }

  /** Whether a glyph has an on bit at a pixel. */
  predicate Covers(font: seq<u8>, g: Glyph, x: int, y: int)
    requires |font| == FONT_BYTES && g.c < 128
  {
    && g.x <= x < g.x + GLYPH_WIDTH && g.y <= y < g.y + GLYPH_HEIGHT
    && font[g.c * 16 + (y - g.y)] / Weight(x - g.x) % 2 == 1
  }

  /** Ones and zeros read from left to right. */
  function Binary(bits: seq<bool>): nat {
    if bits == [] then 0 else 2 * Binary(bits[..|bits| - 1]) + if bits[|bits| - 1] then 1 else 0
  }

  /** A row of a glyph as drawn, from its left edge. */
  ghost function RowOfGlyph(font: seq<u8>, g: Glyph, row: nat): seq<bool>
    requires |font| == FONT_BYTES && g.c < 128
  {
    seq(8, k requires 0 <= k < 8 => Covers(font, g, g.x + k, g.y + row))
  }

  /** The eight pixels of a row, read from left to right, are the bits of its font byte, the highest first. */
  lemma RowIsFontByte(font: seq<u8>, g: Glyph, row: nat)
    requires |font| == FONT_BYTES && g.c < 128 && row < 16
    ensures Binary(RowOfGlyph(font, g, row)) == font[g.c * 16 + row]
    ensures Covers(font, g, g.x, g.y + row) <==> font[g.c * 16 + row] >= 128
  {
    var b, bits := font[g.c * 16 + row], RowOfGlyph(font, g, row);
    RowBits(font, g, row);
    hide *;
    LeadingBits(bits, 7, b);
    assert bits[..8] == bits;
    TopBit(b);
  }

  lemma TopBit(b: u8)
    ensures b / Weight(7) == b && (b / Weight(0) % 2 == 1 <==> b >= 128)
  {
    Weights();
  }

  lemma RowBits(font: seq<u8>, g: Glyph, row: nat)
    requires |font| == FONT_BYTES && g.c < 128 && row < 16
    ensures |RowOfGlyph(font, g, row)| == 8
    ensures forall k :: 0 <= k < 8 ==> RowOfGlyph(font, g, row)[k] == (font[g.c * 16 + row] / Weight(k) % 2 == 1)
    ensures RowOfGlyph(font, g, row)[0] == Covers(font, g, g.x, g.y + row)
  {
    hide Weight;
    forall k | 0 <= k < 8
      ensures RowOfGlyph(font, g, row)[k] == (font[g.c * 16 + row] / Weight(k) % 2 == 1)
    {
      assert RowOfGlyph(font, g, row)[k] == Covers(font, g, g.x + k, g.y + row);
      assert g.x + k - g.x == k && g.y + row - g.y == row;
    }
  }

  lemma Weights()
    ensures Weight(0) == 128 && Weight(1) == 64 && Weight(2) == 32 && Weight(3) == 16
    ensures Weight(4) == 8 && Weight(5) == 4 && Weight(6) == 2 && Weight(7) == 1
  {
    assert Pow(2, 0) == 1 && Pow(2, 1) == 2 && Pow(2, 2) == 4 && Pow(2, 3) == 8;
    assert Pow(2, 4) == 16 && Pow(2, 5) == 32 && Pow(2, 6) == 64 && Pow(2, 7) == 128;
  }

  /** One more bit of a byte, the highest first. */
  lemma BitStep(bits: seq<bool>, n: nat, b: u8)
    requires n < |bits| == 8 && Binary(bits[..n]) == b / Weight(n) / 2 && bits[n] == (b / Weight(n) % 2 == 1)
    ensures Binary(bits[..n + 1]) == b / Weight(n)
  {
    assert bits[..n + 1][..n] == bits[..n];
  }

  lemma NextWeight(b: u8, n: nat)
    requires n < 7
    ensures b / Weight(n) == b / Weight(n + 1) / 2
  {
    Weights();
    assert n == 0 || n == 1 || n == 2 || n == 3 || n == 4 || n == 5 || n == 6;
  }

  lemma {:induction false} LeadingBits(bits: seq<bool>, n: nat, b: u8)
    requires n < |bits| == 8 && forall k :: 0 <= k < 8 ==> bits[k] == (b / Weight(k) % 2 == 1)
    ensures Binary(bits[..n + 1]) == b / Weight(n)
  {
    if n == 0 {
      assert bits[..0] == [];
      NoBits();
      Weights();
    } else {
      LeadingBits(bits, n - 1, b);
      NextWeight(b, n - 1);
    }
    BitStep(bits, n, b);
  }

  lemma NoBits()
    ensures Binary([]) == 0
  {}

  /** Nothing is drawn outside the cell of eight columns and sixteen rows. */
  lemma CoversInside(font: seq<u8>, g: Glyph, x: int, y: int)
    requires |font| == FONT_BYTES && g.c < 128 && Covers(font, g, x, y)
    ensures g.x <= x < g.x + 8 && g.y <= y < g.y + 16
  {}

  predicate CoveredBy(font: seq<u8>, gs: seq<Glyph>, x: int, y: int)
    requires |font| == FONT_BYTES && forall i :: 0 <= i < |gs| ==> gs[i].c < 128
  {
    exists i :: 0 <= i < |gs| && Covers(font, gs[i], x, y)
  }

  predicate Ascii(s: seq<u8>) { forall i :: 0 <= i < |s| ==> s[i] < 128 }

  function Newlines(s: seq<u8>): nat {
    if s == [] then 0 else Newlines(s[..|s| - 1]) + if s[|s| - 1] == 10 then 1 else 0
  }

  /** The column after a string: carriage returns go back to the start, glyphs stop at the right edge. */
  function Column(s: seq<u8>, start: nat, width: nat): nat {
    if s == [] then start
    else
      var x := Column(s[..|s| - 1], start, width);
      var c := s[|s| - 1];
      if c == 13 then start else if c == 10 || x >= width then x else x + GLYPH_WIDTH
  }

  /** What one character draws. */
  function GlyphOf(c: u8, x: nat, y: nat, width: nat): (gs: seq<Glyph>)
    ensures c < 128 ==> forall i :: 0 <= i < |gs| ==> gs[i].c < 128
  {
    if c != 10 && c != 13 && x < width then [Glyph(c, x, y)] else []
  }

  /** The glyphs drawn for a string whose first column and line are given. */
  function Glyphs(s: seq<u8>, start: nat, line: nat, width: nat): (gs: seq<Glyph>)
    requires Ascii(s)
    ensures forall i :: 0 <= i < |gs| ==> gs[i].c < 128
  {
    if s == [] then []
    else
      var before := s[..|s| - 1];
      Glyphs(before, start, line, width)
      + GlyphOf(s[|s| - 1], Column(before, start, width), line + GLYPH_HEIGHT * Newlines(before), width)
  }

  // ---------- where glyphs go ----------

  lemma {:induction false} NewlinesCounted(s: seq<u8>)
    ensures Newlines(s) == multiset(s)[10]
  {
    if s != [] {
      var n := |s| - 1;
      NewlinesCounted(s[..n]);
      assert s == s[..n] + [s[n]];
    }
  }

  lemma {:induction false} NewlinesConcat(s: seq<u8>, t: seq<u8>)
    ensures Newlines(s + t) == Newlines(s) + Newlines(t)
  {
    NewlinesCounted(s);
    NewlinesCounted(t);
    NewlinesCounted(s + t);
  }

  /** How many characters of a string are no newlines. */
  function Printed(s: seq<u8>): (n: int) { |s| - multiset(s)[10] }

  lemma PrintedSnoc(s: seq<u8>, c: u8)
    ensures Printed(s + [c]) == Printed(s) + if c == 10 then 0 else 1
  {}

  lemma {:induction false} PrintedNat(s: seq<u8>)
    ensures Printed(s) >= 0
  {
    if s != [] {
      PrintedNat(s[..|s| - 1]);
      PrintedSnoc(s[..|s| - 1], s[|s| - 1]);
      assert s == s[..|s| - 1] + [s[|s| - 1]];
    }
  }

  /** Without carriage returns the column is eight further for every character printed, up to the right edge. */
  lemma {:induction false} ColumnIs(s: seq<u8>, start: nat, width: nat)
    requires 13 !in s
    ensures var x := start + 8 * Printed(s);
      if x < width then Column(s, start, width) == x else Column(s, start, width) >= width
  {
    if s != [] {
      var n := |s| - 1;
      ColumnIs(s[..n], start, width);
      PrintedSnoc(s[..n], s[n]);
      PrintedNat(s[..n]);
      assert s == s[..n] + [s[n]];
    }
  }

  /** Where character `i` of a string without carriage returns is drawn. */
  function Place(s: seq<u8>, i: nat, start: nat, line: nat): (g: Glyph)
    requires i < |s|
  {
    PrintedNat(s[..i]);
    Glyph(s[i], start + 8 * Printed(s[..i]), line + 16 * multiset(s[..i])[10])
  }

  /** Character `i` is drawn, as a certain glyph. */
  predicate DrawnAs(s: seq<u8>, i: nat, start: nat, line: nat, width: nat, g: Glyph)
    requires i < |s|
  {
    s[i] != 10 && start + 8 * Printed(s[..i]) < width && g == Place(s, i, start, line)
  }

  predicate SomeDrawnAs(s: seq<u8>, start: nat, line: nat, width: nat, g: Glyph) {
    exists i :: 0 <= i < |s| && DrawnAs(s, i, start, line, width, g)
  }

  lemma DrawnInPrefix(s: seq<u8>, n: nat, i: nat, start: nat, line: nat, width: nat, g: Glyph)
    requires i < n <= |s|
    ensures DrawnAs(s[..n], i, start, line, width, g) == DrawnAs(s, i, start, line, width, g)
  {
    assert s[..n][..i] == s[..i];
  }

  lemma DrawnSnoc(s: seq<u8>, start: nat, line: nat, width: nat, g: Glyph)
    requires s != []
    ensures var n := |s| - 1;
      SomeDrawnAs(s, start, line, width, g)
      <==> SomeDrawnAs(s[..n], start, line, width, g) || DrawnAs(s, n, start, line, width, g)
  {
    var n := |s| - 1;
    hide DrawnAs;
    if SomeDrawnAs(s[..n], start, line, width, g) {
      var i :| 0 <= i < n && DrawnAs(s[..n], i, start, line, width, g);
      DrawnInPrefix(s, n, i, start, line, width, g);
    }
    if SomeDrawnAs(s, start, line, width, g) {
      var i :| 0 <= i < |s| && DrawnAs(s, i, start, line, width, g);
      if i < n { DrawnInPrefix(s, n, i, start, line, width, g); }
    }
  }

  /**
   Main result: of a string without carriage returns exactly the characters other than newlines are drawn
   that start left of the right edge; each eight columns right of the one before, and sixteen lines down for
   every newline before it.
   */
  lemma {:induction false} GlyphsIff(s: seq<u8>, start: nat, line: nat, width: nat, g: Glyph)
    requires Ascii(s) && 13 !in s
    ensures g in Glyphs(s, start, line, width) <==> SomeDrawnAs(s, start, line, width, g)
    decreases |s|
  {
    if s != [] {
      var n := |s| - 1;
      GlyphsIff(s[..n], start, line, width, g);
      LastGlyph(s, start, line, width, g);
      DrawnSnoc(s, start, line, width, g);
    }
  }

  lemma GlyphsSnoc(s: seq<u8>, start: nat, line: nat, width: nat)
    requires Ascii(s) && s != []
    ensures var (before, c) := (s[..|s| - 1], s[|s| - 1]);
      Glyphs(s, start, line, width)
      == Glyphs(before, start, line, width)
         + GlyphOf(c, Column(before, start, width), line + 16 * Newlines(before), width)
  {
    hide GlyphOf, Column, Newlines;
  }

  lemma InGlyphOf(c: u8, x: nat, y: nat, width: nat, g: Glyph)
    ensures g in GlyphOf(c, x, y, width) <==> c != 10 && c != 13 && x < width && g == Glyph(c, x, y)
  {}

  lemma LastGlyph(s: seq<u8>, start: nat, line: nat, width: nat, g: Glyph)
    requires Ascii(s) && 13 !in s && s != []
    ensures var n := |s| - 1;
      g in Glyphs(s, start, line, width)
      <==> g in Glyphs(s[..n], start, line, width) || DrawnAs(s, n, start, line, width, g)
  {
    hide *;
    LastIn(s, start, line, width, g);
    LastDrawn(s, start, line, width, g);
  }

  /** The glyph of the last character, by the column and line of what comes before it. */
  predicate IsLast(s: seq<u8>, start: nat, line: nat, width: nat, g: Glyph)
    requires s != []
  {
    var (before, c) := (s[..|s| - 1], s[|s| - 1]);
    var x := Column(before, start, width);
    c != 10 && c != 13 && x < width && g == Glyph(c, x, line + 16 * Newlines(before))
  }

  lemma LastIn(s: seq<u8>, start: nat, line: nat, width: nat, g: Glyph)
    requires Ascii(s) && s != []
    ensures g in Glyphs(s, start, line, width)
      <==> g in Glyphs(s[..|s| - 1], start, line, width) || IsLast(s, start, line, width, g)
  {
    var n := |s| - 1;
    hide Glyphs, GlyphOf, Column, Newlines;
    GlyphsSnoc(s, start, line, width);
    InGlyphOf(s[n], Column(s[..n], start, width), line + 16 * Newlines(s[..n]), width, g);
  }

  lemma LastDrawn(s: seq<u8>, start: nat, line: nat, width: nat, g: Glyph)
    requires 13 !in s && s != []
    ensures IsLast(s, start, line, width, g) <==> DrawnAs(s, |s| - 1, start, line, width, g)
  {
    var n := |s| - 1;
    hide Column, Newlines, Printed;
    ColumnIs(s[..n], start, width);
    NewlinesCounted(s[..n]);
  }

  /** Two strings with a carriage return between them. */
  function Returned(s: seq<u8>, t: seq<u8>): seq<u8> { s + [13] + t }

  lemma ReturnedSnoc(s: seq<u8>, t: seq<u8>)
    requires t != []
    ensures var all := Returned(s, t);
      all != [] && all[..|all| - 1] == Returned(s, t[..|t| - 1]) && all[|all| - 1] == t[|t| - 1]
  {}

  lemma ReturnedAscii(s: seq<u8>, t: seq<u8>)
    requires Ascii(s) && Ascii(t)
    ensures Ascii(Returned(s, t))
  {}

  /** A carriage return starts the line again where the string started. */
  lemma {:induction false} ColumnAfterReturn(s: seq<u8>, t: seq<u8>, start: nat, width: nat)
    ensures Column(Returned(s, t), start, width) == Column(t, start, width)
  {
    if t == [] {
      assert Returned(s, t)[|s|] == 13 && |Returned(s, t)| == |s| + 1;
    } else {
      ReturnedSnoc(s, t);
      hide Returned;
      ColumnAfterReturn(s, t[..|t| - 1], start, width);
    }
  }

  /** So the rest of the string is drawn as one of its own, as many lines down as there were newlines. */
  lemma {:induction false} GlyphsAfterReturn(s: seq<u8>, t: seq<u8>, start: nat, line: nat, width: nat)
    requires Ascii(s) && Ascii(t)
    ensures Ascii(Returned(s, t))
    ensures Glyphs(Returned(s, t), start, line, width)
      == Glyphs(s, start, line, width) + Glyphs(t, start, line + 16 * multiset(s)[10], width)
    decreases |t|
  {
    ReturnedAscii(s, t);
    hide Returned, Glyphs;
    if t == [] {
      ReturnDrawsNothing(s, start, line, width);
      NoGlyphs(start, line + 16 * multiset(s)[10], width);
    } else {
      ReturnedAscii(s, t[..|t| - 1]);
      GlyphsAfterReturn(s, t[..|t| - 1], start, line, width);
      ReturnStep(s, t, start, line, line + 16 * multiset(s)[10], width);
    }
  }

  lemma NoGlyphs(start: nat, line: nat, width: nat)
    ensures Glyphs([], start, line, width) == []
  {}

  lemma ReturnStep(s: seq<u8>, t: seq<u8>, start: nat, line: nat, down: nat, width: nat)
    requires Ascii(s) && Ascii(t) && t != [] && Ascii(Returned(s, t)) && Ascii(Returned(s, t[..|t| - 1]))
    requires down == line + 16 * multiset(s)[10]
    requires Glyphs(Returned(s, t[..|t| - 1]), start, line, width)
      == Glyphs(s, start, line, width) + Glyphs(t[..|t| - 1], start, down, width)
    ensures Glyphs(Returned(s, t), start, line, width) == Glyphs(s, start, line, width) + Glyphs(t, start, down, width)
  {
    hide *;
    var before := t[..|t| - 1];
    AsciiInit(t);
    ReturnedLast(s, t, start, line, down, width);
    GlyphsSnoc(t, start, down, width);
    Regrouped(Glyphs(Returned(s, t), start, line, width), Glyphs(s, start, line, width),
              Glyphs(before, start, down, width), Glyphs(t, start, down, width),
              GlyphOf(t[|t| - 1], Column(before, start, width), down + 16 * Newlines(before), width));
  }

  lemma AsciiInit(t: seq<u8>)
    requires Ascii(t) && t != []
    ensures Ascii(t[..|t| - 1])
  {}

  lemma Regrouped(all: seq<Glyph>, a: seq<Glyph>, b: seq<Glyph>, bc: seq<Glyph>, c: seq<Glyph>)
    requires all == (a + b) + c && bc == b + c
    ensures all == a + bc
  {}

  lemma ReturnedLast(s: seq<u8>, t: seq<u8>, start: nat, line: nat, down: nat, width: nat)
    requires Ascii(s) && Ascii(t) && t != [] && Ascii(Returned(s, t)) && Ascii(Returned(s, t[..|t| - 1]))
    requires down == line + 16 * multiset(s)[10]
    ensures var before := t[..|t| - 1];
      Glyphs(Returned(s, t), start, line, width)
      == Glyphs(Returned(s, before), start, line, width)
         + GlyphOf(t[|t| - 1], Column(before, start, width), down + 16 * Newlines(before), width)
  {
    hide *;
    ReturnedSnoc(s, t);
    ColumnAfterReturn(s, t[..|t| - 1], start, width);
    NewlinesAfterReturn(s, t[..|t| - 1]);
    GlyphsSnoc(Returned(s, t), start, line, width);
  }

  lemma ReturnDrawsNothing(s: seq<u8>, start: nat, line: nat, width: nat)
    requires Ascii(s) && Ascii(Returned(s, []))
    ensures Glyphs(Returned(s, []), start, line, width) == Glyphs(s, start, line, width) + []
  {
    GlyphsSnoc(Returned(s, []), start, line, width);
    assert Returned(s, [])[..|s|] == s;
  }

  lemma NewlinesAfterReturn(s: seq<u8>, t: seq<u8>)
    ensures Newlines(Returned(s, t)) == multiset(s)[10] + Newlines(t)
  {
    NewlinesConcat(s + [13], t);
    NewlinesConcat(s, [13]);
    NewlinesCounted(s);
    OneReturn();
  }

  lemma OneReturn()
    ensures Newlines([13]) == 0
  {}

  class Display {
    const mode: Mode
    const frame: array<u8>
    const font: seq<u8>
    /** `VidDisplayX`, `VidDisplayY` and `VidTextColor` */
    var displayX: nat
    var displayY: nat
    var textColor: u32

    predicate Valid() {
      ValidMode(mode) && frame.Length == mode.pitch * mode.height && |font| == FONT_BYTES
    }

    constructor (mode: Mode, font: seq<u8>)
      requires ValidMode(mode) && |font| == FONT_BYTES
      ensures Valid() && this.mode == mode && this.font == font && fresh(frame)
      ensures displayX == 0 && displayY == 0 && textColor == 0
    {
      this.mode := mode;
      this.font := font;
      assert mode.pitch * mode.height >= 0;
      frame := new u8[mode.pitch * mode.height](_ => 0);
      displayX, displayY, textColor := 0, 0, 0;
    }

    /** One 32-bit store at the offset of a pixel on the screen. */
    method Plot(x: nat, y: nat, color: u32)
      requires Valid() && OnScreen(mode, x, y)
      modifies frame
      ensures Offset(mode, x, y) + 4 <= frame.Length
      ensures frame[..] == Stored(old(frame[..]), Offset(mode, x, y), color)
    {
      OffsetExact(mode, x, y);
      var offset := Offset(mode, x, y);
      frame[offset] := color % 256;
      frame[offset + 1] := color / 256 % 256;
      frame[offset + 2] := color / 65536 % 256;
      frame[offset + 3] := color / 16777216 % 256;
    }

    /**
     Every on-screen pixel shows the colour where `on` holds, and what it showed before elsewhere; all
     other bytes keep their value.
     */
    ghost predicate Shows(before: seq<u8>, color: u32, on: (int, int) -> bool)
      reads frame
      requires Valid() && |before| == frame.Length
    {
      && (forall x: nat, y: nat :: OnScreen(mode, x, y) ==> PixelIs(frame[..], before, color, on(x, y), x, y))
      && RestKept(frame[..], before, mode)
    }

    ghost predicate PixelIs(mem: seq<u8>, before: seq<u8>, color: u32, on: bool, x: nat, y: nat)
      requires Valid() && |mem| == |before| == frame.Length && OnScreen(mode, x, y)
    {
      OffsetExact(mode, x, y);
      Pixel(mem, mode, x, y) == if on then Bytes(color) else Pixel(before, mode, x, y)
    }

    /** One pixel of a glyph's cell, drawn if its bit is on and it is on the screen. */
    method DrawBit(g: Glyph, ix: nat, iy: nat, color: u32, ghost before: seq<u8>, ghost on: (int, int) -> bool)
      requires Valid() && g.c < 128 && g.x <= ix < g.x + GLYPH_WIDTH && g.y <= iy < g.y + GLYPH_HEIGHT
      requires |before| == frame.Length && Shows(before, color, on)
      modifies frame
      ensures Shows(before, color, (x, y) => on(x, y) || ((x, y) == (ix, iy) && Covers(font, g, ix, iy)))
    {
      var ucDisplay := font[g.c * 16 + (iy - g.y)];
      ghost var mem := frame[..];
      ghost var on' := (x, y) => on(x, y) || ((x, y) == (ix, iy) && Covers(font, g, ix, iy));
      if ucDisplay / Weight(ix - g.x) % 2 == 1 && ix < mode.width && iy < mode.height {
        Plot(ix, iy, color);
        StoredRest(mem, before, mode, ix, iy, color);
        forall x: nat, y: nat | OnScreen(mode, x, y)
          ensures PixelIs(frame[..], before, color, on'(x, y), x, y)
        {
          hide RestKept, Covers;
          assert PixelIs(mem, before, color, on(x, y), x, y);
          PlottedPixel(mem, before, color, on(x, y), ix, iy, x, y);
        }
      } else {
        forall x: nat, y: nat | OnScreen(mode, x, y)
          ensures PixelIs(frame[..], before, color, on'(x, y), x, y)
        {
          assert PixelIs(mem, before, color, on(x, y), x, y);
        }
      }
    }

    /** A pixel after one was plotted. */
    lemma PlottedPixel(mem: seq<u8>, before: seq<u8>, color: u32, on: bool, ix: nat, iy: nat, x: nat, y: nat)
      requires Valid() && OnScreen(mode, ix, iy) && OnScreen(mode, x, y)
      requires |mem| == |before| == frame.Length && PixelIs(mem, before, color, on, x, y)
      ensures Offset(mode, ix, iy) + 4 <= |mem|
      ensures PixelIs(Stored(mem, Offset(mode, ix, iy), color), before, color, on || (x, y) == (ix, iy), x, y)
    {
      OffsetExact(mode, x, y);
      StoredPixel(mem, mode, ix, iy, color, x, y);
    }

    lemma ShowsSame(before: seq<u8>, color: u32, on: (int, int) -> bool, on': (int, int) -> bool)
      requires Valid() && |before| == frame.Length && Shows(before, color, on)
      requires forall x: nat, y: nat :: OnScreen(mode, x, y) ==> on(x, y) == on'(x, y)
      ensures Shows(before, color, on')
    {
      forall x: nat, y: nat | OnScreen(mode, x, y)
        ensures PixelIs(frame[..], before, color, on'(x, y), x, y)
      {
        assert PixelIs(frame[..], before, color, on(x, y), x, y);
      }
    }

    /** One row of a glyph. */
    method DrawRow(g: Glyph, iy: nat, color: u32, ghost before: seq<u8>, ghost on: (int, int) -> bool)
      requires Valid() && g.c < 128 && g.y <= iy < g.y + GLYPH_HEIGHT
      requires |before| == frame.Length && Shows(before, color, on)
      modifies frame
      ensures Shows(before, color, (x, y) => on(x, y) || (y == iy && Covers(font, g, x, y)))
    {
      hide Shows, Covers;
      ShowsSame(before, color, on, RowSoFar(on, g, iy, g.x)) by { NothingYet(on, g, iy); }
      for ix := g.x to g.x + GLYPH_WIDTH
        invariant Shows(before, color, RowSoFar(on, g, iy, ix))
      {
        DrawBit(g, ix, iy, color, before, RowSoFar(on, g, iy, ix));
        ShowsSame(before, color,
                  (x, y) => RowSoFar(on, g, iy, ix)(x, y) || ((x, y) == (ix, iy) && Covers(font, g, ix, iy)),
                  RowSoFar(on, g, iy, ix + 1));
      }
      ShowsSame(before, color, RowSoFar(on, g, iy, g.x + GLYPH_WIDTH),
                (x, y) => on(x, y) || (y == iy && Covers(font, g, x, y)))
        by { WholeRow(on, g, iy); }
    }

    ghost function RowSoFar(on: (int, int) -> bool, g: Glyph, iy: nat, ix: nat): (int, int) -> bool
      requires |font| == FONT_BYTES && g.c < 128
    {
      (x, y) => on(x, y) || (y == iy && x < ix && Covers(font, g, x, y))
    }

    lemma NothingYet(on: (int, int) -> bool, g: Glyph, iy: nat)
      requires |font| == FONT_BYTES && g.c < 128
      ensures forall x: int, y: int :: RowSoFar(on, g, iy, g.x)(x, y) == on(x, y)
    {}

    lemma WholeRow(on: (int, int) -> bool, g: Glyph, iy: nat)
      requires |font| == FONT_BYTES && g.c < 128
      ensures forall x: int, y: int ::
        RowSoFar(on, g, iy, g.x + GLYPH_WIDTH)(x, y) == (on(x, y) || (y == iy && Covers(font, g, x, y)))
    {}

    ghost function RowsSoFar(on: (int, int) -> bool, g: Glyph, iy: nat): (int, int) -> bool
      requires |font| == FONT_BYTES && g.c < 128
    {
      (x, y) => on(x, y) || (y < iy && Covers(font, g, x, y))
    }

    lemma NoRowYet(on: (int, int) -> bool, g: Glyph)
      requires |font| == FONT_BYTES && g.c < 128
      ensures forall x: int, y: int :: RowsSoFar(on, g, g.y)(x, y) == on(x, y)
    {}

    lemma AllRows(on: (int, int) -> bool, g: Glyph)
      requires |font| == FONT_BYTES && g.c < 128
      ensures forall x: int, y: int :: RowsSoFar(on, g, g.y + GLYPH_HEIGHT)(x, y) == Plus(on, g)(x, y)
    {
      forall x: int, y: int
        ensures RowsSoFar(on, g, g.y + GLYPH_HEIGHT)(x, y) == Plus(on, g)(x, y)
      {
        assert Covers(font, g, x, y) ==> y < g.y + GLYPH_HEIGHT;
      }
    }

    /** What a glyph adds. */
    ghost function Plus(on: (int, int) -> bool, g: Glyph): (int, int) -> bool
      requires |font| == FONT_BYTES && g.c < 128
    {
      (x, y) => on(x, y) || Covers(font, g, x, y)
    }

    /** `VidDisplayChar` */
    method DisplayChar(c: u8, uiX: nat, uiY: nat, color: u32, ghost before: seq<u8>, ghost on: (int, int) -> bool)
      requires Valid() && c < 128 && uiX + GLYPH_WIDTH < TWO_31 && uiY + GLYPH_HEIGHT < TWO_31
      requires |before| == frame.Length && Shows(before, color, on)
      modifies frame
      ensures Shows(before, color, Plus(on, Glyph(c, uiX, uiY)))
    {
      hide Shows, Covers;
      var g := Glyph(c, uiX, uiY);
      ShowsSame(before, color, on, RowsSoFar(on, g, g.y)) by { NoRowYet(on, g); }
      for iy := uiY to uiY + GLYPH_HEIGHT
        invariant Shows(before, color, RowsSoFar(on, g, iy))
      {
        DrawRow(g, iy, color, before, RowsSoFar(on, g, iy));
        ShowsSame(before, color, (x, y) => RowsSoFar(on, g, iy)(x, y) || (y == iy && Covers(font, g, x, y)),
                  RowsSoFar(on, g, iy + 1));
      }
      ShowsSame(before, color, RowsSoFar(on, g, g.y + GLYPH_HEIGHT), Plus(on, g)) by { AllRows(on, g); }
    }

    ghost function CoveredSoFar(gs: seq<Glyph>): (int, int) -> bool
      requires |font| == FONT_BYTES && forall i :: 0 <= i < |gs| ==> gs[i].c < 128
    {
      (x, y) => CoveredBy(font, gs, x, y)
    }

    lemma CoveredSnoc(gs: seq<Glyph>, g: Glyph)
      requires |font| == FONT_BYTES && g.c < 128 && forall i :: 0 <= i < |gs| ==> gs[i].c < 128
      ensures forall x: int, y: int ::
        CoveredBy(font, gs + [g], x, y) == (CoveredBy(font, gs, x, y) || Covers(font, g, x, y))
    {
      forall x: int, y: int
        ensures CoveredBy(font, gs + [g], x, y) == (CoveredBy(font, gs, x, y) || Covers(font, g, x, y))
      {
        var all := gs + [g];
        assert all[|gs|] == g && all[..|gs|] == gs;
        if CoveredBy(font, gs, x, y) {
          var i :| 0 <= i < |gs| && Covers(font, gs[i], x, y);
          assert all[i] == gs[i];
        }
      }
    }

    /** One drawn character adds its glyph to those shown. */
    method DrawNext(c: u8, iX: nat, ghost before: seq<u8>, ghost gs: seq<Glyph>)
      requires Valid() && c < 128 && iX + GLYPH_WIDTH < TWO_31 && displayY + GLYPH_HEIGHT < TWO_31
      requires forall i :: 0 <= i < |gs| ==> gs[i].c < 128
      requires |before| == frame.Length && Shows(before, textColor, CoveredSoFar(gs))
      modifies frame
      ensures Shows(before, textColor, CoveredSoFar(gs + [Glyph(c, iX, displayY)]))
    {
      hide Shows, Covers, CoveredBy;
      var g := Glyph(c, iX, displayY);
      DisplayChar(c, iX, displayY, textColor, before, CoveredSoFar(gs));
      CoveredSnoc(gs, g);
      ShowsSame(before, textColor, Plus(CoveredSoFar(gs), g), CoveredSoFar(gs + [g]));
    }

    /** The pixels that show a string, up to some character. */
    ghost predicate ShowsString(before: seq<u8>, s: seq<u8>, line: nat)
      reads this`displayX, this`textColor, frame
      requires Valid() && Ascii(s) && |before| == frame.Length
    {
      Shows(before, textColor, CoveredSoFar(Glyphs(s, displayX, line, mode.width)))
    }

    /** One character of a string. */
    method DisplayNext(s: seq<u8>, i: nat, iX: nat, ghost before: seq<u8>, ghost line: nat) returns (next: nat)
      requires Valid() && Ascii(s) && i < |s| && |before| == frame.Length
      requires displayX < TWO_16 && displayY + GLYPH_HEIGHT < TWO_31 && iX < TWO_16 + GLYPH_WIDTH
      requires iX == Column(s[..i], displayX, mode.width) && displayY == line + GLYPH_HEIGHT * Newlines(s[..i])
      requires ShowsString(before, s[..i], line)
      modifies frame, this`displayY
      ensures Valid()
      ensures next == Column(s[..i + 1], displayX, mode.width) && next < TWO_16 + GLYPH_WIDTH
      ensures displayY == line + GLYPH_HEIGHT * Newlines(s[..i + 1])
      ensures ShowsString(before, s[..i + 1], line)
    {
      hide Shows, CoveredSoFar;
      next := iX;
      assert s[..i + 1][..i] == s[..i];
      ghost var gs := Glyphs(s[..i], displayX, line, mode.width);
      if s[i] == 10 {
        assert Glyphs(s[..i + 1], displayX, line, mode.width) == gs;
        displayY := displayY + GLYPH_HEIGHT;
      } else if s[i] == 13 {
        assert Glyphs(s[..i + 1], displayX, line, mode.width) == gs;
        next := displayX;
      } else if iX < mode.width {
        assert Glyphs(s[..i + 1], displayX, line, mode.width) == gs + [Glyph(s[i], iX, displayY)];
        DrawNext(s[i], iX, before, gs);
        next := iX + GLYPH_WIDTH;
      } else {
        assert Glyphs(s[..i + 1], displayX, line, mode.width) == gs;
      }
    }

    /**
     Main result: after a string is displayed, a pixel on the screen has the text colour if some glyph of
     the string covers it with an on bit, and is unchanged otherwise; the line has moved 16 per newline.
     */
    method DisplayString(s: seq<u8>)
      requires Valid() && Ascii(s)
      requires displayX < TWO_16 && displayY + GLYPH_HEIGHT * (Newlines(s) + 1) < TWO_31
      modifies frame, this`displayY
      ensures Valid() && displayY == old(displayY) + GLYPH_HEIGHT * Newlines(s)
      ensures ShowsString(old(frame[..]), s, old(displayY))
    {
      var iX := displayX;
      ghost var before, line := frame[..], displayY;
      NothingShown(before);
      for i := 0 to |s|
        invariant Valid() && displayY == line + GLYPH_HEIGHT * Newlines(s[..i])
        invariant iX == Column(s[..i], displayX, mode.width) && iX < TWO_16 + GLYPH_WIDTH
        invariant ShowsString(before, s[..i], line)
      {
        NewlinesPrefix(s, i);
        iX := DisplayNext(s, i, iX, before, line);
      }
      assert s[..|s|] == s;
    }

    lemma NothingShown(before: seq<u8>)
      requires Valid() && before == frame[..]
      ensures Shows(before, textColor, CoveredSoFar([]))
    {}
  }

  lemma {:induction false} NewlinesPrefix(s: seq<u8>, i: nat)
    requires i <= |s|
    ensures Newlines(s[..i]) <= Newlines(s)
    decreases |s|
  {
    if i < |s| {
      assert s[..|s| - 1][..i] == s[..i];
      NewlinesPrefix(s[..|s| - 1], i);
    } else {
      assert s[..i] == s;
    }
  }

  /** Memory with a colour stored at an offset. */
  function Stored(mem: seq<u8>, offset: nat, color: u32): (r: seq<u8>)
    requires offset + 4 <= |mem|
    ensures |r| == |mem|
  {
    mem[..offset] + Bytes(color) + mem[offset + 4..]
  }

  /** A store changes its own pixel and no other. */
  lemma StoredPixel(mem: seq<u8>, m: Mode, ix: nat, iy: nat, color: u32, x: nat, y: nat)
    requires ValidMode(m) && OnScreen(m, ix, iy) && OnScreen(m, x, y) && |mem| == m.pitch * m.height
    ensures Offset(m, ix, iy) + 4 <= |mem| && Offset(m, x, y) + 4 <= |mem|
    ensures Pixel(Stored(mem, Offset(m, ix, iy), color), m, x, y)
      == if (x, y) == (ix, iy) then Bytes(color) else Pixel(mem, m, x, y)
  {
    OffsetExact(m, ix, iy);
    OffsetExact(m, x, y);
    if (x, y) != (ix, iy) { SlotsDisjoint(m, x, y, ix, iy); }
    StoredSlice(mem, Offset(m, ix, iy), color, Offset(m, x, y));
  }

  /** And no byte outside of the pixels. */
  lemma StoredRest(mem: seq<u8>, before: seq<u8>, m: Mode, ix: nat, iy: nat, color: u32)
    requires ValidMode(m) && OnScreen(m, ix, iy) && |mem| == |before| == m.pitch * m.height
    requires RestKept(mem, before, m)
    ensures Offset(m, ix, iy) + 4 <= |mem|
    ensures RestKept(Stored(mem, Offset(m, ix, iy), color), before, m)
  {
    OffsetExact(m, ix, iy);
    var mem' := Stored(mem, Offset(m, ix, iy), color);
    forall k | 0 <= k < |mem'| && !InSlot(m, k)
      ensures mem'[k] == before[k]
    {
      assert !(Offset(m, ix, iy) <= k < Offset(m, ix, iy) + 4);
    }
  }

  lemma StoredSlice(mem: seq<u8>, at: nat, color: u32, from: nat)
    requires at + 4 <= |mem| && from + 4 <= |mem| && (at == from || at + 4 <= from || from + 4 <= at)
    ensures Stored(mem, at, color)[from..from + 4] == if at == from then Bytes(color) else mem[from..from + 4]
  {}
}
