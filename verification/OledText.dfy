/** Text on the display: scaled glyph bits, drawn square by square. */
module OledText {
  import opened Bytes
  import opened Oled

  type Font = seq<byte>

  function Shr(b: byte, j: nat): byte {
    if j == 0 then b else Shr(b, j - 1) / 2
  }

  /** Bit `j` of a byte, from the least significant. */
  predicate ByteBit(b: byte, j: nat) {
    Shr(b, j) % 2 == 1
  }

  function Times(a: nat, b: nat): nat {
    a * b
  }

  // ---------- Fonts: height, width, spacing, first and last character, then the columns ----------

  function PartsPerLine(font: Font): nat
    requires |font| >= 5
  {
    font[0] / 8 + (if font[0] % 8 > 0 then 1 else 0)
  }

  function GlyphSize(font: Font): nat
    requires |font| >= 5
  {
    font[1] * PartsPerLine(font)
  }

  /** The data of every character is there. */
  predicate IsFont(font: Font) {
    && |font| >= 5
    && (font[3] <= font[4] ==> |font| >= 5 + GlyphSize(font) * (font[4] as int - font[3] + 1))
  }

  predicate HasGlyph(font: Font, c: byte)
    requires |font| >= 5
  {
    font[3] <= c <= font[4]
  }

  function PartAt(font: Font, c: byte, col: nat, part: nat): nat
    requires |font| >= 5 && HasGlyph(font, c)
  {
    Times(GlyphSize(font), c - font[3]) + Times(PartsPerLine(font), col) + part + 5
  }

  lemma PartInFont(font: Font, c: byte, col: nat, part: nat)
    requires IsFont(font) && HasGlyph(font, c)
    requires col < font[1] && part < PartsPerLine(font)
    ensures PartAt(font, c, col, part) < |font|
  {
    PageOrder(PartsPerLine(font), col, font[1]);
    PageOrder(GlyphSize(font), c - font[3], font[4] as int - font[3] + 1);
  }

  function Rows(font: Font): nat
    requires |font| >= 5
  {
    PartsPerLine(font) * 8
  }

  predicate GlyphBit(font: Font, c: byte, col: nat, row: nat)
    requires |font| >= 5
  {
    && HasGlyph(font, c) && col < font[1] && row < Rows(font)
    && PartAt(font, c, col, row / 8) < |font|
    && ByteBit(font[PartAt(font, c, col, row / 8)], row % 8)
  }

  // ---------- Inks ----------

  /** Where the square of the n-th column or row starts. */
  function DotAt(start: nat, scale: nat, n: nat): u32 {
    Wrap(start + Times(n, scale))
  }

  /** Pixel (px, py) lies in the scaled square of this glyph bit. */
  predicate Dot(font: Font, c: byte, x: nat, y: nat, scale: nat, col: nat, row: nat, px: nat, py: nat)
    requires |font| >= 5
  {
    && GlyphBit(font, c, col, row)
    && SquareInk(DotAt(x, scale, col), DotAt(y, scale, row), scale, scale)(px, py)
  }

  /** The pixels of one column's bits from row `lo` up to row `hi`. */
  ghost function RowsInk(font: Font, c: byte, x: nat, y: nat, scale: nat, col: nat, lo: nat, hi: nat): Ink
    requires |font| >= 5
  {
    (px: nat, py: nat) => exists row: nat :: Dot(font, c, x, y, scale, col, row, px, py) && lo <= row < hi
  }

  /** The pixels of the first `n` columns' bits. */
  ghost function ColumnsInk(font: Font, c: byte, x: nat, y: nat, scale: nat, n: nat): Ink
    requires |font| >= 5
  {
    (px: nat, py: nat) => exists col: nat, row: nat :: Dot(font, c, x, y, scale, col, row, px, py) && col < n
  }

  ghost function CharInk(font: Font, c: byte, x: nat, y: nat, scale: nat): Ink
    requires |font| >= 5
  {
    (px: nat, py: nat) => exists col: nat, row: nat :: Dot(font, c, x, y, scale, col, row, px, py)
  }

  function Advance(font: Font, scale: nat): nat
    requires |font| >= 5
  {
    Times(font[1] as int + font[2], scale)
  }

  function CharX(font: Font, x: nat, scale: nat, k: nat): u32
    requires |font| >= 5
  {
    Wrap(x + Times(Advance(font, scale), k))
  }

  predicate CharDot(font: Font, s: seq<byte>, x: nat, y: nat, scale: nat, k: nat, col: nat, row: nat, px: nat, py: nat)
    requires |font| >= 5
  {
    k < |s| && Dot(font, s[k], CharX(font, x, scale, k), y, scale, col, row, px, py)
  }

  /** The pixels of the first `n` characters. */
  ghost function TextInk(font: Font, s: seq<byte>, x: nat, y: nat, scale: nat, n: nat): Ink
    requires |font| >= 5
  {
    (px: nat, py: nat) => exists k: nat, col: nat, row: nat ::
      CharDot(font, s, x, y, scale, k, col, row, px, py) && k < n
  }

  // ---------- Steps of the loops ----------

  lemma BitOfPart(font: Font, c: byte, col: nat, lp: nat, j: nat)
    requires IsFont(font) && HasGlyph(font, c) && col < font[1] && lp < PartsPerLine(font) && j < 8
    ensures PartAt(font, c, col, lp) < |font|
    ensures GlyphBit(font, c, col, lp * 8 + j) <==> Shr(font[PartAt(font, c, col, lp)], j) % 2 == 1
  {
    PartInFont(font, c, col, lp);
    assert (lp * 8 + j) / 8 == lp && (lp * 8 + j) % 8 == j;
  }

  lemma InkedSame(a: seq<bv8>, b: seq<bv8>, width: nat, height: nat, f: Ink, g: Ink)
    requires Inked(a, b, width, height, f)
    requires forall x: nat, y: nat :: x < width && y < height ==> (f(x, y) <==> g(x, y))
    ensures Inked(a, b, width, height, g)
  {
  }

  /** After the square of the next bit, if that bit is set, the rows drawn are one more. */
  lemma RowDrawn(width: nat, height: nat, before: seq<bv8>, was: seq<bv8>, now: seq<bv8>,
                 font: Font, c: byte, x: nat, y: nat, scale: nat, col: nat, lo: nat, row: nat)
    requires |font| >= 5 && lo <= row
    requires Inked(before, was, width, height, RowsInk(font, c, x, y, scale, col, lo, row))
    requires if GlyphBit(font, c, col, row)
             then Inked(was, now, width, height, SquareInk(DotAt(x, scale, col), DotAt(y, scale, row), scale, scale))
             else now == was
    ensures Inked(before, now, width, height, RowsInk(font, c, x, y, scale, col, lo, row + 1))
  {
    var f, g := RowsInk(font, c, x, y, scale, col, lo, row), RowsInk(font, c, x, y, scale, col, lo, row + 1);
    forall px: nat, py: nat
      ensures g(px, py) <==> f(px, py) || Dot(font, c, x, y, scale, col, row, px, py)
    {
    }
    if GlyphBit(font, c, col, row) {
      var square := SquareInk(DotAt(x, scale, col), DotAt(y, scale, row), scale, scale);
      InkedThen(before, was, now, width, height, f, square, g);
    } else {
      InkedSame(before, was, width, height, f, g);
    }
  }

  lemma TextInkNext(font: Font, s: seq<byte>, x: nat, y: nat, scale: nat, n: nat)
    requires |font| >= 5 && n < |s|
    ensures forall px: nat, py: nat :: TextInk(font, s, x, y, scale, n + 1)(px, py) <==>
              || TextInk(font, s, x, y, scale, n)(px, py)
              || CharInk(font, s[n], CharX(font, x, scale, n), y, scale)(px, py)
  {
    forall px: nat, py: nat
      ensures TextInk(font, s, x, y, scale, n + 1)(px, py) <==>
              || TextInk(font, s, x, y, scale, n)(px, py)
              || CharInk(font, s[n], CharX(font, x, scale, n), y, scale)(px, py)
    {
      if col: nat, row: nat :| Dot(font, s[n], CharX(font, x, scale, n), y, scale, col, row, px, py) {
        assert CharDot(font, s, x, y, scale, n, col, row, px, py);
      }
    }
  }

  lemma NextCharX(font: Font, x: nat, scale: nat, k: nat)
    requires |font| >= 5
    ensures Wrap(CharX(font, x, scale, k) + Advance(font, scale)) == CharX(font, x, scale, k + 1)
  {
    var a, at := Advance(font, scale), x + Times(Advance(font, scale), k);
    assert Times(a, k + 1) == Times(a, k) + a;
    var q, q' := at / RANGE, (at + a) / RANGE;
    ModAgain(CharX(font, x, scale, k) + a, q' - q, (at + a) % RANGE);
  }

  // ---------- Drawing ----------

  /** The eight bits of one data byte, least significant first. */
  method DrawPart(d: Display, x: u32, y: u32, scale: u32, font: Font, c: byte, w: nat, lp: nat)
    requires d.Valid() && IsFont(font) && HasGlyph(font, c)
    requires w < font[1] && lp < PartsPerLine(font)
    modifies d.buffer
    ensures d.Valid()
    ensures Inked(old(d.buffer[..]), d.buffer[..], d.width, d.height,
                  RowsInk(font, c, x, y, scale, w, lp * 8, lp * 8 + 8))
  {
    ghost var before, base := d.buffer[..], lp * 8;
    PartInFont(font, c, w, lp);
    var part := font[PartAt(font, c, w, lp)];
    var line := part;
    InkedNothing(before, d.width, d.height, RowsInk(font, c, x, y, scale, w, base, base));
    for j := 0 to 8
      invariant d.Valid() && line == Shr(part, j)
      invariant Inked(before, d.buffer[..], d.width, d.height, RowsInk(font, c, x, y, scale, w, base, base + j))
    {
      ghost var was, row := d.buffer[..], base + j;
      BitOfPart(font, c, w, lp, j);
      if line % 2 == 1 {
        d.DrawSquare(DotAt(x, scale, w), DotAt(y, scale, lp * 8 + j), scale, scale);
      }
      RowDrawn(d.width, d.height, before, was, d.buffer[..], font, c, x, y, scale, w, base, row);
      line := line / 2;
    }
  }

  method DrawChar(d: Display, x: u32, y: u32, scale: u32, font: Font, c: byte)
    requires d.Valid() && IsFont(font)
    modifies d.buffer
    ensures d.Valid()
    ensures Inked(old(d.buffer[..]), d.buffer[..], d.width, d.height, CharInk(font, c, x, y, scale))
  {
    ghost var before := d.buffer[..];
    if c < font[3] || c > font[4] {
      InkedNothing(before, d.width, d.height, CharInk(font, c, x, y, scale));
      return;
    }
    var partsPerLine := PartsPerLine(font);
    InkedNothing(before, d.width, d.height, ColumnsInk(font, c, x, y, scale, 0));
    for w := 0 to font[1]
      invariant d.Valid()
      invariant Inked(before, d.buffer[..], d.width, d.height, ColumnsInk(font, c, x, y, scale, w))
    {
      ghost var column := d.buffer[..];
      InkedNothing(column, d.width, d.height, RowsInk(font, c, x, y, scale, w, 0, 0));
      for lp := 0 to partsPerLine
        invariant d.Valid()
        invariant Inked(column, d.buffer[..], d.width, d.height, RowsInk(font, c, x, y, scale, w, 0, lp * 8))
      {
        ghost var was := d.buffer[..];
        DrawPart(d, x, y, scale, font, c, w, lp);
        InkedThen(column, was, d.buffer[..], d.width, d.height, RowsInk(font, c, x, y, scale, w, 0, lp * 8),
                  RowsInk(font, c, x, y, scale, w, lp * 8, lp * 8 + 8),
                  RowsInk(font, c, x, y, scale, w, 0, lp * 8 + 8));
      }
      InkedThen(before, column, d.buffer[..], d.width, d.height, ColumnsInk(font, c, x, y, scale, w),
                RowsInk(font, c, x, y, scale, w, 0, partsPerLine * 8), ColumnsInk(font, c, x, y, scale, w + 1));
    }
    InkedSame(before, d.buffer[..], d.width, d.height, ColumnsInk(font, c, x, y, scale, font[1]),
              CharInk(font, c, x, y, scale));
  }

  method DrawString(d: Display, x: u32, y: u32, scale: u32, font: Font, s: seq<byte>)
    requires d.Valid() && IsFont(font)
    modifies d.buffer
    ensures d.Valid()
    ensures Inked(old(d.buffer[..]), d.buffer[..], d.width, d.height, TextInk(font, s, x, y, scale, |s|))
  {
    ghost var before := d.buffer[..];
    var xn := x;
    InkedNothing(before, d.width, d.height, TextInk(font, s, x, y, scale, 0));
    for k := 0 to |s|
      invariant d.Valid() && xn == CharX(font, x, scale, k)
      invariant Inked(before, d.buffer[..], d.width, d.height, TextInk(font, s, x, y, scale, k))
    {
      ghost var was := d.buffer[..];
      DrawChar(d, xn, y, scale, font, s[k]);
      TextInkNext(font, s, x, y, scale, k);
      InkedThen(before, was, d.buffer[..], d.width, d.height, TextInk(font, s, x, y, scale, k),
                CharInk(font, s[k], xn, y, scale), TextInk(font, s, x, y, scale, k + 1));
      xn := Wrap(xn + (font[1] as int + font[2]) * scale);
      NextCharX(font, x, scale, k);
    }
  }
}
