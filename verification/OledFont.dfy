/** Fonts written down glyph by glyph: how they are laid out in bytes, and that drawn text shows exactly
    their bits. */
module OledFont {
  import opened Bytes
  import opened Oled
  import opened OledBlocks
  import opened OledText
  import opened OledTextRead

  /** One bit for each row, the top one first; whole bytes of them. */
  type Column = seq<bool>

  type Glyph = seq<Column>

  datatype Typeface = Typeface(height: byte, width: byte, spacing: byte, first: byte, glyphs: seq<Glyph>)

  /** Bytes for each column: one for every eight rows begun. */
  function Parts(height: byte): nat {
    (height + 7) / 8
  }

  predicate WellFormed(f: Typeface) {
    && 0 < |f.glyphs| <= 0x100 - f.first
    && forall i :: 0 <= i < |f.glyphs| ==> IsGlyph(f, f.glyphs[i])
  }

  predicate IsGlyph(f: Typeface, g: Glyph) {
    |g| == f.width && forall i :: 0 <= i < |g| ==> |g[i]| == 8 * Parts(f.height)
  }

  // ---------- The layout (the comment at the head of the font file) ----------

  /** Eight rows in a byte, the top one in the least significant bit. */
  function ColumnBytes(c: Column): (bytes: seq<byte>)
    requires |c| % 8 == 0
    ensures |bytes| == |c| / 8
  {
    if c == [] then [] else [PackByte(c[..8])] + ColumnBytes(c[8..])
  }

  function Columns(f: Typeface, g: Glyph): (blocks: seq<seq<byte>>)
    requires IsGlyph(f, g)
    ensures |blocks| == |g| && forall i :: 0 <= i < |g| ==> blocks[i] == ColumnBytes(g[i])
    ensures Even(blocks, Parts(f.height))
  {
    seq(|g|, i requires 0 <= i < |g| => ColumnBytes(g[i]))
  }

  function GlyphBytes(f: Typeface, g: Glyph): seq<byte>
    requires IsGlyph(f, g)
  {
    Flat(Columns(f, g))
  }

  function Blocks(f: Typeface): (blocks: seq<seq<byte>>)
    requires WellFormed(f)
    ensures |blocks| == |f.glyphs| && forall i :: 0 <= i < |f.glyphs| ==> blocks[i] == GlyphBytes(f, f.glyphs[i])
  {
    seq(|f.glyphs|, i requires 0 <= i < |f.glyphs| => GlyphBytes(f, f.glyphs[i]))
  }

  /** Height, width, spacing, first and last character, then the glyphs. */
  function Encoded(f: Typeface): Font
    requires WellFormed(f)
  {
    [f.height, f.width, f.spacing, f.first, f.first + |f.glyphs| - 1] + Flat(Blocks(f))
  }

  // ---------- Finding a bit again ----------

  lemma TailSlice(c: Column, n: nat, i: nat, size: nat)
    requires n + i + size <= |c|
    ensures c[n..][i..i + size] == c[n + i..n + i + size]
  {
  }

  lemma {:induction false} ByteOfColumn(c: Column, part: nat)
    requires |c| % 8 == 0 && part < |c| / 8
    ensures ColumnBytes(c)[part] == PackByte(c[8 * part..8 * part + 8])
  {
    if part == 0 {
      assert c[0..8] == c[..8];
    } else {
      ByteOfColumn(c[8..], part - 1);
      TailSlice(c, 8, 8 * (part - 1), 8);
    }
  }

  lemma GlyphLength(f: Typeface, g: Glyph)
    requires IsGlyph(f, g)
    ensures |GlyphBytes(f, g)| == Times(Parts(f.height), f.width)
  {
    FlatLength(Columns(f, g), Parts(f.height));
  }

  lemma BlocksEven(f: Typeface)
    requires WellFormed(f)
    ensures Even(Blocks(f), Times(Parts(f.height), f.width))
  {
    forall i | 0 <= i < |f.glyphs|
      ensures |Blocks(f)[i]| == Times(Parts(f.height), f.width)
    {
      GlyphLength(f, f.glyphs[i]);
    }
  }

  lemma GlyphByteAt(f: Typeface, g: Glyph, col: nat, part: nat)
    requires IsGlyph(f, g) && col < f.width && part < Parts(f.height)
    ensures Times(Parts(f.height), col) + part < |GlyphBytes(f, g)|
    ensures GlyphBytes(f, g)[Times(Parts(f.height), col) + part] == PackByte(g[col][8 * part..8 * part + 8])
  {
    FlatAt(Columns(f, g), Parts(f.height), col, part);
    ByteOfColumn(g[col], part);
  }

  lemma HeaderOf(f: Typeface)
    requires WellFormed(f)
    ensures var font := Encoded(f);
            && |font| >= 5
            && font[0] == f.height && font[1] == f.width && font[2] == f.spacing && font[3] == f.first
            && font[4] == f.first + |f.glyphs| - 1
            && PartsPerLine(font) == Parts(f.height)
            && GlyphSize(font) == Times(Parts(f.height), f.width)
  {
  }

  lemma BehindHeader(f: Typeface, i: nat)
    requires WellFormed(f) && i < |Flat(Blocks(f))|
    ensures 5 + i < |Encoded(f)| && Encoded(f)[5 + i] == Flat(Blocks(f))[i]
  {
  }

  /** Where the byte of a character, column and part stands. */
  lemma FontByteAt(f: Typeface, n: nat, col: nat, part: nat)
    requires WellFormed(f) && n < |f.glyphs| && col < |f.glyphs[n]| && part < Parts(f.height)
    ensures |f.glyphs[n][col]| == 8 * Parts(f.height)
    ensures var at := 5 + (Times(Times(Parts(f.height), f.width), n) + (Times(Parts(f.height), col) + part));
            at < |Encoded(f)| && Encoded(f)[at] == PackByte(f.glyphs[n][col][8 * part..8 * part + 8])
  {
    var size, j := Times(Parts(f.height), f.width), Times(Parts(f.height), col) + part;
    assert IsGlyph(f, f.glyphs[n]);
    BlocksEven(f);
    GlyphLength(f, f.glyphs[n]);
    GlyphByteAt(f, f.glyphs[n], col, part);
    FlatAt(Blocks(f), size, n, j);
    BehindHeader(f, Times(size, n) + j);
  }

  /** The bit of the glyph written down for a character, if there is one. */
  predicate TypefaceBit(f: Typeface, c: byte, col: nat, row: nat) {
    && f.first <= c < f.first + |f.glyphs|
    && col < |f.glyphs[c - f.first]|
    && row < |f.glyphs[c - f.first][col]|
    && f.glyphs[c - f.first][col][row]
  }

  lemma PartAtIs(f: Typeface, c: byte, col: nat, part: nat)
    requires WellFormed(f) && f.first <= c < f.first + |f.glyphs|
    ensures |Encoded(f)| >= 5 && HasGlyph(Encoded(f), c)
    ensures PartAt(Encoded(f), c, col, part) ==
              5 + (Times(Times(Parts(f.height), f.width), c - f.first) + (Times(Parts(f.height), col) + part))
  {
    HeaderOf(f);
  }

  lemma BitInPart(f: Typeface, n: nat, col: nat, row: nat)
    requires WellFormed(f) && n < |f.glyphs| && col < |f.glyphs[n]| && row < |f.glyphs[n][col]|
    ensures row / 8 < Parts(f.height) && |f.glyphs[n][col]| == 8 * Parts(f.height)
    ensures var part := row / 8;
            ByteBit(PackByte(f.glyphs[n][col][8 * part..8 * part + 8]), row % 8) <==> f.glyphs[n][col][row]
  {
    assert IsGlyph(f, f.glyphs[n]);
    var part := row / 8;
    BitOfByte(f.glyphs[n][col][8 * part..8 * part + 8], row % 8);
  }

  lemma HasBitIff(f: Typeface, c: byte, col: nat, row: nat)
    requires WellFormed(f)
    ensures |Encoded(f)| >= 5
    ensures HasGlyph(Encoded(f), c) && col < Encoded(f)[1] && row < OledText.Rows(Encoded(f)) <==>
              && f.first <= c < f.first + |f.glyphs|
              && col < |f.glyphs[c - f.first]| && row < |f.glyphs[c - f.first][col]|
  {
    HeaderOf(f);
    if f.first <= c < f.first + |f.glyphs| {
      assert IsGlyph(f, f.glyphs[c - f.first]);
    }
  }

  /** What the drawing loops read of an encoded font is exactly what was written down. */
  lemma GlyphBitIff(f: Typeface, c: byte, col: nat, row: nat)
    requires WellFormed(f)
    ensures |Encoded(f)| >= 5 && (GlyphBit(Encoded(f), c, col, row) <==> TypefaceBit(f, c, col, row))
  {
    HasBitIff(f, c, col, row);
    if HasGlyph(Encoded(f), c) && col < Encoded(f)[1] && row < OledText.Rows(Encoded(f)) {
      PartAtIs(f, c, col, row / 8);
      BitInPart(f, c - f.first, col, row);
      FontByteAt(f, c - f.first, col, row / 8);
    }
  }

  // ---------- Drawn text ----------

  /** The square of a glyph bit: characters are (width + spacing) * scale apart, bits are scale apart. */
  predicate InSquare(f: Typeface, x: nat, y: nat, scale: nat, k: nat, col: nat, row: nat, px: nat, py: nat) {
    && x + (f.width as int + f.spacing) * scale * k + col * scale <= px
    && px < x + (f.width as int + f.spacing) * scale * k + col * scale + scale
    && y + row * scale <= py < y + row * scale + scale
  }

  /** No glyph reaches the end of the coordinate range. */
  predicate InRange(f: Typeface, s: seq<byte>, x: nat, y: nat, scale: nat) {
    && scale > 0
    && y + 8 * Parts(f.height) * scale <= RANGE
    && (s != [] ==> x + (f.width as int + f.spacing) * scale * (|s| - 1) + f.width * scale <= RANGE)
  }

  lemma SquareIsCell(f: Typeface, x: nat, y: nat, scale: nat, k: nat, col: nat, row: nat, px: nat, py: nat)
    requires WellFormed(f)
    ensures |Encoded(f)| >= 5
    ensures InCellOf(Encoded(f), x, y, scale, k, col, row, px, py) <==> InSquare(f, x, y, scale, k, col, row, px, py)
  {
    HeaderOf(f);
  }

  lemma RangeIsUnwrapped(f: Typeface, s: seq<byte>, x: nat, y: nat, scale: nat)
    requires WellFormed(f) && InRange(f, s, x, y, scale)
    ensures |Encoded(f)| >= 5 && Unwrapped(Encoded(f), s, x, y, scale)
  {
    HeaderOf(f);
  }

  /** A text in an encoded font lights a pixel exactly when it lies in the square of a bit that is set in
      the glyph written down for the character at that place. */
  lemma TextShowsGlyphs(f: Typeface, s: seq<byte>, x: nat, y: nat, scale: nat, px: u32, py: u32)
    requires WellFormed(f) && InRange(f, s, x, y, scale)
    ensures |Encoded(f)| >= 5
    ensures TextInk(Encoded(f), s, x, y, scale, |s|)(px, py) <==>
              exists k: nat, col: nat, row: nat ::
                InSquare(f, x, y, scale, k, col, row, px, py) && k < |s| && TypefaceBit(f, s[k], col, row)
  {
    HeaderOf(f);
    RangeIsUnwrapped(f, s, x, y, scale);
    TextInkIff(Encoded(f), s, x, y, scale, px, py);
    forall k: nat, col: nat, row: nat
      ensures InCellOf(Encoded(f), x, y, scale, k, col, row, px, py) <==> InSquare(f, x, y, scale, k, col, row, px, py)
      ensures k < |s| ==> (GlyphBit(Encoded(f), s[k], col, row) <==> TypefaceBit(f, s[k], col, row))
    {
      SquareIsCell(f, x, y, scale, k, col, row, px, py);
      if k < |s| {
        GlyphBitIff(f, s[k], col, row);
      }
    }
  }

  /** An encoded font is one that text can be drawn in. */
  lemma EncodedIsFont(f: Typeface)
    requires WellFormed(f)
    ensures IsFont(Encoded(f))
  {
    HeaderOf(f);
    BlocksEven(f);
    FlatLength(Blocks(f), GlyphSize(Encoded(f)));
    assert Times(GlyphSize(Encoded(f)), |f.glyphs|) == GlyphSize(Encoded(f)) * |f.glyphs|;
  }
}
