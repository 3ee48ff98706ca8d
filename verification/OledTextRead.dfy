/** Glyphs do not overlap, and drawn text can be read back bit by bit. */
module OledTextRead {
  import opened Bytes
  import opened Oled
  import opened OledText

  /** Exactly when two equally long arcs of coordinates have no coordinate in common. */
  lemma ArcsDisjointIff(a: u32, b: u32, n: nat)
    requires 1 <= n <= RANGE
    ensures (forall p: u32 :: !(InArc(p, a, n) && InArc(p, b, n))) <==> n <= (b - a) % RANGE <= RANGE - n
  {
    var d := (b - a) % RANGE;
    if d < n {
      assert InArc(b, a, n) && InArc(b, b, n);
    } else if d > RANGE - n {
      assert InArc(a, a, n) && InArc(a, b, n);
    } else {
      forall p: u32 | InArc(p, a, n)
        ensures !InArc(p, b, n)
      {
        var u := (p - a) % RANGE;
        var q := (p - a) / RANGE - (b - a) / RANGE;
        ModAgain(p - b, q - 1, u - d + RANGE);
      }
    }
  }

  /** How far the boxes of two characters are apart. */
  lemma CharDistance(font: Font, x: nat, scale: nat, i: nat, j: nat)
    requires |font| >= 5 && i <= j
    ensures (CharX(font, x, scale, j) - CharX(font, x, scale, i)) % RANGE == Times(Advance(font, scale), j - i) % RANGE
  {
    var a := Advance(font, scale);
    var xi, xj, d := x + Times(a, i), x + Times(a, j), Times(a, j - i);
    assert Times(a, j) == Times(a, i) + d by {
      assert a * j == a * (i + (j - i));
    }
    ModAgain(CharX(font, x, scale, j) - CharX(font, x, scale, i), d / RANGE + xi / RANGE - xj / RANGE, d % RANGE);
  }

  /** The columns that a character can touch. */
  function BoxWidth(font: Font, scale: nat): nat
    requires |font| >= 5
  {
    Times(font[1], scale)
  }

  lemma BoxFitsAdvance(font: Font, scale: nat)
    requires |font| >= 5
    ensures BoxWidth(font, scale) <= Advance(font, scale)
  {
    PageOrder(scale, font[1], font[1] as int + font[2]);
  }

  /** Exactly when the boxes of characters `i` and `j` of a text have no column in common. */
  lemma GlyphBoxesDisjointIff(font: Font, x: nat, scale: nat, i: nat, j: nat)
    requires |font| >= 5 && i < j && 1 <= BoxWidth(font, scale) <= RANGE
    ensures (forall p: u32 :: !(InArc(p, CharX(font, x, scale, i), BoxWidth(font, scale))
                                && InArc(p, CharX(font, x, scale, j), BoxWidth(font, scale))))
            <==> BoxWidth(font, scale) <= Times(Advance(font, scale), j - i) % RANGE <= RANGE - BoxWidth(font, scale)
  {
    CharDistance(font, x, scale, i, j);
    ArcsDisjointIff(CharX(font, x, scale, i), CharX(font, x, scale, j), BoxWidth(font, scale));
  }

  lemma TimesOrder(a: nat, p: nat, q: nat)
    requires p < q
    ensures Times(a, p) + a <= Times(a, q)
  {
    PageOrder(a, p, q);
  }

  lemma StepsApart(step: nat, box: nat, k: nat, n: nat)
    requires 0 < k < n && 1 <= box <= step && Times(step, n) <= RANGE
    ensures box <= RANGE && box <= Times(step, k) % RANGE <= RANGE - box
  {
    TimesOrder(step, 0, k);
    TimesOrder(step, k, n);
    assert Times(step, 0) == 0;
  }

  /** In particular, the boxes of a text that does not wrap round the coordinate range are disjoint. */
  lemma GlyphBoxesDisjoint(font: Font, x: nat, scale: nat, i: nat, j: nat, n: nat)
    requires |font| >= 5 && i < j < n && 1 <= BoxWidth(font, scale)
    requires Times(Advance(font, scale), n) <= RANGE
    ensures forall p: u32 :: !(InArc(p, CharX(font, x, scale, i), BoxWidth(font, scale))
                               && InArc(p, CharX(font, x, scale, j), BoxWidth(font, scale)))
  {
    BoxFitsAdvance(font, scale);
    StepsApart(Advance(font, scale), BoxWidth(font, scale), j - i, n);
    GlyphBoxesDisjointIff(font, x, scale, i, j);
  }

  // ---------- Reading back ----------

  lemma SameStrip(d: nat, q: nat, q': nat, v: int)
    requires Times(q, d) <= v < Times(q, d) + d
    requires Times(q', d) <= v < Times(q', d) + d
    ensures q == q'
  {
    PageOrder(d, q, q');
    PageOrder(d, q', q);
    assert Times(q, d) == d * q && Times(q', d) == d * q';
  }

  lemma PlainArc(p: nat, start: nat, n: nat)
    requires p < RANGE && start + n <= RANGE
    ensures InArc(p, start, n) <==> start <= p < start + n
  {
    if p < start {
      ModAgain(p - start, -1, p - start + RANGE);
    }
  }

  /** No glyph of the text reaches the end of the coordinate range; the text may be larger than the
      screen. */
  predicate Unwrapped(font: Font, s: seq<byte>, x: nat, y: nat, scale: nat)
    requires |font| >= 5
  {
    && scale > 0
    && y + Times(Rows(font), scale) <= RANGE
    && (s != [] ==> x + Times(Advance(font, scale), |s| - 1) + BoxWidth(font, scale) <= RANGE)
  }

  lemma PlainDot(start: nat, scale: nat, n: nat, p: nat)
    requires start + Times(n, scale) + scale <= RANGE && p < RANGE
    ensures InArc(p, DotAt(start, scale, n), scale) <==> start + Times(n, scale) <= p < start + Times(n, scale) + scale
  {
    PlainArc(p, start + Times(n, scale), scale);
  }

  lemma InBox(font: Font, s: seq<byte>, scale: nat, k: nat, col: nat, row: nat)
    requires |font| >= 5 && k < |s| && col < font[1] && row < Rows(font)
    ensures Times(col, scale) + scale <= BoxWidth(font, scale) <= Advance(font, scale)
    ensures Times(Advance(font, scale), k) <= Times(Advance(font, scale), |s| - 1)
    ensures Times(row, scale) + scale <= Times(Rows(font), scale)
  {
    BoxFitsAdvance(font, scale);
    PageOrder(scale, col, font[1]);
    PageOrder(scale, row, Rows(font));
    PageOrder(Advance(font, scale), k, |s| - 1);
  }

  /** The column where a character starts when nothing wraps. */
  function PlainX(font: Font, x: nat, scale: nat, k: nat): nat
    requires |font| >= 5
  {
    x + Times(Advance(font, scale), k)
  }

  /** A character stands where it would in an endless range. */
  lemma CharIsPlain(font: Font, s: seq<byte>, x: nat, y: nat, scale: nat, k: nat, col: nat, row: nat)
    requires |font| >= 5 && Unwrapped(font, s, x, y, scale) && k < |s| && col < font[1] && row < Rows(font)
    ensures CharX(font, x, scale, k) == PlainX(font, x, scale, k)
    ensures PlainX(font, x, scale, k) + Times(col, scale) + scale <= RANGE
    ensures y + Times(row, scale) + scale <= RANGE
  {
    InBox(font, s, scale, k, col, row);
  }

  /** Pixel (px, py) lies in the cell of this glyph bit of the `k`-th character. */
  predicate InCellOf(font: Font, x: nat, y: nat, scale: nat, k: nat, col: nat, row: nat, px: nat, py: nat)
    requires |font| >= 5
  {
    && PlainX(font, x, scale, k) + Times(col, scale) <= px < PlainX(font, x, scale, k) + Times(col, scale) + scale
    && y + Times(row, scale) <= py < y + Times(row, scale) + scale
  }

  /** Where a bit of a character lands. */
  lemma DotIsPlain(font: Font, s: seq<byte>, x: nat, y: nat, scale: nat, k: nat, col: nat, row: nat, px: u32, py: u32)
    requires |font| >= 5 && Unwrapped(font, s, x, y, scale) && k < |s| && col < font[1] && row < Rows(font)
    ensures SquareInk(DotAt(CharX(font, x, scale, k), scale, col), DotAt(y, scale, row), scale, scale)(px, py) <==>
              InCellOf(font, x, y, scale, k, col, row, px, py)
  {
    CharIsPlain(font, s, x, y, scale, k, col, row);
    PlainDot(PlainX(font, x, scale, k), scale, col, px);
    PlainDot(y, scale, row, py);
  }

  /** Two cells of glyph bits that share a pixel are the same cell. */
  lemma SameCell(font: Font, s: seq<byte>, x: nat, y: nat, scale: nat,
                 k: nat, col: nat, row: nat, k': nat, col': nat, row': nat, px: nat, py: nat)
    requires |font| >= 5 && k < |s| && col < font[1] && row < Rows(font)
    requires k' < |s| && col' < font[1] && row' < Rows(font)
    ensures InCellOf(font, x, y, scale, k, col, row, px, py) && InCellOf(font, x, y, scale, k', col', row', px, py) ==>
              k' == k && col' == col && row' == row
  {
    if InCellOf(font, x, y, scale, k, col, row, px, py) && InCellOf(font, x, y, scale, k', col', row', px, py) {
      var a, u := Advance(font, scale), px - x;
      InBox(font, s, scale, k, col, row);
      InBox(font, s, scale, k', col', row');
      assert Times(a, k) == Times(k, a) && Times(a, k') == Times(k', a);
      SameStrip(a, k, k', u);
      SameStrip(scale, col, col', u - Times(a, k));
      SameStrip(scale, row, row', py - y);
    }
  }

  /** A glyph bit inks a pixel exactly when it is set and the pixel lies in its cell. */
  lemma CharDotIff(font: Font, s: seq<byte>, x: nat, y: nat, scale: nat, k: nat, col: nat, row: nat, px: u32, py: u32)
    requires |font| >= 5 && Unwrapped(font, s, x, y, scale)
    ensures CharDot(font, s, x, y, scale, k, col, row, px, py) <==>
              k < |s| && GlyphBit(font, s[k], col, row) && InCellOf(font, x, y, scale, k, col, row, px, py)
  {
    if k < |s| && col < font[1] && row < Rows(font) {
      DotIsPlain(font, s, x, y, scale, k, col, row, px, py);
    }
  }

  /** The only glyph bit that can ink a pixel of a cell is the cell's own. */
  lemma OnlyDot(font: Font, s: seq<byte>, x: nat, y: nat, scale: nat,
                k: nat, col: nat, row: nat, k': nat, col': nat, row': nat, px: u32, py: u32)
    requires |font| >= 5 && Unwrapped(font, s, x, y, scale) && k < |s| && col < font[1] && row < Rows(font)
    ensures InCellOf(font, x, y, scale, k, col, row, px, py)
            && CharDot(font, s, x, y, scale, k', col', row', px, py) ==>
              k' == k && col' == col && row' == row
  {
    if CharDot(font, s, x, y, scale, k', col', row', px, py) {
      CharDotIff(font, s, x, y, scale, k', col', row', px, py);
      SameCell(font, s, x, y, scale, k, col, row, k', col', row', px, py);
    }
  }

  /** Every pixel inside the cell of one glyph bit is inked exactly when that bit is set, so what is on
      screen of a text can be read back from the pixels. */
  lemma TextReadsBack(font: Font, s: seq<byte>, x: nat, y: nat, scale: nat,
                      k: nat, col: nat, row: nat, px: u32, py: u32)
    requires |font| >= 5 && Unwrapped(font, s, x, y, scale) && k < |s| && col < font[1] && row < Rows(font)
    requires InCellOf(font, x, y, scale, k, col, row, px, py)
    ensures TextInk(font, s, x, y, scale, |s|)(px, py) <==> GlyphBit(font, s[k], col, row)
  {
    CharDotIff(font, s, x, y, scale, k, col, row, px, py);
    forall k': nat, col': nat, row': nat | CharDot(font, s, x, y, scale, k', col', row', px, py)
      ensures k' == k && col' == col && row' == row
    {
      OnlyDot(font, s, x, y, scale, k, col, row, k', col', row', px, py);
    }
  }

  /** The text inks a pixel exactly when it lies in the cell of a set glyph bit. */
  lemma TextInkIff(font: Font, s: seq<byte>, x: nat, y: nat, scale: nat, px: u32, py: u32)
    requires |font| >= 5 && Unwrapped(font, s, x, y, scale)
    ensures TextInk(font, s, x, y, scale, |s|)(px, py) <==>
              exists k: nat, col: nat, row: nat ::
                InCellOf(font, x, y, scale, k, col, row, px, py) && k < |s| && GlyphBit(font, s[k], col, row)
  {
    forall k: nat, col: nat, row: nat
      ensures CharDot(font, s, x, y, scale, k, col, row, px, py) <==>
                InCellOf(font, x, y, scale, k, col, row, px, py) && k < |s| && GlyphBit(font, s[k], col, row)
    {
      CharDotIff(font, s, x, y, scale, k, col, row, px, py);
    }
  }
}
