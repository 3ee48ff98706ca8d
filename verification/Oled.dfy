/** The display's page-packed frame buffer as a set of pixels, and what the drawing loops light. */
module Oled {
  import opened Bytes

  const RANGE := 0x1_0000_0000  // of the unsigned coordinates

  // ---------- Bits ----------

  function Mask(k: nat): bv8
    requires k < 8
  {
    0x1 << k
  }

  predicate Bit(b: bv8, k: nat)
    requires k < 8
  {
    (b >> k) & 1 == 1
  }

  lemma SetBit(b: bv8, k: nat, j: nat)
    requires k < 8 && j < 8
    ensures Bit(b | Mask(k), j) <==> Bit(b, j) || j == k
  {
  }

  lemma ClearBit(b: bv8, k: nat, j: nat)
    requires k < 8 && j < 8
    ensures Bit(b & !Mask(k), j) <==> Bit(b, j) && j != k
  {
  }

  lemma BitsDetermine(a: bv8, b: bv8)
    requires forall k: nat :: k < 8 ==> (Bit(a, k) <==> Bit(b, k))
    ensures a == b
  {
    assert (Bit(a, 0) <==> Bit(b, 0)) && (Bit(a, 1) <==> Bit(b, 1));
    assert (Bit(a, 2) <==> Bit(b, 2)) && (Bit(a, 3) <==> Bit(b, 3));
    assert (Bit(a, 4) <==> Bit(b, 4)) && (Bit(a, 5) <==> Bit(b, 5));
    assert (Bit(a, 6) <==> Bit(b, 6)) && (Bit(a, 7) <==> Bit(b, 7));
  }

  // ---------- Addressing ----------

  /** The byte that holds pixel (x, y); its bit is y % 8. */
  function ByteOf(width: nat, x: nat, y: nat): nat {
    x + width * (y / 8)
  }

  lemma {:induction false} PageOrder(width: nat, p: nat, q: nat)
    ensures p <= q ==> width * p <= width * q
    ensures p < q ==> width * p + width <= width * q
    decreases q
  {
    if p < q {
      PageOrder(width, p, q - 1);
      assert width * q == width * (q - 1) + width;
    }
  }

  lemma ByteInBuffer(width: nat, height: nat, x: nat, y: nat)
    requires x < width && y < height && height % 8 == 0
    ensures ByteOf(width, x, y) < width * (height / 8)
  {
    PageOrder(width, y / 8, height / 8);
  }

  /** Distinct pixels never share a bit. */
  lemma AddressInjective(width: nat, x: nat, y: nat, x': nat, y': nat)
    requires x < width && x' < width
    requires ByteOf(width, x, y) == ByteOf(width, x', y')
    ensures x == x' && y / 8 == y' / 8
  {
    PageOrder(width, y / 8, y' / 8);
    PageOrder(width, y' / 8, y / 8);
  }

  /** Every bit of every buffer byte belongs to a pixel of the screen. */
  lemma AddressOnto(width: nat, height: nat, i: nat, k: nat)
    requires width > 0 && i < width * (height / 8) && k < 8
    ensures var x, y := i % width, i / width * 8 + k;
            x < width && y < height && ByteOf(width, x, y) == i && y % 8 == k
  {
    var page := i / width;
    assert i == width * page + i % width;
    PageOrder(width, height / 8, page);
  }

  /** Exactly when every pixel's byte lies in a buffer of height / 8 pages. */
  lemma AllPixelsFitIff(width: nat, height: nat)
    requires width > 0
    ensures (forall x, y :: 0 <= x < width && 0 <= y < height ==> ByteOf(width, x, y) < width * (height / 8))
            <==> height % 8 == 0
  {
    if height % 8 == 0 {
      forall x, y | 0 <= x < width && 0 <= y < height
        ensures ByteOf(width, x, y) < width * (height / 8)
      {
        ByteInBuffer(width, height, x, y);
      }
    } else {
      assert (height - 1) / 8 == height / 8;
      assert ByteOf(width, 0, height - 1) == width * (height / 8);
    }
  }

  predicate Lit(buffer: seq<bv8>, width: nat, x: nat, y: nat) {
    ByteOf(width, x, y) < |buffer| && Bit(buffer[ByteOf(width, x, y)], y % 8)
  }

  predicate IsScreen(buffer: seq<bv8>, width: nat, height: nat) {
    height % 8 == 0 && |buffer| == width * (height / 8)
  }

  /** The pixels of the screen determine the whole buffer. */
  lemma PixelsDetermineBuffer(a: seq<bv8>, b: seq<bv8>, width: nat, height: nat)
    requires IsScreen(a, width, height) && IsScreen(b, width, height)
    requires forall x: nat, y: nat :: x < width && y < height ==> (Lit(a, width, x, y) <==> Lit(b, width, x, y))
    ensures a == b
  {
    forall i: nat | i < |a|
      ensures a[i] == b[i]
    {
      forall k: nat | k < 8
        ensures Bit(a[i], k) <==> Bit(b[i], k)
      {
        SameBit(a, b, width, height, i, k);
      }
      BitsDetermine(a[i], b[i]);
    }
  }

  lemma SameBit(a: seq<bv8>, b: seq<bv8>, width: nat, height: nat, i: nat, k: nat)
    requires IsScreen(a, width, height) && IsScreen(b, width, height) && i < |a| && k < 8
    requires forall x: nat, y: nat :: x < width && y < height ==> (Lit(a, width, x, y) <==> Lit(b, width, x, y))
    ensures Bit(a[i], k) <==> Bit(b[i], k)
  {
    AddressOnto(width, height, i, k);
    var x, y := i % width, i / width * 8 + k;
    assert Lit(a, width, x, y) <==> Lit(b, width, x, y);
  }

  function Weight(lit: bool, w: bv8): bv8 {
    if lit then w else 0
  }

  /** Eight pixels as a byte, the first in the lowest bit. */
  function Assembled(p0: bool, p1: bool, p2: bool, p3: bool, p4: bool, p5: bool, p6: bool, p7: bool): bv8 {
    Weight(p0, 1) | Weight(p1, 2) | Weight(p2, 4) | Weight(p3, 8)
    | Weight(p4, 16) | Weight(p5, 32) | Weight(p6, 64) | Weight(p7, 128)
  }

  /** What the bits of a byte are. */
  lemma BitsAssembled(b: bv8)
    ensures b == Assembled(Bit(b, 0), Bit(b, 1), Bit(b, 2), Bit(b, 3), Bit(b, 4), Bit(b, 5), Bit(b, 6), Bit(b, 7))
  {
  }

  /** The display's own layout: the bytes of a page stand side by side, page under page, and each holds eight
      pixels of its column, the topmost in the lowest bit. */
  lemma LitInPage(buffer: seq<bv8>, width: nat, height: nat, x: nat, p: nat, k: nat)
    requires IsScreen(buffer, width, height) && x < width && p < height / 8 && k < 8
    ensures width * p + x < |buffer|
    ensures Lit(buffer, width, x, 8 * p + k) == Bit(buffer[width * p + x], k)
  {
    PageOrder(width, p, height / 8);
    assert (8 * p + k) / 8 == p && (8 * p + k) % 8 == k;
  }

  // ---------- Inking ----------

  type Ink = (nat, nat) -> bool

  /** Of the screen's pixels, exactly the old ones and those of `ink` are lit. */
  ghost predicate Inked(before: seq<bv8>, after: seq<bv8>, width: nat, height: nat, ink: Ink) {
    && IsScreen(before, width, height) && IsScreen(after, width, height)
    && forall x: nat, y: nat :: x < width && y < height ==>
         (Lit(after, width, x, y) <==> Lit(before, width, x, y) || ink(x, y))
  }

  /** Drawing one thing after another lights both. */
  lemma InkedThen(a: seq<bv8>, b: seq<bv8>, c: seq<bv8>, width: nat, height: nat, f: Ink, g: Ink, both: Ink)
    requires Inked(a, b, width, height, f) && Inked(b, c, width, height, g)
    requires forall x: nat, y: nat :: x < width && y < height ==> (both(x, y) <==> f(x, y) || g(x, y))
    ensures Inked(a, c, width, height, both)
  {
    forall x: nat, y: nat | x < width && y < height
      ensures Lit(c, width, x, y) <==> Lit(a, width, x, y) || both(x, y)
    {
      assert Lit(b, width, x, y) <==> Lit(a, width, x, y) || f(x, y);
    }
  }

  /** Nothing was drawn. */
  lemma InkedNothing(a: seq<bv8>, width: nat, height: nat, ink: Ink)
    requires IsScreen(a, width, height)
    requires forall x: nat, y: nat :: x < width && y < height ==> !ink(x, y)
    ensures Inked(a, a, width, height, ink)
  {
  }

  /** The n coordinates from `start` on, counted round the 32-bit range. */
  predicate InArc(p: nat, start: nat, n: nat) {
    (p - start) % RANGE < n
  }

  lemma ArcGrow(p: nat, start: nat, n: nat)
    requires p < RANGE && n < RANGE
    ensures InArc(p, start, n + 1) <==> InArc(p, start, n) || p == (start + n) % RANGE
  {
    var d := (p - start) % RANGE;
    var q := (p - start) / RANGE;
    assert p == start + d + q * RANGE;
    if d == n {
      ModAgain(start + n, -q, p);
    } else if p == (start + n) % RANGE {
      var k := (start + n) / RANGE;
      assert start + n == k * RANGE + p;
      ModAgain(p - start, -k, n);
    }
  }

  lemma ModAgain(x: int, q: int, r: nat)
    requires x == q * RANGE + r && r < RANGE
    ensures x % RANGE == r
  {
  }

  function Wrap(x: nat): u32 {
    x % RANGE
  }

  // ---------- Pixels and squares ----------

  function PixelInk(x: nat, y: nat): Ink {
    (px: nat, py: nat) => px == x && py == y
  }

  function SquareInk(x: nat, y: nat, w: nat, h: nat): Ink {
    (px: nat, py: nat) => InArc(px, x, w) && InArc(py, y, h)
  }

  function ColumnInk(x: nat, y: nat, h: nat): Ink {
    (px: nat, py: nat) => px == x && InArc(py, y, h)
  }

  /** Writing the byte of pixel (x, y) leaves the other pixels' bytes alone. */
  lemma PixelByte(before: seq<bv8>, after: seq<bv8>, width: nat, height: nat, x: nat, y: nat, px: nat, py: nat)
    requires IsScreen(before, width, height) && |after| == |before|
    requires x < width && y < height && px < width && py < height
    requires var i := ByteOf(width, x, y); i < |before| && after == before[i := after[i]]
    ensures ByteOf(width, px, py) < |before|
    ensures if px == x && py / 8 == y / 8 then ByteOf(width, px, py) == ByteOf(width, x, y)
            else Lit(after, width, px, py) == Lit(before, width, px, py)
  {
    ByteInBuffer(width, height, px, py);
    if ByteOf(width, px, py) == ByteOf(width, x, y) {
      AddressInjective(width, x, y, px, py);
    }
  }

  lemma PixelSetAt(before: seq<bv8>, after: seq<bv8>, width: nat, height: nat, x: nat, y: nat, px: nat, py: nat)
    requires IsScreen(before, width, height) && x < width && y < height && px < width && py < height
    requires var i := ByteOf(width, x, y); i < |before| && after == before[i := before[i] | Mask(y % 8)]
    ensures Lit(after, width, px, py) <==> Lit(before, width, px, py) || (px == x && py == y)
  {
    PixelByte(before, after, width, height, x, y, px, py);
    SetBit(before[ByteOf(width, x, y)], y % 8, py % 8);
  }

  lemma PixelSet(before: seq<bv8>, after: seq<bv8>, width: nat, height: nat, x: nat, y: nat)
    requires IsScreen(before, width, height) && x < width && y < height
    requires var i := ByteOf(width, x, y); i < |before| && after == before[i := before[i] | Mask(y % 8)]
    ensures Inked(before, after, width, height, PixelInk(x, y))
  {
    forall px: nat, py: nat | px < width && py < height
      ensures Lit(after, width, px, py) <==> Lit(before, width, px, py) || (px == x && py == y)
    {
      PixelSetAt(before, after, width, height, x, y, px, py);
    }
  }

  /** Of the screen's pixels, exactly (x, y) is dark and the others are as they were. */
  ghost predicate Erased(before: seq<bv8>, after: seq<bv8>, width: nat, height: nat, x: nat, y: nat) {
    forall px: nat, py: nat :: px < width && py < height ==>
      (Lit(after, width, px, py) <==> Lit(before, width, px, py) && !(px == x && py == y))
  }

  lemma PixelClearedAt(before: seq<bv8>, after: seq<bv8>, width: nat, height: nat, x: nat, y: nat, px: nat, py: nat)
    requires IsScreen(before, width, height) && x < width && y < height && px < width && py < height
    requires var i := ByteOf(width, x, y); i < |before| && after == before[i := before[i] & !Mask(y % 8)]
    ensures Lit(after, width, px, py) <==> Lit(before, width, px, py) && !(px == x && py == y)
  {
    PixelByte(before, after, width, height, x, y, px, py);
    ClearBit(before[ByteOf(width, x, y)], y % 8, py % 8);
  }

  lemma PixelCleared(before: seq<bv8>, after: seq<bv8>, width: nat, height: nat, x: nat, y: nat)
    requires IsScreen(before, width, height) && x < width && y < height
    requires var i := ByteOf(width, x, y); i < |before| && after == before[i := before[i] & !Mask(y % 8)]
    ensures Erased(before, after, width, height, x, y)
  {
    forall px: nat, py: nat | px < width && py < height
      ensures Lit(after, width, px, py) <==> Lit(before, width, px, py) && !(px == x && py == y)
    {
      PixelClearedAt(before, after, width, height, x, y, px, py);
    }
  }

  /** One more pixel of a column. */
  lemma ColumnGrown(before: seq<bv8>, was: seq<bv8>, now: seq<bv8>, width: nat, height: nat, x: nat, y: nat, h: nat)
    requires h < RANGE && height < RANGE
    requires Inked(before, was, width, height, ColumnInk(x, y, h))
    requires Inked(was, now, width, height, PixelInk(x, Wrap(y + h)))
    ensures Inked(before, now, width, height, ColumnInk(x, y, h + 1))
  {
    forall py: nat | py < height
      ensures InArc(py, y, h + 1) <==> InArc(py, y, h) || py == Wrap(y + h)
    {
      ArcGrow(py, y, h);
    }
    InkedThen(before, was, now, width, height, ColumnInk(x, y, h), PixelInk(x, Wrap(y + h)), ColumnInk(x, y, h + 1));
  }

  /** One more column of a square. */
  lemma SquareGrown(before: seq<bv8>, was: seq<bv8>, now: seq<bv8>, width: nat, height: nat,
                    x: nat, y: nat, w: nat, h: nat)
    requires w < RANGE && width < RANGE
    requires Inked(before, was, width, height, SquareInk(x, y, w, h))
    requires Inked(was, now, width, height, ColumnInk(Wrap(x + w), y, h))
    ensures Inked(before, now, width, height, SquareInk(x, y, w + 1, h))
  {
    forall px: nat | px < width
      ensures InArc(px, x, w + 1) <==> InArc(px, x, w) || px == Wrap(x + w)
    {
      ArcGrow(px, x, w);
    }
    InkedThen(before, was, now, width, height,
              SquareInk(x, y, w, h), ColumnInk(Wrap(x + w), y, h), SquareInk(x, y, w + 1, h));
  }

  // ---------- The display ----------

  class Display {
    const width: nat
    const height: nat
    const buffer: array<bv8>

    ghost predicate Valid()
      reads buffer
    {
      width < 0x100 && height < 0x100 && IsScreen(buffer[..], width, height)
    }

    constructor (width: nat, height: nat)
      requires width < 0x100 && height < 0x100 && height % 8 == 0
      ensures Valid() && fresh(buffer) && this.width == width && this.height == height
    {
      this.width, this.height := width, height;
      buffer := new bv8[width * (height / 8)];
    }

    method Clear()
      requires Valid()
      modifies buffer
      ensures Valid()
      ensures forall x: nat, y: nat :: x < width && y < height ==> !Lit(buffer[..], width, x, y)
    {
      forall i | 0 <= i < buffer.Length {
        buffer[i] := 0;
      }
    }

    method DrawPixel(x: u32, y: u32)
      requires Valid()
      modifies buffer
      ensures Valid() && Inked(old(buffer[..]), buffer[..], width, height, PixelInk(x, y))
    {
      if x >= width || y >= height {
        return;
      }
      ByteInBuffer(width, height, x, y);
      var i := x + width * (y / 8);
      ghost var before := buffer[..];
      buffer[i] := buffer[i] | Mask(y % 8);
      PixelSet(before, buffer[..], width, height, x, y);
    }

    method ClearPixel(x: u32, y: u32)
      requires Valid()
      modifies buffer
      ensures Valid()
      ensures Erased(old(buffer[..]), buffer[..], width, height, x, y)
    {
      if x >= width || y >= height {
        return;
      }
      ByteInBuffer(width, height, x, y);
      var i := x + width * (y / 8);
      ghost var before := buffer[..];
      buffer[i] := buffer[i] & !Mask(y % 8);
      PixelCleared(before, buffer[..], width, height, x, y);
    }

    method DrawSquare(x: u32, y: u32, w: u32, h: u32)
      requires Valid()
      modifies buffer
      ensures Valid() && Inked(old(buffer[..]), buffer[..], width, height, SquareInk(x, y, w, h))
    {
      ghost var before := buffer[..];
      InkedNothing(before, width, height, SquareInk(x, y, 0, h));
      for i := 0 to w
        invariant Valid() && Inked(before, buffer[..], width, height, SquareInk(x, y, i, h))
      {
        ghost var column := buffer[..];
        InkedNothing(column, width, height, ColumnInk(Wrap(x + i), y, 0));
        for j := 0 to h
          invariant Valid() && Inked(column, buffer[..], width, height, ColumnInk(Wrap(x + i), y, j))
        {
          ghost var pixel := buffer[..];
          DrawPixel(Wrap(x + i), Wrap(y + j));
          ColumnGrown(column, pixel, buffer[..], width, height, Wrap(x + i), y, j);
        }
        SquareGrown(before, column, buffer[..], width, height, x, y, i, h);
      }
    }
  }
}
