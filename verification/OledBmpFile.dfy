/** Bitmaps written down pixel by pixel: how they are laid out in a file, and that an image shows exactly
    its black pixels. */
module OledBmpFile {
  import opened Bytes
  import opened Oled
  import opened OledBlocks
  import opened OledBmp
  import opened OledText

  /** Lines from the top, pixels from the left; true is black. The palette may begin with either colour. */
  datatype Bitmap = Bitmap(width: nat, lines: seq<seq<bool>>, whiteFirst: bool)

  /** Four bytes for every 32 pixels begun. */
  function LineBytes(width: nat): nat {
    4 * ((width + 31) / 32)
  }

  predicate WellFormed(b: Bitmap) {
    && 0 < b.width < 0x8000_0000 && 0 < |b.lines| < 0x8000_0000
    && 62 + LineBytes(b.width) * |b.lines| < 0x8000_0000
    && forall i :: 0 <= i < |b.lines| ==> |b.lines[i]| == b.width
  }

  // ---------- The layout ----------

  /** Byte `k` of a 32-bit number, the least significant first. */
  function ByteOf4(v: nat, k: nat): byte {
    if k == 0 then v % 0x100 else if k == 1 then v / 0x100 % 0x100
    else if k == 2 then v / 0x1_0000 % 0x100 else v / 0x100_0000 % 0x100
  }

  /** The two headers and the palette. */
  function HeaderByte(width: nat, height: nat, whiteFirst: bool, i: nat): byte {
    if i == 0 then 0x42 else if i == 1 then 0x4D        // the signature
    else if i == 10 then 62                             // where the lines begin
    else if i == 14 then 40                             // the size of the second header
    else if 18 <= i < 22 then ByteOf4(width, i - 18)
    else if 22 <= i < 26 then ByteOf4(height, i - 22)
    else if i == 26 || i == 28 then 1                   // planes, bits for each pixel
    else if whiteFirst && 54 <= i < 57 then 0xFF        // white, then black
    else if !whiteFirst && 58 <= i < 61 then 0xFF       // black, then white
    else 0
  }

  /** Eight pixels from `8 * k` on, the leftmost in the most significant bit, as indices of the palette. */
  function LineByte(line: seq<bool>, whiteFirst: bool, k: nat): byte {
    PackByte(seq(8, j requires 0 <= j < 8 => 8 * k + (7 - j) < |line| && line[8 * k + (7 - j)] == whiteFirst))
  }

  function LineBlock(line: seq<bool>, whiteFirst: bool, size: nat): (block: seq<byte>)
    ensures |block| == size && forall k :: 0 <= k < size ==> block[k] == LineByte(line, whiteFirst, k)
  {
    seq(size, k requires 0 <= k < size => LineByte(line, whiteFirst, k))
  }

  /** The lines, the last one first. */
  function LineBlocks(b: Bitmap): (blocks: seq<seq<byte>>)
    ensures |blocks| == |b.lines| && Even(blocks, LineBytes(b.width))
    ensures forall i :: 0 <= i < |b.lines| ==>
              blocks[i] == LineBlock(b.lines[|b.lines| - 1 - i], b.whiteFirst, LineBytes(b.width))
  {
    seq(|b.lines|, i requires 0 <= i < |b.lines| =>
      LineBlock(b.lines[|b.lines| - 1 - i], b.whiteFirst, LineBytes(b.width)))
  }

  function Header(b: Bitmap): (h: seq<byte>)
    ensures |h| == 62 && forall i :: 0 <= i < 62 ==> h[i] == HeaderByte(b.width, |b.lines|, b.whiteFirst, i)
  {
    seq(62, i requires 0 <= i < 62 => HeaderByte(b.width, |b.lines|, b.whiteFirst, i))
  }

  function Encoded(b: Bitmap): seq<byte> {
    Header(b) + Flat(LineBlocks(b))
  }

  // ---------- Reading it back ----------

  lemma Bytes4(v: nat)
    requires v < 0x8000_0000
    ensures ByteOf4(v, 0) + ByteOf4(v, 1) as int * 0x100
            + (ByteOf4(v, 2) + ByteOf4(v, 3) as int * 0x100) * 0x1_0000 == v
  {
    var v1, v2 := v / 0x100, v / 0x1_0000;
    assert v2 == v1 / 0x100 && v / 0x100_0000 == v2 / 0x100;
    assert v2 / 0x100 < 0x100;
  }

  lemma HeaderBytes(b: Bitmap)
    ensures |Encoded(b)| >= 62
    ensures forall i :: 0 <= i < 62 ==> Encoded(b)[i] == HeaderByte(b.width, |b.lines|, b.whiteFirst, i)
  {
  }

  lemma SizesRead(b: Bitmap)
    requires WellFormed(b)
    ensures |Encoded(b)| >= MIN_SIZE
    ensures Cols(Encoded(b)) == b.width && OledBmp.Rows(Encoded(b)) == |b.lines|
  {
    HeaderBytes(b);
    Bytes4(b.width);
    Bytes4(|b.lines|);
  }

  lemma HeaderReads(b: Bitmap)
    requires WellFormed(b)
    ensures var data := Encoded(b);
            && |data| == 62 + LineBytes(b.width) * |b.lines|
            && Drawable(data) && Cols(data) == b.width && OledBmp.Rows(data) == |b.lines|
            && ImageStart(data) == 62 && PaletteStart(data) == 54
  {
    var data := Encoded(b);
    FlatLength(LineBlocks(b), LineBytes(b.width));
    HeaderBytes(b);
    SizesRead(b);
    assert Val2(data, 10) == 62 && Val2(data, 12) == 0 && Val2(data, 14) == 40 && Val2(data, 16) == 0;
    assert Val2(data, 28) == 1 && Val2(data, 30) == 0 && Val2(data, 32) == 0;
    assert Val4(data, 10) == 62 && Val4(data, 14) == 40 && Val4(data, 30) == 0;
  }

  lemma LineStride(b: Bitmap)
    requires WellFormed(b)
    ensures Stride(Cols(Encoded(b))) == LineBytes(b.width)
  {
    HeaderReads(b);
  }

  lemma BlackEntry(b: Bitmap, uninit: byte)
    requires WellFormed(b)
    ensures var data := Encoded(b);
            |data| >= MIN_SIZE && PaletteInData(data) && BlackIndex(data, uninit) == if b.whiteFirst then 1 else 0
  {
    HeaderReads(b);
    HeaderBytes(b);
  }

  lemma LineByteAt(b: Bitmap, row: nat, k: nat)
    requires WellFormed(b) && row < |b.lines| && k < LineBytes(b.width)
    ensures 62 + (Times(LineBytes(b.width), row) + k) < |Encoded(b)|
    ensures Encoded(b)[62 + (Times(LineBytes(b.width), row) + k)] ==
              LineByte(b.lines[|b.lines| - 1 - row], b.whiteFirst, k)
  {
    FlatAt(LineBlocks(b), LineBytes(b.width), row, k);
  }

  lemma PixelOfByte(line: seq<bool>, whiteFirst: bool, x: nat)
    requires x < |line|
    ensures ByteBit(LineByte(line, whiteFirst, x / 8), 7 - x % 8) <==> line[x] == whiteFirst
  {
    var k := x / 8;
    var bits := seq(8, j requires 0 <= j < 8 => 8 * k + (7 - j) < |line| && line[8 * k + (7 - j)] == whiteFirst);
    BitOfByte(bits, 7 - x % 8);
    assert 8 * k + (7 - (7 - x % 8)) == x;
  }

  lemma StoredPixel(b: Bitmap, row: nat, x: nat)
    requires WellFormed(b) && row < |b.lines| && x < b.width
    ensures |Encoded(b)| >= MIN_SIZE && BitPlace(Encoded(b), LineBytes(b.width), row, x) < |Encoded(b)|
    ensures StoredBit(Encoded(b), LineBytes(b.width), row, x) ==
              if b.lines[|b.lines| - 1 - row][x] == b.whiteFirst then 1 else 0
  {
    HeaderReads(b);
    LineByteAt(b, row, x / 8);
    PixelOfByte(b.lines[|b.lines| - 1 - row], b.whiteFirst, x);
  }

  /** The encoded image can be drawn, and everything the loops read lies in it. */
  lemma EncodedInData(b: Bitmap)
    requires WellFormed(b)
    ensures Drawable(Encoded(b)) && ReadsInData(Encoded(b))
  {
    HeaderReads(b);
    LineStride(b);
    BlackEntry(b, 0);
    StoredPixel(b, |b.lines| - 1, b.width - 1);
  }

  /** An encoded image drawn at (xo, yo) lights a pixel exactly when it is a black pixel of the bitmap,
      counted from there to the right and down, round the coordinate range. */
  lemma ImageShowsBitmap(b: Bitmap, uninit: byte, xo: u32, yo: u32, px: u32, py: u32)
    requires WellFormed(b)
    ensures Drawable(Encoded(b)) && ReadsInData(Encoded(b))
    ensures var data := Encoded(b);
            var x, y := (px - xo) % RANGE, (py - yo) % RANGE;
            BmpInk(data, Stride(Cols(data)), BlackIndex(data, uninit), xo, yo, OledBmp.Rows(data))(px, py) <==>
              x < b.width && y < |b.lines| && b.lines[y][x]
  {
    var data := Encoded(b);
    EncodedInData(b);
    HeaderReads(b);
    LineStride(b);
    BlackEntry(b, uninit);
    BmpReadsBack(data, LineBytes(b.width), if b.whiteFirst then 1 else 0, xo, yo, px, py);
    var x, y := (px - xo) % RANGE, (py - yo) % RANGE;
    if x < b.width && y < |b.lines| {
      StoredPixel(b, |b.lines| - 1 - y, x);
    }
  }
}
