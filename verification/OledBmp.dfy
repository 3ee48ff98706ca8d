/** Monochrome bitmaps on the display: rows stored bottom-up, padded to four bytes. */
module OledBmp {
  import opened Bytes
  import opened Oled
  import opened OledText

  // ---------- The file ----------

  const FILE_HEADER := 14
  const MIN_SIZE := 54

  function Val2(data: seq<byte>, i: nat): u16
    requires i + 2 <= |data|
  {
    data[i] + data[i + 1] as int * 0x100
  }

  function Val4(data: seq<byte>, i: nat): u32
    requires i + 4 <= |data|
  {
    Val2(data, i) + Val2(data, i + 2) as int * 0x1_0000
  }

  /** The value of a 32-bit word as a signed number. */
  function Signed(v: u32): int {
    if v < 0x8000_0000 then v else v - RANGE
  }

  function ImageStart(data: seq<byte>): u32
    requires |data| >= MIN_SIZE
  {
    Val4(data, 10)
  }

  /** The palette's offset: the sum is unsigned and wraps, the variable it goes to is signed. */
  function PaletteStart(data: seq<byte>): int
    requires |data| >= MIN_SIZE
  {
    Signed((FILE_HEADER + Val4(data, 14)) % RANGE)
  }

  /** The sizes, as the signed numbers the file holds. */
  function Width(data: seq<byte>): int
    requires |data| >= MIN_SIZE
  {
    Signed(Val4(data, 18))
  }

  function Height(data: seq<byte>): int
    requires |data| >= MIN_SIZE
  {
    Signed(Val4(data, 22))
  }

  /** The turns of the inner and of the outer loop: the same words, compared as unsigned numbers. */
  function Cols(data: seq<byte>): u32
    requires |data| >= MIN_SIZE
  {
    Val4(data, 18)
  }

  function Rows(data: seq<byte>): u32
    requires |data| >= MIN_SIZE
  {
    Val4(data, 22)
  }

  /** One bit for each pixel and no compression. */
  predicate Drawable(data: seq<byte>) {
    |data| >= MIN_SIZE && Val2(data, 28) == 1 && Val4(data, 30) == 0
  }

  /** In the file's bytes: 54 of them at least, one bit for each pixel at 28, and no compression at 30. Any
      other data is not drawn. */
  lemma DrawableIff(data: seq<byte>)
    ensures Drawable(data) <==>
              && |data| >= 54 && data[28] == 1 && data[29] == 0
              && data[30] == 0 && data[31] == 0 && data[32] == 0 && data[33] == 0
  {
  }

  /** Bytes of a stored row: four for every 32 pixels begun; for a negative width, what the same
      expression gives. */
  function Stride(cols: u32): u32 {
    if cols < 0x8000_0000 then (cols + 31) / 32 * 4 else RoundUp4(SignedBytes(cols))
  }

  /** The bytes begun by a signed number of bits, its division truncated towards zero. */
  function SignedBytes(cols: u32): u32 {
    var whole: int := if cols < 0x8000_0000 then cols / 8 else -((RANGE - cols) / 8);
    (whole + (if cols % 8 != 0 then 1 else 0)) % RANGE
  }

  function RoundUp4(n: u32): u32 {
    if n % 4 != 0 then (n - n % 4 + 4) % RANGE else n
  }

  predicate IsBlack(data: seq<byte>, at: nat)
    requires at + 2 < |data|
  {
    data[at] == data[at + 1] == data[at + 2] == 0
  }

  predicate PaletteInData(data: seq<byte>)
    requires |data| >= MIN_SIZE
  {
    var t := PaletteStart(data);
    0 <= t && t + 2 < |data| && (IsBlack(data, t) || t + 6 < |data|)
  }

  /** Every byte that the loops read lies within the data. */
  predicate RowsInData(data: seq<byte>, stride: nat)
    requires |data| >= MIN_SIZE
  {
    Rows(data) > 0 && Cols(data) > 0 ==>
      ImageStart(data) + Times(stride, Rows(data) - 1) + (Cols(data) - 1) / 8 < |data|
  }

  /** So does every byte that is read of the palette; the data's size is a 32-bit signed number. */
  predicate ReadsInData(data: seq<byte>) {
    Drawable(data) ==> |data| < 0x8000_0000 && PaletteInData(data) && RowsInData(data, Stride(Cols(data)))
  }

  /** The index of the first black palette entry, or what the variable happened to hold. */
  function BlackIndex(data: seq<byte>, uninit: byte): byte
    requires |data| >= MIN_SIZE && PaletteInData(data)
  {
    var t := PaletteStart(data);
    if IsBlack(data, t) then 0 else if IsBlack(data, t + 4) then 1 else uninit
  }

  function BitPlace(data: seq<byte>, stride: nat, row: nat, x: nat): nat
    requires |data| >= MIN_SIZE
  {
    ImageStart(data) + Times(stride, row) + x / 8
  }

  /** The stored bit of column `x` in the `row`-th stored row. */
  function StoredBit(data: seq<byte>, stride: nat, row: nat, x: nat): byte
    requires |data| >= MIN_SIZE
  {
    if BitPlace(data, stride, row, x) < |data| then Shr(data[BitPlace(data, stride, row, x)], 7 - x % 8) % 2 else 0
  }

  lemma BitInData(data: seq<byte>, stride: nat, row: nat, x: nat)
    requires |data| >= MIN_SIZE && RowsInData(data, stride) && row < Rows(data) && x < Cols(data)
    ensures BitPlace(data, stride, row, x) < |data|
  {
    PageOrder(stride, row, Rows(data) - 1);
  }

  /** Every stored bit that the loops read lies in the data, exactly if the last one does. */
  lemma RowsInDataIff(data: seq<byte>, stride: nat)
    requires |data| >= MIN_SIZE
    ensures (forall row: nat, x: nat :: row < Rows(data) && x < Cols(data) ==> BitPlace(data, stride, row, x) < |data|)
            <==> RowsInData(data, stride)
  {
    if RowsInData(data, stride) {
      forall row: nat, x: nat | row < Rows(data) && x < Cols(data)
        ensures BitPlace(data, stride, row, x) < |data|
      {
        BitInData(data, stride, row, x);
      }
    } else {
      assert BitPlace(data, stride, Rows(data) - 1, Cols(data) - 1) >= |data|;
    }
  }

  /** The exclusive-or trick of the stride computation drops the remainder by four. */
  lemma LowBitsCleared(b: bv32)
    ensures b ^ (b & 3) == b - b % 4 == b / 4 * 4
  {
  }

  lemma TimesAtLeast(a: nat, b: nat, n: nat)
    requires b <= a
    ensures Times(a, n) >= b * n
  {
    assert a * n == b * n + (a - b) * n;
  }

  /** Exactly when the loops stay within data below 256 MB on an image with a negative size, which they
      take as an unsigned one: when it has no rows or no columns. */
  lemma NegativeSizeInDataIff(data: seq<byte>)
    requires |data| >= MIN_SIZE && |data| < 0x1000_0000 && (Width(data) < 0 || Height(data) < 0)
    ensures RowsInData(data, Stride(Cols(data))) <==> Rows(data) == 0 || Cols(data) == 0
  {
    if Width(data) > 0 {
      TimesAtLeast(Stride(Cols(data)), 4, Rows(data) - 1);
    }
  }

  /** The bytes of a complete image of one column and one line, stored top-down as its height -1 says. */
  function TopDownByte(i: nat): byte {
    if i == 0 then 0x42 else if i == 1 then 0x4D        // the signature
    else if i == 2 then 66                              // the file's size
    else if i == 10 then 62                             // where the row begins
    else if i == 14 then 40                             // the size of the second header
    else if i == 18 then 1                              // the width
    else if 22 <= i < 26 then 0xFF                      // the height
    else if i == 26 || i == 28 then 1                   // planes, bits for each pixel
    else if i == 34 then 4 else if i == 46 then 2       // the row's size, the palette's entries
    else if 58 <= i < 61 then 0xFF                      // black, then white
    else if i == 62 then 0x80                           // the row
    else 0
  }

  function TopDownImage(): (data: seq<byte>)
    ensures |data| == 66 && forall i :: 0 <= i < 66 ==> data[i] == TopDownByte(i)
  {
    seq(66, i requires 0 <= i < 66 => TopDownByte(i))
  }

  /** Its one row lies in the data, but the loops go on behind it. */
  lemma TopDownImageReadOutside()
    ensures var data := TopDownImage();
            && Drawable(data) && Width(data) == 1 && Height(data) == -1
            && ImageStart(data) + Stride(1) == |data|
            && !ReadsInData(data)
  {
    var data := TopDownImage();
    assert Val2(data, 10) == 62 && Val2(data, 12) == 0 && Val2(data, 18) == 1 && Val2(data, 20) == 0;
    assert Val2(data, 22) == 0xFFFF && Val2(data, 24) == 0xFFFF;
    assert Val2(data, 28) == 1 && Val2(data, 30) == 0 && Val2(data, 32) == 0;
    assert Val4(data, 10) == 62 && Val4(data, 18) == 1 && Val4(data, 22) == RANGE - 1 && Val4(data, 30) == 0;
    NegativeSizeInDataIff(data);
  }

  // ---------- Inks ----------

  /** Where a stored row is drawn: bottom-up if the height is positive. */
  function LineOf(data: seq<byte>, row: nat): int
    requires |data| >= MIN_SIZE
  {
    if Height(data) > 0 then Rows(data) - 1 - row else row
  }

  predicate Dot(data: seq<byte>, stride: nat, color: byte, xo: nat, yo: nat, row: nat, x: nat, px: nat, py: nat)
    requires |data| >= MIN_SIZE
  {
    && row < Rows(data) && x < Cols(data) && StoredBit(data, stride, row, x) == color
    && px == Wrap(xo + x) && py == Wrap(yo + LineOf(data, row))
  }

  /** The pixels of the first `n` columns of one stored row. */
  ghost function RowInk(data: seq<byte>, stride: nat, color: byte, xo: nat, yo: nat, row: nat, n: nat): Ink
    requires |data| >= MIN_SIZE
  {
    (px: nat, py: nat) => exists x: nat :: Dot(data, stride, color, xo, yo, row, x, px, py) && x < n
  }

  /** The pixels of the first `n` stored rows. */
  ghost function BmpInk(data: seq<byte>, stride: nat, color: byte, xo: nat, yo: nat, n: nat): Ink
    requires |data| >= MIN_SIZE
  {
    (px: nat, py: nat) => exists row: nat, x: nat :: Dot(data, stride, color, xo, yo, row, x, px, py) && row < n
  }

  lemma WrapIff(p: u32, start: nat, n: u32)
    ensures p == Wrap(start + n) <==> (p - start) % RANGE == n
  {
    if p == Wrap(start + n) {
      ModAgain(p - start, -((start + n) / RANGE), n);
    }
    if (p - start) % RANGE == n {
      ModAgain(start + n, -((p - start) / RANGE), p);
    }
  }

  lemma DotIff(data: seq<byte>, stride: nat, color: byte, xo: nat, yo: nat, row: nat, x: nat, px: u32, py: u32)
    requires |data| >= MIN_SIZE
    ensures Dot(data, stride, color, xo, yo, row, x, px, py) <==>
              && row < Rows(data) && x < Cols(data) && StoredBit(data, stride, row, x) == color
              && (px - xo) % RANGE == x && (py - yo) % RANGE == LineOf(data, row)
  {
    if row < Rows(data) && x < Cols(data) {
      WrapIff(px, xo, x);
      WrapIff(py, yo, LineOf(data, row));
    }
  }

  /** A pixel is inked exactly when it lies in the image, taken round the coordinate range, and the bit
      stored for it is the black index: its column's bit in the row height - 1 - y from its line y, if
      the height is positive, and else in the row y. */
  lemma BmpReadsBack(data: seq<byte>, stride: nat, color: byte, xo: nat, yo: nat, px: u32, py: u32)
    requires |data| >= MIN_SIZE
    ensures var x, y := (px - xo) % RANGE, (py - yo) % RANGE;
            BmpInk(data, stride, color, xo, yo, Rows(data))(px, py) <==>
              && x < Cols(data) && y < Rows(data)
              && StoredBit(data, stride, if Height(data) > 0 then Height(data) - 1 - y else y, x) == color
  {
    var x, y := (px - xo) % RANGE, (py - yo) % RANGE;
    if x < Cols(data) && y < Rows(data) {
      DotIff(data, stride, color, xo, yo, if Height(data) > 0 then Height(data) - 1 - y else y, x, px, py);
    }
    forall row: nat, x': nat | Dot(data, stride, color, xo, yo, row, x', px, py)
      ensures x' == x && LineOf(data, row) == y
    {
      DotIff(data, stride, color, xo, yo, row, x', px, py);
    }
  }

  // ---------- Steps of the loops ----------

  /** After the next stored bit, if that bit is the black index, the columns drawn are one more. */
  lemma ColumnDrawn(width: nat, height: nat, before: seq<bv8>, was: seq<bv8>, now: seq<bv8>,
                    data: seq<byte>, stride: nat, color: byte, xo: nat, yo: nat, row: nat, x: nat)
    requires |data| >= MIN_SIZE && row < Rows(data) && x < Cols(data)
    requires Inked(before, was, width, height, RowInk(data, stride, color, xo, yo, row, x))
    requires if StoredBit(data, stride, row, x) == color
             then Inked(was, now, width, height, PixelInk(Wrap(xo + x), Wrap(yo + LineOf(data, row))))
             else now == was
    ensures Inked(before, now, width, height, RowInk(data, stride, color, xo, yo, row, x + 1))
  {
    var f, g := RowInk(data, stride, color, xo, yo, row, x), RowInk(data, stride, color, xo, yo, row, x + 1);
    forall px: nat, py: nat
      ensures g(px, py) <==> f(px, py) || Dot(data, stride, color, xo, yo, row, x, px, py)
    {
    }
    if StoredBit(data, stride, row, x) == color {
      InkedThen(before, was, now, width, height, f, PixelInk(Wrap(xo + x), Wrap(yo + LineOf(data, row))), g);
    } else {
      InkedSame(before, was, width, height, f, g);
    }
  }

  /** After the next stored row, the rows drawn are one more. */
  lemma RowDrawn(width: nat, height: nat, before: seq<bv8>, was: seq<bv8>, now: seq<bv8>,
                 data: seq<byte>, stride: nat, color: byte, xo: nat, yo: nat, row: nat)
    requires |data| >= MIN_SIZE
    requires Inked(before, was, width, height, BmpInk(data, stride, color, xo, yo, row))
    requires Inked(was, now, width, height, RowInk(data, stride, color, xo, yo, row, Cols(data)))
    ensures Inked(before, now, width, height, BmpInk(data, stride, color, xo, yo, row + 1))
  {
    var f, g := BmpInk(data, stride, color, xo, yo, row), RowInk(data, stride, color, xo, yo, row, Cols(data));
    var both := BmpInk(data, stride, color, xo, yo, row + 1);
    forall px: nat, py: nat
      ensures both(px, py) <==> f(px, py) || g(px, py)
    {
    }
    InkedThen(before, was, now, width, height, f, g, both);
  }

  /** The outer loop's variable when it ends. */
  function Border(data: seq<byte>): u32
    requires |data| >= MIN_SIZE
  {
    if Height(data) > 0 then RANGE - 1 else Rows(data)
  }

  function RowPlace(data: seq<byte>, stride: nat, row: nat): nat
    requires |data| >= MIN_SIZE
  {
    ImageStart(data) + Times(stride, row)
  }

  /** The outer loop's variables in front of its turn for this stored row. */
  predicate AtRow(data: seq<byte>, stride: nat, row: nat, y: u32, imgData: nat)
    requires |data| >= MIN_SIZE
  {
    && row <= Rows(data)
    && y == (if row < Rows(data) then LineOf(data, row) else Border(data))
    && imgData == RowPlace(data, stride, row)
  }

  lemma FirstRow(data: seq<byte>, stride: nat)
    requires |data| >= MIN_SIZE
    ensures AtRow(data, stride, 0, if Height(data) > 0 then Height(data) - 1 else 0, ImageStart(data))
  {
    assert Times(stride, 0) == 0;
  }

  lemma Counted(y: u32)
    ensures (y - 1) % RANGE == if y == 0 then RANGE - 1 else y - 1
    ensures y + 1 < RANGE ==> (y + 1) % RANGE == y + 1
  {
  }

  lemma RowNext(data: seq<byte>, stride: nat, row: nat, y: u32, imgData: nat)
    requires |data| >= MIN_SIZE && AtRow(data, stride, row, y, imgData) && row < Rows(data)
    ensures AtRow(data, stride, row + 1, (y + (if Height(data) > 0 then -1 else 1)) % RANGE, imgData + stride)
  {
    Counted(y);
    assert Times(stride, row + 1) == Times(stride, row) + stride;
  }

  lemma RowsEnd(data: seq<byte>, stride: nat, row: nat, y: u32, imgData: nat)
    requires |data| >= MIN_SIZE && AtRow(data, stride, row, y, imgData)
    ensures y == Border(data) <==> row == Rows(data)
    ensures row < Rows(data) ==> y == LineOf(data, row)
  {
  }

  lemma BytesBegun(q: nat, r: nat)
    requires r < 32
    ensures (32 * q + r) / 8 == 4 * q + r / 8 && (32 * q + r) % 8 == r % 8
  {
  }

  lemma WordsBegun(q: nat, r: nat)
    requires r < 32
    ensures (32 * q + r + 31) / 32 == if r == 0 then q else q + 1
  {
  }

  lemma FoursBegun(q: nat, rest: nat)
    requires rest <= 4 && 4 * q + 4 < RANGE
    ensures RoundUp4(4 * q + rest) == if rest == 0 then 4 * q else 4 * q + 4
  {
    assert (4 * q + rest) % 4 == rest % 4;
  }

  lemma BytesSplit(q: nat, r: nat) returns (rest: nat)
    requires r < 32 && 32 * q + r < 0x8000_0000
    ensures rest <= 4 && (rest == 0 <==> r == 0)
    ensures SignedBytes(32 * q + r) == 4 * q + rest
  {
    rest := r / 8 + (if r % 8 != 0 then 1 else 0);
    BytesBegun(q, r);
  }

  lemma StrideOf(q: nat, r: nat)
    requires r < 32 && 32 * q + r < 0x8000_0000
    ensures RoundUp4(SignedBytes(32 * q + r)) == Stride(32 * q + r)
  {
    var rest := BytesSplit(q, r);
    FoursBegun(q, rest);
    WordsBegun(q, r);
  }

  /** For a width that is not negative, the stride is four times the width over 32, rounded up. */
  lemma StrideRounded(cols: u32)
    requires cols < 0x8000_0000
    ensures RoundUp4(SignedBytes(cols)) == Stride(cols)
  {
    assert cols == 32 * (cols / 32) + cols % 32;
    StrideOf(cols / 32, cols % 32);
  }

  // ---------- Drawing ----------

  method FindBlack(data: seq<byte>, uninit: byte) returns (colorVal: byte)
    requires |data| >= MIN_SIZE && PaletteInData(data)
    ensures colorVal == BlackIndex(data, uninit)
  {
    var t: nat := PaletteStart(data);
    colorVal := uninit;
    for i := 0 to 2
      invariant colorVal == uninit
      invariant i > 0 ==> !IsBlack(data, t)
      invariant i > 1 ==> !IsBlack(data, t + 4)
    {
      if data[t + i * 4] as int * 0x1_0000 + data[t + i * 4 + 1] as int * 0x100 + data[t + i * 4 + 2] == 0 {
        colorVal := i;
        break;
      }
    }
  }

  method BytesPerLine(cols: u32) returns (n: u32)
    ensures n == Stride(cols)
  {
    if cols < 0x8000_0000 {
      StrideRounded(cols);
    }
    n := SignedBytes(cols);
    if n % 4 != 0 {
      n := (n - n % 4 + 4) % RANGE;
    }
  }

  method DrawRow(d: Display, data: seq<byte>, ghost stride: nat, colorVal: byte, imgData: nat,
                 xo: u32, yo: u32, y: u32, ghost row: nat)
    requires d.Valid() && |data| >= MIN_SIZE && RowsInData(data, stride)
    requires row < Rows(data) && y == LineOf(data, row)
    requires imgData == RowPlace(data, stride, row)
    modifies d.buffer
    ensures d.Valid()
    ensures Inked(old(d.buffer[..]), d.buffer[..], d.width, d.height,
                  RowInk(data, stride, colorVal, xo, yo, row, Cols(data)))
  {
    ghost var before := d.buffer[..];
    InkedNothing(before, d.width, d.height, RowInk(data, stride, colorVal, xo, yo, row, 0));
    for x := 0 to Cols(data)
      invariant d.Valid()
      invariant Inked(before, d.buffer[..], d.width, d.height, RowInk(data, stride, colorVal, xo, yo, row, x))
    {
      ghost var was := d.buffer[..];
      BitInData(data, stride, row, x);
      if Shr(data[imgData + x / 8], 7 - x % 8) % 2 == colorVal {
        d.DrawPixel(Wrap(xo + x), Wrap(yo + y));
      }
      ColumnDrawn(d.width, d.height, before, was, d.buffer[..], data, stride, colorVal, xo, yo, row, x);
    }
  }

  method ShowRows(d: Display, data: seq<byte>, stride: nat, xOffset: u32, yOffset: u32, colorVal: byte)
    requires d.Valid() && |data| >= MIN_SIZE && RowsInData(data, stride)
    modifies d.buffer
    ensures d.Valid()
    ensures Inked(old(d.buffer[..]), d.buffer[..], d.width, d.height,
                  BmpInk(data, stride, colorVal, xOffset, yOffset, Rows(data)))
  {
    var biHeight := Height(data);
    var imgData: nat := ImageStart(data);
    var step := if biHeight > 0 then -1 else 1;
    var border: u32 := if biHeight > 0 then RANGE - 1 else Rows(data);
    var y: u32 := if biHeight > 0 then biHeight - 1 else 0;
    ghost var before, row: nat := d.buffer[..], 0;
    InkedNothing(before, d.width, d.height, BmpInk(data, stride, colorVal, xOffset, yOffset, 0));
    FirstRow(data, stride);
    while y != border
      invariant d.Valid() && AtRow(data, stride, row, y, imgData)
      invariant Inked(before, d.buffer[..], d.width, d.height, BmpInk(data, stride, colorVal, xOffset, yOffset, row))
      decreases Rows(data) - row
    {
      RowsEnd(data, stride, row, y, imgData);
      ghost var was := d.buffer[..];
      DrawRow(d, data, stride, colorVal, imgData, xOffset, yOffset, y, row);
      RowDrawn(d.width, d.height, before, was, d.buffer[..], data, stride, colorVal, xOffset, yOffset, row);
      RowNext(data, stride, row, y, imgData);
      imgData := imgData + stride;
      y := (y + step) % RANGE;
      row := row + 1;
    }
    RowsEnd(data, stride, row, y, imgData);
  }

  method ShowImage(d: Display, data: seq<byte>, xOffset: u32, yOffset: u32, uninit: byte)
    requires d.Valid() && ReadsInData(data)
    modifies d.buffer
    ensures d.Valid()
    ensures !Drawable(data) ==> d.buffer[..] == old(d.buffer[..])
    ensures Drawable(data) ==>
              Inked(old(d.buffer[..]), d.buffer[..], d.width, d.height,
                    BmpInk(data, Stride(Cols(data)), BlackIndex(data, uninit), xOffset, yOffset, Rows(data)))
  {
    if |data| < MIN_SIZE {
      return;
    }
    if Val2(data, 28) != 1 {
      return;
    }
    if Val4(data, 30) != 0 {
      return;
    }
    var colorVal := FindBlack(data, uninit);
    var bytesPerLine := BytesPerLine(Cols(data));
    ShowRows(d, data, bytesPerLine, xOffset, yOffset, colorVal);
  }
}
