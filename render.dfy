/**
 * The pixel loop of the draw handler: copy the RGB24 picture of the frame
 * under the cursor, three bytes per pixel, into a Cairo RGB24 surface, one
 * 32-bit word per pixel with its top byte unused.
 */
module Render {
  import opened Media
  import opened Store
  import opened Cursor
  import opened Arith

  /** The surface word for one pixel: red in bits 16-23, green in 8-15, blue in 0-7. */
  function Pack(r: bv8, g: bv8, b: bv8): (w: bv32)
    ensures w < 1 << 24
    ensures (w >> 16) & 0xFF == r as bv32 && (w >> 8) & 0xFF == g as bv32 && w & 0xFF == b as bv32
  {
    ((r as bv32) << 16) | ((g as bv32) << 8) | (b as bv32)
  }

  /** Pixels per picture row the loop copies: line_size / 3, none for a negative line size. */
  function RowPixels(lineSize: int): (n: nat)
    ensures 3 * n <= lineSize || n == 0
    ensures lineSize >= 0 ==> lineSize < 3 * (n + 1)
  {
    if lineSize <= 0 then 0 else lineSize / 3
  }

  /** Offset in the picture of the red byte of pixel x of row y. */
  function Source(lineSize: int, y: int, x: int): int
  {
    y * lineSize + 3 * x
  }

  /**
   * Index of the surface word for pixel x of row y, rows being `rowWords`
   * words apart: it lies in row y of the surface.
   */
  function Dest(rowWords: int, y: int, x: int): (i: int)
    requires 0 <= y < WIN_HEIGHT && 0 <= x < rowWords
    ensures y * rowWords <= i < (y + 1) * rowWords <= WIN_HEIGHT * rowWords
    ensures 0 <= i < WIN_HEIGHT * rowWords
  {
    MulLe(0, y, rowWords);
    MulLe(y + 1, WIN_HEIGHT, rowWords);
    y * rowWords + x
  }

  /** Every byte the loop reads lies inside the picture. */
  predicate ReadsInBounds(buf: seq<bv8>, lineSize: int)
  {
    RowPixels(lineSize) > 0 ==>
      0 <= lineSize && (WIN_HEIGHT - 1) * lineSize + 3 * RowPixels(lineSize) <= |buf|
  }

  /** The word the loop writes for pixel x of row y. */
  function PixelAt(buf: seq<bv8>, lineSize: int, y: int, x: int): bv32
    requires ReadsInBounds(buf, lineSize)
    requires 0 <= y < WIN_HEIGHT && 0 <= x < RowPixels(lineSize)
  {
    RowBound(lineSize, y, x);
    var s := Source(lineSize, y, x);
    Pack(buf[s], buf[s + 1], buf[s + 2])
  }

  /** Pixel x of row y is read from inside the picture. */
  lemma RowBound(lineSize: int, y: int, x: int)
    requires 0 <= y < WIN_HEIGHT && 0 <= x < RowPixels(lineSize)
    ensures 0 <= Source(lineSize, y, x)
    ensures Source(lineSize, y, x) + 2 < (WIN_HEIGHT - 1) * lineSize + 3 * RowPixels(lineSize)
  {
    MulLe(y, WIN_HEIGHT - 1, lineSize);
  }

  /** Word x of row y lies before row `later`. */
  lemma DestBefore(rowWords: int, y: int, x: int, later: int)
    requires 0 <= y < later < WIN_HEIGHT && 0 <= x < rowWords
    ensures Dest(rowWords, y, x) < later * rowWords
  {
    MulLe(y + 1, later, rowWords);
  }

  /**
   * The two nested loops of on_draw_event. The code clamps neither the row
   * width line_size / 3 to the surface row nor the WIN_HEIGHT rows to the
   * picture, so both are preconditions here.
   */
  method Blit(buf: seq<bv8>, lineSize: int, surface: array<bv32>, stride: int)
    requires ReadsInBounds(buf, lineSize)
    requires stride > 0 && stride % 4 == 0
    requires RowPixels(lineSize) <= stride / 4
    requires surface.Length == WIN_HEIGHT * (stride / 4)
    modifies surface
    ensures forall y, x :: 0 <= y < WIN_HEIGHT && 0 <= x < RowPixels(lineSize) ==>
              surface[Dest(stride / 4, y, x)] == PixelAt(buf, lineSize, y, x)
    ensures forall y, x :: 0 <= y < WIN_HEIGHT && RowPixels(lineSize) <= x < stride / 4 ==>
              surface[Dest(stride / 4, y, x)] == old(surface[Dest(stride / 4, y, x)])
  {
    var rowWords := stride / 4;
    var width := RowPixels(lineSize);
    var rowStart := 0;  // current_row, counted in words
    for y := 0 to WIN_HEIGHT
      invariant rowStart == y * rowWords
      invariant forall yy, x :: 0 <= yy < y && 0 <= x < width ==>
                  surface[Dest(rowWords, yy, x)] == PixelAt(buf, lineSize, yy, x)
      invariant forall yy, x :: 0 <= yy < y && width <= x < rowWords ==>
                  surface[Dest(rowWords, yy, x)] == old(surface[Dest(rowWords, yy, x)])
      invariant forall j :: rowStart <= j < surface.Length ==> surface[j] == old(surface[j])
    {
      ghost var before := surface[..];
      RowFits(rowWords, y);
      for x := 0 to width
        invariant forall j :: rowStart <= j < rowStart + x ==> surface[j] == PixelAt(buf, lineSize, y, j - rowStart)
        invariant forall j :: 0 <= j < surface.Length && !(rowStart <= j < rowStart + x) ==> surface[j] == before[j]
      {
        surface[rowStart + x] := PixelAt(buf, lineSize, y, x);
      }
      forall yy, x | 0 <= yy < y && 0 <= x < rowWords
        ensures surface[Dest(rowWords, yy, x)] == before[Dest(rowWords, yy, x)]
      {
        DestBefore(rowWords, yy, x, y);
      }
      rowStart := rowStart + rowWords;
    }
  }

  /** Row y of the surface lies inside it. */
  lemma RowFits(rowWords: int, y: int)
    requires 0 <= y < WIN_HEIGHT && rowWords > 0
    ensures 0 <= y * rowWords && (y + 1) * rowWords <= WIN_HEIGHT * rowWords
  {
    MulLe(y, y + 1, rowWords);
    MulLe(y + 1, WIN_HEIGHT, rowWords);
  }

  /**
   * For a picture of the size av_image_alloc makes, the loop copies the
   * frame's width in pixels per row; its reads stay inside the picture exactly
   * when the frame is at least WIN_HEIGHT rows high, and its rows fit the
   * surface exactly when the frame is at most WIN_WIDTH pixels wide.
   */
  lemma PictureFits(f: StoredFrame)
    requires f.image.Some?
    ensures RowPixels(f.image.value.linesize) == f.width
    ensures ReadsInBounds(f.image.value.data, f.image.value.linesize) <==> f.height >= WIN_HEIGHT
    ensures RowPixels(f.image.value.linesize) <= WIN_WIDTH <==> f.width <= WIN_WIDTH
  {
    if f.height >= WIN_HEIGHT {
      MulLe(WIN_HEIGHT, f.height, 3 * f.width);
    } else {
      MulLe(f.height + 1, WIN_HEIGHT, 3 * f.width);
    }
  }

  /** The surface word the draw loop writes for pixel x of row y of frame f. */
  function FramePixel(f: StoredFrame, y: int, x: int): bv32
    requires f.image.Some? && f.height >= WIN_HEIGHT
    requires 0 <= y < WIN_HEIGHT && 0 <= x < f.width
  {
    PictureFits(f);
    PixelAt(f.image.value.data, f.image.value.linesize, y, x)
  }

  /**
   * on_draw_event for the frame under the cursor. The surface is a fresh RGB24
   * surface of WIN_WIDTH x WIN_HEIGHT pixels, whose rows Cairo lays out
   * 4 * WIN_WIDTH bytes apart. The handler dereferences the slot and its
   * picture without a check, and clamps neither the frame's width to the
   * surface nor WIN_HEIGHT to the frame's height.
   */
  method DrawFrame(store: FrameStore, cursor: PlaybackCursor, surface: array<bv32>, stride: int)
    requires store.Valid() && cursor.Valid()
    requires store.slots[cursor.position].Some? && store.slots[cursor.position].value.image.Some?
    requires store.slots[cursor.position].value.height >= WIN_HEIGHT
    requires store.slots[cursor.position].value.width <= WIN_WIDTH
    requires stride == 4 * WIN_WIDTH
    requires surface.Length == WIN_HEIGHT * WIN_WIDTH
    modifies surface
    ensures var f := store.slots[cursor.position].value;
            forall y, x :: 0 <= y < WIN_HEIGHT && 0 <= x < f.width ==>
              surface[Dest(WIN_WIDTH, y, x)] == FramePixel(f, y, x)
    ensures var f := store.slots[cursor.position].value;
            forall y, x :: 0 <= y < WIN_HEIGHT && f.width <= x < WIN_WIDTH ==>
              surface[Dest(WIN_WIDTH, y, x)] == old(surface[Dest(WIN_WIDTH, y, x)])
  {
    var f := store.slots[cursor.position].value;
    PictureFits(f);
    var image := f.image.value;
    Blit(image.data, image.linesize, surface, stride);
  }
}
