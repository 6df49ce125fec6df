/**
 * save_gray_frame: the bytes of a binary Netpbm graymap ("P5") holding one
 * plane of a frame. Opening, writing and closing the file are left out; the
 * model produces the byte sequence the function writes.
 */
module Pgm {
  import opened Arith

  /**
   * A byte of the file, as the number it holds. The header is reasoned about
   * as decimal digits, so bytes are numbers here, whereas the pixel loop of
   * the draw handler shifts and masks its bytes as `bv8`.
   */
  newtype byte = b: int | 0 <= b < 256

  /** ASCII codes used by the header. */
  const MINUS: byte := 0x2D
  const SPACE: byte := 0x20
  const NEWLINE: byte := 0x0A

  /** True of the ASCII decimal digits '0' .. '9'. */
  predicate IsDigit(c: byte)
  {
    48 <= c <= 57
  }

  /** The ASCII character of decimal digit d. */
  function DigitChar(d: int): (c: byte)
    requires 0 <= d < 10
    ensures IsDigit(c) && c as int - 48 == d
  {
    (d + 48) as byte
  }

  /** The decimal digits of n, most significant first, as printf's %d writes them. */
  function Digits(n: nat): (s: seq<byte>)
    ensures |s| >= 1
    decreases n
  {
    if n < 10 then [DigitChar(n)] else Digits(n / 10) + [DigitChar(n % 10)]
  }

  /** The value of a string of decimal digits. */
  function DigitsValue(s: seq<byte>): int
    decreases |s|
  {
    if s == [] then 0 else 10 * DigitsValue(s[..|s| - 1]) + (s[|s| - 1] as int - 48)
  }

  /** %d writes only digits, with no leading zero. */
  lemma {:induction false} DigitsShape(n: nat)
    ensures forall k :: 0 <= k < |Digits(n)| ==> IsDigit(Digits(n)[k])
    ensures n > 0 ==> Digits(n)[0] != 48
    decreases n
  {
    if n >= 10 {
      DigitsShape(n / 10);
    }
  }

  /** Reading the digits back gives the number. */
  lemma {:induction false} DigitsRoundTrip(n: nat)
    ensures DigitsValue(Digits(n)) == n
    decreases n
  {
    var s := Digits(n);
    if n >= 10 {
      DigitsRoundTrip(n / 10);
      assert s[..|s| - 1] == Digits(n / 10);
    } else {
      assert s[..|s| - 1] == [];
    }
  }

  /** %d: a minus sign for a negative value, then the digits of its magnitude. */
  function Decimal(n: int): (s: seq<byte>)
    ensures |s| >= 1
  {
    if n < 0 then [MINUS] + Digits(-n) else Digits(n)
  }

  /** The value of a %d field. */
  function DecimalValue(s: seq<byte>): int
  {
    if s != [] && s[0] == MINUS then -DigitsValue(s[1..]) else DigitsValue(s)
  }

  /** A %d field is read back as the number printed, and holds no separator. */
  lemma DecimalRoundTrip(n: int)
    ensures DecimalValue(Decimal(n)) == n
    ensures SPACE !in Decimal(n) && NEWLINE !in Decimal(n)
  {
    var d := Digits(if n < 0 then -n else n);
    DigitsRoundTrip(if n < 0 then -n else n);
    DigitsShape(if n < 0 then -n else n);
    assert IsDigit(d[0]);
    if n < 0 {
      assert Decimal(n)[1..] == d;
    }
  }

  /** The maximum grey value field, "255". */
  const MAXVAL: seq<byte> := [0x32, 0x35, 0x35]

  /** The magic number line "P5\n". */
  const MAGIC: seq<byte> := [0x50, 0x35, NEWLINE]

  /** The header layout around two number fields: "P5\n<x> <y>\n255\n". */
  function Layout(x: seq<byte>, y: seq<byte>): seq<byte>
  {
    MAGIC + x + [SPACE] + y + [NEWLINE] + MAXVAL + [NEWLINE]
  }

  /** The header "P5\n<xsize> <ysize>\n255\n". */
  function Header(xsize: int, ysize: int): (h: seq<byte>)
    ensures |h| == 9 + |Decimal(xsize)| + |Decimal(ysize)|
  {
    Layout(Decimal(xsize), Decimal(ysize))
  }

  /** The maximum value field reads back as 255. */
  lemma MaxvalValue()
    ensures DecimalValue(MAXVAL) == 255
  {
    assert MAXVAL[..2] == [0x32, 0x35] && MAXVAL[..2][..1] == [0x32] && [0x32][..0] == [];
    assert DigitsValue([0x32]) == 2;
    assert DigitsValue(MAXVAL[..2]) == 25;
  }

  /** The layout opens with the magic number line and closes with "255" and a newline. */
  lemma LayoutEnds(x: seq<byte>, y: seq<byte>)
    ensures var h := Layout(x, y);
            && |h| == 9 + |x| + |y|
            && h[..3] == MAGIC
            && h[|h| - 1] == NEWLINE
            && h[5 + |x| + |y|..|h| - 1] == MAXVAL
  {
    var front := MAGIC + x + [SPACE] + y + [NEWLINE];
    assert Layout(x, y) == front + MAXVAL + [NEWLINE];
    Middle(front, MAXVAL, [NEWLINE]);
    assert Layout(x, y) == MAGIC + (x + [SPACE] + y + [NEWLINE] + MAXVAL + [NEWLINE]);
  }

  /** In the layout the width field follows the magic line and ends at the space. */
  lemma LayoutWidth(x: seq<byte>, y: seq<byte>)
    ensures var h := Layout(x, y);
            |h| == 9 + |x| + |y| && h[3..3 + |x|] == x && h[3 + |x|] == SPACE
  {
    var rest := [SPACE] + y + [NEWLINE] + MAXVAL + [NEWLINE];
    assert Layout(x, y) == MAGIC + x + rest;
    Middle(MAGIC, x, rest);
  }

  /** In the layout the height field follows the space and ends at the next newline. */
  lemma LayoutHeight(x: seq<byte>, y: seq<byte>)
    ensures var h := Layout(x, y);
            |h| == 9 + |x| + |y| && h[4 + |x|..4 + |x| + |y|] == y && h[4 + |x| + |y|] == NEWLINE
  {
    var front := MAGIC + x + [SPACE];
    var rest := [NEWLINE] + MAXVAL + [NEWLINE];
    assert Layout(x, y) == front + y + rest;
    Middle(front, y, rest);
  }

  /** The header opens with the magic number line and closes with 255 and a newline. */
  lemma HeaderEnds(xsize: int, ysize: int)
    ensures Header(xsize, ysize)[..3] == MAGIC
    ensures var h, x, y := Header(xsize, ysize), |Decimal(xsize)|, |Decimal(ysize)|;
            h[|h| - 1] == NEWLINE && DecimalValue(h[5 + x + y..|h| - 1]) == 255
  {
    LayoutEnds(Decimal(xsize), Decimal(ysize));
    MaxvalValue();
  }

  /** The width field follows the magic line, ends at the space and reads back as xsize. */
  lemma HeaderWidth(xsize: int, ysize: int)
    ensures var h, x := Header(xsize, ysize), |Decimal(xsize)|;
            && h[3 + x] == SPACE
            && DecimalValue(h[3..3 + x]) == xsize
            && SPACE !in h[3..3 + x] && NEWLINE !in h[3..3 + x]
  {
    LayoutWidth(Decimal(xsize), Decimal(ysize));
    DecimalRoundTrip(xsize);
  }

  /** The height field follows the space, ends at the next newline and reads back as ysize. */
  lemma HeaderHeight(xsize: int, ysize: int)
    ensures var h, x, y := Header(xsize, ysize), |Decimal(xsize)|, |Decimal(ysize)|;
            && h[4 + x + y] == NEWLINE
            && DecimalValue(h[4 + x..4 + x + y]) == ysize
            && SPACE !in h[4 + x..4 + x + y] && NEWLINE !in h[4 + x..4 + x + y]
  {
    LayoutHeight(Decimal(xsize), Decimal(ysize));
    DecimalRoundTrip(ysize);
  }

  /** The middle part of a concatenation. */
  lemma Middle(a: seq<byte>, b: seq<byte>, c: seq<byte>)
    ensures (a + b + c)[|a|..|a| + |b|] == b
    ensures (a + b + c)[..|a|] == a
  {
  }

  /** Offset in the plane of the first byte of row i: i * wrap, one row after another. */
  function RowStart(wrap: int, i: nat): int
    decreases i
  {
    if i == 0 then 0 else RowStart(wrap, i - 1) + wrap
  }

  /** Row i starts i * wrap bytes into the plane. */
  lemma {:induction false} RowStartIsProduct(wrap: int, i: nat)
    ensures RowStart(wrap, i) == i * wrap
    decreases i
  {
    if i > 0 {
      RowStartIsProduct(wrap, i - 1);
      assert (i - 1) * wrap + wrap == i * wrap;
    }
  }

  /** Each of the first `count` rows, `xsize` bytes at i * wrap, lies inside the plane. */
  predicate RowsInBounds(buf: seq<byte>, wrap: int, xsize: int, count: int)
  {
    forall i: nat :: i < count ==> 0 <= RowStart(wrap, i) <= RowStart(wrap, i) + xsize <= |buf|
  }

  /** The number of rows the loop writes: none when ysize is not positive. */
  function RowCount(ysize: int): nat
  {
    if ysize > 0 then ysize else 0
  }

  /** Reference definition of the payload: the first `count` rows of the plane, end to end. */
  function Rows(buf: seq<byte>, wrap: int, xsize: int, count: nat): seq<byte>
    requires RowsInBounds(buf, wrap, xsize, count)
    decreases count
  {
    if count == 0 then []
    else
      var start := RowStart(wrap, count - 1);
      Rows(buf, wrap, xsize, count - 1) + buf[start..start + xsize]
  }

  /**
   * save_gray_frame: the header, then each of the ysize rows in turn. Passing
   * fwrite a negative width when there are rows to write, or rows outside the
   * plane, is undefined in the code, so both are excluded by the precondition.
   */
  method SaveGrayFrame(buf: seq<byte>, wrap: int, xsize: int, ysize: int) returns (file: seq<byte>)
    requires RowsInBounds(buf, wrap, xsize, ysize)
    ensures file == Header(xsize, ysize) + Rows(buf, wrap, xsize, RowCount(ysize))
  {
    file := Header(xsize, ysize);
    ghost var header := file;
    var i := 0;
    while i < ysize
      invariant 0 <= i <= RowCount(ysize)
      invariant file == header + Rows(buf, wrap, xsize, i)
    {
      var start := RowStart(wrap, i);  // buf + i * wrap
      file := file + buf[start..start + xsize];
      i := i + 1;
    }
  }

  /** The payload holds `count` rows of `xsize` bytes. */
  lemma {:induction false} RowsLength(buf: seq<byte>, wrap: int, xsize: int, count: nat)
    requires RowsInBounds(buf, wrap, xsize, count)
    ensures |Rows(buf, wrap, xsize, count)| == count * xsize
    decreases count
  {
    if count > 0 {
      RowsLength(buf, wrap, xsize, count - 1);
      assert (count - 1) * xsize + xsize == count * xsize;
    }
  }

  /** Bytes i * xsize .. (i + 1) * xsize of the payload are row i of the plane. */
  lemma {:induction false} RowsSlice(buf: seq<byte>, wrap: int, xsize: int, count: nat, i: int)
    requires RowsInBounds(buf, wrap, xsize, count) && count > 0 && 0 <= xsize
    requires 0 <= i < count
    ensures 0 <= i * xsize <= (i + 1) * xsize <= |Rows(buf, wrap, xsize, count)|
    ensures Rows(buf, wrap, xsize, count)[i * xsize..(i + 1) * xsize]
            == buf[RowStart(wrap, i)..RowStart(wrap, i) + xsize]
    decreases count
  {
    var prefix := Rows(buf, wrap, xsize, count - 1);
    RowsLength(buf, wrap, xsize, count - 1);
    RowsLength(buf, wrap, xsize, count);
    assert (i + 1) * xsize == i * xsize + xsize;
    MulLe(0, i, xsize);
    MulLe(i + 1, count, xsize);
    if i < count - 1 {
      RowsSlice(buf, wrap, xsize, count - 1, i);
      MulLe(i + 1, count - 1, xsize);
      assert Rows(buf, wrap, xsize, count)[i * xsize..(i + 1) * xsize] == prefix[i * xsize..(i + 1) * xsize];
    } else {
      assert i * xsize == |prefix|;
    }
  }

  /**
   * The file save_gray_frame writes is its header followed by ysize rows of
   * xsize bytes, row i being the plane's bytes i * wrap .. i * wrap + xsize.
   */
  lemma PgmLayout(header: seq<byte>, buf: seq<byte>, wrap: int, xsize: int, ysize: int, i: int)
    requires RowsInBounds(buf, wrap, xsize, ysize) && 0 <= i < ysize
    ensures var file := header + Rows(buf, wrap, xsize, RowCount(ysize));
            var start := |header| + i * xsize;
            && |file| == |header| + ysize * xsize
            && 0 <= |header| <= start <= start + xsize <= |file|
            && RowStart(wrap, i) == i * wrap
            && file[start..start + xsize] == buf[RowStart(wrap, i)..RowStart(wrap, i) + xsize]
  {
    assert 0 <= RowStart(wrap, 0) <= RowStart(wrap, 0) + xsize;
    assert RowCount(ysize) == ysize;
    var rows := Rows(buf, wrap, xsize, ysize);
    RowsLength(buf, wrap, xsize, ysize);
    RowsSlice(buf, wrap, xsize, ysize, i);
    RowStartIsProduct(wrap, i);
    SliceAfter(header, rows, i * xsize, (i + 1) * xsize);
  }

  /** A slice of the second part of a concatenation. */
  lemma SliceAfter(a: seq<byte>, b: seq<byte>, lo: int, hi: int)
    requires 0 <= lo <= hi <= |b|
    ensures (a + b)[|a| + lo..|a| + hi] == b[lo..hi]
  {
  }
}
