/**
 * saveImageBMP: serialises a width x height framebuffer of raylib colours as
 * a Windows bitmap file, a 14-byte BITMAPFILEHEADER, a 40-byte
 * BITMAPINFOHEADER and then the pixel buffer. The file is modelled as the
 * sequence of bytes written to it, in order.
 */
module Image {
  import opened Raylib
  import opened Wrappers
  import RowMajor

  const TwoTo32: nat := 0x1_0000_0000

  // ---------------------------------------------------------------------------
  // Little-endian 32-bit fields
  // ---------------------------------------------------------------------------

  /**
   * `(unsigned char)(v >> 8k)`: byte k of v, counting from the least
   * significant; shifting by 8k is shifting by 8, k times.
   */
  function ByteOf(v: nat, k: nat): byte
    requires k < 4
  {
    if k == 0 then v % 0x100 else ByteOf(v / 0x100, k - 1)
  }

  /** The four bytes of v, least significant first. */
  function LE32(v: nat): (bs: seq<byte>)
    ensures |bs| == 4
  {
    [ByteOf(v, 0), ByteOf(v, 1), ByteOf(v, 2), ByteOf(v, 3)]
  }

  /** The 32-bit value four little-endian bytes stand for. */
  function FromLE32(bs: seq<byte>): (v: nat)
    requires |bs| == 4
    ensures v < TwoTo32
  {
    bs[0] as int + 0x100 * (bs[1] as int + 0x100 * (bs[2] as int + 0x100 * (bs[3] as int)))
  }

  /** Reading back the bytes of a value gives the value's low 32 bits. */
  lemma DecodeEncode(v: nat)
    ensures FromLE32(LE32(v)) == v % TwoTo32
  {
    var q1 := v / 0x100;
    var q2 := q1 / 0x100;
    var q3 := q2 / 0x100;
    var q4 := q3 / 0x100;
    assert ByteOf(v, 0) == v % 0x100;
    assert ByteOf(v, 1) == ByteOf(q1, 0) == q1 % 0x100;
    assert ByteOf(v, 2) == ByteOf(q1, 1) == ByteOf(q2, 0) == q2 % 0x100;
    assert ByteOf(v, 3) == ByteOf(q1, 2) == ByteOf(q2, 1) == ByteOf(q3, 0) == q3 % 0x100;
    var low := FromLE32(LE32(v));
    assert low == v % 0x100 + 0x100 * (q1 % 0x100 + 0x100 * (q2 % 0x100 + 0x100 * (q3 % 0x100)));
    assert v == low + TwoTo32 * q4;
    Split(v, low, q4, TwoTo32);
  }

  /** The bytes a 32-bit value is written as determine it: encoding the decoded bytes gives them back. */
  lemma EncodeDecode(bs: seq<byte>)
    requires |bs| == 4
    ensures LE32(FromLE32(bs)) == bs
  {
    var b0, b1, b2, b3 := bs[0] as int, bs[1] as int, bs[2] as int, bs[3] as int;
    var v2 := b2 + 0x100 * b3;
    var v1 := b1 + 0x100 * v2;
    var v := FromLE32(bs);
    Split(v, b0, v1, 0x100);
    Split(v1, b1, v2, 0x100);
    Split(v2, b2, b3, 0x100);
    assert ByteOf(v, 0) == b0;
    assert ByteOf(v, 1) == ByteOf(v1, 0) == b1;
    assert ByteOf(v, 2) == ByteOf(v1, 1) == ByteOf(v2, 0) == b2;
    assert ByteOf(v, 3) == ByteOf(v1, 2) == ByteOf(v2, 1) == ByteOf(b3, 0) == b3;
  }

  /** v = low + d * high with low below d: dividing v by d leaves high, with remainder low. */
  lemma Split(v: int, low: int, high: int, d: int)
    requires d == 0x100 || d == TwoTo32
    requires 0 <= low < d && v == low + d * high
    ensures v / d == high && v % d == low
  {
    if d == 0x100 {
    } else {
    }
  }

  /** A value below 2^32 is read back unchanged. */
  lemma RoundTrip32(v: nat)
    requires v < TwoTo32
    ensures FromLE32(LE32(v)) == v
  {
    DecodeEncode(v);
  }

  // ---------------------------------------------------------------------------
  // The two headers
  // ---------------------------------------------------------------------------

  const FileHeaderSize: nat := 14
  const DibHeaderSize: nat := 40
  /** Where the pixel data starts: right after both headers. */
  const DataOffset: nat := FileHeaderSize + DibHeaderSize

  /** The size field, 14 + 40 + width*height*4, computed as a uint32_t and so taken modulo 2^32. */
  function FileSize(width: nat, height: nat): (size: nat)
    ensures size < TwoTo32
  {
    (DataOffset + width * height * 4) % TwoTo32
  }

  /** BITMAPFILEHEADER: signature "BM", file size, two reserved words, offset of the pixel data. */
  function FileHeader(width: nat, height: nat): (header: seq<byte>)
    ensures |header| == FileHeaderSize
  {
    ['B' as int, 'M' as int] + LE32(FileSize(width, height)) + [0, 0, 0, 0] + LE32(DataOffset)
  }

  /** n zero bytes. */
  function Zeros(n: nat): (z: seq<byte>)
    ensures |z| == n
  {
    seq(n, _ => 0)
  }

  /**
   * BITMAPINFOHEADER: its own size 40, width, height, one colour plane and
   * 24 bits per pixel as 16-bit fields, and zero for compression, image
   * size, resolution and palette.
   */
  function DibHeader(width: nat, height: nat): (header: seq<byte>)
    ensures |header| == DibHeaderSize
  {
    LE32(DibHeaderSize) + LE32(width) + LE32(height) + [1, 0] + [24, 0] + Zeros(24)
  }

  // ---------------------------------------------------------------------------
  // Pixel data
  // ---------------------------------------------------------------------------

  /** A channel multiplied by alpha / 255 and truncated, as the cast to unsigned char does. */
  function Scale(ch: byte, alpha: byte): (s: byte)
    ensures s <= ch
    ensures alpha == 255 ==> s == ch
  {
    ScaleBelow(ch, alpha);
    ch * alpha / 255
  }

  lemma ScaleBelow(ch: byte, alpha: byte)
    ensures ch * alpha <= ch * 255
  {
  }

  /** Byte k of a pixel: blue, green, red in that order, each scaled by the colour's alpha. */
  function Channel(c: Color, k: nat): byte
    requires k < 3
  {
    if k == 0 then Scale(c.b, c.a) else if k == 1 then Scale(c.g, c.a) else Scale(c.r, c.a)
  }

  /** An opaque colour is written with its red, green and blue channels exactly, in the order B, G, R. */
  lemma OpaqueExact(c: Color)
    requires c.a == 255
    ensures Channel(c, 0) == c.b && Channel(c, 1) == c.g && Channel(c, 2) == c.r
  {
  }

  /** Bitmaps are stored bottom-up: output row y shows source row height-1-y. */
  function SourceRow(height: nat, y: nat): (row: nat)
    requires y < height
    ensures row < height
  {
    height - 1 - y
  }

  /** The framebuffer slot shown at column x of output row y. */
  function SourceIndex(width: nat, height: nat, x: nat, y: nat): (s: nat)
    requires x < width && y < height
    ensures s < width * height
  {
    RowMajor.IndexInGrid(width, height, SourceRow(height, y), x);
    RowMajor.Index(width, SourceRow(height, y), x)
  }

  /** Output pixel p, counted in row-major order, shows framebuffer slot Flip(p). */
  function Flip(width: nat, height: nat, p: nat): (s: nat)
    requires p < width * height
    ensures s < width * height
  {
    RowMajor.SlotInGrid(width, height, p);
    SourceIndex(width, height, p % width, p / width)
  }

  /** The row flip undoes itself. */
  lemma FlipInvolution(width: nat, height: nat, p: nat)
    requires p < width * height
    ensures Flip(width, height, Flip(width, height, p)) == p
  {
    RowMajor.SlotInGrid(width, height, p);
    var y, x := p / width, p % width;
    RowMajor.IndexDecompose(width, SourceRow(height, y), x);
  }

  /**
   * Hence every framebuffer slot is read for exactly one output pixel: no two
   * output pixels read the same slot, and slot s is read for output pixel Flip(s).
   */
  lemma FlipBijective(width: nat, height: nat)
    ensures forall p1: nat, p2: nat :: p1 < width * height && p2 < width * height && Flip(width, height, p1) == Flip(width, height, p2) ==> p1 == p2
    ensures forall s: nat :: s < width * height ==> Flip(width, height, Flip(width, height, s)) == s
  {
    forall p1: nat, p2: nat | p1 < width * height && p2 < width * height && Flip(width, height, p1) == Flip(width, height, p2)
      ensures p1 == p2
    {
      FlipInvolution(width, height, p1);
      FlipInvolution(width, height, p2);
    }
    forall s: nat | s < width * height
      ensures Flip(width, height, Flip(width, height, s)) == s
    {
      FlipInvolution(width, height, s);
    }
  }

  /**
   * Byte i of the pixel buffer: the buffer has room for 4 bytes per pixel,
   * but only the first 3 per pixel are filled, packed without row padding;
   * the rest stays zero.
   */
  function PixelByte(width: nat, height: nat, framebuffer: seq<Color>, i: nat): byte
    requires |framebuffer| == width * height && i < width * height * 4
  {
    if i < width * height * 3 then Channel(framebuffer[Flip(width, height, i / 3)], i % 3) else 0
  }

  /** The pixel buffer as written. */
  function PixelData(width: nat, height: nat, framebuffer: seq<Color>): (pixels: seq<byte>)
    requires |framebuffer| == width * height
    ensures |pixels| == width * height * 4
  {
    seq(width * height * 4, i requires 0 <= i < width * height * 4 => PixelByte(width, height, framebuffer, i))
  }

  /** Channel k of output pixel (x, y) lands at byte (y*width+x)*3+k of the buffer and comes from source row height-1-y. */
  lemma PixelByteAt(width: nat, height: nat, framebuffer: seq<Color>, x: nat, y: nat, k: nat)
    requires |framebuffer| == width * height && x < width && y < height && k < 3
    ensures (y * width + x) * 3 + k < width * height * 3
    ensures PixelByte(width, height, framebuffer, (y * width + x) * 3 + k)
         == Channel(framebuffer[SourceIndex(width, height, x, y)], k)
  {
    RowMajor.IndexInGrid(width, height, y, x);
    var p := y * width + x;
    assert ((p * 3 + k) / 3, (p * 3 + k) % 3) == (p, k);
    RowMajor.IndexDecompose(width, y, x);
  }

  /** The whole file: both headers, then the pixel buffer. */
  function Encode(width: nat, height: nat, framebuffer: seq<Color>): (file: seq<byte>)
    requires |framebuffer| == width * height
    ensures |file| == DataOffset + width * height * 4
  {
    FileHeader(width, height) + DibHeader(width, height) + PixelData(width, height, framebuffer)
  }

  // ---------------------------------------------------------------------------
  // Layout of the file
  // ---------------------------------------------------------------------------

  /** The file header reads back as signature "BM", the file size, zero reserved words and data offset 54. */
  lemma FileHeaderLayout(width: nat, height: nat)
    ensures FileHeader(width, height)[0] == 'B' as int && FileHeader(width, height)[1] == 'M' as int
    ensures FromLE32(FileHeader(width, height)[2..6]) == FileSize(width, height)
    ensures FileHeader(width, height)[6..10] == [0, 0, 0, 0]
    ensures FromLE32(FileHeader(width, height)[10..14]) == DataOffset
  {
    var header := FileHeader(width, height);
    assert header[2..6] == LE32(FileSize(width, height));
    assert header[10..14] == LE32(DataOffset);
    RoundTrip32(FileSize(width, height));
    RoundTrip32(DataOffset);
  }

  /** The size field is the length of the whole file, whenever that length fits in 32 bits. */
  lemma FileSizeIsLength(width: nat, height: nat, framebuffer: seq<Color>)
    requires |framebuffer| == width * height
    requires DataOffset + width * height * 4 < TwoTo32
    ensures FromLE32(Encode(width, height, framebuffer)[2..6]) == |Encode(width, height, framebuffer)|
  {
    // what the size bytes are made of, and what follows the file header, play no part here
    hide FromLE32, DibHeader, PixelData;
    FileHeaderLayout(width, height);
    var file := Encode(width, height, framebuffer);
    assert file[2..6] == FileHeader(width, height)[2..6];
  }

  /**
   * The info header reads back as size 40, the width and height (their low
   * 32 bits), one plane and 24 bits per pixel, with every other byte zero.
   */
  lemma DibHeaderLayout(width: nat, height: nat)
    ensures DibHeader(width, height)[0..4] == [40, 0, 0, 0]
    ensures FromLE32(DibHeader(width, height)[4..8]) == width % TwoTo32
    ensures FromLE32(DibHeader(width, height)[8..12]) == height % TwoTo32
    ensures DibHeader(width, height)[12..16] == [1, 0, 24, 0]
    ensures forall i :: 16 <= i < DibHeaderSize ==> DibHeader(width, height)[i] == 0
  {
    var header := DibHeader(width, height);
    assert header[4..8] == LE32(width);
    assert header[8..12] == LE32(height);
    DecodeEncode(width);
    DecodeEncode(height);
  }

  /** Where channel k of output pixel (x, y) goes in the pixel buffer: byte (y*width+x)*3+k. */
  function PixelOffset(width: nat, height: nat, x: nat, y: nat, k: nat): (i: nat)
    requires x < width && y < height && k < 3
    ensures i < width * height * 3
  {
    RowMajor.IndexInGrid(width, height, y, x);
    (y * width + x) * 3 + k
  }

  /**
   * In the file as written, byte 54 + (y*width+x)*3+k holds blue, green or
   * red (k = 0, 1, 2) of the colour at column x of source row height-1-y,
   * scaled by its alpha.
   */
  lemma PixelLayout(width: nat, height: nat, framebuffer: seq<Color>, x: nat, y: nat, k: nat)
    requires |framebuffer| == width * height && x < width && y < height && k < 3
    ensures DataOffset + PixelOffset(width, height, x, y, k) < |Encode(width, height, framebuffer)|
    ensures Encode(width, height, framebuffer)[DataOffset + PixelOffset(width, height, x, y, k)]
         == Channel(framebuffer[SourceIndex(width, height, x, y)], k)
  {
    PixelByteAt(width, height, framebuffer, x, y, k);
    var i := PixelOffset(width, height, x, y, k);
    var headers := FileHeader(width, height) + DibHeader(width, height);
    assert Encode(width, height, framebuffer) == headers + PixelData(width, height, framebuffer);
    assert Encode(width, height, framebuffer)[DataOffset + i] == PixelData(width, height, framebuffer)[i];
  }

  /** The fourth byte reserved per pixel is never written: the last width*height bytes of the buffer are zero. */
  lemma ZeroTail(width: nat, height: nat, framebuffer: seq<Color>)
    requires |framebuffer| == width * height
    ensures forall i :: width * height * 3 <= i < width * height * 4 ==> PixelData(width, height, framebuffer)[i] == 0
  {
  }

  // ---------------------------------------------------------------------------
  // saveImageBMP
  // ---------------------------------------------------------------------------

  /** Why saving failed. */
  datatype BmpError = InvalidFramebufferSize

  /**
   * saveImageBMP: refuses a framebuffer whose size is not width*height
   * before writing anything; otherwise produces the file Encode describes.
   */
  method SaveImageBMP(width: nat, height: nat, framebuffer: seq<Color>) returns (r: Result<seq<byte>, BmpError>)
    ensures r.Failure? <==> |framebuffer| != width * height
    ensures r.Failure? ==> r.error == InvalidFramebufferSize
    ensures r.Success? ==> |framebuffer| == width * height && r.value == Encode(width, height, framebuffer)
  {
    if |framebuffer| != width * height {
      return Failure(InvalidFramebufferSize);
    }

    var bmpFileHeader := FillFileHeader(width, height);
    var dibHeader := FillDibHeader(width, height);
    var pixels := FillPixels(width, height, framebuffer);

    r := Success(bmpFileHeader[..] + dibHeader[..] + pixels[..]);
  }

  /** The four stores `a[at + k] = (unsigned char)(v >> 8k)`, k = 0 .. 3, that write one 32-bit field. */
  method PutLE32(a: array<byte>, at: nat, v: nat)
    requires at + 4 <= a.Length
    modifies a
    ensures a[at] == ByteOf(v, 0) && a[at + 1] == ByteOf(v, 1) && a[at + 2] == ByteOf(v, 2) && a[at + 3] == ByteOf(v, 3)
    ensures forall i :: 0 <= i < a.Length && !(at <= i < at + 4) ==> a[i] == old(a[i])
  {
    a[at] := ByteOf(v, 0);
    a[at + 1] := ByteOf(v, 1);
    a[at + 2] := ByteOf(v, 2);
    a[at + 3] := ByteOf(v, 3);
  }

  /** saveImageBMP's bmpFileHeader: the file header, filled in byte by byte. */
  method FillFileHeader(width: nat, height: nat) returns (bmpFileHeader: array<byte>)
    ensures fresh(bmpFileHeader)
    ensures bmpFileHeader[..] == FileHeader(width, height)
  {
    var fileSize := (14 + 40 + width * height * 4) % TwoTo32;
    assert fileSize == FileSize(width, height);
    var dataOffset := 14 + 40;
    bmpFileHeader := new byte[14](_ => 0);
    bmpFileHeader[0], bmpFileHeader[1] := 'B' as int, 'M' as int;
    PutLE32(bmpFileHeader, 2, fileSize);
    PutLE32(bmpFileHeader, 10, dataOffset);
    HeaderBytes(bmpFileHeader[..], width, height);
  }

  /** Fourteen bytes holding "BM", the file size and offset 54 at the places the source fills in, and zero elsewhere, are the file header. */
  lemma HeaderBytes(h: seq<byte>, width: nat, height: nat)
    requires |h| == FileHeaderSize && h[0] == 'B' as int && h[1] == 'M' as int
    requires h[2] == ByteOf(FileSize(width, height), 0) && h[3] == ByteOf(FileSize(width, height), 1)
    requires h[4] == ByteOf(FileSize(width, height), 2) && h[5] == ByteOf(FileSize(width, height), 3)
    requires h[6] == 0 && h[7] == 0 && h[8] == 0 && h[9] == 0
    requires h[10] == ByteOf(DataOffset, 0) && h[11] == ByteOf(DataOffset, 1)
    requires h[12] == ByteOf(DataOffset, 2) && h[13] == ByteOf(DataOffset, 3)
    ensures h == FileHeader(width, height)
  {
    var expected := FileHeader(width, height);
    forall i | 0 <= i < FileHeaderSize
      ensures h[i] == expected[i]
    {
    }
  }

  /** saveImageBMP's dibHeader: the info header, zeroed and then filled in byte by byte. */
  method FillDibHeader(width: nat, height: nat) returns (dibHeader: array<byte>)
    ensures fresh(dibHeader)
    ensures dibHeader[..] == DibHeader(width, height)
  {
    dibHeader := new byte[40](_ => 0);
    dibHeader[0] := 40;
    PutLE32(dibHeader, 4, width);
    PutLE32(dibHeader, 8, height);
    dibHeader[12] := 1;
    dibHeader[14] := 24;
    DibBytes(dibHeader[..], width, height);
  }

  /** Forty bytes holding 40, the width, the height, 1 and 24 at the places the source fills in, and zero elsewhere, are the info header. */
  lemma DibBytes(d: seq<byte>, width: nat, height: nat)
    requires |d| == DibHeaderSize
    requires d[0] == 40 && d[1] == 0 && d[2] == 0 && d[3] == 0
    requires d[4] == ByteOf(width, 0) && d[5] == ByteOf(width, 1) && d[6] == ByteOf(width, 2) && d[7] == ByteOf(width, 3)
    requires d[8] == ByteOf(height, 0) && d[9] == ByteOf(height, 1) && d[10] == ByteOf(height, 2) && d[11] == ByteOf(height, 3)
    requires d[12] == 1 && d[13] == 0 && d[14] == 24 && d[15] == 0
    requires forall i :: 16 <= i < DibHeaderSize ==> d[i] == 0
    ensures d == DibHeader(width, height)
  {
    var expected := DibHeader(width, height);
    forall i | 0 <= i < DibHeaderSize
      ensures d[i] == expected[i]
    {
    }
  }

  /**
   * The pixel loop of saveImageBMP: a zeroed buffer of width*height*4 bytes
   * in which output row y, column x receives B, G, R of the colour at
   * column x of source row height-1-y.
   */
  method FillPixels(width: nat, height: nat, framebuffer: seq<Color>) returns (pixels: array<byte>)
    requires |framebuffer| == width * height
    ensures fresh(pixels)
    ensures pixels[..] == PixelData(width, height, framebuffer)
  {
    // which byte a slot should hold is settled by FillRow and ZeroTail
    hide PixelByte;
    pixels := new byte[width * height * 4](_ => 0);
    var y := 0;
    while y < height
      invariant 0 <= y <= height
      invariant y * width <= width * height
      invariant forall i :: 0 <= i < y * width * 3 && i < pixels.Length ==> pixels[i] == PixelByte(width, height, framebuffer, i)
      invariant forall i :: y * width * 3 <= i < pixels.Length ==> pixels[i] == 0
    {
      RowMajor.MulMonotone(y + 1, height, width);
      assert (y + 1) * width == y * width + width;
      FillRow(width, height, framebuffer, y, pixels);
      y := y + 1;
    }
    assert y * width == width * height;
    ZeroTail(width, height, framebuffer);
    forall i | 0 <= i < pixels.Length
      ensures pixels[i] == PixelData(width, height, framebuffer)[i]
    {
    }
  }

  /** One pass of the pixel loop's outer loop: fills output row y, bytes y*width*3 .. (y+1)*width*3-1. */
  method FillRow(width: nat, height: nat, framebuffer: seq<Color>, y: nat, pixels: array<byte>)
    requires |framebuffer| == width * height && y < height && pixels.Length == width * height * 4
    requires y * width + width <= width * height
    requires forall i :: 0 <= i < y * width * 3 && i < pixels.Length ==> pixels[i] == PixelByte(width, height, framebuffer, i)
    requires forall i :: y * width * 3 <= i < pixels.Length ==> pixels[i] == 0
    modifies pixels
    ensures forall i :: 0 <= i < (y * width + width) * 3 && i < pixels.Length ==> pixels[i] == PixelByte(width, height, framebuffer, i)
    ensures forall i :: (y * width + width) * 3 <= i < pixels.Length ==> pixels[i] == 0
  {
    // the bytes are related to the colours through PixelByteAt alone
    hide PixelByte, Scale;
    var row := height - 1 - y;
    var x := 0;
    while x < width
      invariant 0 <= x <= width
      invariant forall i :: 0 <= i < (y * width + x) * 3 && i < pixels.Length ==> pixels[i] == PixelByte(width, height, framebuffer, i)
      invariant forall i :: (y * width + x) * 3 <= i < pixels.Length ==> pixels[i] == 0
    {
      var c := framebuffer[row * width + x];
      var r, g, b := Scale(c.r, c.a), Scale(c.g, c.a), Scale(c.b, c.a);
      var idx := (y * width + x) * 3;
      PixelByteAt(width, height, framebuffer, x, y, 0);
      PixelByteAt(width, height, framebuffer, x, y, 1);
      PixelByteAt(width, height, framebuffer, x, y, 2);
      pixels[idx + 0] := b;
      pixels[idx + 1] := g;
      pixels[idx + 2] := r;
      x := x + 1;
    }
  }
}
