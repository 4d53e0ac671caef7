/** `to_jpg.cpp`: a frame buffer becomes a JPEG file in memory. */
module ToJpg {
  import opened Basics
  import opened Bits
  import opened Picture
  import opened Output
  import opened Encoder

  datatype PixelFormat = Grayscale | Rgb888 | Rgb565

  function BytesPerPixel(format: PixelFormat): nat {
    match format
    case Grayscale => 1
    case Rgb888 => 3
    case Rgb565 => 2
  }

  function Channels(format: PixelFormat): nat {
    if format.Grayscale? then 1 else 3
  }

  function Stride(format: PixelFormat, width: nat): nat {
    match format
    case Grayscale => width
    case Rgb888 => width * 3
    case Rgb565 => width * 2
  }

  /** Channel `k` of the pixel at the start of `s`: B, G, R bytes, or five, six and five bits. */
  function SourceByte(format: PixelFormat, s: seq<Byte>, k: nat): Byte
    requires |s| >= BytesPerPixel(format) && k < Channels(format)
  {
    match format
    case Grayscale => s[0]
    case Rgb888 => s[2 - k]
    case Rgb565 => if k == 0 then s[0] / 8 * 8 else if k == 1 then s[0] % 8 * 32 + s[1] / 32 * 4 else s[1] % 32 * 8
  }

  /** Source line `row` as grey samples or as R, G, B. */
  function SourceLine(format: PixelFormat, row: seq<Byte>, width: nat): (line: seq<Byte>)
    requires |row| == Stride(format, width)
    ensures |line| == Channels(format) * width
  {
    match format
    case Grayscale => row
    case Rgb888 =>
      seq(3 * width, i requires 0 <= i < 3 * width =>
        SourceByte(format, row[3 * (i / 3)..3 * (i / 3) + 3], i % 3))
    case Rgb565 =>
      seq(3 * width, i requires 0 <= i < 3 * width =>
        SourceByte(format, row[2 * (i / 3)..2 * (i / 3) + 2], i % 3))
  }

  lemma RowFits(l: nat, line: nat, height: nat)
    requires line < height
    ensures 0 <= l * line && l * line + l == l * (line + 1) <= l * height
  {
    MulOrder(line + 1, height, l);
    assert (line + 1) * l == l * line + l;
  }

  /** The RGB888 branch of `convert_line_format`. */
  method ConvertRgb888(src: array<Byte>, start: nat, dst: array<Byte>, width: nat)
    requires src != dst && dst.Length == 3 * width && start + 3 * width <= src.Length
    modifies dst
    ensures dst[..] == SourceLine(Rgb888, src[start..start + 3 * width], width)
  {
    hide SourceLine;
    ghost var row := src[start..start + 3 * width];
    ghost var want := SourceLine(Rgb888, row, width);
    var i, o := 0, 0;
    while i < 3 * width
      invariant 0 <= i <= 3 * width && o == i && i % 3 == 0
      invariant forall k :: 0 <= k < o ==> dst[k] == want[k]
    {
      RgbAt(row, width, i / 3);
      dst[o] := src[start + i + 2];
      dst[o + 1] := src[start + i + 1];
      dst[o + 2] := src[start + i];
      i, o := i + 3, o + 3;
    }
    assert dst[..] == want;
  }

  /** The RGB565 branch. */
  method ConvertRgb565(src: array<Byte>, start: nat, dst: array<Byte>, width: nat)
    requires src != dst && dst.Length == 3 * width && start + 2 * width <= src.Length
    modifies dst
    ensures dst[..] == SourceLine(Rgb565, src[start..start + 2 * width], width)
  {
    hide SourceLine;
    ghost var row := src[start..start + 2 * width];
    ghost var want := SourceLine(Rgb565, row, width);
    var i, o := 0, 0;
    while i < 2 * width
      invariant 0 <= i <= 2 * width && 2 * o == 3 * i && i % 2 == 0
      invariant forall k :: 0 <= k < o ==> dst[k] == want[k]
    {
      Rgb565At(row, width, i / 2);
      dst[o] := src[start + i] / 8 * 8;
      dst[o + 1] := src[start + i] % 8 * 32 + src[start + i + 1] / 32 * 4;
      dst[o + 2] := src[start + i + 1] % 32 * 8;
      i, o := i + 2, o + 3;
    }
    assert dst[..] == want;
  }

  /** `convert_line_format` */
  method ConvertLineFormat(src: array<Byte>, format: PixelFormat, dst: array<Byte>, width: nat, line: nat)
    requires src != dst && dst.Length == Channels(format) * width
    requires 0 <= Stride(format, width) * line && Stride(format, width) * line + Stride(format, width) <= src.Length
    modifies dst
    ensures var l := Stride(format, width);
      dst[..] == SourceLine(format, src[l * line..l * line + l], width)
  {
    hide Stride, SourceLine;
    StrideOf(format, width, []);
    var start: nat := Stride(format, width) * line;
    match format {
      case Grayscale =>
        forall x | 0 <= x < width {
          dst[x] := src[start + x];
        }
        assert dst[..] == src[start..start + width];
        StrideOf(format, width, dst[..]);
      case Rgb888 => ConvertRgb888(src, start, dst, width);
      case Rgb565 => ConvertRgb565(src, start, dst, width);
    }
  }

  lemma StrideOf(format: PixelFormat, width: nat, row: seq<Byte>)
    ensures Stride(format, width) == BytesPerPixel(format) * width
    ensures format.Grayscale? && |row| == width ==> SourceLine(format, row, width) == row
  {
  }

  lemma RgbAt(row: seq<Byte>, width: nat, x: nat)
    requires |row| == 3 * width && x < width
    ensures var s := SourceLine(Rgb888, row, width);
      s[3 * x] == row[3 * x + 2] && s[3 * x + 1] == row[3 * x + 1] && s[3 * x + 2] == row[3 * x]
  {
  }

  lemma Rgb565At(row: seq<Byte>, width: nat, x: nat)
    requires |row| == 2 * width && x < width
    ensures var s, hi, lo := SourceLine(Rgb565, row, width), row[2 * x], row[2 * x + 1];
      s[3 * x] == hi / 8 * 8 && s[3 * x + 1] == hi % 8 * 32 + lo / 32 * 4 && s[3 * x + 2] == lo % 32 * 8
  {
  }

  /** The image in a frame buffer. */
  function PictureOf(src: seq<Byte>, format: PixelFormat, width: nat, height: nat): Image
    requires |src| >= Stride(format, width) * height
  {
    Image(if format.Grayscale? then YOnly else H2V2, width, Channels(format), LinesOf(src, format, width, height))
  }

  function LinesOf(src: seq<Byte>, format: PixelFormat, width: nat, n: nat): (lines: seq<seq<Byte>>)
    requires |src| >= Stride(format, width) * n
    ensures |lines| == n && forall y :: 0 <= y < n ==> |lines[y]| == Channels(format) * width
  {
    if n == 0 then []
    else
      var l := Stride(format, width);
      RowFits(l, n - 1, n);
      LinesOf(src, format, width, n - 1) + [SourceLine(format, src[l * (n - 1)..l * (n - 1) + l], width)]
  }

  lemma NoLines(src: seq<Byte>, format: PixelFormat, width: nat)
    ensures Stride(format, width) * 0 == 0 && LinesOf(src, format, width, 0) == []
  {
  }

  lemma NextLine(src: seq<Byte>, format: PixelFormat, width: nat, n: nat, height: nat)
    requires n < height && |src| >= Stride(format, width) * height
    ensures var l := Stride(format, width);
      && 0 <= l * n && l * n + l <= |src| && l * (n + 1) <= |src| && l * n <= |src|
      && LinesOf(src, format, width, n + 1)
           == LinesOf(src, format, width, n) + [SourceLine(format, src[l * n..l * n + l], width)]
  {
    hide Stride, SourceLine;
    RowFits(Stride(format, width), n, height);
  }

  /** `quality` as the encoder gets it. */
  function Clamped(quality: nat): (q: nat)
    ensures 1 <= q <= 100 && (1 <= quality <= 100 ==> q == quality)
  {
    if quality == 0 then 1 else if quality > 100 then 100 else quality
  }

  lemma PictureHasScanlines(src: seq<Byte>, format: PixelFormat, width: nat, height: nat)
    requires |src| >= Stride(format, width) * height
    ensures width > 0 ==> AreScanlines(PictureOf(src, format, width, height))
  {
    hide LinesOf, Stride;
  }

  /** The scanline loop of `convert_image`. */
  method FeedLines(enc: JpegEncoder, src: array<Byte>, line: array<Byte>, format: PixelFormat, width: nat, height: nat)
    returns (ok: bool)
    requires src.Length >= Stride(format, width) * height && line.Length == Channels(format) * width
    requires enc.Sized() && 1 <= enc.quality <= 100 && enc.Ready() && enc.Coded() && enc.Loaded()
    requires enc.passNum == 2 && enc.lines == [] && enc.width == width && enc.bpp == Channels(format)
    requires src != line && {src, line} !! enc.Own()
    modifies enc.writer.Footprint(), enc.lastDc, enc.samples, enc.coefficients, enc.mcuLines, line
    modifies enc`blocks, enc`lines, enc`mcuYOfs, enc`passNum
    ensures ok && enc.Ready() && enc.Coded() && enc.Loaded() && enc.passNum == 2
    ensures enc.writer.head == old(enc.writer.head) && enc.lines == LinesOf(src[..], format, width, height)
  {
    hide Stride, SourceLine, LinesOf, JpegEncoder.Ready, JpegEncoder.Coded, JpegEncoder.Loaded;
    ghost var pixels := src[..];
    NoLines(pixels, format, width);
    ok := true;
    for i := 0 to height
      invariant ok && enc.Ready() && enc.Coded() && enc.Loaded() && enc.passNum == 2
      invariant enc.writer.head == old(enc.writer.head) && src[..] == pixels
      invariant |pixels| >= Stride(format, width) * i && enc.lines == LinesOf(pixels, format, width, i)
    {
      NextLine(pixels, format, width, i, height);
      ConvertLineFormat(src, format, line, width, i);
      enc.CodedIsValid();
      ok := enc.ProcessScanline(line);
      if !ok {
        return false;
      }
    }
  }

  /** `convert_image` */
  method ConvertImage(statics: Statics, src: array<Byte>, width: nat, height: nat, format: PixelFormat, quality: Byte,
                      stream: MemoryStream, bufferSize: nat) returns (ok: bool)
    requires width < 65536 && height < 65536 && bufferSize > 0 && src.Length >= Stride(format, width) * height
    requires statics.Valid() && stream.Valid() && stream.offered == [] && src != stream.outBuf
    requires statics.Repr() !! {stream, stream.outBuf}
    modifies statics.Repr(), stream, stream.outBuf
    ensures statics.Valid() && stream.Valid() && (ok <==> width > 0 && height > 0)
    ensures ok ==>
      && AreScanlines(PictureOf(src[..], format, width, height))
      && stream.offered == File(PictureOf(src[..], format, width, height), Clamped(quality))
  {
    hide Stride, SourceLine, LinesOf, Statics.Valid, JpegEncoder.Ready, JpegEncoder.Coded, JpegEncoder.Loaded,
      ScanAndEnd, Headers.Header, Writer.InScan, AreScanlines;
    var q := if quality == 0 then 1 else if quality > 100 then 100 else quality;
    var sub := if format.Grayscale? then YOnly else H2V2;
    ghost var pixels := src[..];
    PictureHasScanlines(pixels, format, width, height);
    var enc := Init(statics, stream, bufferSize, width, height, Channels(format), sub, q);
    if enc == null {
      return false;
    }
    ghost var own := enc.Own();
    var line := new Byte[Channels(format) * width];
    assert line !in own && src !in own;
    ok := FeedLines(enc, src, line, format, width, height);
    if !ok {
      return false;
    }
    enc.CodedIsValid();
    ok := enc.ProcessScanline(null);
    enc.ReadyIsValid();
  }

  const JPG_BUF_LEN := 128 * 1024

  /** The first `JPG_BUF_LEN` bytes of the file of a frame. */
  ghost predicate IsCutFile(s: seq<Byte>, src: seq<Byte>, format: PixelFormat, width: nat, height: nat, quality: nat)
    requires |src| >= Stride(format, width) * height
  {
    var p := PictureOf(src, format, width, height);
    AreScanlines(p) && s == FirstBytes(File(p, Clamped(quality)), JPG_BUF_LEN)
  }

  /** `fmt2jpg`: null on failure.  A file longer than the buffer is cut, and still counts as success. */
  method Fmt2Jpg(statics: Statics, src: array<Byte>, width: nat, height: nat, format: PixelFormat, quality: Byte,
                 bufferSize: nat) returns (out: array?<Byte>, outLen: nat)
    requires width < 65536 && height < 65536 && bufferSize > 0 && src.Length >= Stride(format, width) * height
    requires statics.Valid()
    modifies statics.Repr()
    ensures statics.Valid() && (out != null <==> width > 0 && height > 0)
    ensures out != null ==> outLen <= out.Length && IsCutFile(out[..outLen], src[..], format, width, height, quality)
  {
    hide Stride, Statics.Valid, PictureOf, File, AreScanlines;
    var jpgBuf := new Byte[JPG_BUF_LEN];
    var stream := new MemoryStream(jpgBuf);
    var ok := ConvertImage(statics, src, width, height, format, quality, stream, bufferSize);
    if !ok {
      return null, 0;
    }
    outLen := stream.GetSize();
    return jpgBuf, outLen;
  }
}
