/** The DMA branches of `writeColor` and `writePixels` (Adafruit_SPITFT): a cached fill buffer and chained
    descriptors against the plain loop that sends two bytes per pixel. */
module FillCache {
  import opened Basics
  import opened Bits

  /** A 16-bit colour. */
  type Colour = c: nat | c < 65536

  /** `__builtin_bswap16` */
  function Swap(c: Colour): Colour {
    c % 256 * 256 + c / 256
  }

  /** What a display expects of a pixel: the high byte, then the low byte. */
  function Pixel(c: Colour): seq<Byte> {
    [c / 256, c % 256]
  }

  lemma HighByteFirst(c: Colour)
    ensures |Pixel(c)| == 2 && 256 * (Pixel(c)[0] as nat) + Pixel(c)[1] as nat == c && Memory([Swap(c)]) == Pixel(c)
  {
    assert [Swap(c)][..0] == [];
  }

  /** What the plain loop sends: `n` times the colour. */
  function Copies(c: Colour, n: nat): (s: seq<Byte>)
    ensures |s| == 2 * n
  {
    if n == 0 then [] else Copies(c, n - 1) + Pixel(c)
  }

  /** What the plain loop sends for an array of colours. */
  function Pixels(colors: seq<Colour>): (s: seq<Byte>)
    ensures |s| == 2 * |colors|
  {
    if |colors| == 0 then [] else Pixels(colors[..|colors| - 1]) + Pixel(colors[|colors| - 1])
  }

  /** 16-bit words in the memory of a little-endian machine. */
  function Memory(words: seq<Colour>): (s: seq<Byte>)
    ensures |s| == 2 * |words|
  {
    if |words| == 0 then []
    else Memory(words[..|words| - 1]) + [words[|words| - 1] % 256, words[|words| - 1] / 256]
  }

  // ------------------------------------------------------------ descriptors

  /** Where a transfer reads: SRCADDR is the address behind the last byte when the source increments. */
  datatype Source = PixelBuf(end: nat) | OnePixel | Colors(end: nat)

  /** SRCADDR, SRCINC, BTCNT and DESCADDR; `next` is the index of the next descriptor. */
  datatype Descriptor = Descriptor(src: Source, srcInc: bool, btcnt: nat, next: Option<nat>)

  /** The memory the controller can read: the fill buffer, the one-pixel buffer, the caller's colours. */
  datatype Memories = Memories(pixels: seq<Colour>, one: Colour, colors: seq<Colour>)

  /** The bytes of one descriptor, in beats of eight bits; nothing for addresses outside the buffers. */
  function Transfer(d: Descriptor, m: Memories): seq<Byte> {
    match d.src
    case OnePixel => if d.srcInc then [] else seq(d.btcnt, _ => m.one % 256)
    case PixelBuf(end) =>
      if d.srcInc && d.btcnt <= end <= 2 * |m.pixels| then Memory(m.pixels)[end - d.btcnt..end] else []
    case Colors(end) =>
      if d.srcInc && d.btcnt <= end <= 2 * |m.colors| then Memory(m.colors)[end - d.btcnt..end] else []
  }

  /** The bytes of a chain; links lead forward. */
  function Chain(ds: seq<Descriptor>, k: nat, m: Memories): seq<Byte>
    decreases |ds| - k
  {
    if k >= |ds| then []
    else
      var next := ds[k].next;
      Transfer(ds[k], m) + if next.Some? && next.value > k then Chain(ds, next.value, m) else []
  }

  /** A length cut into transfers of at most `max` pixels. */
  function Chunks(len: nat, max: nat): (c: seq<nat>)
    requires max > 0
    ensures forall i :: 0 <= i < |c| ==> 0 < c[i] <= max
    ensures |c| == 0 <==> len == 0
  {
    if len == 0 then [] else if len <= max then [len] else [max] + Chunks(len - max, max)
  }

  function Sum(c: seq<nat>): nat {
    if |c| == 0 then 0 else c[0] + Sum(c[1..])
  }

  lemma {:induction false} ChunkCount(len: nat, max: nat)
    requires max > 0
    ensures |Chunks(len, max)| == (len + max - 1) / max
  {
    if len == 0 {
      DivIs(max - 1, max, 0, max - 1);
    } else if len <= max {
      DivIs(len + max - 1, max, 1, len - 1);
    } else {
      ChunkCount(len - max, max);
      var q := (len - max + max - 1) / max;
      DivStep(len - 1, max, q);
    }
  }

  lemma DivStep(n: nat, d: nat, q: nat)
    requires d > 0 && q == n / d
    ensures (n + d) / d == q + 1
  {
    var rest := n % d;
    assert n == q * d + rest && n + d == (q + 1) * d + rest;
    DivIs(n + d, d, q + 1, rest);
  }

  lemma {:induction false} ChunkSum(len: nat, max: nat)
    requires max > 0
    ensures Sum(Chunks(len, max)) == len
  {
    if len > max {
      ChunkSum(len - max, max);
      assert Chunks(len, max)[1..] == Chunks(len - max, max);
    } else if len > 0 {
      assert [len][1..] == [];
    }
  }

  lemma {:induction false} CopiesJoin(c: Colour, m: nat, n: nat)
    ensures Copies(c, m) + Copies(c, n) == Copies(c, m + n)
  {
    if n == 0 {
      assert Copies(c, m) + [] == Copies(c, m);
    } else {
      CopiesJoin(c, m, n - 1);
      assert Copies(c, m) + (Copies(c, n - 1) + Pixel(c)) == Copies(c, m) + Copies(c, n - 1) + Pixel(c);
    }
  }

  /** A chain of transfers that each send copies of one colour sends copies of that colour. */
  lemma {:induction false} ChainOfCopies(ds: seq<Descriptor>, m: Memories, chunks: seq<nat>, c: Colour, k: nat)
    requires k < |chunks| <= |ds|
    requires forall e :: 0 <= e < |chunks| ==>
      Transfer(ds[e], m) == Copies(c, chunks[e]) && ds[e].next == if e == |chunks| - 1 then None else Some(e + 1)
    ensures Chain(ds, k, m) == Copies(c, Sum(chunks[k..]))
    decreases |chunks| - k
  {
    hide Transfer, Copies;
    assert chunks[k..][1..] == chunks[k + 1..] && chunks[k..][0] == chunks[k];
    if k < |chunks| - 1 {
      ChainOfCopies(ds, m, chunks, c, k + 1);
      CopiesJoin(c, chunks[k], Sum(chunks[k + 1..]));
    } else {
      assert chunks[k + 1..] == [];
      assert Transfer(ds[k], m) + [] == Transfer(ds[k], m);
    }
  }

  lemma {:induction false} MemoryOfFill(words: seq<Colour>, c: Colour)
    requires forall i :: 0 <= i < |words| ==> words[i] == Swap(c)
    ensures Memory(words) == Copies(c, |words|)
  {
    if |words| > 0 {
      MemoryOfFill(words[..|words| - 1], c);
      assert Swap(c) % 256 == c / 256 && Swap(c) / 256 == c % 256;
    }
  }

  lemma {:induction false} MemoryFront(words: seq<Colour>, n: nat)
    requires n <= |words|
    ensures Memory(words)[..2 * n] == Memory(words[..n])
  {
    if n < |words| {
      var front := words[..|words| - 1];
      MemoryFront(front, n);
      assert front[..n] == words[..n];
      assert Memory(words)[..2 * n] == Memory(front)[..2 * n];
    } else {
      assert words[..n] == words && Memory(words)[..2 * n] == Memory(words);
    }
  }

  lemma FillTransfer(m: Memories, c: Colour, n: nat, filled: nat)
    requires n <= filled <= |m.pixels| && forall i :: 0 <= i < filled ==> m.pixels[i] == Swap(c)
    ensures Transfer(Descriptor(PixelBuf(2 * n), true, 2 * n, None), m) == Copies(c, n)
  {
    hide Swap, Copies;
    MemoryFront(m.pixels, n);
    MemoryOfFill(m.pixels[..n], c);
  }

  lemma {:induction false} OneTransfer(m: Memories, c: Colour, n: nat)
    requires m.one == c && c / 256 == c % 256
    ensures Transfer(Descriptor(OnePixel, false, 2 * n, None), m) == Copies(c, n)
  {
    if n > 0 {
      OneTransfer(m, c, n - 1);
      assert seq(2 * n, _ => c % 256) == seq(2 * (n - 1), _ => c % 256) + [c % 256, c % 256];
    }
  }

  lemma NextIrrelevant(d: Descriptor, m: Memories, next: Option<nat>)
    ensures Transfer(d.(next := next), m) == Transfer(d, m)
  {
  }

  /** BTCNT holds 16 bits. */
  const MAX_PIXELS: nat := 32767

  class Spitft {
    const maxFillLen: nat
    const pixelBuf: array<Colour>
    const descriptor: array<Descriptor>
    var onePixelBuf: Colour
    var lastFillColor: Colour
    var lastFillLen: nat
    /** Every byte that went to the display. */
    ghost var sent: seq<Byte>

    ghost predicate Valid()
      reads this, pixelBuf
    {
      && 0 < maxFillLen <= MAX_PIXELS && maxFillLen % 4 == 0 && pixelBuf.Length == maxFillLen && descriptor.Length >= 2
      && lastFillLen <= maxFillLen && lastFillLen % 2 == 0
      && forall i :: 0 <= i < lastFillLen ==> pixelBuf[i] == Swap(lastFillColor)
    }

    /** `begin`: two scanlines of the longer side, rounded up to an even length, and descriptors for a screen. */
    constructor (width: nat, height: nat)
      requires 3 <= width && 3 <= height && width <= 16382 && height <= 16382
      ensures Valid() && fresh(pixelBuf) && fresh(descriptor) && sent == []
      ensures width * height <= descriptor.Length * maxFillLen
    {
      var major := if width > height then width else height;
      major := major + major % 2;
      var numDescriptors := (width * height + (2 * major - 1)) / (2 * major);
      ScreenFits(width, height, major, numDescriptors);
      maxFillLen, pixelBuf := major * 2, new Colour[major * 2];
      descriptor := new Descriptor[numDescriptors](_ => Descriptor(OnePixel, true, 0, None));
      onePixelBuf, lastFillColor, lastFillLen := 0, 0, 0;
      sent := [];
    }

    ghost function Reads(colors: seq<Colour>): Memories
      reads this, pixelBuf
    {
      Memories(pixelBuf[..], onePixelBuf, colors)
    }

    /** Descriptor 0 is handed to the controller, which follows the chain to its end. */
    ghost method StartJob(colors: seq<Colour>)
      modifies this`sent
      ensures sent == old(sent) + Chain(descriptor[..], 0, Reads(colors))
    {
      sent := sent + Chain(descriptor[..], 0, Reads(colors));
    }

    /** The plain loop. */
    method WritePlain(color: Colour, len: nat)
      modifies this`sent
      ensures sent == old(sent) + Copies(color, len)
    {
      hide Pixel;
      for i := 0 to len
        invariant sent == old(sent) + Copies(color, i)
      {
        sent := sent + Pixel(color);
      }
    }

    /** Fill the buffer with a colour, or what is missing of it. */
    method Fill(color: Colour, len: nat)
      requires Valid() && 0 < len
      modifies pixelBuf, this`lastFillColor, this`lastFillLen
      ensures Valid() && lastFillColor == color && (len <= lastFillLen || lastFillLen == maxFillLen)
    {
      hide Swap;
      var shorter := if len < maxFillLen then len else maxFillLen;
      var fillEnd := (shorter + 1) / 2;
      assert shorter <= 2 * fillEnd <= maxFillLen;
      if color == lastFillColor {
        if len > lastFillLen {
          FillPairs(color, lastFillLen / 2, fillEnd);
          lastFillLen := 2 * fillEnd;
        }
      } else {
        FillPairs(color, 0, fillEnd);
        lastFillLen := 2 * fillEnd;
        lastFillColor := color;
      }
    }

    /** Two pixels at a time. */
    method FillPairs(color: Colour, fillStart: nat, fillEnd: nat)
      requires fillStart <= fillEnd && 2 * fillEnd <= pixelBuf.Length
      requires forall i :: 0 <= i < 2 * fillStart ==> pixelBuf[i] == Swap(color)
      modifies pixelBuf
      ensures forall i :: 0 <= i < 2 * fillEnd ==> pixelBuf[i] == Swap(color)
    {
      for i := fillStart to fillEnd
        invariant forall k :: 0 <= k < 2 * i ==> pixelBuf[k] == Swap(color)
      {
        pixelBuf[2 * i], pixelBuf[2 * i + 1] := Swap(color), Swap(color);
      }
    }

    /** The descriptor loop of `writeColor`. */
    method Describe(onePixel: bool, total: nat, max: nat)
      requires 0 < total && 0 < max && |Chunks(total, max)| <= descriptor.Length
      modifies descriptor
      ensures Described(descriptor[..], onePixel, Chunks(total, max))
    {
      hide Piece, Chunks;
      ghost var chunks := Chunks(total, max);
      ChunkCount(total, max);
      NoChunks(total, max);
      var len, numDescriptors := total, (total + max - 1) / max;
      assert chunks[0..] == chunks;
      for d := 0 to numDescriptors
        invariant 0 <= len <= total && d <= |chunks| && Chunks(len, max) == chunks[d..]
        invariant forall e :: 0 <= e < d ==> descriptor[e] == Piece(onePixel, chunks[e]).(next := Some(e + 1))
      {
        NoChunks(len, max);
        ChunkStep(len, max);
        var count := if len < max then len else max;
        descriptor[d] := Piece(onePixel, count).(next := Some(d + 1));
        len := len - count;
      }
      descriptor[numDescriptors - 1] := descriptor[numDescriptors - 1].(next := None);
    }

    /** `writeColor`: whatever was written before, `len` pixels of the colour go out. */
    method WriteColor(color: Colour, len: nat)
      requires Valid() && len <= descriptor.Length * maxFillLen
      modifies this, pixelBuf, descriptor
      ensures Valid() && sent == old(sent) + Copies(color, len)
    {
      hide Swap, Chain, Copies, Transfer;
      if len == 0 {
        NoCopies(color);
        return;
      }
      var hi, lo := color / 256, color % 256;
      if len < 16 {
        WritePlain(color, len);
        return;
      }
      ChunksFit(len, maxFillLen, descriptor.Length);
      if hi == lo {
        onePixelBuf := color;
        PiecesOfOne(Reads([]), color);
        ChunksFit(len, MAX_PIXELS, descriptor.Length);
        Describe(true, len, MAX_PIXELS);
        DescribedChain(descriptor[..], Reads([]), true, len, MAX_PIXELS, color);
      } else {
        Fill(color, len);
        PiecesOfFill(Reads([]), color, lastFillLen);
        Describe(false, len, maxFillLen);
        DescribedChain(descriptor[..], Reads([]), false, len, maxFillLen, color);
      }
      StartJob([]);
    }

    /** One scanline into one half of the buffer. */
    method FillHalf(colors: array<Colour>, at: nat, start: nat, count: nat)
      requires at + count <= colors.Length && start + count <= pixelBuf.Length && colors != pixelBuf
      modifies pixelBuf
      ensures forall j :: start <= j < start + count ==> pixelBuf[j] == Swap(colors[at + (j - start)])
    {
      hide Swap;
      for i := 0 to count
        invariant forall j :: start <= j < start + i ==> pixelBuf[j] == Swap(colors[at + (j - start)])
      {
        pixelBuf[start + i] := Swap(colors[at + i]);
      }
    }

    /** The little-endian branch of `writePixels`: scanlines through two halves of the fill buffer in turn.
        While one half is filled the controller may still be reading the other one. */
    method WriteSwapped(colors: array<Colour>, total: nat)
      requires 0 < maxFillLen <= MAX_PIXELS && maxFillLen % 4 == 0 && pixelBuf.Length == maxFillLen
      requires descriptor.Length >= 2 && colors != pixelBuf && 0 < total <= colors.Length
      modifies this`sent, pixelBuf, descriptor
      ensures sent == old(sent) + Pixels(colors[..total])
    {
      hide Swap, Pixels, Memory, Transfer;
      var maxSpan, pixelBufIdx := maxFillLen / 2, 0;
      var len, at := total, 0;
      ghost var inFlight := 2;
      NoPixels();
      while len > 0
        invariant 0 <= at && 0 <= len && at + len == total && 0 <= pixelBufIdx <= 1 && inFlight != pixelBufIdx
        invariant sent == old(sent) + Pixels(colors[..at])
        decreases len
      {
        var count := if len < maxSpan then len else maxSpan;
        var start := if pixelBufIdx == 0 then 0 else maxSpan;
        assert inFlight != pixelBufIdx;
        FillHalf(colors, at, start, count);
        descriptor[pixelBufIdx] := Descriptor(PixelBuf(2 * (start + count)), true, 2 * count, None);
        inFlight := pixelBufIdx;
        SwappedTransfer(pixelBuf[..], start, colors[at..at + count], onePixelBuf, colors[..]);
        NextPixels(sent, old(sent), colors[..], at, count);
        sent := sent + Transfer(descriptor[pixelBufIdx], Reads(colors[..]));
        pixelBufIdx := 1 - pixelBufIdx;
        len, at := len - count, at + count;
      }
    }

    /** The big-endian branch: the caller's memory as it is, in chained transfers. */
    method WriteRaw(colors: array<Colour>, total: nat)
      requires 0 < total <= colors.Length && |Chunks(total, MAX_PIXELS)| <= descriptor.Length
      modifies this`sent, descriptor
      ensures sent == old(sent) + Memory(colors[..total])
    {
      hide Chunks, Memory, Chain, Transfer, Sum;
      ghost var chunks := Chunks(total, MAX_PIXELS);
      ChunkCount(total, MAX_PIXELS);
      NoChunks(total, MAX_PIXELS);
      var len, at, numDescriptors := total, 0, (total + (MAX_PIXELS - 1)) / MAX_PIXELS;
      assert chunks[0..] == chunks && chunks[..0] == [];
      NoSum();
      for d := 0 to numDescriptors
        invariant 0 <= at && 0 <= len && at + len == total && d <= |chunks| && Chunks(len, MAX_PIXELS) == chunks[d..]
        invariant sent == old(sent) && at == Sum(chunks[..d])
        invariant forall e :: 0 <= e < d ==> descriptor[e] == RawPiece(chunks, e).(next := Some(e + 1))
      {
        NoChunks(len, MAX_PIXELS);
        ChunkStep(len, MAX_PIXELS);
        var count := if len < MAX_PIXELS then len else MAX_PIXELS;
        SumNext(chunks, d);
        descriptor[d] := Descriptor(Colors(2 * (at + count)), true, 2 * count, Some(d + 1));
        len, at := len - count, at + count;
      }
      descriptor[numDescriptors - 1] := descriptor[numDescriptors - 1].(next := None);
      ChunkSum(total, MAX_PIXELS);
      RawChain(descriptor[..], Reads(colors[..]), chunks, 0);
      assert chunks[..|chunks|] == chunks;
      MemoryFront(colors[..], total);
      assert colors[..][..total] == colors[..total];
      assert Memory(colors[..])[0..2 * total] == Memory(colors[..])[..2 * total];
      StartJob(colors[..]);
    }

    /** `writePixels`: the pixels in display order, or the memory as it is when it is in that order already.  The
        fill cache is forgotten. */
    method WritePixels(colors: array<Colour>, len: nat, bigEndian: bool)
      requires Valid() && len <= colors.Length && colors != pixelBuf
      requires bigEndian ==> len <= descriptor.Length * MAX_PIXELS
      modifies this, pixelBuf, descriptor
      ensures Valid() && sent == old(sent) + if bigEndian then Memory(colors[..len]) else Pixels(colors[..len])
    {
      hide Swap, Pixels, Memory, Chunks;
      if len == 0 {
        NoPixels();
        assert colors[..0] == [];
        return;
      }
      if !bigEndian {
        WriteSwapped(colors, len);
      } else {
        ChunksFit(len, MAX_PIXELS, descriptor.Length);
        WriteRaw(colors, len);
      }
      lastFillColor, lastFillLen := 0, 0;
    }
  }

  lemma NextPixels(now: seq<Byte>, before: seq<Byte>, colors: seq<Colour>, at: nat, count: nat)
    requires at + count <= |colors| && now == before + Pixels(colors[..at])
    ensures now + Pixels(colors[at..at + count]) == before + Pixels(colors[..at + count])
  {
    hide Pixels;
    PixelsJoin(colors[..at], colors[at..at + count]);
    assert colors[..at] + colors[at..at + count] == colors[..at + count];
  }

  lemma NoPixels()
    ensures Pixels([]) == [] && Memory([]) == []
  {
  }

  lemma NoSum()
    ensures Sum([]) == 0
  {
  }

  lemma {:induction false} PixelsJoin(a: seq<Colour>, b: seq<Colour>)
    ensures Pixels(a + b) == Pixels(a) + Pixels(b)
  {
    if |b| == 0 {
      assert a + b == a;
    } else {
      PixelsJoin(a, b[..|b| - 1]);
      assert (a + b)[..|a + b| - 1] == a + b[..|b| - 1];
    }
  }

  lemma {:induction false} MemoryJoin(a: seq<Colour>, b: seq<Colour>)
    ensures Memory(a + b) == Memory(a) + Memory(b)
  {
    if |b| == 0 {
      assert a + b == a;
    } else {
      MemoryJoin(a, b[..|b| - 1]);
      assert (a + b)[..|a + b| - 1] == a + b[..|b| - 1];
    }
  }

  lemma Pieces(words: seq<Colour>, a: nat, b: nat)
    requires a <= b <= |words|
    ensures words[..a] + words[a..b] + words[b..] == words
  {
    var front := words[..b];
    assert front == front[..a] + front[a..];
    assert words == front + words[b..];
  }

  lemma MemoryMiddle(words: seq<Colour>, a: nat, b: nat, p: seq<Colour>, q: seq<Colour>, r: seq<Colour>)
    requires words == p + q + r && |p| == a && a + |q| == b
    ensures Memory(words)[2 * a..2 * b] == Memory(q)
  {
    hide Memory;
    MemoryJoin(p, q);
    MemoryJoin(p + q, r);
    Middle(2 * a, 2 * b, Memory(p), Memory(q), Memory(r));
  }

  lemma Middle(i: nat, j: nat, x: seq<Byte>, y: seq<Byte>, z: seq<Byte>)
    requires |x| == i && j == i + |y|
    ensures (x + y + z)[i..j] == y
  {
  }

  lemma {:induction false} MemoryOfSwapped(words: seq<Colour>, colors: seq<Colour>)
    requires |words| == |colors| && forall i :: 0 <= i < |words| ==> words[i] == Swap(colors[i])
    ensures Memory(words) == Pixels(colors)
  {
    if |words| > 0 {
      var n := |words| - 1;
      MemoryOfSwapped(words[..n], colors[..n]);
      assert Swap(colors[n]) % 256 == colors[n] / 256 && Swap(colors[n]) / 256 == colors[n] % 256;
    }
  }

  lemma SwappedTransfer(pixels: seq<Colour>, start: nat, colors: seq<Colour>, one: Colour, all: seq<Colour>)
    requires start + |colors| <= |pixels| && forall j :: start <= j < start + |colors| ==>
      pixels[j] == Swap(colors[j - start])
    ensures Transfer(Descriptor(PixelBuf(2 * (start + |colors|)), true, 2 * |colors|, None), Memories(pixels, one, all))
         == Pixels(colors)
  {
    hide Swap, Memory, Pixels;
    var end := start + |colors|;
    Pieces(pixels, start, end);
    MemoryMiddle(pixels, start, end, pixels[..start], pixels[start..end], pixels[end..]);
    MemoryOfSwapped(pixels[start..end], colors);
  }

  /** Link `e` of a chain through the caller's memory. */
  function RawPiece(chunks: seq<nat>, e: nat): Descriptor
    requires e < |chunks|
  {
    Descriptor(Colors(2 * Sum(chunks[..e + 1])), true, 2 * chunks[e], None)
  }

  lemma {:induction false} SumNext(c: seq<nat>, e: nat)
    requires e < |c|
    ensures Sum(c[..e + 1]) == Sum(c[..e]) + c[e]
  {
    if e == 0 {
      assert c[..1][1..] == [] && c[..0] == [];
    } else {
      SumNext(c[1..], e - 1);
      assert c[..e + 1][1..] == c[1..][..e] && c[..e][1..] == c[1..][..e - 1];
    }
  }

  lemma {:induction false} SumFits(c: seq<nat>, e: nat)
    requires e <= |c|
    ensures Sum(c[..e]) <= Sum(c)
    decreases |c| - e
  {
    if e < |c| {
      SumNext(c, e);
      SumFits(c, e + 1);
    } else {
      assert c[..e] == c;
    }
  }

  lemma {:induction false} RawChain(ds: seq<Descriptor>, m: Memories, chunks: seq<nat>, k: nat)
    requires k < |chunks| <= |ds| && Sum(chunks) <= |m.colors|
    requires forall e :: 0 <= e < |chunks| ==>
      ds[e] == RawPiece(chunks, e).(next := if e == |chunks| - 1 then None else Some(e + 1))
    ensures Sum(chunks[..k]) <= Sum(chunks)
    ensures Chain(ds, k, m) == Memory(m.colors)[2 * Sum(chunks[..k])..2 * Sum(chunks)]
    decreases |chunks| - k
  {
    hide Memory, Sum, Chain, Transfer, RawPiece;
    SumNext(chunks, k);
    SumFits(chunks, k);
    SumFits(chunks, k + 1);
    RawTransfer(m, chunks, k, ds[k].next);
    ChainStep(ds, k, m);
    if k < |chunks| - 1 {
      RawChain(ds, m, chunks, k + 1);
    } else {
      assert chunks[..k + 1] == chunks;
    }
  }

  lemma ChainStep(ds: seq<Descriptor>, k: nat, m: Memories)
    requires k < |ds|
    ensures ds[k].next == None ==> Chain(ds, k, m) == Transfer(ds[k], m)
    ensures ds[k].next == Some(k + 1) ==> Chain(ds, k, m) == Transfer(ds[k], m) + Chain(ds, k + 1, m)
  {
    hide Transfer;
  }

  lemma RawTransfer(m: Memories, chunks: seq<nat>, k: nat, next: Option<nat>)
    requires k < |chunks| && Sum(chunks[..k + 1]) <= |m.colors| && Sum(chunks[..k + 1]) == Sum(chunks[..k]) + chunks[k]
    ensures Transfer(RawPiece(chunks, k).(next := next), m)
      == Memory(m.colors)[2 * Sum(chunks[..k])..2 * Sum(chunks[..k + 1])]
  {
    hide Memory, Sum;
  }

  /** One link of `writeColor`: from the one-pixel buffer without increment, or from the start of the fill buffer. */
  function Piece(onePixel: bool, count: nat): Descriptor {
    if onePixel then Descriptor(OnePixel, false, 2 * count, None)
    else Descriptor(PixelBuf(2 * count), true, 2 * count, None)
  }

  /** The first descriptors are the pieces, each linked to the next one. */
  ghost predicate Described(ds: seq<Descriptor>, onePixel: bool, chunks: seq<nat>) {
    && |chunks| <= |ds|
    && forall e :: 0 <= e < |chunks| ==>
         ds[e] == Piece(onePixel, chunks[e]).(next := if e == |chunks| - 1 then None else Some(e + 1))
  }

  lemma NoChunks(len: nat, max: nat)
    requires max > 0
    ensures |Chunks(len, max)| == 0 <==> len == 0
  {
  }

  lemma ChunkStep(len: nat, max: nat)
    requires max > 0 && len > 0
    ensures var count := if len < max then len else max;
      |Chunks(len, max)| > 0 && Chunks(len, max)[0] == count && Chunks(len, max)[1..] == Chunks(len - count, max)
  {
  }

  lemma {:induction false} ChunkBound(len: nat, max: nat, e: nat)
    requires max > 0 && e < |Chunks(len, max)|
    ensures Chunks(len, max)[e] <= max && Chunks(len, max)[e] <= len
  {
    if len > max && e > 0 {
      ChunkBound(len - max, max, e - 1);
    }
  }

  lemma DescribedChain(ds: seq<Descriptor>, m: Memories, onePixel: bool, len: nat, max: nat, c: Colour)
    requires 0 < len && 0 < max && Described(ds, onePixel, Chunks(len, max))
    requires forall n: nat {:trigger Copies(c, n)} :: n <= max && n <= len ==>
      Transfer(Piece(onePixel, n), m) == Copies(c, n)
    ensures Chain(ds, 0, m) == Copies(c, len)
  {
    hide Transfer, Copies, Chain, Piece, Chunks;
    var chunks := Chunks(len, max);
    NoChunks(len, max);
    ChunkSum(len, max);
    assert chunks[0..] == chunks;
    forall e | 0 <= e < |chunks|
      ensures Transfer(ds[e], m) == Copies(c, chunks[e])
        && ds[e].next == if e == |chunks| - 1 then None else Some(e + 1)
    {
      ChunkBound(len, max, e);
      NextIrrelevant(Piece(onePixel, chunks[e]), m, ds[e].next);
    }
    ChainOfCopies(ds, m, chunks, c, 0);
  }

  lemma NoCopies(c: Colour)
    ensures Copies(c, 0) == []
  {
  }

  lemma PiecesOfOne(m: Memories, c: Colour)
    requires m.one == c && c / 256 == c % 256
    ensures forall n: nat {:trigger Copies(c, n)} :: Transfer(Piece(true, n), m) == Copies(c, n)
  {
    hide Transfer, Copies;
    forall n: nat ensures Transfer(Piece(true, n), m) == Copies(c, n) {
      OneTransfer(m, c, n);
    }
  }

  lemma PiecesOfFill(m: Memories, c: Colour, filled: nat)
    requires filled <= |m.pixels| && forall i :: 0 <= i < filled ==> m.pixels[i] == Swap(c)
    ensures forall n: nat {:trigger Copies(c, n)} :: n <= filled ==> Transfer(Piece(false, n), m) == Copies(c, n)
  {
    hide Transfer, Copies, Swap;
    forall n: nat | n <= filled ensures Transfer(Piece(false, n), m) == Copies(c, n) {
      FillTransfer(m, c, n, filled);
    }
  }

  lemma {:induction false} ChunksFit(len: nat, max: nat, n: nat)
    requires max > 0 && len <= n * max
    ensures |Chunks(len, max)| <= n
    decreases n
  {
    if len > max {
      assert n * max == (n - 1) * max + max;
      ChunksFit(len - max, max, n - 1);
    }
  }

  lemma ScreenFits(width: nat, height: nat, major: nat, n: nat)
    requires 3 <= width && 3 <= height && major % 2 == 0 && width <= major && height <= major
    requires major <= width + 1 || major <= height + 1
    requires n == (width * height + (2 * major - 1)) / (2 * major)
    ensures width * height <= n * (2 * major) && n >= 2
  {
    var area, d := width * height, 2 * major;
    var rest := (area + d - 1) % d;
    assert area + d - 1 == n * d + rest;
    Product(width, height);
    Product(height, width);
    AtMostOne(n, d);
  }

  lemma Product(a: nat, b: nat)
    requires b >= 3
    ensures a * b >= 3 * a && a * b == b * a
  {
    assert a * b == a * (b - 3) + 3 * a;
  }

  lemma AtMostOne(n: nat, d: nat)
    ensures n <= 1 ==> n * d <= d
  {
  }
}
