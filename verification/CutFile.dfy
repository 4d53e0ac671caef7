/** A file that `fmt2jpg` had to cut: no proper prefix of an encoded file decodes, so success of `fmt2jpg` means a
    readable file exactly when the file fits its buffer.  The size of a frame alone often decides that: small
    frames always fit and large ones never do. */
module CutFile {
  import opened Basics
  import opened Bits
  import opened Huffman
  import opened Stuffing
  import opened Scan
  import opened Quantise
  import opened Picture
  import opened Output
  import opened Headers
  import opened Encoder
  import opened FileRoundTrip
  import opened FileSize
  import opened ToJpg
  import D = FileDecoder

  /** Data of which no proper prefix can be read, whatever the tables. */
  ghost predicate NeedsEnd(x: seq<Byte>) {
    forall k: nat, st {:trigger D.ReadSegments(x[..k], st)} :: k < |x| && D.WellFormed(st) ==>
      D.ReadSegments(x[..k], st) == None
  }

  lemma CutInside(marker: Byte, payload: seq<Byte>, rest: seq<Byte>, k: nat, st: D.State)
    requires |payload| < 65534 && k < |payload| + 4 && D.WellFormed(st)
    ensures D.ReadSegments((Segment(marker, payload) + rest)[..k], st) == None
  {
    hide D.Apply, D.ReadScan;
    var s := (Segment(marker, payload) + rest)[..k];
    SegmentParts(marker, payload, rest);
    if |s| >= 4 {
      assert s[2] == (Segment(marker, payload) + rest)[2] && s[3] == (Segment(marker, payload) + rest)[3];
    }
  }

  /** A segment in front keeps the need for the end. */
  lemma SegmentNeedsEnd(marker: Byte, payload: seq<Byte>, rest: seq<Byte>)
    requires |payload| < 65534 && marker != 0xDA && NeedsEnd(rest)
    ensures NeedsEnd(Segment(marker, payload) + rest)
  {
    hide Segment, D.Apply, D.WellFormed;
    var x, m := Segment(marker, payload) + rest, |payload| + 4;
    SegmentLength(marker, payload);
    forall k: nat, st | k < |x| && D.WellFormed(st) ensures D.ReadSegments(x[..k], st) == None {
      if k < m {
        CutInside(marker, payload, rest, k, st);
      } else {
        var front := rest[..k - m];
        assert x[..k] == Segment(marker, payload) + front;
        SegmentParts(marker, payload, front);
        D.ApplyKeepsWellFormed(marker, payload, st);
      }
    }
  }

  lemma SegmentLength(marker: Byte, payload: seq<Byte>)
    ensures |Segment(marker, payload)| == |payload| + 4
  {
  }

  /** Cut entropy-coded data does not reach a marker. */
  lemma {:induction false} UnstuffCut(s: seq<Byte>, k: nat)
    requires k < |Stuff(s)| + 2
    ensures |Unstuff((Stuff(s) + Marker(0xD9))[..k]).1| < 2
  {
    hide Stuff, StuffByte, Unstuff;
    var all := Stuff(s) + Marker(0xD9);
    if |s| == 0 {
      assert s == [];
      NothingStuffed(k);
    } else {
      StuffFirst(s);
      var front := StuffByte(s[0]);
      StuffByteLength(s[0]);
      assert all == front + (Stuff(s[1..]) + Marker(0xD9));
      if k < |front| {
        assert all[..k] == front[..k];
        CutByte(s[0], k);
      } else {
        UnstuffCut(s[1..], k - |front|);
        assert all[..k] == front + (Stuff(s[1..]) + Marker(0xD9))[..k - |front|];
        UnstuffStep(s[0], (Stuff(s[1..]) + Marker(0xD9))[..k - |front|]);
      }
    }
  }

  lemma NothingStuffed(k: nat)
    requires k < |Stuff([])| + 2
    ensures Stuff([]) == [] && |Unstuff((Stuff([]) + Marker(0xD9))[..k]).1| < 2
  {
    assert (Stuff([]) + Marker(0xD9))[..k] == if k == 0 then [] else [0xFF];
  }

  lemma StuffByteLength(b: Byte)
    ensures 1 <= |StuffByte(b)| <= 2 && StuffByte(b)[0] == b && (|StuffByte(b)| == 2 ==> b == 0xFF)
  {
  }

  lemma CutByte(b: Byte, k: nat)
    requires k < |StuffByte(b)|
    ensures |Unstuff(StuffByte(b)[..k]).1| < 2
  {
    assert StuffByte(b)[..k] == if k == 0 then [] else [0xFF];
  }

  lemma ScanNeedsEnd(payload: seq<Byte>, bits: seq<bool>)
    requires |payload| < 65534
    ensures NeedsEnd(Segment(0xDA, payload) + (ScanBytes(bits) + Marker(0xD9)))
  {
    hide Segment, D.Apply, D.WellFormed, Unstuff, D.Select;
    var data := ScanBytes(bits) + Marker(0xD9);
    var x, m := Segment(0xDA, payload) + data, |payload| + 4;
    SegmentLength(0xDA, payload);
    forall k: nat, st | k < |x| && D.WellFormed(st) ensures D.ReadSegments(x[..k], st) == None {
      if k < m {
        CutInside(0xDA, payload, data, k, st);
      } else {
        var front := data[..k - m];
        assert x[..k] == Segment(0xDA, payload) + front;
        ReadSosSegment(payload, front, st);
        UnstuffCut(Pack(bits + Ones(7)), k - m);
      }
    }
  }

  lemma HeaderNeedsEnd(sub: Subsampling, quality: nat, width: nat, height: nat, bits: seq<bool>)
    requires 1 <= quality <= 100
    ensures NeedsEnd(App0()
      + (Dqt(sub, quality) + (Sof(sub, width, height) + (Dhts(sub) + (Sos(sub) + (ScanBytes(bits) + Marker(0xD9)))))))
  {
    hide NeedsEnd, App0, Dqt, Sof, Dhts, Sos, ScanBytes;
    SosNeedsEnd(sub, bits);
    var s5 := Sos(sub) + (ScanBytes(bits) + Marker(0xD9));
    DhtsNeedEnd(sub, s5);
    SofNeedsEnd(sub, width, height, Dhts(sub) + s5);
    DqtNeedsEnd(sub, quality, Sof(sub, width, height) + (Dhts(sub) + s5));
    App0NeedsEnd(Dqt(sub, quality) + (Sof(sub, width, height) + (Dhts(sub) + s5)));
  }

  lemma SosNeedsEnd(sub: Subsampling, bits: seq<bool>)
    ensures NeedsEnd(Sos(sub) + (ScanBytes(bits) + Marker(0xD9)))
  {
    hide NeedsEnd, ScanBytes;
    var n := ComponentCount(sub);
    ScanComponentList();
    var payload := [n] + ScanComponents(n) + ScanTail();
    assert Sos(sub) == Segment(0xDA, payload);
    ScanNeedsEnd(payload, bits);
  }

  lemma DhtNeedsEnd(t: Spec, id: Byte, rest: seq<Byte>)
    requires Whole(t) && |t.val| <= 256 && NeedsEnd(rest)
    ensures NeedsEnd(Dht(t, id) + rest)
  {
    hide NeedsEnd, Total;
    var payload := [id] + Counts(t, 16) + t.val;
    assert t.val[..Total(t.bits, 16)] == t.val;
    assert Dht(t, id) == Segment(0xC4, payload);
    SegmentNeedsEnd(0xC4, payload, rest);
  }

  lemma DhtsNeedEnd(sub: Subsampling, rest: seq<Byte>)
    requires NeedsEnd(rest)
    ensures NeedsEnd(Dhts(sub) + rest)
  {
    hide NeedsEnd, Dht, TableAt, Whole;
    AllTransmittable();
    StandardSizes();
    var d0, d1, d2, d3 := Dht(TableAt(0), 0x00), Dht(TableAt(2), 0x10), Dht(TableAt(1), 0x01), Dht(TableAt(3), 0x11);
    if sub.YOnly? {
      DhtNeedsEnd(TableAt(2), 0x10, rest);
      DhtNeedsEnd(TableAt(0), 0x00, d1 + rest);
      assert Dhts(sub) + rest == d0 + (d1 + rest);
    } else {
      DhtNeedsEnd(TableAt(3), 0x11, rest);
      DhtNeedsEnd(TableAt(1), 0x01, d3 + rest);
      DhtNeedsEnd(TableAt(2), 0x10, d2 + (d3 + rest));
      DhtNeedsEnd(TableAt(0), 0x00, d1 + (d2 + (d3 + rest)));
      FourParts(d0, d1, d2, d3, rest);
      assert Dhts(sub) == d0 + d1 + (d2 + d3);
    }
  }

  lemma SofNeedsEnd(sub: Subsampling, width: nat, height: nat, rest: seq<Byte>)
    requires NeedsEnd(rest)
    ensures NeedsEnd(Sof(sub, width, height) + rest)
  {
    hide NeedsEnd, FrameComponents;
    var n := ComponentCount(sub);
    ReadComponents(sub);
    var payload := [8] + Dimensions(width, height) + [n] + FrameComponents(sub, n);
    assert Sof(sub, width, height) == Segment(0xC0, payload);
    SegmentNeedsEnd(0xC0, payload, rest);
  }

  lemma DqtNeedsEnd(sub: Subsampling, quality: nat, rest: seq<Byte>)
    requires 1 <= quality <= 100 && NeedsEnd(rest)
    ensures NeedsEnd(Dqt(sub, quality) + rest)
  {
    hide NeedsEnd, DqtSegment, Table;
    var first, second := DqtSegment(0, Table(false, quality)), DqtSegment(1, Table(true, quality));
    if sub.YOnly? {
      DqtSegmentNeedsEnd(0, Table(false, quality), rest);
      assert Dqt(sub, quality) + rest == first + rest;
    } else {
      DqtSegmentNeedsEnd(1, Table(true, quality), rest);
      DqtSegmentNeedsEnd(0, Table(false, quality), second + rest);
      assert Dqt(sub, quality) + rest == first + (second + rest);
    }
  }

  lemma DqtSegmentNeedsEnd(i: Byte, table: seq<Byte>, rest: seq<Byte>)
    requires |table| == 64 && NeedsEnd(rest)
    ensures NeedsEnd(DqtSegment(i, table) + rest)
  {
    hide NeedsEnd;
    assert DqtSegment(i, table) == Segment(0xDB, [i] + table);
    SegmentNeedsEnd(0xDB, [i] + table, rest);
  }

  lemma App0NeedsEnd(rest: seq<Byte>)
    requires NeedsEnd(rest)
    ensures NeedsEnd(App0() + rest)
  {
    hide NeedsEnd;
    assert App0() == Segment(0xE0, Identifier() + Density());
    SegmentNeedsEnd(0xE0, Identifier() + Density(), rest);
  }

  /** No proper prefix of an encoded file decodes. */
  lemma PrefixFails(p: Image, quality: nat, n: nat)
    requires IsImage(p) && 1 <= quality <= 100 && n < |File(p, quality)|
    ensures D.DecodeFile(File(p, quality)[..n]) == None
  {
    hide D.ReadSegments, App0, Dqt, Sof, Dhts, Sos, ScanBytes, ScanBits, AllBlocks, Usable, Standard;
    var sub, w, h := p.sub, p.width, |p.lines|;
    AllIsCodable(p, quality);
    StandardIsUsable();
    var bits := ScanBits(Standard(), AllBlocks(p, quality), [0, 0, 0]);
    HeaderNeedsEnd(sub, quality, w, h, bits);
    SixParts(Marker(0xD8), App0(), Dqt(sub, quality), Sof(sub, w, h), Dhts(sub), Sos(sub), ScanAndEnd(p, quality));
    var all, body := File(p, quality), File(p, quality)[2..];
    if n >= 2 {
      assert all[..n][..2] == [0xFF, 0xD8] && all[..n][2..] == body[..n - 2];
      EmptyIsWellFormed(sub, quality, w, h);
    }
  }

  /** `fmt2jpg` reports success also when it cut the file; what it returns can be decoded if and only if the
      file has at most `JPG_BUF_LEN` bytes, and then it decodes to the image that was coded. */
  lemma DecodesIffFits(s: seq<Byte>, src: seq<Byte>, format: PixelFormat, width: nat, height: nat, quality: nat)
    requires |src| >= Stride(format, width) * height && 0 < width < 65536 && 0 < height < 65536
    requires IsCutFile(s, src, format, width, height, quality)
    ensures var p, q := PictureOf(src, format, width, height), Clamped(quality);
      && IsImage(p) && (D.DecodeFile(s).Some? <==> |File(p, q)| <= JPG_BUF_LEN)
      && (D.DecodeFile(s).Some? ==> D.DecodeFile(s) == Some(Decoded(p, q, AllBlocks(p, q))))
  {
    hide Stride, LinesOf, D.DecodeFile, File, AllBlocks, Decoded;
    var p, q := PictureOf(src, format, width, height), Clamped(quality);
    if |File(p, q)| <= JPG_BUF_LEN {
      assert s == File(p, q);
      DecodeUndoesEncode(p, q);
    } else {
      PrefixFails(p, q, JPG_BUF_LEN);
    }
  }

  /** The number of blocks that a frame is cut into. */
  function FrameBlocks(format: PixelFormat, width: nat, height: nat): nat {
    if format.Grayscale? then CeilDiv(width, 8) * CeilDiv(height, 8) else 6 * (CeilDiv(width, 16) * CeilDiv(height, 16))
  }

  lemma FrameIsCut(src: seq<Byte>, format: PixelFormat, width: nat, height: nat)
    requires |src| >= Stride(format, width) * height
    ensures var p := PictureOf(src, format, width, height);
      && p.width == width && |p.lines| == height && p.sub.YOnly? == format.Grayscale?
      && BlockCount(p.sub, width, height) == FrameBlocks(format, width, height)
  {
    hide CeilDiv, LinesOf, Stride;
  }

  /** A frame of at least two blocks for each byte of the buffer: `fmt2jpg` reports success, and what it returns
      cannot be decoded, whatever the pixels and the quality. */
  lemma LargeFrameUnreadable(s: seq<Byte>, src: seq<Byte>, format: PixelFormat, width: nat, height: nat, quality: nat)
    requires |src| >= Stride(format, width) * height && 0 < width < 65536 && 0 < height < 65536
    requires IsCutFile(s, src, format, width, height, quality)
    requires FrameBlocks(format, width, height) >= 2 * JPG_BUF_LEN
    ensures |s| == JPG_BUF_LEN && D.DecodeFile(s) == None
  {
    hide Stride, LinesOf, D.DecodeFile, File, AllBlocks, Decoded, BlockCount, FrameBlocks;
    DecodesIffFits(s, src, format, width, height, quality);
    FrameIsCut(src, format, width, height);
    FileLength(PictureOf(src, format, width, height), Clamped(quality));
  }

  /** The buffer holds the file of any frame of at most 313 blocks. */
  lemma SmallFrameUncut(s: seq<Byte>, src: seq<Byte>, format: PixelFormat, width: nat, height: nat, quality: nat)
    requires |src| >= Stride(format, width) * height && 0 < width && 0 < height
    requires IsCutFile(s, src, format, width, height, quality)
    requires FrameBlocks(format, width, height) <= 313
    ensures IsImage(PictureOf(src, format, width, height))
    ensures s == File(PictureOf(src, format, width, height), Clamped(quality))
  {
    hide Stride, LinesOf, File, BlockCount, FrameBlocks;
    FrameIsCut(src, format, width, height);
    FileLength(PictureOf(src, format, width, height), Clamped(quality));
  }

  /** A frame of at most 313 blocks, such as a grey one of 160 by 120 pixels: what `fmt2jpg` returns decodes to the
      frame, whatever the pixels and the quality. */
  lemma SmallFrameReadable(s: seq<Byte>, src: seq<Byte>, format: PixelFormat, width: nat, height: nat, quality: nat)
    requires |src| >= Stride(format, width) * height && 0 < width < 65536 && 0 < height < 65536
    requires IsCutFile(s, src, format, width, height, quality)
    requires FrameBlocks(format, width, height) <= 313
    ensures IsImage(PictureOf(src, format, width, height))
    ensures var p, q := PictureOf(src, format, width, height), Clamped(quality);
      D.DecodeFile(s) == Some(Decoded(p, q, AllBlocks(p, q)))
  {
    hide Stride, LinesOf, D.DecodeFile, File, AllBlocks, Decoded, FrameBlocks;
    SmallFrameUncut(s, src, format, width, height, quality);
    DecodeUndoesEncode(PictureOf(src, format, width, height), Clamped(quality));
  }

  /** A black frame of 4096 by 4096 pixels, for example, is reported as a success and cannot be read. */
  lemma SuccessUnreadable(quality: nat)
    ensures var src: seq<Byte> := seq(4096 * 4096, _ => 0);
      var p := PictureOf(src, Grayscale, 4096, 4096);
      var s := FirstBytes(File(p, Clamped(quality)), JPG_BUF_LEN);
      IsCutFile(s, src, Grayscale, 4096, 4096, quality) && D.DecodeFile(s) == None
  {
    hide LinesOf, D.DecodeFile, File;
    var src: seq<Byte> := seq(4096 * 4096, _ => 0);
    PictureHasScanlines(src, Grayscale, 4096, 4096);
    var s := FirstBytes(File(PictureOf(src, Grayscale, 4096, 4096), Clamped(quality)), JPG_BUF_LEN);
    LargeFrameUnreadable(s, src, Grayscale, 4096, 4096, quality);
  }
}
