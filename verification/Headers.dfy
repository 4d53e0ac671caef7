/** The marker segments in front of the scan: `emit_jfif_app0` to `emit_sos`. */
module Headers {
  import opened Bits
  import opened Huffman
  import opened Output
  import opened Picture
  import opened Quantise
  import opened StandardTables

  /** The four Huffman tables in the order of `m_huff_codes`: DC before AC, luminance before chrominance. */
  function TableAt(k: nat): Spec {
    if k == 0 then DcLum() else if k == 1 then DcChroma() else if k == 2 then AcLum() else AcChroma()
  }

  function App0(): seq<Byte> {
    Marker(0xE0) + Word(16) + Identifier() + Density()
  }

  /** "JFIF", version 1.1, no density unit. */
  function Identifier(): seq<Byte> {
    [0x4A, 0x46, 0x49, 0x46] + [0, 1, 1, 0]
  }

  /** Density 1:1, no thumbnail. */
  function Density(): seq<Byte> {
    Word(1) + Word(1) + [0, 0]
  }

  /** Characters as bytes. */
  function Ascii(s: string): seq<Byte>
    requires forall i :: 0 <= i < |s| ==> s[i] < 256 as char
  {
    seq(|s|, i requires 0 <= i < |s| => s[i] as nat)
  }

  /** What makes the file a JFIF file: the first segment after SOI names it and gives version 1.1, a density of 1:1
      without unit, and no thumbnail. */
  lemma App0IsJfif()
    ensures App0() == [0xFF, 0xE0, 0, 16] + Ascii("JFIF") + [0] + [1, 1] + [0, 0, 1, 0, 1] + [0, 0]
  {
    assert Ascii("JFIF") == [0x4A, 0x46, 0x49, 0x46];
  }

  function DqtSegment(i: Byte, table: seq<Byte>): seq<Byte> {
    Marker(0xDB) + Word(67) + [i] + table
  }

  function Dqt(sub: Subsampling, quality: nat): seq<Byte>
    requires 1 <= quality <= 100
  {
    DqtSegment(0, Table(false, quality)) + if sub.YOnly? then [] else DqtSegment(1, Table(true, quality))
  }

  /** `m_comp_h_samp` and `m_comp_v_samp` as one byte. */
  function Sampling(sub: Subsampling, i: nat): Byte {
    if i > 0 then 0x11 else if sub.H2V1? then 0x21 else if sub.H2V2? then 0x22 else 0x11
  }

  function FrameComponent(sub: Subsampling, i: nat): seq<Byte>
    requires i < 3
  {
    [i + 1, Sampling(sub, i), if i > 0 then 1 else 0]
  }

  function FrameComponents(sub: Subsampling, n: nat): seq<Byte>
    requires n <= 3
  {
    if n == 0 then [] else FrameComponents(sub, n - 1) + FrameComponent(sub, n - 1)
  }

  /** Lines first. */
  function Dimensions(width: nat, height: nat): seq<Byte> {
    Word(height) + Word(width)
  }

  function FrameHead(sub: Subsampling, width: nat, height: nat): seq<Byte> {
    var n := ComponentCount(sub);
    Marker(0xC0) + Word(3 * n + 8) + [8] + Dimensions(width, height) + [n]
  }

  function Sof(sub: Subsampling, width: nat, height: nat): seq<Byte> {
    FrameHead(sub, width, height) + FrameComponents(sub, ComponentCount(sub))
  }

  /** Counts and values as bytes. */
  predicate Transmittable(t: Spec) {
    ValidSpec(t) && forall l :: 0 <= l <= 16 ==> t.bits[l] < 256
  }

  function Dht(t: Spec, id: Byte): seq<Byte>
    requires Transmittable(t)
  {
    Marker(0xC4) + Word(Total(t.bits, 16) + 19) + [id] + Counts(t, 16) + t.val[..Total(t.bits, 16)]
  }

  function Counts(t: Spec, l: nat): (c: seq<Byte>)
    requires Transmittable(t) && l <= 16
    ensures |c| == l
  {
    seq(l, i requires 0 <= i < l => t.bits[i + 1])
  }

  function Dhts(sub: Subsampling): seq<Byte> {
    AllTransmittable();
    Dht(TableAt(0), 0x00) + Dht(TableAt(2), 0x10)
    + if sub.YOnly? then [] else Dht(TableAt(1), 0x01) + Dht(TableAt(3), 0x11)
  }

  function ScanComponent(i: nat): seq<Byte>
    requires i < 3
  {
    [i + 1, if i == 0 then 0x00 else 0x11]
  }

  function ScanComponents(n: nat): seq<Byte>
    requires n <= 3
  {
    if n == 0 then [] else ScanComponents(n - 1) + ScanComponent(n - 1)
  }

  function ScanHead(sub: Subsampling): seq<Byte> {
    var n := ComponentCount(sub);
    Marker(0xDA) + Word(2 * n + 6) + [n]
  }

  /** Spectral selection 0 to 63, no successive approximation. */
  function ScanTail(): seq<Byte> {
    [0, 63, 0]
  }

  function Sos(sub: Subsampling): seq<Byte> {
    ScanHead(sub) + ScanComponents(ComponentCount(sub)) + ScanTail()
  }

  /** Everything `jpg_open` emits. */
  function Header(sub: Subsampling, quality: nat, width: nat, height: nat): seq<Byte>
    requires 1 <= quality <= 100
  {
    Marker(0xD8) + App0() + Dqt(sub, quality) + Sof(sub, width, height) + Dhts(sub) + Sos(sub)
  }

  lemma AllTransmittable()
    ensures forall k :: 0 <= k < 4 ==> Transmittable(TableAt(k))
  {
    forall k | 0 <= k < 4 ensures Transmittable(TableAt(k)) {
      StandardTransmittable(k);
    }
  }

  lemma StandardTransmittable(k: nat)
    requires k < 4
    ensures Transmittable(TableAt(k)) && TableAt(k).bits[0] == 0
    ensures |TableAt(k).val| == Total(TableAt(k).bits, 16) <= 256
  {
    hide Total, WeightedCount, AcLumVal, AcChromaVal;
    DcLumCounts(DcLum().bits);
    DcChromaCounts(DcChroma().bits);
    AcLumCounts(AcLum().bits);
    AcChromaCounts(AcChroma().bits);
  }

  method EmitFour(w: Writer, a: Byte, b: Byte, c: Byte, d: Byte)
    requires w.Valid()
    modifies w`outBufLeft, w`allWritesSucceeded, w`emitted, w.outBuf, w.stream, w.stream.outBuf
    ensures w.Valid() && w.emitted == old(w.emitted) + [a, b, c, d]
  {
    hide Writer.Valid;
    w.EmitByte(a);
    w.EmitByte(b);
    w.EmitByte(c);
    w.EmitByte(d);
  }

  method EmitIdentifier(w: Writer)
    requires w.Valid()
    modifies w`outBufLeft, w`allWritesSucceeded, w`emitted, w.outBuf, w.stream, w.stream.outBuf
    ensures w.Valid() && w.emitted == old(w.emitted) + Identifier()
  {
    hide Writer.Valid;
    EmitFour(w, 0x4A, 0x46, 0x49, 0x46);
    EmitFour(w, 0, 1, 1, 0);
  }

  method EmitDensity(w: Writer)
    requires w.Valid()
    modifies w`outBufLeft, w`allWritesSucceeded, w`emitted, w.outBuf, w.stream, w.stream.outBuf
    ensures w.Valid() && w.emitted == old(w.emitted) + Density()
  {
    hide Writer.Valid, Word;
    w.EmitWord(1);
    w.EmitWord(1);
    w.EmitByte(0);
    w.EmitByte(0);
  }

  method EmitJfifApp0(w: Writer)
    requires w.Valid()
    modifies w`outBufLeft, w`allWritesSucceeded, w`emitted, w.outBuf, w.stream, w.stream.outBuf
    ensures w.Valid() && w.emitted == old(w.emitted) + App0()
  {
    hide Writer.Valid, Word, Marker, Identifier, Density;
    w.EmitMarker(0xE0);
    w.EmitWord(2 + 4 + 1 + 2 + 1 + 2 + 2 + 1 + 1);
    EmitIdentifier(w);
    EmitDensity(w);
  }

  /** One turn of the loop of `emit_dqt`. */
  method EmitDqtSegment(w: Writer, tables: array2<int>, i: Byte, ghost table: seq<Byte>)
    requires w.Valid() && i < tables.Length0 && tables.Length1 == 64 && |table| == 64
    requires forall j :: 0 <= j < 64 ==> tables[i, j] == table[j]
    modifies w`outBufLeft, w`allWritesSucceeded, w`emitted, w.outBuf, w.stream, w.stream.outBuf
    ensures w.Valid() && w.emitted == old(w.emitted) + DqtSegment(i, table)
  {
    hide Writer.Valid, Word;
    w.EmitMarker(0xDB);
    w.EmitWord(64 + 1 + 2);
    w.EmitByte(i);
    for j := 0 to 64
      invariant w.Valid()
      invariant w.emitted == old(w.emitted) + (Marker(0xDB) + Word(67) + [i]) + table[..j]
      invariant forall k :: 0 <= k < 64 ==> tables[i, k] == table[k]
    {
      w.EmitByte(tables[i, j]);
    }
  }

  method EmitDqt(w: Writer, tables: array2<int>, sub: Subsampling, ghost quality: nat)
    requires w.Valid() && 1 <= quality <= 100 && tables.Length0 == 2 && tables.Length1 == 64
    requires forall c, j :: 0 <= c < 2 && 0 <= j < 64 ==> tables[c, j] == Table(c > 0, quality)[j]
    modifies w`outBufLeft, w`allWritesSucceeded, w`emitted, w.outBuf, w.stream, w.stream.outBuf
    ensures w.Valid() && w.emitted == old(w.emitted) + Dqt(sub, quality)
  {
    hide Writer.Valid, DqtSegment, Table;
    var n := if sub.YOnly? then 1 else 2;
    for i := 0 to n
      invariant w.Valid()
      invariant w.emitted == old(w.emitted) + (if i == 0 then [] else DqtSegment(0, Table(false, quality)))
                           + (if i == 2 then DqtSegment(1, Table(true, quality)) else [])
      invariant forall c, j :: 0 <= c < 2 && 0 <= j < 64 ==> tables[c, j] == Table(c > 0, quality)[j]
    {
      EmitDqtSegment(w, tables, i, Table(i > 0, quality));
    }
  }

  method EmitDimensions(w: Writer, width: nat, height: nat)
    requires w.Valid()
    modifies w`outBufLeft, w`allWritesSucceeded, w`emitted, w.outBuf, w.stream, w.stream.outBuf
    ensures w.Valid() && w.emitted == old(w.emitted) + Dimensions(width, height)
  {
    hide Writer.Valid, Word;
    w.EmitWord(height);
    w.EmitWord(width);
  }

  method EmitFrameHead(w: Writer, sub: Subsampling, width: nat, height: nat)
    requires w.Valid()
    modifies w`outBufLeft, w`allWritesSucceeded, w`emitted, w.outBuf, w.stream, w.stream.outBuf
    ensures w.Valid() && w.emitted == old(w.emitted) + FrameHead(sub, width, height)
  {
    hide Writer.Valid, Word, Marker, Dimensions;
    var n := ComponentCount(sub);
    w.EmitMarker(0xC0);
    w.EmitWord(3 * n + 2 + 5 + 1);
    w.EmitByte(8);
    EmitDimensions(w, width, height);
    w.EmitByte(n);
  }

  method EmitFrameComponent(w: Writer, sub: Subsampling, i: nat)
    requires w.Valid() && i < 3
    modifies w`outBufLeft, w`allWritesSucceeded, w`emitted, w.outBuf, w.stream, w.stream.outBuf
    ensures w.Valid() && w.emitted == old(w.emitted) + FrameComponent(sub, i)
  {
    hide Writer.Valid, Sampling;
    w.EmitByte(i + 1);
    w.EmitByte(Sampling(sub, i));
    w.EmitByte(if i > 0 then 1 else 0);
  }

  method EmitSof(w: Writer, sub: Subsampling, width: nat, height: nat)
    requires w.Valid()
    modifies w`outBufLeft, w`allWritesSucceeded, w`emitted, w.outBuf, w.stream, w.stream.outBuf
    ensures w.Valid() && w.emitted == old(w.emitted) + Sof(sub, width, height)
  {
    hide Writer.Valid, FrameHead, FrameComponent;
    EmitFrameHead(w, sub, width, height);
    for i := 0 to ComponentCount(sub)
      invariant w.Valid()
      invariant w.emitted == old(w.emitted) + FrameHead(sub, width, height) + FrameComponents(sub, i)
    {
      EmitFrameComponent(w, sub, i);
    }
  }

  method EmitDht(w: Writer, t: Spec, id: Byte)
    requires w.Valid() && Transmittable(t)
    modifies w`outBufLeft, w`allWritesSucceeded, w`emitted, w.outBuf, w.stream, w.stream.outBuf
    ensures w.Valid() && w.emitted == old(w.emitted) + Dht(t, id)
  {
    hide Writer.Valid, Word, Marker;
    w.EmitMarker(0xC4);
    var length := 0;
    for i := 1 to 17
      invariant length == Total(t.bits, i - 1)
    {
      length := length + t.bits[i];
    }
    w.EmitWord(length + 2 + 1 + 16);
    w.EmitByte(id);
    ghost var fixed := Marker(0xC4) + Word(length + 19) + [id];
    for i := 1 to 17
      invariant w.Valid() && w.emitted == old(w.emitted) + fixed + Counts(t, i - 1)
    {
      w.EmitByte(t.bits[i]);
    }
    for i := 0 to length
      invariant w.Valid() && w.emitted == old(w.emitted) + fixed + Counts(t, 16) + t.val[..i]
    {
      w.EmitByte(t.val[i]);
    }
  }

  method EmitDhts(w: Writer, sub: Subsampling)
    requires w.Valid()
    modifies w`outBufLeft, w`allWritesSucceeded, w`emitted, w.outBuf, w.stream, w.stream.outBuf
    ensures w.Valid() && w.emitted == old(w.emitted) + Dhts(sub)
  {
    hide Writer.Valid, Dht, TableAt, Transmittable;
    AllTransmittable();
    EmitDht(w, TableAt(0), 0x00);
    EmitDht(w, TableAt(2), 0x10);
    if ComponentCount(sub) == 3 {
      EmitDht(w, TableAt(1), 0x01);
      EmitDht(w, TableAt(3), 0x11);
    }
  }

  method EmitScanComponent(w: Writer, i: nat)
    requires w.Valid() && i < 3
    modifies w`outBufLeft, w`allWritesSucceeded, w`emitted, w.outBuf, w.stream, w.stream.outBuf
    ensures w.Valid() && w.emitted == old(w.emitted) + ScanComponent(i)
  {
    hide Writer.Valid;
    w.EmitByte(i + 1);
    if i == 0 {
      w.EmitByte(0x00);
    } else {
      w.EmitByte(0x11);
    }
  }

  method EmitScanTail(w: Writer)
    requires w.Valid()
    modifies w`outBufLeft, w`allWritesSucceeded, w`emitted, w.outBuf, w.stream, w.stream.outBuf
    ensures w.Valid() && w.emitted == old(w.emitted) + ScanTail()
  {
    hide Writer.Valid;
    w.EmitByte(0);
    w.EmitByte(63);
    w.EmitByte(0);
  }

  method EmitScanHead(w: Writer, sub: Subsampling)
    requires w.Valid()
    modifies w`outBufLeft, w`allWritesSucceeded, w`emitted, w.outBuf, w.stream, w.stream.outBuf
    ensures w.Valid() && w.emitted == old(w.emitted) + ScanHead(sub)
  {
    hide Writer.Valid, Word, Marker;
    var n := ComponentCount(sub);
    w.EmitMarker(0xDA);
    w.EmitWord(2 * n + 2 + 1 + 3);
    w.EmitByte(n);
  }

  method EmitSos(w: Writer, sub: Subsampling)
    requires w.Valid()
    modifies w`outBufLeft, w`allWritesSucceeded, w`emitted, w.outBuf, w.stream, w.stream.outBuf
    ensures w.Valid() && w.emitted == old(w.emitted) + Sos(sub)
  {
    hide Writer.Valid, ScanHead, ScanTail, ScanComponent;
    EmitScanHead(w, sub);
    for i := 0 to ComponentCount(sub)
      invariant w.Valid() && w.emitted == old(w.emitted) + ScanHead(sub) + ScanComponents(i)
    {
      EmitScanComponent(w, i);
    }
    EmitScanTail(w);
  }

  /** The markers at the start of the file. */
  method EmitHeader(w: Writer, tables: array2<int>, sub: Subsampling, width: nat, height: nat, ghost quality: nat)
    requires w.Valid() && 1 <= quality <= 100 && tables.Length0 == 2 && tables.Length1 == 64
    requires forall c, j :: 0 <= c < 2 && 0 <= j < 64 ==> tables[c, j] == Table(c > 0, quality)[j]
    modifies w`outBufLeft, w`allWritesSucceeded, w`emitted, w.outBuf, w.stream, w.stream.outBuf
    ensures w.Valid() && w.emitted == old(w.emitted) + Header(sub, quality, width, height)
  {
    hide Writer.Valid, Marker, App0, Dqt, Sof, Dhts, Sos, Table;
    w.EmitMarker(0xD8);
    EmitJfifApp0(w);
    EmitDqt(w, tables, sub, quality);
    EmitSof(w, sub, width, height);
    EmitDhts(w, sub);
    EmitSos(w, sub);
  }
}
