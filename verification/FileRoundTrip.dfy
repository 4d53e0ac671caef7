/** Decoding an encoded file gives back the size, the tables and every quantised coefficient. */
module FileRoundTrip {
  import opened Basics
  import opened Bits
  import opened Huffman
  import opened Stuffing
  import opened Scan
  import opened Quantise
  import opened Picture
  import opened Output
  import opened Headers
  import opened Encoder
  import D = FileDecoder

  function Segment(marker: Byte, payload: seq<Byte>): seq<Byte> {
    Marker(marker) + Word(|payload| + 2) + payload
  }

  lemma SegmentParts(marker: Byte, payload: seq<Byte>, rest: seq<Byte>)
    requires |payload| < 65534
    ensures var s, n := Segment(marker, payload) + rest, |payload| + 2;
      && |s| >= n + 2 && s[0] == 0xFF && s[1] == marker && D.Number(s[2], s[3]) == n
      && s[4..n + 2] == payload && s[n + 2..] == rest
  {
  }

  lemma ReadSegment(marker: Byte, payload: seq<Byte>, rest: seq<Byte>, st: D.State, next: D.State)
    requires |payload| < 65534 && marker != 0xDA && D.WellFormed(st)
    requires D.Apply(marker, payload, st) == Some(next)
    ensures D.WellFormed(next)
    ensures D.ReadSegments(Segment(marker, payload) + rest, st) == D.ReadSegments(rest, next)
  {
    hide Segment, D.Apply;
    D.ApplyKeepsWellFormed(marker, payload, st);
    SegmentParts(marker, payload, rest);
  }

  lemma ReadSosSegment(payload: seq<Byte>, data: seq<Byte>, st: D.State)
    requires |payload| < 65534 && D.WellFormed(st)
    ensures D.ReadSegments(Segment(0xDA, payload) + data, st) == D.ReadScan(payload, data, st)
  {
    hide Segment, D.Apply, D.ReadScan;
    SegmentParts(0xDA, payload, data);
  }

  // ------------------------------------------------------------ the header, segment by segment

  lemma ReadApp0(rest: seq<Byte>, st: D.State)
    requires D.WellFormed(st)
    ensures D.ReadSegments(App0() + rest, st) == D.ReadSegments(rest, st)
  {
    hide D.ReadSegments;
    assert |Identifier()| == 8 && |Density()| == 6;
    assert App0() == Segment(0xE0, Identifier() + Density());
    ReadSegment(0xE0, Identifier() + Density(), rest, st, st);
  }

  lemma ReadDqtPayload(i: Byte, table: seq<Byte>, quant: map<nat, seq<Byte>>)
    requires i < 4 && |table| == 64
    ensures D.ReadDqt([i] + table, quant) == Some(quant[i as nat := table])
  {
    assert ([i] + table)[1..65] == table && ([i] + table)[65..] == [];
  }

  lemma ReadDqtSegment(i: Byte, table: seq<Byte>, rest: seq<Byte>, st: D.State)
    requires D.WellFormed(st) && i < 4 && |table| == 64
    ensures D.ReadSegments(DqtSegment(i, table) + rest, st)
         == D.ReadSegments(rest, st.(quant := st.quant[i as nat := table]))
  {
    hide D.ReadSegments, D.ReadDqt;
    ReadDqtPayload(i, table, st.quant);
    assert DqtSegment(i, table) == Segment(0xDB, [i] + table);
    ReadSegment(0xDB, [i] + table, rest, st, st.(quant := st.quant[i as nat := table]));
  }

  lemma {:induction false} CountsSum(t: Spec, l: nat)
    requires Transmittable(t) && l <= 16
    ensures D.SumCounts(Counts(t, l)) == Total(t.bits, l)
  {
    if l > 0 {
      CountsSum(t, l - 1);
      assert Counts(t, l)[..l - 1] == Counts(t, l - 1);
    }
  }

  /** Tables whose DHT segment holds all there is. */
  predicate Whole(t: Spec) {
    Transmittable(t) && t.bits[0] == 0 && |t.val| == Total(t.bits, 16)
  }

  function WithTable(st: D.State, id: nat, t: Spec): D.State {
    if id / 16 == 0 then st.(dc := st.dc[id % 16 := t]) else st.(ac := st.ac[id % 16 := t])
  }

  lemma ReadDhtPayload(id: Byte, t: Spec, st: D.State)
    requires Whole(t) && id / 16 <= 1 && id % 16 < 4
    ensures D.ReadDht([id] + Counts(t, 16) + t.val, st) == Some(WithTable(st, id, t))
  {
    hide Total, Counts, D.SumCounts, D.ReadDht;
    var s := [id] + Counts(t, 16) + t.val;
    CountsSum(t, 16);
    assert s[1..17] == Counts(t, 16);
    assert s[17..17 + |t.val|] == t.val && s[17 + |t.val|..] == [];
    CountsAreBits(t);
    ReadOneDht(s, Counts(t, 16), t.val, st);
  }

  lemma CountsAreBits(t: Spec)
    requires Whole(t)
    ensures [0] + Counts(t, 16) == t.bits
  {
    hide Total;
  }

  lemma ReadOneDht(s: seq<Byte>, counts: seq<Byte>, val: seq<Byte>, st: D.State)
    requires |counts| == 16 && |val| == D.SumCounts(counts) <= 256 && |s| == 17 + |val|
    requires s[0] / 16 <= 1 && s[0] % 16 < 4 && s[1..17] == counts && s[17..17 + |val|] == val
    ensures D.ReadDht(s, st) == Some(WithTable(st, s[0], Spec([0] + counts, val)))
  {
    hide D.SumCounts;
    assert s[17 + |val|..] == [];
  }

  lemma ReadDhtSegment(id: Byte, t: Spec, rest: seq<Byte>, st: D.State)
    requires Whole(t) && id / 16 <= 1 && id % 16 < 4 && D.WellFormed(st)
    ensures D.WellFormed(WithTable(st, id, t))
    ensures D.ReadSegments(Dht(t, id) + rest, st) == D.ReadSegments(rest, WithTable(st, id, t))
  {
    hide D.ReadSegments, D.ReadDht, Total, WithTable;
    var payload := [id] + Counts(t, 16) + t.val;
    ReadDhtPayload(id, t, st);
    assert t.val[..Total(t.bits, 16)] == t.val;
    assert Dht(t, id) == Segment(0xC4, payload);
    ReadSegment(0xC4, payload, rest, st, WithTable(st, id, t));
  }

  /** The frame components as a decoder reads them. */
  function FrameList(sub: Subsampling): seq<D.FrameComponent> {
    if sub.YOnly? then [D.FrameComponent(1, 1, 1, 0)]
    else [D.FrameComponent(1, Sampling(sub, 0) / 16, Sampling(sub, 0) % 16, 0),
          D.FrameComponent(2, 1, 1, 1), D.FrameComponent(3, 1, 1, 1)]
  }

  lemma ReadComponent(id: Byte, hv: Byte, tq: Byte, rest: seq<Byte>)
    ensures D.FrameComponents([id, hv, tq] + rest)
         == [D.FrameComponent(id, hv / 16, hv % 16, tq)] + D.FrameComponents(rest)
  {
    assert ([id, hv, tq] + rest)[3..] == rest;
  }

  lemma ReadComponents(sub: Subsampling)
    ensures |FrameComponents(sub, ComponentCount(sub))| == 3 * ComponentCount(sub)
    ensures D.FrameComponents(FrameComponents(sub, ComponentCount(sub))) == FrameList(sub)
  {
    hide FrameComponents, D.FrameComponents;
    var y := Sampling(sub, 0);
    OneFrameComponent(sub);
    assert D.FrameComponents([]) == [] by { NoComponents(); }
    if sub.YOnly? {
      ReadComponent(1, y, 0, []);
      assert FrameComponents(sub, 1) + [] == FrameComponents(sub, 1);
    } else {
      ReadComponent(3, 0x11, 1, []);
      ReadComponent(2, 0x11, 1, [3, 0x11, 1]);
      ReadComponent(1, y, 0, [2, 0x11, 1] + [3, 0x11, 1]);
      assert [1, y, 0] + ([2, 0x11, 1] + [3, 0x11, 1]) == FrameComponents(sub, 3);
      assert [3, 0x11, 1] + [] == [3, 0x11, 1];
    }
  }

  lemma NoComponents()
    ensures D.FrameComponents([]) == []
  {
  }

  lemma OneFrameComponent(sub: Subsampling)
    ensures FrameComponents(sub, 1) == [1, Sampling(sub, 0), 0]
    ensures FrameComponents(sub, 3) == [1, Sampling(sub, 0), 0] + [2, 0x11, 1] + [3, 0x11, 1]
  {
    assert FrameComponents(sub, 0) == [];
    assert FrameComponents(sub, 1) == [1, Sampling(sub, 0), 0];
    assert FrameComponents(sub, 2) == FrameComponents(sub, 1) + [2, 0x11, 1];
  }

  lemma WordIsNumber(i: nat)
    requires i < 65536
    ensures D.Number(Word(i)[0], Word(i)[1]) == i
  {
  }

  lemma ReadSofPayload(sub: Subsampling, width: nat, height: nat)
    requires 0 < width < 65536 && 0 < height < 65536
    ensures var n := ComponentCount(sub);
      D.ReadFrame([8] + Dimensions(width, height) + [n] + FrameComponents(sub, n))
      == Some(D.Frame(width, height, FrameList(sub)))
  {
    hide D.FrameComponents, FrameComponents, FrameList, D.Number;
    var n := ComponentCount(sub);
    var s := [8] + Dimensions(width, height) + [n] + FrameComponents(sub, n);
    ReadComponents(sub);
    WordIsNumber(width);
    WordIsNumber(height);
    assert s[6..] == FrameComponents(sub, n);
  }

  lemma ReadSof(sub: Subsampling, width: nat, height: nat, rest: seq<Byte>, st: D.State)
    requires 0 < width < 65536 && 0 < height < 65536 && D.WellFormed(st)
    ensures D.ReadSegments(Sof(sub, width, height) + rest, st)
         == D.ReadSegments(rest, st.(frame := Some(D.Frame(width, height, FrameList(sub)))))
  {
    hide D.ReadSegments, D.ReadFrame, FrameComponents, FrameList;
    var n := ComponentCount(sub);
    var payload := [8] + Dimensions(width, height) + [n] + FrameComponents(sub, n);
    ReadSofPayload(sub, width, height);
    ReadComponents(sub);
    assert Sof(sub, width, height) == Segment(0xC0, payload);
    ReadSegment(0xC0, payload, rest, st, st.(frame := Some(D.Frame(width, height, FrameList(sub)))));
  }

  lemma ReadDqt(sub: Subsampling, quality: nat, rest: seq<Byte>, st: D.State)
    requires 1 <= quality <= 100 && D.WellFormed(st)
    ensures D.ReadSegments(Dqt(sub, quality) + rest, st)
         == D.ReadSegments(rest, st.(quant := WithQuant(sub, quality, st.quant)))
  {
    hide D.ReadSegments, DqtSegment;
    var first, second := DqtSegment(0, Table(false, quality)), DqtSegment(1, Table(true, quality));
    var next := st.(quant := st.quant[0 as nat := Table(false, quality)]);
    if sub.YOnly? {
      ReadDqtSegment(0, Table(false, quality), rest, st);
      assert Dqt(sub, quality) + rest == first + rest;
    } else {
      ReadDqtSegment(0, Table(false, quality), second + rest, st);
      ReadDqtSegment(1, Table(true, quality), rest, next);
      assert Dqt(sub, quality) + rest == first + (second + rest);
    }
  }

  function WithQuant(sub: Subsampling, quality: nat, quant: map<nat, seq<Byte>>): map<nat, seq<Byte>>
    requires 1 <= quality <= 100
  {
    var first := quant[0 as nat := Table(false, quality)];
    if sub.YOnly? then first else first[1 as nat := Table(true, quality)]
  }

  lemma StandardIsWhole(k: nat)
    requires k < 4
    ensures Whole(TableAt(k))
  {
    hide Total;
    StandardTransmittable(k);
  }

  lemma StandardSizes()
    ensures forall k :: 0 <= k < 4 ==> Whole(TableAt(k)) && |TableAt(k).val| <= 256
  {
    hide Whole, TableAt;
    forall k | 0 <= k < 4 ensures Whole(TableAt(k)) && |TableAt(k).val| <= 256 {
      StandardIsWhole(k);
      StandardTransmittable(k);
    }
  }

  function WithTables(sub: Subsampling, st: D.State): D.State {
    var luma := WithTable(WithTable(st, 0x00, TableAt(0)), 0x10, TableAt(2));
    if sub.YOnly? then luma else WithTable(WithTable(luma, 0x01, TableAt(1)), 0x11, TableAt(3))
  }

  lemma ReadDhts(sub: Subsampling, rest: seq<Byte>, st: D.State)
    requires D.WellFormed(st)
    ensures D.WellFormed(WithTables(sub, st))
    ensures D.ReadSegments(Dhts(sub) + rest, st) == D.ReadSegments(rest, WithTables(sub, st))
  {
    hide D.ReadSegments, Dht, TableAt, WithTable, Whole, D.WellFormed;
    AllTransmittable();
    StandardIsWhole(0);
    StandardIsWhole(1);
    StandardIsWhole(2);
    StandardIsWhole(3);
    var d0, d1, d2, d3 := Dht(TableAt(0), 0x00), Dht(TableAt(2), 0x10), Dht(TableAt(1), 0x01), Dht(TableAt(3), 0x11);
    var a := WithTable(st, 0x00, TableAt(0));
    var b := WithTable(a, 0x10, TableAt(2));
    if sub.YOnly? {
      ReadDhtSegment(0x00, TableAt(0), d1 + rest, st);
      ReadDhtSegment(0x10, TableAt(2), rest, a);
      assert Dhts(sub) + rest == d0 + (d1 + rest);
    } else {
      ReadDhtSegment(0x00, TableAt(0), d1 + (d2 + (d3 + rest)), st);
      ReadDhtSegment(0x10, TableAt(2), d2 + (d3 + rest), a);
      ReadDhtSegment(0x01, TableAt(1), d3 + rest, b);
      ReadDhtSegment(0x11, TableAt(3), rest, WithTable(b, 0x01, TableAt(1)));
      FourParts(d0, d1, d2, d3, rest);
      assert Dhts(sub) == d0 + d1 + (d2 + d3);
    }
  }

  lemma FourParts(a: seq<Byte>, b: seq<Byte>, c: seq<Byte>, d: seq<Byte>, rest: seq<Byte>)
    ensures a + b + (c + d) + rest == a + (b + (c + (d + rest)))
  {
  }

  // ------------------------------------------------------------ the scan header

  function Planes(sub: Subsampling, quality: nat): seq<D.Plane>
    requires 1 <= quality <= 100
  {
    if sub.YOnly? then [D.Plane(1, 1, Table(false, quality))]
    else [D.Plane(Sampling(sub, 0) / 16, Sampling(sub, 0) % 16, Table(false, quality)),
          D.Plane(1, 1, Table(true, quality)), D.Plane(1, 1, Table(true, quality))]
  }

  /** The state in front of the scan. */
  ghost predicate Prepared(st: D.State, sub: Subsampling, quality: nat, width: nat, height: nat)
    requires 1 <= quality <= 100
  {
    && D.WellFormed(st) && st.frame == Some(D.Frame(width, height, FrameList(sub)))
    && 0 in st.quant && st.quant[0] == Table(false, quality)
    && 0 in st.dc && st.dc[0] == TableAt(0) && 0 in st.ac && st.ac[0] == TableAt(2)
    && (!sub.YOnly? ==>
          && 1 in st.quant && st.quant[1] == Table(true, quality)
          && 1 in st.dc && st.dc[1] == TableAt(1) && 1 in st.ac && st.ac[1] == TableAt(3))
  }

  lemma HeaderPrepares(sub: Subsampling, quality: nat, width: nat, height: nat)
    requires 1 <= quality <= 100
    ensures Prepared(WithTables(sub, Framed(sub, quality, width, height)), sub, quality, width, height)
  {
    hide Table, TableAt, FrameList;
    assert |TableAt(0).bits| == 17 && |TableAt(1).bits| == 17 && |TableAt(2).bits| == 17 && |TableAt(3).bits| == 17 by {
      StandardIsWhole(0);
      StandardIsWhole(1);
      StandardIsWhole(2);
      StandardIsWhole(3);
    }
  }

  /** The state after DQT and SOF0. */
  function Framed(sub: Subsampling, quality: nat, width: nat, height: nat): D.State
    requires 1 <= quality <= 100
  {
    D.State(WithQuant(sub, quality, map[]), map[], map[], Some(D.Frame(width, height, FrameList(sub))))
  }

  lemma SelectStep(s: seq<Byte>, f: D.Frame, st: D.State, n: nat, t: Tables, planes: seq<D.Plane>,
                   u: Tables, more: seq<D.Plane>)
    requires D.WellFormed(st) && n < |f.components| && |s| >= 2 * n + 2
    requires D.Select(s, f, st, n) == Some((t, planes))
    requires s[2 * n] == f.components[n].id && f.components[n].tq in st.quant
    requires s[2 * n + 1] / 16 in st.dc && s[2 * n + 1] % 16 in st.ac
    requires u.dc == t.dc + [st.dc[s[2 * n + 1] / 16]] && u.ac == t.ac + [st.ac[s[2 * n + 1] % 16]]
    requires more == planes + [D.Plane(f.components[n].h, f.components[n].v, st.quant[f.components[n].tq])]
    ensures D.Select(s, f, st, n + 1) == Some((u, more))
  {
  }

  lemma SelectAll(sub: Subsampling, quality: nat, width: nat, height: nat, st: D.State)
    requires 1 <= quality <= 100 && Prepared(st, sub, quality, width, height)
    ensures var n, f := ComponentCount(sub), D.Frame(width, height, FrameList(sub));
      && |ScanComponents(n)| == 2 * n
      && D.Select(ScanComponents(n), f, st, n) == Some((PerComponent(Standard(), n), Planes(sub, quality)))
  {
    hide Table, TableAt, D.Select, ScanComponents, PerComponent, Standard;
    StandardPerComponent();
    var f := D.Frame(width, height, FrameList(sub));
    var luma := D.Plane(FrameList(sub)[0].h, FrameList(sub)[0].v, Table(false, quality));
    var chroma := D.Plane(1, 1, Table(true, quality));
    var n := ComponentCount(sub);
    var s := ScanComponents(n);
    ScanComponentList();
    assert D.Select(s, f, st, 0) == Some((Tables([], []), [])) by { SelectNone(s, f, st); }
    var one := Tables([TableAt(0)], [TableAt(2)]);
    SelectStep(s, f, st, 0, Tables([], []), [], one, [luma]);
    if !sub.YOnly? {
      var two := Tables([TableAt(0), TableAt(1)], [TableAt(2), TableAt(3)]);
      var three := Tables([TableAt(0), TableAt(1), TableAt(1)], [TableAt(2), TableAt(3), TableAt(3)]);
      SelectStep(s, f, st, 1, one, [luma], two, [luma, chroma]);
      SelectStep(s, f, st, 2, two, [luma, chroma], three, [luma, chroma, chroma]);
    }
  }

  lemma StandardPerComponent()
    ensures PerComponent(Standard(), 1) == Tables([TableAt(0)], [TableAt(2)])
    ensures PerComponent(Standard(), 3)
      == Tables([TableAt(0), TableAt(1), TableAt(1)], [TableAt(2), TableAt(3), TableAt(3)])
  {
    hide TableAt;
  }

  lemma SelectNone(s: seq<Byte>, f: D.Frame, st: D.State)
    requires D.WellFormed(st)
    ensures D.Select(s, f, st, 0) == Some((Tables([], []), []))
  {
  }

  lemma ScanComponentList()
    ensures ScanComponents(1) == [1, 0x00] && ScanComponents(3) == [1, 0x00, 2, 0x11, 3, 0x11]
  {
    assert ScanComponents(0) == [];
    assert ScanComponents(2) == [1, 0x00, 2, 0x11];
  }

  // ------------------------------------------------------------ the order of blocks

  function PlanComponents(sub: Subsampling): seq<nat> {
    match sub
    case YOnly => [0]
    case H1V1 => [0, 1, 2]
    case H2V1 => [0, 0, 1, 2]
    case H2V2 => [0, 0, 0, 0, 1, 2]
  }

  lemma ComponentsJoin(a: seq<Block>, b: seq<Block>)
    ensures Components(a + b) == Components(a) + Components(b)
  {
  }

  lemma McuComponents(p: Image, quality: nat, row: nat, i: nat)
    requires IsImage(p) && 1 <= quality <= 100
    ensures Components(BlocksOf(p, quality, row, McuPlan(p.sub, i))) == PlanComponents(p.sub)
  {
    hide Samples, Quantised, Table;
  }

  lemma {:induction false} RowComponents(p: Image, quality: nat, row: nat, n: nat)
    requires IsImage(p) && 1 <= quality <= 100
    ensures Components(RowBlocks(p, quality, row, n)) == D.Repeat(PlanComponents(p.sub), n)
  {
    hide BlocksOf, PlanComponents, IsImage;
    if n > 0 {
      RowComponents(p, quality, row, n - 1);
      McuComponents(p, quality, row, n - 1);
      ComponentsJoin(RowBlocks(p, quality, row, n - 1), BlocksOf(p, quality, row, McuPlan(p.sub, n - 1)));
    }
  }

  lemma {:induction false} RepeatJoin(pattern: seq<nat>, m: nat, n: nat)
    ensures D.Repeat(pattern, m + n) == D.Repeat(pattern, m) + D.Repeat(pattern, n)
  {
    if n == 0 {
      assert D.Repeat(pattern, m) + [] == D.Repeat(pattern, m);
    } else {
      RepeatJoin(pattern, m, n - 1);
      assert m + n - 1 == m + (n - 1);
    }
  }

  lemma {:induction false} ImageComponents(p: Image, quality: nat, rows: nat)
    requires IsImage(p) && 1 <= quality <= 100
    ensures Components(ImageBlocks(p, quality, rows)) == D.Repeat(PlanComponents(p.sub), McusPerRow(p) * rows)
  {
    hide RowBlocks, PlanComponents, IsImage, McusPerRow, D.Repeat;
    if rows > 0 {
      ImageComponents(p, quality, rows - 1);
      RowComponents(p, quality, rows - 1, McusPerRow(p));
      ComponentsJoin(ImageBlocks(p, quality, rows - 1), RowBlocks(p, quality, rows - 1, McusPerRow(p)));
      RepeatJoin(PlanComponents(p.sub), McusPerRow(p) * (rows - 1), McusPerRow(p));
      assert McusPerRow(p) * rows == McusPerRow(p) * (rows - 1) + McusPerRow(p);
    } else {
      NoRepeat(PlanComponents(p.sub));
    }
  }

  lemma NoRepeat(pattern: seq<nat>)
    ensures D.Repeat(pattern, 0) == []
  {
  }

  /** The sampling factors of the frame header describe the MCUs the encoder cuts. */
  lemma FrameMatchesPlan(sub: Subsampling, width: nat, height: nat)
    ensures var c := FrameList(sub);
      && D.McuPattern(c, |c|) == PlanComponents(sub)
      && (|c| > 1 ==> 8 * D.MaxH(c) == McuX(sub) && 8 * D.MaxV(c) == McuY(sub))
      && (|c| == 1 ==> McuX(sub) == McuY(sub) == 8)
  {
    var c := FrameList(sub);
    if sub.YOnly? {
      OnePattern(c);
    } else {
      ThreePatterns(c, if sub.H1V1? then [0] else if sub.H2V1? then [0, 0] else [0, 0, 0, 0]);
    }
  }

  lemma OnePattern(c: seq<D.FrameComponent>)
    requires |c| == 1
    ensures D.McuPattern(c, 1) == [0]
  {
    assert D.McuPattern(c, 0) == [];
  }

  lemma ThreePatterns(c: seq<D.FrameComponent>, luma: seq<nat>)
    requires |c| == 3 && c[1].h == c[1].v == c[2].h == c[2].v == 1 && c[0].h >= 1 && c[0].v >= 1
    requires luma == seq(c[0].h * c[0].v, _ => 0)
    ensures D.McuPattern(c, 3) == luma + [1, 2]
    ensures D.MaxH(c) == c[0].h && D.MaxV(c) == c[0].v
  {
    assert D.McuPattern(c, 0) == [];
    assert D.McuPattern(c, 1) == luma;
    assert D.McuPattern(c, 2) == luma + [1];
    MaxOfThree(c);
  }

  lemma MaxOfThree(c: seq<D.FrameComponent>)
    requires |c| == 3 && c[1].h == c[1].v == c[2].h == c[2].v == 1 && c[0].h >= 1 && c[0].v >= 1
    ensures D.MaxH(c) == c[0].h && D.MaxV(c) == c[0].v
  {
    var one, two := c[..1], c[..2];
    assert one[..0] == [] && two[..1] == one && c[..2] == two;
    assert D.MaxH(one) == c[0].h && D.MaxV(one) == c[0].v;
    assert D.MaxH(two) == c[0].h && D.MaxV(two) == c[0].v;
  }

  lemma OrderOfFile(p: Image, quality: nat)
    requires IsImage(p) && 1 <= quality <= 100
    ensures Components(AllBlocks(p, quality)) == D.BlockOrder(D.Frame(p.width, |p.lines|, FrameList(p.sub)))
  {
    hide ImageBlocks, D.McuPattern, D.Repeat, PlanComponents, D.MaxH, D.MaxV, Sampling;
    FrameMatchesPlan(p.sub, p.width, |p.lines|);
    ImageComponents(p, quality, McuRows(p));
  }

  // ------------------------------------------------------------ the whole file

  function Decoded(p: Image, quality: nat, blocks: seq<Block>): D.Decoding
    requires 1 <= quality <= 100
  {
    D.Decoding(p.width, |p.lines|, Planes(p.sub, quality), blocks)
  }

  lemma ReadSos(p: Image, quality: nat, st: D.State)
    requires IsImage(p) && 1 <= quality <= 100 && Prepared(st, p.sub, quality, p.width, |p.lines|)
    ensures D.ReadSegments(Sos(p.sub) + ScanAndEnd(p, quality), st) == Some(Decoded(p, quality, AllBlocks(p, quality)))
  {
    hide D.ReadSegments, D.ReadScan, ScanComponents, ScanAndEnd;
    var n := ComponentCount(p.sub);
    var payload := [n] + ScanComponents(n) + ScanTail();
    SelectAll(p.sub, quality, p.width, |p.lines|, st);
    assert Sos(p.sub) == Segment(0xDA, payload);
    ReadSosSegment(payload, ScanAndEnd(p, quality), st);
    ReadScanData(p, quality, st, payload);
  }

  lemma ReadScanData(p: Image, quality: nat, st: D.State, payload: seq<Byte>)
    requires IsImage(p) && 1 <= quality <= 100 && Prepared(st, p.sub, quality, p.width, |p.lines|)
    requires payload == [ComponentCount(p.sub)] + ScanComponents(ComponentCount(p.sub)) + ScanTail()
    ensures D.ReadScan(payload, ScanAndEnd(p, quality), st) == Some(Decoded(p, quality, AllBlocks(p, quality)))
  {
    hide ScanComponents, D.Select, DecodeScan, ScanBits, ScanBytes, Unstuff, ByteBits, AllBlocks, D.BlockOrder,
      Usable, Standard;
    hide PerComponent, Planes;
    var n, blocks := ComponentCount(p.sub), AllBlocks(p, quality);
    SelectAll(p.sub, quality, p.width, |p.lines|, st);
    assert payload[1..1 + 2 * n] == ScanComponents(n) && payload[1 + 2 * n..] == [0, 63, 0];
    AllIsCodable(p, quality);
    StandardIsUsable();
    UsableIsReadable(Standard(), n);
    OrderOfFile(p, quality);
    assert |FrameList(p.sub)| == n;
    ScanBytesRoundTrip(Standard(), n, blocks, Marker(0xD9));
  }

  /** A file whose size fits the 16-bit fields of the frame header is read back. */
  lemma SizedFileDecodes(p: Image, quality: nat)
    requires IsImage(p) && 1 <= quality <= 100 && p.width < 65536 && |p.lines| < 65536
    ensures D.DecodeFile(File(p, quality)) == Some(Decoded(p, quality, AllBlocks(p, quality)))
  {
    hide D.ReadSegments, App0, Dqt, Sof, Dhts, Sos, ScanAndEnd, AllBlocks, WithTables, WithQuant, D.WellFormed, Planes;
    var sub, w, h := p.sub, p.width, |p.lines|;
    var s5 := Sos(sub) + ScanAndEnd(p, quality);
    var s4 := Dhts(sub) + s5;
    var s3 := Sof(sub, w, h) + s4;
    var s2 := Dqt(sub, quality) + s3;
    var s1 := App0() + s2;
    SixParts(Marker(0xD8), App0(), Dqt(sub, quality), Sof(sub, w, h), Dhts(sub), Sos(sub), ScanAndEnd(p, quality));
    assert File(p, quality)[..2] == [0xFF, 0xD8] && File(p, quality)[2..] == s1;
    var st := D.State(map[], map[], map[], None);
    EmptyIsWellFormed(sub, quality, w, h);
    ReadApp0(s2, st);
    ReadDqt(sub, quality, s3, st);
    ReadSof(sub, w, h, s4, st.(quant := WithQuant(sub, quality, map[])));
    ReadDhts(sub, s5, Framed(sub, quality, w, h));
    HeaderPrepares(sub, quality, w, h);
    ReadSos(p, quality, WithTables(sub, Framed(sub, quality, w, h)));
  }

  /** The T.81 decoder reads back from an encoded file the size of the image, the quantisation tables and every
      coefficient of every block, exactly when width and height fit the frame header. */
  lemma DecodeUndoesEncode(p: Image, quality: nat)
    requires IsImage(p) && 1 <= quality <= 100
    ensures D.DecodeFile(File(p, quality)) == Some(Decoded(p, quality, AllBlocks(p, quality)))
       <==> p.width < 65536 && |p.lines| < 65536
  {
    hide D.DecodeFile, File, AllBlocks, Planes;
    if p.width < 65536 && |p.lines| < 65536 {
      SizedFileDecodes(p, quality);
    }
    D.DecodedSize(File(p, quality));
  }

  /** A single line of 65536 pixels is accepted and coded, and is not read back. */
  lemma TooWide(quality: nat)
    requires 1 <= quality <= 100
    ensures var p := Image(YOnly, 65536, 1, [seq(65536, _ => 0)]);
      IsImage(p) && D.DecodeFile(File(p, quality)) != Some(Decoded(p, quality, AllBlocks(p, quality)))
  {
    hide D.DecodeFile, File, AllBlocks, Planes;
    DecodeUndoesEncode(Image(YOnly, 65536, 1, [seq(65536, _ => 0)]), quality);
  }

  lemma EmptyIsWellFormed(sub: Subsampling, quality: nat, width: nat, height: nat)
    requires 1 <= quality <= 100
    ensures D.WellFormed(D.State(map[], map[], map[], None))
    ensures D.WellFormed(D.State(WithQuant(sub, quality, map[]), map[], map[], None))
    ensures D.WellFormed(Framed(sub, quality, width, height))
  {
  }

  lemma SixParts(a: seq<Byte>, b: seq<Byte>, c: seq<Byte>, d: seq<Byte>, e: seq<Byte>, f: seq<Byte>, g: seq<Byte>)
    ensures (a + b + c + d + e + f) + g == a + (b + (c + (d + (e + (f + g)))))
  {
  }
}
