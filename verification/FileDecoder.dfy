/** A baseline JPEG file decoder up to the quantised coefficients, written from ITU-T T.81, Annex B
    (marker segments), section A.2 (order of blocks) and section F.2 (entropy decoding).  It reads one
    interleaved scan with up to three components. */
module FileDecoder {
  import opened Basics
  import opened Bits
  import opened Huffman
  import opened Stuffing
  import opened Scan

  /** A component of the frame header. */
  datatype FrameComponent = FrameComponent(id: nat, h: nat, v: nat, tq: nat)

  datatype Frame = Frame(width: nat, height: nat, components: seq<FrameComponent>)

  /** What the marker segments have defined so far. */
  datatype State = State(quant: map<nat, seq<Byte>>, dc: map<nat, Spec>, ac: map<nat, Spec>, frame: Option<Frame>)

  datatype Plane = Plane(h: nat, v: nat, quant: seq<Byte>)

  /** A decoded file: size, sampling factors and quantisation table of each component, and the quantised
      blocks in scan order. */
  datatype Decoding = Decoding(width: nat, height: nat, planes: seq<Plane>, blocks: seq<Block>)

  /** Two bytes, the most significant first. */
  function Number(hi: nat, lo: nat): nat {
    256 * hi + lo
  }

  // ------------------------------------------------------------ table segments

  /** DQT (section B.2.4.1), 8-bit entries. */
  function ReadDqt(s: seq<Byte>, quant: map<nat, seq<Byte>>): Option<map<nat, seq<Byte>>> {
    if |s| == 0 then Some(quant)
    else if |s| < 65 || s[0] >= 4 then None
    else ReadDqt(s[65..], quant[s[0] := s[1..65]])
  }

  function SumCounts(s: seq<Byte>): nat {
    if |s| == 0 then 0 else SumCounts(s[..|s| - 1]) + s[|s| - 1]
  }

  /** DHT (section B.2.4.2). */
  function ReadDht(s: seq<Byte>, st: State): Option<State> {
    if |s| == 0 then Some(st)
    else if |s| < 17 then None
    else
      var n := SumCounts(s[1..17]);
      if |s| < 17 + n || n > 256 || s[0] % 16 >= 4 then None
      else
        var t := Spec([0] + s[1..17], s[17..17 + n]);
        var rest := s[17 + n..];
        if s[0] / 16 == 0 then ReadDht(rest, st.(dc := st.dc[s[0] % 16 := t]))
        else if s[0] / 16 == 1 then ReadDht(rest, st.(ac := st.ac[s[0] % 16 := t]))
        else None
  }

  function FrameComponents(s: seq<Byte>): seq<FrameComponent> {
    if |s| < 3 then [] else [FrameComponent(s[0], s[1] / 16, s[1] % 16, s[2])] + FrameComponents(s[3..])
  }

  /** SOF0 (section B.2.2). */
  function ReadFrame(s: seq<Byte>): Option<Frame> {
    if |s| < 6 || s[0] != 8 then None
    else
      var height, width, count := Number(s[1], s[2]), Number(s[3], s[4]), s[5] as nat;
      if |s| != 6 + 3 * count then None
      else if width == 0 || height == 0 then None else Some(Frame(width, height, FrameComponents(s[6..])))
  }

  /** A segment other than SOS. */
  function Apply(marker: Byte, s: seq<Byte>, st: State): Option<State> {
    if marker == 0xDB then
      match ReadDqt(s, st.quant)
      case None => None
      case Some(quant) => Some(st.(quant := quant))
    else if marker == 0xC4 then ReadDht(s, st)
    else if marker == 0xC0 then
      match ReadFrame(s)
      case None => None
      case Some(frame) => Some(st.(frame := Some(frame)))
    else if 0xE0 <= marker <= 0xEF || marker == 0xFE then Some(st)
    else None
  }

  // ------------------------------------------------------------ the scan

  function MaxH(c: seq<FrameComponent>): (m: nat)
    ensures m >= 1
  {
    if |c| == 0 then 1 else if c[|c| - 1].h > MaxH(c[..|c| - 1]) then c[|c| - 1].h else MaxH(c[..|c| - 1])
  }

  function MaxV(c: seq<FrameComponent>): (m: nat)
    ensures m >= 1
  {
    if |c| == 0 then 1 else if c[|c| - 1].v > MaxV(c[..|c| - 1]) then c[|c| - 1].v else MaxV(c[..|c| - 1])
  }

  /** The blocks of one MCU: `h * v` for each component; one for a scan of one component (section A.2.2). */
  function McuPattern(c: seq<FrameComponent>, n: nat): seq<nat>
    requires n <= |c|
  {
    if n == 0 then []
    else McuPattern(c, n - 1) + seq(if |c| == 1 then 1 else c[n - 1].h * c[n - 1].v, _ => n - 1)
  }

  function Repeat(pattern: seq<nat>, n: nat): seq<nat> {
    if n == 0 then [] else Repeat(pattern, n - 1) + pattern
  }

  ghost predicate Below(s: seq<nat>, m: nat) {
    forall i :: 0 <= i < |s| ==> s[i] < m
  }

  lemma {:induction false} PatternBelow(c: seq<FrameComponent>, n: nat)
    requires n <= |c|
    ensures Below(McuPattern(c, n), |c|)
  {
    if n > 0 {
      PatternBelow(c, n - 1);
    }
  }

  lemma {:induction false} RepeatBelow(pattern: seq<nat>, n: nat, m: nat)
    requires Below(pattern, m)
    ensures Below(Repeat(pattern, n), m)
  {
    if n > 0 {
      RepeatBelow(pattern, n - 1, m);
    }
  }

  /** The component of every block of the scan. */
  function BlockOrder(f: Frame): (order: seq<nat>)
    ensures Below(order, |f.components|)
  {
    var c := f.components;
    var mcusX := if |c| == 1 then CeilDiv(f.width, 8) else CeilDiv(f.width, 8 * MaxH(c));
    var mcusY := if |c| == 1 then CeilDiv(f.height, 8) else CeilDiv(f.height, 8 * MaxV(c));
    PatternBelow(c, |c|);
    RepeatBelow(McuPattern(c, |c|), mcusX * mcusY, |c|);
    Repeat(McuPattern(c, |c|), mcusX * mcusY)
  }

  /** The tables that an SOS segment selects for the first `n` components (section B.2.3); components come
      in the order of the frame header. */
  function Select(s: seq<Byte>, f: Frame, st: State, n: nat): (r: Option<(Tables, seq<Plane>)>)
    requires n <= |f.components| && |s| >= 2 * n && forall i :: i in st.dc ==> |st.dc[i].bits| == 17
    requires forall i :: i in st.ac ==> |st.ac[i].bits| == 17
    ensures r.Some? ==> |r.value.0.dc| == |r.value.0.ac| == n
    ensures r.Some? ==> forall i :: 0 <= i < n ==> |r.value.0.dc[i].bits| == 17 && |r.value.0.ac[i].bits| == 17
  {
    if n == 0 then Some((Tables([], []), []))
    else
      match Select(s, f, st, n - 1)
      case None => None
      case Some(before) =>
        var c, id, td, ta := f.components[n - 1], s[2 * n - 2], s[2 * n - 1] / 16, s[2 * n - 1] % 16;
        if id != c.id || td !in st.dc || ta !in st.ac || c.tq !in st.quant then None
        else Some((Tables(before.0.dc + [st.dc[td]], before.0.ac + [st.ac[ta]]),
                   before.1 + [Plane(c.h, c.v, st.quant[c.tq])]))
  }

  ghost predicate WellFormed(st: State) {
    && (forall i :: i in st.dc ==> |st.dc[i].bits| == 17)
    && (forall i :: i in st.ac ==> |st.ac[i].bits| == 17)
  }

  /** SOS, the entropy-coded segment and EOI. */
  function ReadScan(s: seq<Byte>, data: seq<Byte>, st: State): Option<Decoding>
    requires WellFormed(st)
  {
    if st.frame.None? || |s| < 1 then None
    else
      var f, n := st.frame.value, s[0] as nat;
      if n > 3 || n != |f.components| || |s| != 4 + 2 * n || s[1 + 2 * n..] != [0, 63, 0] then None
      else
        match Select(s[1..1 + 2 * n], f, st, n)
        case None => None
        case Some((tables, planes)) =>
          var (bytes, rest) := Unstuff(data);
          if |rest| < 2 || rest[..2] != [0xFF, 0xD9] then None
          else
            match DecodeScan(tables, BlockOrder(f), ByteBits(bytes), [0, 0, 0])
            case Bad => None
            case Good(blocks, _) => Some(Decoding(f.width, f.height, planes, blocks))
  }

  lemma {:induction false} DhtKeepsWellFormed(s: seq<Byte>, st: State)
    requires WellFormed(st)
    ensures ReadDht(s, st).Some? ==> WellFormed(ReadDht(s, st).value)
    decreases |s|
  {
    if |s| >= 17 {
      var n := SumCounts(s[1..17]);
      if |s| >= 17 + n && n <= 256 && s[0] % 16 < 4 {
        var t := Spec([0] + s[1..17], s[17..17 + n]);
        if s[0] / 16 == 0 {
          DhtKeepsWellFormed(s[17 + n..], st.(dc := st.dc[s[0] % 16 := t]));
        } else if s[0] / 16 == 1 {
          DhtKeepsWellFormed(s[17 + n..], st.(ac := st.ac[s[0] % 16 := t]));
        }
      }
    }
  }

  lemma ApplyKeepsWellFormed(marker: Byte, s: seq<Byte>, st: State)
    requires WellFormed(st)
    ensures Apply(marker, s, st).Some? ==> WellFormed(Apply(marker, s, st).value)
  {
    DhtKeepsWellFormed(s, st);
  }

  /** Marker segments up to the scan. */
  function ReadSegments(s: seq<Byte>, st: State): Option<Decoding>
    requires WellFormed(st)
    decreases |s|
  {
    if |s| < 4 || s[0] != 0xFF then None
    else
      var n := Number(s[2], s[3]);
      if n < 2 || |s| < n + 2 then None
      else
        var payload, rest := s[4..n + 2], s[n + 2..];
        if s[1] == 0xDA then ReadScan(payload, rest, st)
        else
          match Apply(s[1], payload, st)
          case None => None
          case Some(next) => ApplyKeepsWellFormed(s[1], payload, st); ReadSegments(rest, next)
  }

  function DecodeFile(s: seq<Byte>): Option<Decoding> {
    if |s| < 2 || s[..2] != [0xFF, 0xD8] then None
    else ReadSegments(s[2..], State(map[], map[], map[], None))
  }

  // ------------------------------------------------------------ sizes are 16-bit numbers

  ghost predicate SizeFits(st: State) {
    st.frame.Some? ==> st.frame.value.width < 65536 && st.frame.value.height < 65536
  }

  lemma {:induction false} DhtKeepsFrame(s: seq<Byte>, st: State)
    ensures ReadDht(s, st).Some? ==> ReadDht(s, st).value.frame == st.frame
    decreases |s|
  {
    if |s| >= 17 {
      var n := SumCounts(s[1..17]);
      if |s| >= 17 + n && n <= 256 && s[0] % 16 < 4 {
        var t := Spec([0] + s[1..17], s[17..17 + n]);
        DhtKeepsFrame(s[17 + n..], st.(dc := st.dc[s[0] % 16 := t]));
        DhtKeepsFrame(s[17 + n..], st.(ac := st.ac[s[0] % 16 := t]));
      }
    }
  }

  lemma ApplyKeepsSize(marker: Byte, s: seq<Byte>, st: State)
    requires SizeFits(st)
    ensures Apply(marker, s, st).Some? ==> SizeFits(Apply(marker, s, st).value)
  {
    hide ReadDht, ReadDqt, FrameComponents;
    DhtKeepsFrame(s, st);
  }

  lemma ScanKeepsSize(s: seq<Byte>, data: seq<Byte>, st: State)
    requires WellFormed(st) && SizeFits(st)
    ensures ReadScan(s, data, st).Some? ==>
      ReadScan(s, data, st).value.width < 65536 && ReadScan(s, data, st).value.height < 65536
  {
    hide Select, DecodeScan, BlockOrder, Unstuff;
  }

  lemma {:induction false} SegmentsKeepSize(s: seq<Byte>, st: State)
    requires WellFormed(st) && SizeFits(st)
    ensures var r := ReadSegments(s, st); r.Some? ==> r.value.width < 65536 && r.value.height < 65536
    decreases |s|
  {
    hide Apply, ReadScan, SizeFits, WellFormed;
    if |s| >= 4 && s[0] == 0xFF {
      var n := Number(s[2], s[3]);
      if 2 <= n <= |s| - 2 {
        var payload, rest := s[4..n + 2], s[n + 2..];
        if s[1] == 0xDA {
          ScanKeepsSize(payload, rest, st);
        } else if Apply(s[1], payload, st).Some? {
          ApplyKeepsWellFormed(s[1], payload, st);
          ApplyKeepsSize(s[1], payload, st);
          SegmentsKeepSize(rest, Apply(s[1], payload, st).value);
        }
      }
    }
  }

  /** Whatever is decoded has a width and a height of 16 bits. */
  lemma DecodedSize(s: seq<Byte>)
    ensures var r := DecodeFile(s); r.Some? ==> r.value.width < 65536 && r.value.height < 65536
  {
    hide ReadSegments;
    if |s| >= 2 && s[..2] == [0xFF, 0xD8] {
      SegmentsKeepSize(s[2..], State(map[], map[], map[], None));
    }
  }
}
