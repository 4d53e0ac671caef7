/** A scan: blocks of several components with their DC predictors, as bits and as bytes. */
module Scan {
  import opened Bits
  import opened Huffman
  import opened T81Decoder
  import opened Entropy
  import opened Stuffing

  /** The tables of luminance (index 0) and chrominance (index 1). */
  datatype Tables = Tables(dc: seq<Spec>, ac: seq<Spec>)

  ghost predicate Usable(t: Tables) {
    && |t.dc| == |t.ac| == 2
    && (forall i :: 0 <= i < 2 ==> DcTable(t.dc[i]))
    && (forall i :: 0 <= i < 2 ==> AcTable(t.ac[i]))
  }

  /** The table a component uses: `component_num > 0`. */
  function Selector(component: nat): nat {
    if component == 0 then 0 else 1
  }

  datatype Block = Block(component: nat, coefficients: seq<int>)

  predicate IsBlock(b: Block) {
    b.component < 3 && InRange(b.coefficients)
  }

  ghost predicate AreBlocks(s: seq<Block>) {
    forall i :: 0 <= i < |s| ==> IsBlock(s[i])
  }

  /** `m_last_dc_val` */
  type Predictors = p: seq<int> | |p| == 3 witness [0, 0, 0]

  predicate SmallPredictors(p: Predictors) {
    -1024 <= p[0] <= 1023 && -1024 <= p[1] <= 1023 && -1024 <= p[2] <= 1023
  }

  function CodeBlock(t: Tables, b: Block, p: Predictors): seq<bool>
    requires Usable(t) && IsBlock(b)
  {
    var i := Selector(b.component);
    BlockBits(t.dc[i], t.ac[i], b.coefficients, p[b.component])
  }

  function After(b: Block, p: Predictors): Predictors
    requires IsBlock(b)
  {
    p[b.component := b.coefficients[0]]
  }

  function AfterAll(s: seq<Block>, p: Predictors): Predictors
    requires AreBlocks(s)
  {
    if |s| == 0 then p else AfterAll(s[1..], After(s[0], p))
  }

  function ScanBits(t: Tables, s: seq<Block>, p: Predictors): seq<bool>
    requires Usable(t) && AreBlocks(s)
  {
    if |s| == 0 then [] else CodeBlock(t, s[0], p) + ScanBits(t, s[1..], After(s[0], p))
  }

  /** Tables for a decoder: one DC and one AC table for each component of the scan. */
  predicate Readable(t: Tables) {
    && |t.dc| == |t.ac| <= 3
    && forall i :: 0 <= i < |t.dc| ==> |t.dc[i].bits| == 17 && |t.ac[i].bits| == 17
  }

  /** The tables of the first `n` components. */
  function PerComponent(t: Tables, n: nat): (r: Tables)
    requires |t.dc| == |t.ac| == 2
    ensures |r.dc| == |r.ac| == n
  {
    Tables(seq(n, (i: nat) => t.dc[Selector(i)]), seq(n, (i: nat) => t.ac[Selector(i)]))
  }

  /** The decoder: one block for each entry of `components`, predictors updated as it goes. */
  function DecodeScan(t: Tables, components: seq<nat>, stream: seq<bool>, p: Predictors): Decoded<seq<Block>>
    requires Readable(t) && forall i :: 0 <= i < |components| ==> components[i] < |t.dc|
  {
    if |components| == 0 then Good([], stream)
    else
      var c := components[0];
      match DecodeBlock(t.dc[c], t.ac[c], stream, p[c])
      case Bad => Bad
      case Good(z, rest) =>
        match DecodeScan(t, components[1..], rest, p[c := z[0]])
        case Bad => Bad
        case Good(s, after) => Good([Block(c, z)] + s, after)
  }

  lemma {:induction false} PredictorsStaySmall(s: seq<Block>, p: Predictors)
    requires AreBlocks(s) && SmallPredictors(p)
    ensures SmallPredictors(AfterAll(s, p))
  {
    if |s| > 0 {
      assert IsBlock(s[0]);
      PredictorsStaySmall(s[1..], After(s[0], p));
    }
  }

  function Components(s: seq<Block>): (c: seq<nat>)
    ensures |c| == |s|
  {
    seq(|s|, i requires 0 <= i < |s| => s[i].component)
  }

  lemma {:induction false} AppendBlock(t: Tables, s: seq<Block>, b: Block, p: Predictors)
    requires Usable(t) && AreBlocks(s) && IsBlock(b)
    ensures AreBlocks(s + [b])
    ensures ScanBits(t, s + [b], p) == ScanBits(t, s, p) + CodeBlock(t, b, AfterAll(s, p))
    ensures AfterAll(s + [b], p) == After(b, AfterAll(s, p))
  {
    if |s| == 0 {
      NothingBefore(t, s, b, p);
    } else {
      AppendBlock(t, s[1..], b, After(s[0], p));
      AppendStep(t, s, b, p);
    }
  }

  lemma AppendStep(t: Tables, s: seq<Block>, b: Block, p: Predictors)
    requires Usable(t) && AreBlocks(s) && |s| > 0 && IsBlock(b)
    requires AreBlocks(s[1..] + [b])
    requires ScanBits(t, s[1..] + [b], After(s[0], p))
          == ScanBits(t, s[1..], After(s[0], p)) + CodeBlock(t, b, AfterAll(s[1..], After(s[0], p)))
    requires AfterAll(s[1..] + [b], After(s[0], p)) == After(b, AfterAll(s[1..], After(s[0], p)))
    ensures AreBlocks(s + [b])
    ensures ScanBits(t, s + [b], p) == ScanBits(t, s, p) + CodeBlock(t, b, AfterAll(s, p))
    ensures AfterAll(s + [b], p) == After(b, AfterAll(s, p))
  {
    hide CodeBlock, After, AfterAll, ScanBits, Usable, IsBlock;
    assert (s + [b])[1..] == s[1..] + [b] && (s + [b])[0] == s[0];
    assert AreBlocks(s + [b]);
    BlockFirst(t, s, p);
    BlockFirst(t, s + [b], p);
    ConcatAssoc(CodeBlock(t, s[0], p), ScanBits(t, s[1..], After(s[0], p)), CodeBlock(t, b, AfterAll(s, p)));
  }

  lemma ConcatAssoc(a: seq<bool>, b: seq<bool>, c: seq<bool>)
    ensures a + (b + c) == (a + b) + c
  {
  }

  lemma BlockFirst(t: Tables, s: seq<Block>, p: Predictors)
    requires Usable(t) && AreBlocks(s) && |s| > 0
    ensures ScanBits(t, s, p) == CodeBlock(t, s[0], p) + ScanBits(t, s[1..], After(s[0], p))
    ensures AfterAll(s, p) == AfterAll(s[1..], After(s[0], p))
  {
  }

  lemma NothingBefore(t: Tables, s: seq<Block>, b: Block, p: Predictors)
    requires Usable(t) && |s| == 0 && IsBlock(b)
    ensures ScanBits(t, s + [b], p) == ScanBits(t, s, p) + CodeBlock(t, b, AfterAll(s, p))
    ensures AfterAll(s + [b], p) == After(b, AfterAll(s, p))
  {
    assert s + [b] == [b];
    OneBlock(t, b, p);
    hide CodeBlock, After, Usable, IsBlock;
  }

  lemma OneBlock(t: Tables, b: Block, p: Predictors)
    requires Usable(t) && IsBlock(b)
    ensures ScanBits(t, [b], p) == CodeBlock(t, b, p) && AfterAll([b], p) == After(b, p)
  {
    hide CodeBlock, After, Usable, IsBlock;
    assert [b][1..] == [];
  }

  lemma UsableIsReadable(t: Tables, n: nat)
    requires Usable(t) && n <= 3
    ensures Readable(PerComponent(t, n))
  {
    assert DcTable(t.dc[0]) && DcTable(t.dc[1]) && AcTable(t.ac[0]) && AcTable(t.ac[1]);
  }

  /** Every coefficient of every block is recovered, whatever the interleaving of components. */
  lemma {:induction false} ScanRoundTrip(t: Tables, n: nat, s: seq<Block>, p: Predictors, rest: seq<bool>)
    requires Usable(t) && AreBlocks(s) && SmallPredictors(p) && n <= 3
    requires Readable(PerComponent(t, n)) && forall i :: 0 <= i < |s| ==> Components(s)[i] < n
    ensures DecodeScan(PerComponent(t, n), Components(s), ScanBits(t, s, p) + rest, p) == Good(s, rest)
  {
    if |s| == 0 {
      assert ScanBits(t, s, p) + rest == rest;
    } else {
      hide DecodeBlock, CodeBlock, DecodeScan, ScanBits, Readable;
      var b := s[0];
      var tail := ScanBits(t, s[1..], After(b, p)) + rest;
      assert IsBlock(b);
      assert Components(s)[1..] == Components(s[1..]);
      assert Components(s)[0] == b.component;
      ScanRoundTrip(t, n, s[1..], After(b, p), rest);
      OneBlockRoundTrip(t, b, p, tail);
      ScanStep(t, n, s, p, rest, tail);
    }
  }

  lemma OneBlockRoundTrip(t: Tables, b: Block, p: Predictors, tail: seq<bool>)
    requires Usable(t) && IsBlock(b) && SmallPredictors(p)
    ensures |t.dc[Selector(b.component)].bits| == 17 && |t.ac[Selector(b.component)].bits| == 17
    ensures var i := Selector(b.component);
      DecodeBlock(t.dc[i], t.ac[i], CodeBlock(t, b, p) + tail, p[b.component]) == Good(b.coefficients, tail)
  {
    hide DecodeBlock, BlockBits, InRange;
    var i := Selector(b.component);
    assert DcTable(t.dc[i]) && AcTable(t.ac[i]);
    BlockRoundTrip(t.dc[i], t.ac[i], b.coefficients, p[b.component], tail);
  }

  lemma ScanStep(t: Tables, n: nat, s: seq<Block>, p: Predictors, rest: seq<bool>, tail: seq<bool>)
    requires Usable(t) && AreBlocks(s) && |s| > 0 && n <= 3
    requires Readable(PerComponent(t, n)) && forall i :: 0 <= i < |s| ==> Components(s)[i] < n
    requires tail == ScanBits(t, s[1..], After(s[0], p)) + rest
    requires Components(s)[1..] == Components(s[1..]) && Components(s)[0] == s[0].component
    requires var i := Selector(s[0].component); |t.dc[i].bits| == 17 && |t.ac[i].bits| == 17
    requires var i := Selector(s[0].component);
      DecodeBlock(t.dc[i], t.ac[i], CodeBlock(t, s[0], p) + tail, p[s[0].component]) == Good(s[0].coefficients, tail)
    requires DecodeScan(PerComponent(t, n), Components(s[1..]), tail, After(s[0], p)) == Good(s[1..], rest)
    ensures DecodeScan(PerComponent(t, n), Components(s), ScanBits(t, s, p) + rest, p) == Good(s, rest)
  {
    hide DecodeBlock, CodeBlock, Usable;
    assert ScanBits(t, s, p) + rest == CodeBlock(t, s[0], p) + tail;
    assert [Block(s[0].component, s[0].coefficients)] + s[1..] == s;
  }

  // ------------------------------------------------------------ the scan as bytes

  function Ones(n: nat): seq<bool> {
    seq(n, _ => true)
  }

  /** The bytes of the entropy-coded segment: the bits, ones up to a byte boundary, zeros stuffed. */
  function ScanBytes(bits: seq<bool>): seq<Byte> {
    Stuff(Pack(bits + Ones(7)))
  }

  /** Reading the bytes of a scan up to the next marker gives the bits and at most seven ones. */
  lemma ReadScanBytes(bits: seq<bool>, tail: seq<Byte>)
    requires |tail| >= 2 && tail[0] == 0xFF && tail[1] != 0
    ensures Unstuff(ScanBytes(bits) + tail).1 == tail
    ensures exists n :: 0 <= n <= 7 && ByteBits(Unstuff(ScanBytes(bits) + tail).0) == bits + Ones(n)
  {
    var padded := bits + Ones(7);
    UnstuffUndoesStuff(Pack(padded), tail);
    PackKeepsBits(padded);
    var n := 8 * (|padded| / 8) - |bits|;
    assert padded[..8 * (|padded| / 8)] == bits + Ones(n);
  }

  /** The whole way: blocks to bytes, bytes to blocks. */
  lemma ScanBytesRoundTrip(t: Tables, n: nat, s: seq<Block>, tail: seq<Byte>)
    requires Usable(t) && AreBlocks(s) && n <= 3
    requires |tail| >= 2 && tail[0] == 0xFF && tail[1] != 0
    requires Readable(PerComponent(t, n)) && forall i :: 0 <= i < |s| ==> Components(s)[i] < n
    ensures var (data, rest) := Unstuff(ScanBytes(ScanBits(t, s, [0, 0, 0])) + tail);
      && rest == tail
      && DecodeScan(PerComponent(t, n), Components(s), ByteBits(data), [0, 0, 0]).Good?
      && DecodeScan(PerComponent(t, n), Components(s), ByteBits(data), [0, 0, 0]).value == s
  {
    hide Usable, AreBlocks, Readable, DecodeScan, ScanBits, ScanBytes, Unstuff, ByteBits, PerComponent;
    var bits := ScanBits(t, s, [0, 0, 0]);
    ReadScanBytes(bits, tail);
    var data := Unstuff(ScanBytes(bits) + tail).0;
    var k :| 0 <= k <= 7 && ByteBits(data) == bits + Ones(k);
    ScanRoundTrip(t, n, s, [0, 0, 0], Ones(k));
  }
}
