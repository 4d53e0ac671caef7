/** Run-length and difference coding of quantised blocks (`code_coefficients_pass_two`) and its
    inverse, the block decoder of ITU-T T.81, section F.2.2. */
module Entropy {
  import opened Basics
  import opened Bits
  import opened Huffman
  import opened T81Decoder

  /** SSSS: the number of bits of a magnitude. */
  function Category(v: nat): nat {
    if v == 0 then 0 else 1 + Category(v / 2)
  }

  /** The value bits that follow a code: `v`, or `v - 1` for negative `v`, cut to its category. */
  function MagnitudeBits(v: int): seq<bool> {
    BitsOf(if v < 0 then v - 1 else v, Category(Abs(v)))
  }

  /** The bits written for symbol `v`; nothing when the table has no code for it. */
  function SymbolBits(t: Spec, v: nat): seq<bool>
    requires ValidSpec(t)
  {
    BitsOf(CodeOf(t, v), SizeOf(t, v))
  }

  /** Sixteen-zero runs (ZRL, symbol 0xF0) for a run of `run` zeros. */
  function ZrlBits(t: Spec, run: nat): seq<bool>
    requires ValidSpec(t)
  {
    if run < 16 then [] else SymbolBits(t, 0xF0) + ZrlBits(t, run - 16)
  }

  /** RS: a zero run and a magnitude category as one symbol. */
  function RunSize(run: nat, size: nat): nat {
    run * 16 + size
  }

  /** The bits of one nonzero coefficient after `run` zeros. */
  function RunBits(t: Spec, run: nat, v: int): seq<bool>
    requires ValidSpec(t)
  {
    ZrlBits(t, run) + SymbolBits(t, RunSize(run % 16, Category(Abs(v)))) + MagnitudeBits(v)
  }

  /** AC coefficients `i` to 63 when the `run` coefficients before `i` are pending zeros. */
  function AcBits(t: Spec, c: seq<int>, i: nat, run: nat): seq<bool>
    requires ValidSpec(t) && |c| == 64 && i <= 64
    decreases 64 - i
  {
    if i == 64 then (if run > 0 then SymbolBits(t, 0) else [])
    else if c[i] == 0 then AcBits(t, c, i + 1, run + 1)
    else RunBits(t, run, c[i]) + AcBits(t, c, i + 1, 0)
  }

  function DcBits(t: Spec, diff: int): seq<bool>
    requires ValidSpec(t)
  {
    SymbolBits(t, Category(Abs(diff))) + MagnitudeBits(diff)
  }

  /** One block, its coefficients in zig-zag order, after a block with DC value `pred`. */
  function BlockBits(dc: Spec, ac: Spec, c: seq<int>, pred: int): seq<bool>
    requires ValidSpec(dc) && ValidSpec(ac) && |c| == 64
  {
    DcBits(dc, c[0] - pred) + AcBits(ac, c, 1, 0)
  }

  // ------------------------------------------------------------ the decoder

  function Zeros(n: nat): seq<int> {
    seq(n, _ => 0)
  }

  /** Decode_AC_coefficients (figure F.13) from coefficient `k` on. */
  function DecodeAc(t: Spec, stream: seq<bool>, k: nat): (r: Decoded<seq<int>>)
    requires |t.bits| == 17 && k <= 64
    ensures r.Good? ==> |r.value| == 64 - k
    decreases 64 - k
  {
    if k == 64 then Good([], stream)
    else match Decode(t, stream)
      case Bad => Bad
      case Good(rs, rest) =>
        var run, size := rs / 16, rs % 16;
        if size == 0 then
          if run != 15 then Good(Zeros(64 - k), rest)
          else if k + 16 > 64 then Bad
          else (match DecodeAc(t, rest, k + 16)
                case Bad => Bad
                case Good(c, after) => Good(Zeros(16) + c, after))
        else if k + run > 63 then Bad
        else match Receive(rest, size)
          case Bad => Bad
          case Good(v, tail) =>
            match DecodeAc(t, tail, k + run + 1)
            case Bad => Bad
            case Good(c, after) => Good(Zeros(run) + [Extend(v, size)] + c, after)
  }

  /** A block: the DC difference (section F.2.2.1) and then the AC coefficients. */
  function DecodeBlock(dc: Spec, ac: Spec, stream: seq<bool>, pred: int): (r: Decoded<seq<int>>)
    requires |dc.bits| == 17 && |ac.bits| == 17
    ensures r.Good? ==> |r.value| == 64
  {
    match Decode(dc, stream)
    case Bad => Bad
    case Good(size, rest) =>
      match Receive(rest, size)
      case Bad => Bad
      case Good(v, tail) =>
        match DecodeAc(ac, tail, 1)
        case Bad => Bad
        case Good(c, after) => Good([pred + Extend(v, size)] + c, after)
  }

  // ------------------------------------------------------------ which tables can code what

  predicate HasCode(t: Spec, v: nat)
    requires ValidSpec(t)
  {
    v in t.val[..|AllSizes(t)|]
  }

  /** A table whose codes fit and which has a code for every difference below 2^11. */
  ghost predicate DcTable(t: Spec) {
    && ValidSpec(t) && AllFit(AllSizes(t))
    && forall n :: 0 <= n <= 11 ==> HasCode(t, n)
  }

  /** A table whose codes fit and which has codes for EOB, ZRL and every run and magnitude below 2^10. */
  ghost predicate AcTable(t: Spec) {
    && ValidSpec(t) && AllFit(AllSizes(t)) && HasCode(t, 0) && HasCode(t, 0xF0)
    && forall run, n :: 0 <= run < 16 && 1 <= n <= 10 ==> HasCode(t, RunSize(run, n))
  }

  /** Coefficients of a baseline block with 8-bit samples. */
  predicate InRange(c: seq<int>) {
    && |c| == 64
    && -1024 <= c[0] <= 1023
    && forall i :: 1 <= i < 64 ==> -1023 <= c[i] <= 1023
  }

  // ------------------------------------------------------------ round trips

  lemma {:induction false} CategoryBound(v: nat)
    ensures v < Pow2(Category(v))
    ensures v > 0 ==> Category(v) > 0 && Pow2(Category(v) - 1) <= v
  {
    if v > 0 {
      CategoryBound(v / 2);
    }
  }

  lemma {:induction false} CategoryAtMost(v: nat, n: nat)
    requires v < Pow2(n)
    ensures Category(v) <= n
  {
    if v > 0 {
      CategoryAtMost(v / 2, n - 1);
    }
  }

  lemma Categories(v: nat)
    ensures v < 1024 ==> Category(v) <= 10
    ensures v < 2048 ==> Category(v) <= 11
  {
    assert Pow2(10) == 1024 && Pow2(11) == 2048;
    if v < 1024 {
      CategoryAtMost(v, 10);
    }
    if v < 2048 {
      CategoryAtMost(v, 11);
    }
  }

  lemma {:induction false} LowNegative(v: int, n: nat)
    requires v < 0 <= v + Pow2(n)
    ensures Low(v, n) == v + Pow2(n)
    decreases n
  {
    if n > 0 {
      LowNegative(v / 2, n - 1);
    }
  }

  /** The value bits of `v` read as an unsigned number. */
  function MagnitudeValue(v: int): nat {
    Low(if v < 0 then v - 1 else v, Category(Abs(v)))
  }

  /** RECEIVE and EXTEND undo the value bits. */
  lemma ExtendUndoesMagnitude(v: int, rest: seq<bool>)
    ensures Receive(MagnitudeBits(v) + rest, Category(Abs(v))) == Good(MagnitudeValue(v), rest)
    ensures Extend(MagnitudeValue(v), Category(Abs(v))) == v
  {
    var n := Category(Abs(v));
    var w := if v < 0 then v - 1 else v;
    CategoryBound(Abs(v));
    assert (MagnitudeBits(v) + rest)[..n] == MagnitudeBits(v);
    assert (MagnitudeBits(v) + rest)[n..] == rest;
    ValueOfBits(w, n);
    if v < 0 {
      LowNegative(w, n);
    } else {
      LowFits(w, n);
    }
  }

  lemma DecodeUndoesSymbol(t: Spec, v: nat, rest: seq<bool>)
    requires ValidSpec(t) && AllFit(AllSizes(t)) && HasCode(t, v)
    ensures Decode(t, SymbolBits(t, v) + rest) == Good(v, rest)
  {
    LastIndexRange(t.val, |AllSizes(t)|, v);
    DecodeCodeWord(t, LastIndex(t.val, |AllSizes(t)|, v), rest);
  }

  /** `front` before whatever was decoded. */
  function Prepend(front: seq<int>, r: Decoded<seq<int>>): Decoded<seq<int>> {
    match r
    case Bad => Bad
    case Good(c, after) => Good(front + c, after)
  }

  lemma AcCoefficientStep(t: Spec, stream: seq<bool>, k: nat, rs: nat, mid: seq<bool>, v: nat, rest: seq<bool>,
                          r: Decoded<seq<int>>)
    requires |t.bits| == 17 && rs % 16 != 0 && k + rs / 16 <= 63
    requires Decode(t, stream) == Good(rs, mid) && Receive(mid, rs % 16) == Good(v, rest)
    requires r == DecodeAc(t, rest, k + rs / 16 + 1)
    ensures DecodeAc(t, stream, k) == Prepend(Zeros(rs / 16) + [Extend(v, rs % 16)], r)
  {
    hide Decode, Receive, Extend;
  }

  lemma AcZrlStep(t: Spec, stream: seq<bool>, k: nat, rest: seq<bool>)
    requires |t.bits| == 17 && k + 16 <= 64 && Decode(t, stream) == Good(0xF0, rest)
    ensures DecodeAc(t, stream, k) == Prepend(Zeros(16), DecodeAc(t, rest, k + 16))
  {
  }

  lemma DecodeShortRun(t: Spec, run: nat, v: int, k: nat, rest: seq<bool>)
    requires AcTable(t) && v != 0 && Abs(v) <= 1023 && run < 16 && k + run <= 63
    ensures DecodeAc(t, RunBits(t, run, v) + rest, k) == Prepend(Zeros(run) + [v], DecodeAc(t, rest, k + run + 1))
  {
    hide DecodeAc, Decode, Receive, SymbolBits, MagnitudeBits, Category;
    var n := Category(Abs(v));
    var rs := SymbolOf(t, run, v);
    var mid := MagnitudeBits(v) + rest;
    assert RunBits(t, run, v) + rest == SymbolBits(t, rs) + mid;
    DecodeUndoesSymbol(t, rs, mid);
    ExtendUndoesMagnitude(v, rest);
    AcCoefficientStep(t, SymbolBits(t, rs) + mid, k, rs, mid, MagnitudeValue(v), rest, DecodeAc(t, rest, k + run + 1));
  }

  lemma SymbolOf(t: Spec, run: nat, v: int) returns (rs: nat)
    requires AcTable(t) && v != 0 && Abs(v) <= 1023 && run < 16
    ensures rs == RunSize(run, Category(Abs(v))) && HasCode(t, rs)
    ensures rs / 16 == run && rs % 16 == Category(Abs(v)) > 0
  {
    CategoryBound(Abs(v));
    Categories(Abs(v));
    rs := RunSize(run, Category(Abs(v)));
  }

  /** The pending zeros before a nonzero coefficient, and that coefficient. */
  lemma {:induction false} DecodeRun(t: Spec, run: nat, v: int, k: nat, rest: seq<bool>)
    requires AcTable(t) && v != 0 && Abs(v) <= 1023 && k + run <= 63
    ensures DecodeAc(t, RunBits(t, run, v) + rest, k) == Prepend(Zeros(run) + [v], DecodeAc(t, rest, k + run + 1))
    decreases run
  {
    hide DecodeAc, Decode, SymbolBits;
    if run < 16 {
      DecodeShortRun(t, run, v, k, rest);
    } else {
      var tail := RunBits(t, run - 16, v) + rest;
      LongRun(t, run, v, rest);
      DecodeUndoesSymbol(t, 0xF0, tail);
      AcZrlStep(t, SymbolBits(t, 0xF0) + tail, k, tail);
      DecodeRun(t, run - 16, v, k + 16, rest);
      PrependTwice(Zeros(16), Zeros(run - 16) + [v], DecodeAc(t, rest, k + run + 1));
      assert Zeros(16) + (Zeros(run - 16) + [v]) == Zeros(run) + [v];
    }
  }

  lemma LongRun(t: Spec, run: nat, v: int, rest: seq<bool>)
    requires ValidSpec(t) && run >= 16
    ensures RunBits(t, run, v) + rest == SymbolBits(t, 0xF0) + (RunBits(t, run - 16, v) + rest)
  {
    assert run % 16 == (run - 16) % 16;
  }

  lemma PrependTwice(a: seq<int>, b: seq<int>, r: Decoded<seq<int>>)
    ensures Prepend(a, Prepend(b, r)) == Prepend(a + b, r)
  {
    if r.Good? {
      assert a + (b + r.value) == (a + b) + r.value;
    }
  }

  lemma {:induction false} DecodeAcUndoes(t: Spec, c: seq<int>, i: nat, run: nat, rest: seq<bool>)
    requires AcTable(t) && InRange(c) && 1 <= i <= 64 && run < i
    requires c[i - run..i] == Zeros(run)
    ensures DecodeAc(t, AcBits(t, c, i, run) + rest, i - run) == Good(c[i - run..], rest)
    decreases 64 - i
  {
    hide Decode, SymbolBits, DecodeAc, RunBits;
    if i == 64 {
      DecodeAcEnd(t, c, run, rest);
    } else if c[i] == 0 {
      assert c[i - run..i + 1] == c[i - run..i] + [0] == Zeros(run + 1);
      DecodeAcUndoes(t, c, i + 1, run + 1, rest);
    } else {
      var tail := AcBits(t, c, i + 1, 0) + rest;
      assert AcBits(t, c, i, run) + rest == RunBits(t, run, c[i]) + tail;
      assert c[i + 1..i + 1] == Zeros(0);
      DecodeAcUndoes(t, c, i + 1, 0, rest);
      DecodeRun(t, run, c[i], i - run, tail);
      assert c[i - run..] == c[i - run..i] + [c[i]] + c[i + 1..];
    }
  }

  lemma DecodeAcEnd(t: Spec, c: seq<int>, run: nat, rest: seq<bool>)
    requires AcTable(t) && |c| == 64 && run < 64 && c[64 - run..] == Zeros(run)
    ensures DecodeAc(t, AcBits(t, c, 64, run) + rest, 64 - run) == Good(c[64 - run..], rest)
  {
    hide Decode, SymbolBits;
    if run > 0 {
      DecodeUndoesSymbol(t, 0, rest);
      AcEobStep(t, SymbolBits(t, 0) + rest, 64 - run, rest);
    } else {
      assert AcBits(t, c, 64, run) + rest == rest;
    }
  }

  lemma AcEobStep(t: Spec, stream: seq<bool>, k: nat, rest: seq<bool>)
    requires |t.bits| == 17 && k < 64 && Decode(t, stream) == Good(0, rest)
    ensures DecodeAc(t, stream, k) == Good(Zeros(64 - k), rest)
  {
  }

  /** The T.81 decoder recovers every coefficient of a block and stops exactly at its end. */
  lemma BlockRoundTrip(dc: Spec, ac: Spec, c: seq<int>, pred: int, rest: seq<bool>)
    requires DcTable(dc) && AcTable(ac) && InRange(c) && -1024 <= pred <= 1023
    ensures DecodeBlock(dc, ac, BlockBits(dc, ac, c, pred) + rest, pred) == Good(c, rest)
  {
    hide DecodeBlock, DecodeAc, Decode, Receive, Extend, AcBits;
    var diff := c[0] - pred;
    var n := Category(Abs(diff));
    var tail := AcBits(ac, c, 1, 0) + rest;
    var mid := MagnitudeBits(diff) + tail;
    Categories(Abs(diff));
    assert HasCode(dc, n);
    assert BlockBits(dc, ac, c, pred) + rest == SymbolBits(dc, n) + mid;
    DecodeUndoesSymbol(dc, n, mid);
    ExtendUndoesMagnitude(diff, tail);
    assert c[1..1] == Zeros(0);
    DecodeAcUndoes(ac, c, 1, 0, rest);
    DcStep(dc, ac, SymbolBits(dc, n) + mid, pred, n, mid, MagnitudeValue(diff), tail, c[1..], rest);
    assert c == [c[0]] + c[1..];
  }

  lemma DcStep(dc: Spec, ac: Spec, stream: seq<bool>, pred: int, n: nat, mid: seq<bool>, v: nat, tail: seq<bool>,
               c: seq<int>, rest: seq<bool>)
    requires |dc.bits| == 17 && |ac.bits| == 17
    requires Decode(dc, stream) == Good(n, mid) && Receive(mid, n) == Good(v, tail)
    requires DecodeAc(ac, tail, 1) == Good(c, rest)
    ensures DecodeBlock(dc, ac, stream, pred) == Good([pred + Extend(v, n)] + c, rest)
  {
    hide Decode, Receive, Extend;
  }
}
