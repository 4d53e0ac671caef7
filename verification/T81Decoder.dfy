/** Huffman decoding as ITU-T T.81, section F.2.2 prescribes it, on the bits of a scan. */
module T81Decoder {
  import opened Bits
  import opened Huffman

  datatype Decoded<T> = Bad | Good(value: T, rest: seq<bool>)

  /** MAXCODE, MINCODE and VALPTR of figure F.15. */
  function MaxCode(t: Spec, l: nat): int
    requires |t.bits| == 17 && 1 <= l <= 16
  {
    TotalMonotone(t.bits, l, 16);
    if t.bits[l] == 0 then -1 else Code(AllSizes(t), Total(t.bits, l) - 1)
  }

  function MinCode(t: Spec, l: nat): nat
    requires |t.bits| == 17 && 1 <= l <= 16 && t.bits[l] > 0
  {
    TotalMonotone(t.bits, l, 16);
    Code(AllSizes(t), Total(t.bits, l - 1))
  }

  /** The loop of DECODE (figure F.16) once `l` bits have been read into `code`. */
  function DecodeFrom(t: Spec, code: nat, l: nat, stream: seq<bool>): Decoded<nat>
    requires |t.bits| == 17 && 1 <= l <= 16
    decreases 16 - l
  {
    if code > MaxCode(t, l) then
      if l == 16 || |stream| == 0 then Bad
      else DecodeFrom(t, 2 * code + (if stream[0] then 1 else 0), l + 1, stream[1..])
    else
      var j := Total(t.bits, l - 1) + code - MinCode(t, l);
      if 0 <= j < |t.val| then Good(t.val[j], stream) else Bad
  }

  function Decode(t: Spec, stream: seq<bool>): Decoded<nat>
    requires |t.bits| == 17
  {
    if |stream| == 0 then Bad
    else DecodeFrom(t, if stream[0] then 1 else 0, 1, stream[1..])
  }

  /** RECEIVE (figure F.17). */
  function Receive(stream: seq<bool>, n: nat): Decoded<nat> {
    if |stream| < n then Bad else Good(ValueOf(stream[..n]), stream[n..])
  }

  /** EXTEND (figure F.12). */
  function Extend(v: nat, n: nat): int {
    if n == 0 then 0 else if v < Pow2(n - 1) then v - Pow2(n) + 1 else v
  }

  lemma {:induction false} ShrStep(v: int, k: nat)
    ensures Shr(v, k + 1) == Shr(v, k) / 2
    decreases k
  {
    if k > 0 {
      ShrStep(v / 2, k - 1);
    }
  }

  /** Codes of one length count up. */
  lemma {:induction false} SameLengthRun(s: seq<nat>, q: nat, p: nat)
    requires q <= p < |s| && Ascending(s) && s[q] == s[p]
    ensures Code(s, p) == Code(s, q) + (p - q)
  {
    if q < p {
      assert s[p - 1] == s[p];
      SameLengthRun(s, q, p - 1);
    }
  }

  /** A code word cut short exceeds every code of that shorter length. */
  lemma CutAboveMax(t: Spec, p: nat, l: nat)
    requires |t.bits| == 17 && p < |AllSizes(t)| && 1 <= l < AllSizes(t)[p]
    ensures Shr(Code(AllSizes(t), p), AllSizes(t)[p] - l) > MaxCode(t, l)
  {
    var s := AllSizes(t);
    SizesAscending(t.bits, 16);
    if t.bits[l] > 0 {
      var j := Total(t.bits, l) - 1;
      SizesAt(t.bits, 16, l, j);
      LaterCodeAbove(s, j, p);
    } else {
      ShrNat(Code(s, p), s[p] - l);
    }
  }

  /** At its full length the code word selects entry `p`. */
  lemma FullCodeFound(t: Spec, p: nat, l: nat)
    requires |t.bits| == 17 && p < |AllSizes(t)| && l == AllSizes(t)[p]
    ensures t.bits[l] > 0 && Code(AllSizes(t), p) <= MaxCode(t, l)
    ensures Total(t.bits, l - 1) + Code(AllSizes(t), p) - MinCode(t, l) == p
  {
    hide Code, Total, Sizes;
    SizesInverse(t.bits, 16, p);
    TotalSplit(t.bits, l);
    SizesAt(t.bits, 16, l, Total(t.bits, l - 1));
    SizesAt(t.bits, 16, l, Total(t.bits, l) - 1);
    SizesAscending(t.bits, 16);
    RunAround(AllSizes(t), Total(t.bits, l - 1), p, Total(t.bits, l) - 1);
  }

  lemma TotalSplit(bits: seq<nat>, l: nat)
    requires 1 <= l < |bits|
    ensures Total(bits, l) == Total(bits, l - 1) + bits[l]
  {
  }

  lemma RunAround(s: seq<nat>, first: nat, p: nat, last: nat)
    requires first <= p <= last < |s| && Ascending(s) && s[first] == s[p] == s[last]
    ensures Code(s, p) == Code(s, first) + (p - first)
    ensures Code(s, last) >= Code(s, p)
  {
    SameLengthRun(s, first, p);
    SameLengthRun(s, p, last);
  }

  lemma DecodeStep(t: Spec, code: nat, l: nat, b: bool, rest: seq<bool>)
    requires |t.bits| == 17 && 1 <= l < 16 && code > MaxCode(t, l)
    ensures DecodeFrom(t, code, l, [b] + rest) == DecodeFrom(t, 2 * code + (if b then 1 else 0), l + 1, rest)
  {
    assert ([b] + rest)[1..] == rest;
  }

  /** The next bit of a code word lengthens its cut by one. */
  lemma CutStep(c: nat, n: nat, l: nat)
    requires l < n
    ensures Shr(c, n - l - 1) == 2 * Shr(c, n - l) + (if BitsOf(c, n)[l] then 1 else 0)
  {
    BitAt(c, n, l);
    ShrStep(c, n - l - 1);
  }

  lemma WordIs(s: seq<nat>, p: nat)
    requires p < |s|
    ensures |CodeWord(s, p)| == s[p] && CodeWord(s, p) == BitsOf(Code(s, p), s[p]) && Shr(Code(s, p), 0) == Code(s, p)
  {
  }

  /** With all bits of the code word read DECODE returns its value. */
  lemma DecodeStop(t: Spec, p: nat, rest: seq<bool>)
    requires |t.bits| == 17 && p < |AllSizes(t)| <= |t.val| && 1 <= AllSizes(t)[p] <= 16
    ensures DecodeFrom(t, Code(AllSizes(t), p), AllSizes(t)[p], rest) == Good(t.val[p], rest)
  {
    hide Code, Total, Sizes, MaxCode, MinCode;
    FullCodeFound(t, p, AllSizes(t)[p]);
  }

  lemma {:induction false} DecodeRest(t: Spec, p: nat, l: nat, code: nat, rest: seq<bool>)
    requires |t.bits| == 17 && p < |AllSizes(t)| <= |t.val| && 1 <= l <= AllSizes(t)[p]
    requires code == Shr(Code(AllSizes(t), p), AllSizes(t)[p] - l)
    ensures DecodeFrom(t, code, l, CodeWord(AllSizes(t), p)[l..] + rest) == Good(t.val[p], rest)
    decreases 16 - l
  {
    hide DecodeFrom, CodeWord, Code, Shr, AllSizes, MaxCode;
    var w, c, n := CodeWord(AllSizes(t), p), Code(AllSizes(t), p), AllSizes(t)[p];
    WordIs(AllSizes(t), p);
    if l < n {
      CutAboveMax(t, p, l);
      CutStep(c, n, l);
      var next: nat := Shr(c, n - l - 1);
      DecodeRest(t, p, l + 1, next, rest);
      DecodeStep(t, code, l, w[l], w[l + 1..] + rest);
      assert w[l..] + rest == [w[l]] + (w[l + 1..] + rest);
    } else {
      DecodeStop(t, p, rest);
      assert w[n..] + rest == rest;
    }
  }

  lemma FirstBit(c: nat, n: nat)
    requires 1 <= n && c < Pow2(n)
    ensures Shr(c, n - 1) == if BitsOf(c, n)[0] then 1 else 0
  {
    BitAt(c, n, 0);
    ShrFits(c, n, 1);
  }

  /** DECODE undoes the canonical code: it returns the value of the code word at the front of the
      stream and leaves the rest. */
  lemma DecodeCodeWord(t: Spec, p: nat, rest: seq<bool>)
    requires |t.bits| == 17 && p < |AllSizes(t)| <= |t.val| && AllFit(AllSizes(t))
    ensures Decode(t, CodeWord(AllSizes(t), p) + rest) == Good(t.val[p], rest)
  {
    var s, w := AllSizes(t), CodeWord(AllSizes(t), p);
    var c, n := Code(s, p), s[p];
    FirstBit(c, n);
    assert (w + rest)[0] == w[0];
    assert (w + rest)[1..] == w[1..] + rest;
    DecodeRest(t, p, 1, if w[0] then 1 else 0, rest);
  }
}
