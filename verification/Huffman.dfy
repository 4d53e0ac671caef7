/** Canonical Huffman tables: `compute_huffman_table` and the code of ITU-T T.81, Annex C. */
module Huffman {
  import opened Bits

  /** BITS and HUFFVAL of a DHT segment.  `bits[l]` counts the codes of length `l`; `bits[0]` is unused. */
  datatype Spec = Spec(bits: seq<nat>, val: seq<Byte>)

  /** What the C function demands of its arguments: 17 counts, at most 256 codes in all (the static
      work arrays hold 257 entries) and a value for each code. */
  predicate ValidSpec(t: Spec) {
    && |t.bits| == 17
    && Total(t.bits, 16) <= 256
    && Total(t.bits, 16) <= |t.val|
  }

  /** Number of codes of length 1 to `l`. */
  function Total(bits: seq<nat>, l: nat): nat
    requires l < |bits|
  {
    if l == 0 then 0 else Total(bits, l - 1) + bits[l]
  }

  /** HUFFSIZE (T.81 figure C.1): the code lengths 1 to `l` in order. */
  function Sizes(bits: seq<nat>, l: nat): (s: seq<nat>)
    requires l < |bits|
    ensures |s| == Total(bits, l)
    ensures forall p :: 0 <= p < |s| ==> 1 <= s[p] <= l
  {
    if l == 0 then [] else Sizes(bits, l - 1) + seq(bits[l], _ => l)
  }

  function AllSizes(t: Spec): (s: seq<nat>)
    requires |t.bits| == 17
    ensures forall p :: 0 <= p < |s| ==> 1 <= s[p] <= 16
  {
    Sizes(t.bits, 16)
  }

  ghost predicate Ascending(s: seq<nat>) {
    forall i, j :: 0 <= i <= j < |s| ==> s[i] <= s[j]
  }

  /** HUFFCODE (T.81 figure C.2): each code is one more than the last, shifted to its length. */
  function Code(s: seq<nat>, p: nat): nat
    requires p < |s|
  {
    if p == 0 then 0
    else Shl(Code(s, p - 1) + 1, if s[p] >= s[p - 1] then s[p] - s[p - 1] else 0)
  }

  ghost predicate AllFit(s: seq<nat>) {
    forall p {:trigger s[p]} :: 0 <= p < |s| ==> Code(s, p) < Pow2(s[p])
  }

  /** The code of entry `p` as the bits that are written. */
  function CodeWord(s: seq<nat>, p: nat): seq<bool>
    requires p < |s|
  {
    BitsOf(Code(s, p), s[p])
  }

  /** The Kraft sum of the first `p` codes, in units of 2^-16. */
  function Kraft(s: seq<nat>, p: nat): nat
    requires p <= |s|
    requires forall i :: 0 <= i < |s| ==> s[i] <= 16
  {
    if p == 0 then 0 else Kraft(s, p - 1) + Pow2(16 - s[p - 1])
  }

  lemma {:induction false} SizesAscending(bits: seq<nat>, l: nat)
    requires l < |bits|
    ensures Ascending(Sizes(bits, l))
  {
    if l > 0 {
      SizesAscending(bits, l - 1);
    }
  }

  lemma {:induction false} TotalMonotone(bits: seq<nat>, m: nat, l: nat)
    requires m <= l < |bits|
    ensures Total(bits, m) <= Total(bits, l)
  {
    if m < l {
      TotalMonotone(bits, m, l - 1);
    }
  }

  /** Where the codes of length `m` lie among the lengths up to `l`. */
  lemma {:induction false} SizesAt(bits: seq<nat>, l: nat, m: nat, p: nat)
    requires 1 <= m <= l < |bits| && Total(bits, m - 1) <= p < Total(bits, m)
    ensures p < Total(bits, l) && Sizes(bits, l)[p] == m
  {
    if m < l {
      SizesAt(bits, l - 1, m, p);
      assert Sizes(bits, l)[p] == Sizes(bits, l - 1)[p];
    }
  }

  /** Entry `p` of length `m` lies in the block of codes of that length. */
  lemma {:induction false} SizesInverse(bits: seq<nat>, l: nat, p: nat)
    requires l < |bits| && p < Total(bits, l)
    ensures var m := Sizes(bits, l)[p]; 1 <= m <= l && Total(bits, m - 1) <= p < Total(bits, m)
  {
    if p < Total(bits, l - 1) {
      SizesInverse(bits, l - 1, p);
      assert Sizes(bits, l)[p] == Sizes(bits, l - 1)[p];
    }
  }

  lemma {:induction false} KraftMonotone(s: seq<nat>, p: nat, q: nat)
    requires p <= q <= |s|
    requires forall i :: 0 <= i < |s| ==> s[i] <= 16
    ensures Kraft(s, p) <= Kraft(s, q)
  {
    if p < q {
      KraftMonotone(s, p, q - 1);
    }
  }

  /** A canonical code, scaled to 16 bits, is the Kraft sum of the codes before it. */
  lemma {:induction false} CodeIsKraft(s: seq<nat>, p: nat)
    requires p < |s| && Ascending(s)
    requires forall i :: 0 <= i < |s| ==> s[i] <= 16
    ensures Shl(Code(s, p), 16 - s[p]) == Kraft(s, p)
  {
    if p > 0 {
      CodeIsKraft(s, p - 1);
      ShlAdd(Code(s, p - 1) + 1, s[p] - s[p - 1], 16 - s[p]);
      ShlSum(Code(s, p - 1), 1, 16 - s[p - 1]);
      ShlOne(16 - s[p - 1]);
    } else {
      ShlOne(16 - s[p]);
    }
  }

  lemma FitsIffScaled(c: nat, n: nat)
    requires n <= 16
    ensures c < Pow2(n) <==> Shl(c, 16 - n) + Pow2(16 - n) <= 65536
  {
    ShlMonotone(c, Pow2(n), 16 - n);
    ShlOne(n);
    ShlAdd(1, n, 16 - n);
    ShlOne(16);
    Pow2Sixteen();
  }

  lemma FitsIffPartialKraft(s: seq<nat>, p: nat)
    requires p < |s| && Ascending(s)
    requires forall i :: 0 <= i < |s| ==> s[i] <= 16
    ensures Code(s, p) < Pow2(s[p]) <==> Kraft(s, p + 1) <= 65536
  {
    CodeIsKraft(s, p);
    FitsIffScaled(Code(s, p), s[p]);
  }

  /** Every code fits its length exactly when the lengths satisfy the Kraft inequality. */
  lemma FitsIffKraft(s: seq<nat>)
    requires Ascending(s) && forall i :: 0 <= i < |s| ==> s[i] <= 16
    ensures AllFit(s) <==> Kraft(s, |s|) <= 65536
  {
    hide Code, Kraft, Pow2;
    if Kraft(s, |s|) <= 65536 {
      forall p | 0 <= p < |s| ensures Code(s, p) < Pow2(s[p]) {
        KraftMonotone(s, p + 1, |s|);
        FitsIffPartialKraft(s, p);
      }
    } else if |s| > 0 {
      FitsIffPartialKraft(s, |s| - 1);
    } else {
      NoKraft(s);
    }
  }

  /** The Kraft sum counted by code length, in units of 2^-l. */
  function WeightedCount(bits: seq<nat>, l: nat): nat
    requires l < |bits|
  {
    if l == 0 then 0 else 2 * WeightedCount(bits, l - 1) + bits[l]
  }

  lemma KraftNext(bits: seq<nat>, l: nat, n: nat)
    requires 1 <= l < |bits| && l <= 16 && 0 < n <= bits[l]
    ensures var p := Total(bits, l - 1) + n; Kraft(Sizes(bits, l), p) == Kraft(Sizes(bits, l), p - 1) + Pow2(16 - l)
  {
    hide Pow2;
    assert Sizes(bits, l)[Total(bits, l - 1) + (n - 1)] == l;
  }

  lemma SizesPrefix(bits: seq<nat>, l: nat)
    requires 1 <= l < |bits|
    ensures |Sizes(bits, l - 1)| <= |Sizes(bits, l)| && Sizes(bits, l - 1) == Sizes(bits, l)[..Total(bits, l - 1)]
  {
  }

  lemma {:induction false} KraftByLength(bits: seq<nat>, l: nat, n: nat)
    requires 1 <= l < |bits| && l <= 16 && n <= bits[l]
    ensures Kraft(Sizes(bits, l), Total(bits, l - 1) + n) == Shl(2 * WeightedCount(bits, l - 1) + n, 16 - l)
    decreases l, n
  {
    hide Kraft, Sizes, Shl;
    var w, k := WeightedCount(bits, l - 1), 16 - l;
    if n > 0 {
      KraftByLength(bits, l, n - 1);
      KraftNext(bits, l, n);
      ShlSucc(2 * w + (n - 1), k);
    } else if l > 1 {
      KraftByLength(bits, l - 1, bits[l - 1]);
      SizesPrefix(bits, l);
      KraftPrefix(Sizes(bits, l - 1), Sizes(bits, l), Total(bits, l - 1));
      ShlAdd(w, 1, k);
      ShlOnce(w);
    } else {
      ShlOne(k);
      NoKraft(Sizes(bits, l));
    }
  }

  lemma ShlOnce(v: nat)
    ensures Shl(v, 1) == 2 * v
  {
  }

  lemma NoKraft(s: seq<nat>)
    requires forall i :: 0 <= i < |s| ==> s[i] <= 16
    ensures Kraft(s, 0) == 0
  {
  }

  /** The codes of length `l` are consecutive numbers from twice the weighted count of the shorter ones on. */
  lemma CodeByLength(t: Spec, l: nat, n: nat)
    requires |t.bits| == 17 && 1 <= l <= 16 && n < t.bits[l]
    ensures var p := Total(t.bits, l - 1) + n;
      && p < |AllSizes(t)| && AllSizes(t)[p] == l
      && Code(AllSizes(t), p) == 2 * WeightedCount(t.bits, l - 1) + n
  {
    hide Code, Kraft, Sizes, Total, Shl;
    var s, p, c := AllSizes(t), Total(t.bits, l - 1) + n, 2 * WeightedCount(t.bits, l - 1) + n;
    TotalNext(t.bits, l);
    SizesAt(t.bits, 16, l, p);
    SizesAscending(t.bits, 16);
    CodeIsKraft(s, p);
    KraftByLength(t.bits, l, n);
    SizesFront(t.bits, l);
    TotalMonotone(t.bits, l, 16);
    KraftPrefix(Sizes(t.bits, l), s, p);
    ShlMonotone(Code(s, p), c, 16 - l);
    ShlMonotone(c, Code(s, p), 16 - l);
  }

  lemma TotalNext(bits: seq<nat>, l: nat)
    requires 1 <= l < |bits|
    ensures Total(bits, l) == Total(bits, l - 1) + bits[l]
  {
  }

  lemma {:induction false} SizesFront(bits: seq<nat>, l: nat)
    requires l <= 16 < |bits|
    ensures |Sizes(bits, l)| <= |Sizes(bits, 16)| && Sizes(bits, l) == Sizes(bits, 16)[..|Sizes(bits, l)|]
    decreases 16 - l
  {
    hide Sizes, Total;
    if l < 16 {
      SizesFront(bits, l + 1);
      SizesPrefix(bits, l + 1);
    } else {
      assert Sizes(bits, 16) == Sizes(bits, 16)[..|Sizes(bits, 16)|];
    }
  }

  lemma ShlSucc(v: nat, k: nat)
    ensures Shl(v + 1, k) == Shl(v, k) + Pow2(k)
  {
    ShlSum(v, 1, k);
    ShlOne(k);
  }

  lemma {:induction false} KraftPrefix(a: seq<nat>, b: seq<nat>, n: nat)
    requires n <= |a| <= |b| && a == b[..|a|]
    requires forall i :: 0 <= i < |b| ==> b[i] <= 16
    ensures Kraft(a, n) == Kraft(b, n)
  {
    if n > 0 {
      KraftPrefix(a, b, n - 1);
      assert a[n - 1] == b[n - 1];
    }
  }

  /** The Kraft inequality read off BITS. */
  lemma FitsIffWeightedCount(t: Spec)
    requires |t.bits| == 17
    ensures AllFit(AllSizes(t)) <==> WeightedCount(t.bits, 16) <= 65536
  {
    SizesAscending(t.bits, 16);
    FitsIffKraft(AllSizes(t));
    KraftByLength(t.bits, 16, t.bits[16]);
  }

  /** A table with few enough codes of each length is valid and its codes fit. */
  lemma TableFits(t: Spec)
    requires |t.bits| == 17 && Total(t.bits, 16) <= 256 && Total(t.bits, 16) <= |t.val|
    requires WeightedCount(t.bits, 16) <= 65536
    ensures ValidSpec(t) && AllFit(AllSizes(t))
  {
    FitsIffWeightedCount(t);
  }

  lemma {:induction false} KraftBound(s: seq<nat>, p: nat)
    requires p <= |s| && forall i :: 0 <= i < |s| ==> 1 <= s[i] <= 16
    ensures Kraft(s, p) <= p * 32768
  {
    if p > 0 {
      KraftBound(s, p - 1);
      Pow2Monotone(16 - s[p - 1], 15);
      Pow2Sixteen();
    }
  }

  /** Cutting a code to the length of an earlier one leaves a larger number: the step that makes
      the code prefix-free and lets a decoder recognise lengths. */
  lemma {:induction false} LaterCodeAbove(s: seq<nat>, i: nat, j: nat)
    requires i < j < |s| && Ascending(s)
    ensures s[i] <= s[j] && Shr(Code(s, j), s[j] - s[i]) >= Code(s, i) + 1
  {
    var k := j - 1;
    ShrShl(Code(s, k) + 1, 0, s[j] - s[k]);
    ShrAdd(Code(s, j), s[j] - s[k], s[k] - s[i]);
    if i < k {
      LaterCodeAbove(s, i, k);
      ShrMonotone(Code(s, k), Code(s, k) + 1, s[k] - s[i]);
    }
  }

  /** A word that is a prefix of another is that other word cut to its length. */
  lemma PrefixIsCut(a: nat, k: nat, b: nat, n: nat)
    requires a < Pow2(k) && b < Pow2(n) && BitsOf(a, k) <= BitsOf(b, n)
    ensures k <= n && a == Shr(b, n - k)
  {
    assert BitsOf(a, k) == BitsOf(b, n)[..k];
    BitsOfPrefix(b, n, k);
    ValueOfBits(a, k);
    LowFits(a, k);
    ShrFits(b, n, k);
    ValueOfBits(Shr(b, n - k), k);
    LowFits(Shr(b, n - k), k);
  }

  /** No code word is a prefix of another (T.81, section C.2). */
  lemma PrefixFree(s: seq<nat>, i: nat, j: nat)
    requires i < |s| && j < |s| && i != j && Ascending(s) && AllFit(s)
    ensures !(CodeWord(s, i) <= CodeWord(s, j))
  {
    hide Code, Pow2, BitsOf;
    if i < j {
      LaterCodeAbove(s, i, j);
    } else {
      LaterCodeAbove(s, j, i);
    }
    assert Code(s, i) < Pow2(s[i]) && Code(s, j) < Pow2(s[j]);
    NotPrefix(Code(s, i), s[i], Code(s, j), s[j]);
  }

  lemma NotPrefix(a: nat, k: nat, b: nat, n: nat)
    requires a < Pow2(k) && b < Pow2(n)
    requires k <= n ==> a != Shr(b, n - k)
    ensures !(BitsOf(a, k) <= BitsOf(b, n))
  {
    if BitsOf(a, k) <= BitsOf(b, n) {
      PrefixIsCut(a, k, b, n);
    }
  }

  // ------------------------------------------------------------ the C function

  /** The entry the C tables keep for value `v`: the last `p < n` with `val[p] == v`. */
  function LastIndex(val: seq<nat>, n: nat, v: nat): int
    requires n <= |val|
  {
    if n == 0 then -1 else if val[n - 1] == v then n - 1 else LastIndex(val, n - 1, v)
  }

  function CodeOf(t: Spec, v: nat): nat
    requires ValidSpec(t)
  {
    var p := LastIndex(t.val, |AllSizes(t)|, v);
    if 0 <= p < |AllSizes(t)| then Code(AllSizes(t), p) else 0
  }

  function SizeOf(t: Spec, v: nat): nat
    requires ValidSpec(t)
  {
    var p := LastIndex(t.val, |AllSizes(t)|, v);
    if 0 <= p < |AllSizes(t)| then AllSizes(t)[p] else 0
  }

  lemma {:induction false} LastIndexRange(val: seq<nat>, n: nat, v: nat)
    requires n <= |val|
    ensures -1 <= LastIndex(val, n, v) < n
    ensures LastIndex(val, n, v) >= 0 ==> val[LastIndex(val, n, v)] == v
    ensures v in val[..n] <==> LastIndex(val, n, v) >= 0
  {
    if n > 0 {
      LastIndexRange(val, n - 1, v);
      assert val[..n] == val[..n - 1] + [val[n - 1]];
    }
  }

  method ExpandSizes(bits: seq<nat>, huffSize: array<nat>) returns (lastP: nat)
    requires |bits| == 17 && Total(bits, 16) <= 256 && huffSize.Length == 257
    modifies huffSize
    ensures lastP == Total(bits, 16)
    ensures huffSize[..lastP] == Sizes(bits, 16) && huffSize[lastP] == 0
  {
    var p := 0;
    for l := 1 to 17
      invariant p == Total(bits, l - 1) <= Total(bits, 16)
      invariant huffSize[..p] == Sizes(bits, l - 1)
    {
      TotalMonotone(bits, l, 16);
      ghost var start := p;
      for i := 0 to bits[l]
        invariant p == start + i
        invariant huffSize[..p] == Sizes(bits, l - 1) + seq(i, _ => l)
      {
        huffSize[p] := l;
        p := p + 1;
        assert huffSize[..p] == huffSize[..p - 1] + [l];
      }
    }
    huffSize[p] := 0;
    lastP := p;
  }

  /** The running `code` of the C loop: the next free code at length `si`. */
  function NextCode(s: seq<nat>, p: nat, si: nat): nat
    requires p <= |s| && (p > 0 ==> s[p - 1] <= si)
  {
    if p == 0 then 0 else Shl(Code(s, p - 1) + 1, si - s[p - 1])
  }

  /** The running `code` at length `si`, scaled to 16 bits, is the Kraft sum of the codes given out. */
  lemma NextCodeIsKraft(s: seq<nat>, p: nat, si: nat)
    requires p <= |s| && Ascending(s) && si <= 16 && forall i :: 0 <= i < |s| ==> s[i] <= 16
    requires p > 0 ==> s[p - 1] <= si
    ensures Shl(NextCode(s, p, si), 16 - si) == Kraft(s, p)
  {
    if p > 0 {
      CodeIsKraft(s, p - 1);
      ShlSucc(Code(s, p - 1), 16 - s[p - 1]);
      ShlAdd(Code(s, p - 1) + 1, si - s[p - 1], 16 - si);
    } else {
      ShlOne(16 - si);
    }
  }

  lemma {:induction false} ShlGrows(v: nat, n: nat)
    ensures v <= Shl(v, n)
  {
    if n > 0 {
      ShlGrows(v, n - 1);
    }
  }

  /** The 32-bit counter `code` never wraps, whatever the counts: its value and twice its value stay below 2^25. */
  lemma CounterBound(s: seq<nat>, p: nat, si: nat)
    requires p <= |s| <= 256 && Ascending(s) && si <= 17 && forall i :: 0 <= i < |s| ==> 1 <= s[i] <= 16
    requires p > 0 ==> s[p - 1] <= si
    ensures NextCode(s, p, si) <= 0x100_0000
    ensures si <= 16 ==> NextCode(s, p, si) <= 0x80_0000
  {
    hide Code;
    KraftBound(s, p);
    if si <= 16 {
      NextCodeIsKraft(s, p, si);
      ShlGrows(NextCode(s, p, si), 16 - si);
    } else {
      NextCodeIsKraft(s, p, 16);
      ShlGrows(NextCode(s, p, 16), 0);
    }
  }

  method AssignCodes(huffSize: array<nat>, huffCode: array<nat>, ghost s: seq<nat>)
    requires huffSize.Length == huffCode.Length == 257 && huffSize != huffCode
    requires |s| <= 256 && Ascending(s) && forall i :: 0 <= i < |s| ==> 1 <= s[i] <= 16
    requires huffSize[..|s|] == s && huffSize[|s|] == 0
    modifies huffCode
    ensures forall q {:trigger huffCode[q]} :: 0 <= q < |s| ==> huffCode[q] == Code(s, q)
  {
    var code, si, p := 0, huffSize[0], 0;
    assert forall q :: 0 <= q < |s| ==> huffSize[q] == s[q];
    while huffSize[p] != 0
      invariant 0 <= p <= |s| && si <= 17
      invariant forall q {:trigger huffCode[q]} :: 0 <= q < p ==> huffCode[q] == Code(s, q)
      invariant p < |s| ==> si <= s[p]
      invariant p == 0 && |s| > 0 ==> si == s[0]
      invariant p > 0 ==> s[p - 1] < si
      invariant code == NextCode(s, p, si)
      decreases 17 - si
    {
      while huffSize[p] == si
        invariant 0 <= p <= |s| && 1 <= si <= 16
        invariant forall q {:trigger huffCode[q]} :: 0 <= q < p ==> huffCode[q] == Code(s, q)
        invariant p < |s| ==> si <= s[p]
        invariant p == 0 ==> si == s[0]
        invariant p > 0 ==> s[p - 1] <= si
        invariant code == NextCode(s, p, si)
        decreases |s| - p
      {
        huffCode[p] := code;
        p, code := p + 1, code + 1;
        CounterBound(s, p, si);
        assert code < 0x1_0000_0000;
      }
      code := 2 * code;
      si := si + 1;
      CounterBound(s, p, si);
      assert code < 0x1_0000_0000;
    }
  }

  /** The part of the tables filled after `n` entries. */
  twostate predicate RowFilled(codes: array2<nat>, codeSizes: array2<nat>, row: nat, s: seq<nat>, val: seq<Byte>,
    n: nat)
    requires row < codes.Length0 == codeSizes.Length0 && codes.Length1 == codeSizes.Length1 == 256
    requires n <= |s| <= |val|
    reads codes, codeSizes
  {
    && (forall v {:trigger codes[row, v]} {:trigger codeSizes[row, v]} :: 0 <= v < 256 ==>
          var q := LastIndex(val, n, v);
          if 0 <= q < |s| then codes[row, v] == Code(s, q) && codeSizes[row, v] == s[q]
          else codes[row, v] == 0 && codeSizes[row, v] == 0)
    && (forall k, v :: 0 <= k < codes.Length0 && k != row && 0 <= v < 256 ==>
          codes[k, v] == old(codes[k, v]) && codeSizes[k, v] == old(codeSizes[k, v]))
  }

  method StoreCodes(codes: array2<nat>, codeSizes: array2<nat>, row: nat, huffSize: array<nat>, huffCode: array<nat>,
                    ghost s: seq<nat>, val: seq<Byte>, lastP: nat)
    requires row < codes.Length0 == codeSizes.Length0 && codes.Length1 == codeSizes.Length1 == 256 && codes != codeSizes
    requires huffSize.Length == huffCode.Length == 257 && lastP == |s| <= 256 && |s| <= |val|
    requires forall q {:trigger huffSize[q]} {:trigger huffCode[q]} :: 0 <= q < |s| ==>
      huffSize[q] == s[q] && huffCode[q] == Code(s, q)
    modifies codes, codeSizes
    ensures RowFilled(codes, codeSizes, row, s, val, |s|)
  {
    hide Code;
    forall v | 0 <= v < 256 { codes[row, v] := 0; }
    forall v | 0 <= v < 256 { codeSizes[row, v] := 0; }
    for p := 0 to lastP
      invariant RowFilled(codes, codeSizes, row, s, val, p)
    {
      codes[row, val[p]] := huffCode[p];
      codeSizes[row, val[p]] := huffSize[p];
    }
  }

  /** The codes and sizes go to row `row` of the two static tables. */
  method ComputeHuffmanTable(codes: array2<nat>, codeSizes: array2<nat>, row: nat, t: Spec)
    requires ValidSpec(t) && codes != codeSizes
    requires row < codes.Length0 == codeSizes.Length0 && codes.Length1 == codeSizes.Length1 == 256
    modifies codes, codeSizes
    ensures forall v {:trigger codes[row, v]} {:trigger codeSizes[row, v]} :: 0 <= v < 256 ==>
      codes[row, v] == CodeOf(t, v) && codeSizes[row, v] == SizeOf(t, v)
    ensures forall k, v :: 0 <= k < codes.Length0 && k != row && 0 <= v < 256 ==>
      codes[k, v] == old(codes[k, v]) && codeSizes[k, v] == old(codeSizes[k, v])
  {
    var huffSize, huffCode := new nat[257], new nat[257];
    var lastP := ExpandSizes(t.bits, huffSize);
    ghost var s := AllSizes(t);
    SizesAscending(t.bits, 16);
    AssignCodes(huffSize, huffCode, s);
    hide Code, Sizes, Total, LastIndex;
    assert forall q :: 0 <= q < |s| ==> huffSize[q] == huffSize[..lastP][q];
    StoreCodes(codes, codeSizes, row, huffSize, huffCode, s, t.val, lastP);
  }
}
