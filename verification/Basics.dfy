/** Small definitions and facts of arithmetic used by several modules. */
module Basics {

  datatype Option<T> = None | Some(value: T)

  function Abs(v: int): nat {
    if v < 0 then -v else v
  }

  function Min(a: int, b: int): int {
    if a < b then a else b
  }

  function Max(a: int, b: int): int {
    if a > b then a else b
  }

  /** The quotient rounded up. */
  function CeilDiv(a: nat, b: nat): nat
    requires b > 0
  {
    (a + b - 1) / b
  }

  predicate Int16(v: int) {
    -32768 <= v <= 32767
  }

  predicate Int32(v: int) {
    -0x8000_0000 <= v <= 0x7fff_ffff
  }

  lemma MulOrder(a: int, b: int, k: nat)
    ensures a <= b ==> a * k <= b * k && k * a <= k * b
  {
  }

  lemma Multiple(e: int, d: nat)
    ensures (e >= 1 ==> e * d >= d) && (e <= -1 ==> e * d <= 0 - d)
  {
  }

  lemma DivIs(n: int, d: nat, q: int, rest: int)
    requires d > 0 && n == q * d + rest && 0 <= rest < d
    ensures n / d == q
  {
    var e := n / d - q;
    assert n == (n / d) * d + n % d;
    assert e * d == rest - n % d;
    Multiple(e, d);
  }
}
