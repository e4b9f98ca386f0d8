/** Options, durations and Go's integer arithmetic, shared by every module. */
module Prelude {

  datatype Option<+T> = None | Some(value: T)

  // Durations and instants are counted in nanoseconds, as Go's time package does.
  const SECOND: int := 1_000_000_000
  const MINUTE: int := 60_000_000_000
  const HOUR: int := 3_600_000_000_000

  const MAX_INT32: int := 0x7fff_ffff
  type int32 = x: int | -0x8000_0000 <= x <= 0x7fff_ffff

  /** Two's-complement truncation of a product or difference to 32 bits. */
  function Wrap32(x: int): (r: int32)
    ensures (x - r) % 0x1_0000_0000 == 0
    ensures -0x8000_0000 <= x <= MAX_INT32 ==> r == x
  {
    var m := x % 0x1_0000_0000;
    if m > MAX_INT32 then m - 0x1_0000_0000 else m
  }

  /** Go's `/`, which truncates toward zero; Dafny's is Euclidean. */
  function GoDiv(a: int, b: int): (q: int)
    requires b != 0
  {
    if a >= 0 then a / b else -((-a) / b)
  }

  function Min(a: int, b: int): (r: int) { if a < b then a else b }

  function Max(a: int, b: int): (r: int) { if a < b then b else a }

  /** What holds at first and is kept by every step holds at the end. */
  lemma {:induction false} Chain(p: nat -> bool, n: nat)
    requires p(0) && forall i: nat :: i < n && p(i) ==> p(i + 1)
    ensures p(n)
  {
    if n > 0 {
      Chain(p, n - 1);
    }
  }

  /** What holds in the end and not at first comes to hold at some step. */
  lemma {:induction false} Turns(p: nat -> bool, n: nat) returns (i: nat)
    requires !p(0) && p(n)
    ensures i < n && !p(i) && p(i + 1)
  {
    if p(n - 1) {
      i := Turns(p, n - 1);
    } else {
      i := n - 1;
    }
  }

  /** n times m, by repeated addition. */
  function Times(n: nat, m: int): (r: int) {
    if n == 0 then 0 else Times(n - 1, m) + m
  }

  lemma {:induction false} TimesIsProduct(n: nat, m: int)
    ensures Times(n, m) == n * m
  {
    if n > 0 {
      TimesIsProduct(n - 1, m);
    }
  }

  lemma SmallMultiple(d: int, P: int, e: int)
    requires d * P == e && -P < e < P
    ensures d == 0
  {
    assert d >= 1 ==> (d - 1) * P >= 0;
    assert d <= -1 ==> (-d - 1) * P >= 0;
  }

  lemma DivModIs(x: int, P: nat, q: int, r: int)
    requires 0 <= r < P && x == q * P + r
    ensures x / P == q && x % P == r
  {
    var q', r' := x / P, x % P;
    assert x == q' * P + r';
    assert (q - q') * P == q * P - q' * P;
    SmallMultiple(q - q', P, r' - r);
  }
}
