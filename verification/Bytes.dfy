/** The machine integers shared by the modules: bytes and 32-bit words, kept as
    bounded integers so that wrap-around is written out where the program relies on it. */
module Bytes {
  type byte = b: int | 0 <= b < 0x100

  const WORD32: int := 0x1_0000_0000

  type word32 = w: int | 0 <= w < WORD32

  datatype Option<+T> = None | Some(value: T)

  datatype List<+T> = Nil | Cons(head: T, tail: List<T>)

  function Pow2(n: nat): (p: nat)
    ensures p >= 1
  {
    if n == 0 then 1 else 2 * Pow2(n - 1)
  }

  /** A word is the sum of its bytes. */
  lemma BytesOfWord(v: word32)
    ensures v / 0x100_0000 * 0x100_0000 + v / 0x1_0000 % 0x100 * 0x1_0000 + v / 0x100 % 0x100 * 0x100 + v % 0x100 == v
  {
    var q1, q2 := v / 0x100, v / 0x100 / 0x100;
    assert v == 0x1_0000 * q2 + q1 % 0x100 * 0x100 + v % 0x100;
    assert v / 0x1_0000 == q2 && v / 0x100_0000 == q2 / 0x100;
  }

  // ---------------------------------------------------------------- quotients

  lemma Times(b: int, q: int)
    requires b >= 1
    ensures q >= 0 ==> b * q >= q
    ensures q < 0 ==> b * q <= -b
  {
  }

  lemma Euclid(a: int, b: int)
    requires b > 0
    ensures a == b * (a / b) + a % b && 0 <= a % b < b
  {
  }

  lemma QuotientIs(a: nat, b: nat, q: nat, r: nat)
    requires b > 0 && a == b * q + r && r < b
    ensures a / b == q && a % b == r
  {
    Euclid(a, b);
    Times(b, q - a / b);
    Times(b, a / b - q);
  }

  /** Dividing by 2 * p is halving, then dividing by p. */
  lemma Halved(x: nat, p: nat)
    requires p > 0
    ensures x / (2 * p) == x / 2 / p && x % (2 * p) == 2 * (x / 2 % p) + x % 2
  {
    var h := x / 2;
    Euclid(h, p);
    QuotientIs(x, 2 * p, h / p, 2 * (h % p) + x % 2);
  }
}
