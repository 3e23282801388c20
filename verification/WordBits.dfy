/** The monitor's operators on the bits of a word, and the precedences of its grammar. */
module WordBits {
  import opened Bytes
  import opened Expressions

  // ---------------------------------------------------------------- and, or, exclusive or

  lemma BitwiseHalf(t: Token, a: nat, b: nat)
    ensures Bitwise(t, a, b) / 2 == Bitwise(t, a / 2, b / 2)
    ensures Bitwise(t, a, b) % 2 == 1 <==>
      var x, y := a % 2 == 1, b % 2 == 1; if t == TAnd then x && y else if t == TOr then x || y else x != y
  {
  }

  lemma {:induction false} BitwiseBit(t: Token, a: nat, b: nat, k: nat)
    ensures Bitwise(t, a, b) / Pow2(k) % 2 == 1 <==>
      var x, y := a / Pow2(k) % 2 == 1, b / Pow2(k) % 2 == 1;
      if t == TAnd then x && y else if t == TOr then x || y else x != y
    decreases k
  {
    hide Bitwise;
    BitwiseHalf(t, a, b);
    if k > 0 {
      BitwiseBit(t, a / 2, b / 2, k - 1);
      Halved(a, Pow2(k - 1));
      Halved(b, Pow2(k - 1));
      Halved(Bitwise(t, a, b), Pow2(k - 1));
    }
  }

  /** Bit k of `&`, `|` and `^` is the conjunction, disjunction and difference of the
      operands' bits k. */
  lemma BitwiseBits(env: Env, a: Word, b: Word, k: nat)
    requires k < 64
    ensures Apply(env, TAnd, a, b).Some? && Apply(env, TOr, a, b).Some? && Apply(env, TEor, a, b).Some?
    ensures Apply(env, TAnd, a, b).value / Pow2(k) % 2 == 1 <==> a / Pow2(k) % 2 == 1 && b / Pow2(k) % 2 == 1
    ensures Apply(env, TOr, a, b).value / Pow2(k) % 2 == 1 <==> a / Pow2(k) % 2 == 1 || b / Pow2(k) % 2 == 1
    ensures Apply(env, TEor, a, b).value / Pow2(k) % 2 == 1 <==> (a / Pow2(k) % 2 == 1) != (b / Pow2(k) % 2 == 1)
  {
    hide Bitwise, Pow2;
    BitwiseBit(TAnd, a, b, k);
    BitwiseBit(TOr, a, b, k);
    BitwiseBit(TEor, a, b, k);
  }

  // ---------------------------------------------------------------- shifts

  /** The low m bits of a number keep their place when it is cut to m bits. */
  lemma {:induction false} LowBits(x: nat, m: nat, k: nat)
    requires k < m
    ensures x % Pow2(m) / Pow2(k) % 2 == x / Pow2(k) % 2
    decreases k
  {
    Halved(x, Pow2(m - 1));
    if k > 0 {
      LowBits(x / 2, m - 1, k - 1);
      Halved(x, Pow2(k - 1));
      Halved(x % Pow2(m), Pow2(k - 1));
    }
  }

  lemma Doubled(a: nat, p: nat)
    ensures a * (2 * p) == 2 * (a * p) && 2 * (a * p) / 2 == a * p && a * p >= 0
  {
  }

  lemma {:induction false} ShiftedUp(a: nat, n: nat, k: nat)
    ensures a * Pow2(n) / Pow2(k) % 2 == if k < n then 0 else a / Pow2(k - n) % 2
    decreases n
  {
    if n > 0 {
      var x := a * Pow2(n - 1);
      Doubled(a, Pow2(n - 1));
      if k > 0 {
        ShiftedUp(a, n - 1, k - 1);
        Halved(2 * x, Pow2(k - 1));
      }
    }
  }

  lemma {:induction false} ShiftedDown(a: nat, n: nat, k: nat)
    ensures a / Pow2(n) / Pow2(k) == a / Pow2(n + k)
    decreases n
  {
    if n > 0 {
      Halved(a, Pow2(n - 1));
      Halved(a, Pow2(n + k - 1));
      ShiftedDown(a / 2, n - 1, k);
    }
  }

  /** A shift by fewer bits than a word has moves bit k - n or k + n to place k, and
      zeros in at the end. */
  lemma ShiftBits(env: Env, a: Word, n: Word, k: nat)
    requires n < 64 && k < 64
    ensures Apply(env, TShiftL, a, n).Some? && Apply(env, TShiftR, a, n).Some?
    ensures Apply(env, TShiftL, a, n).value / Pow2(k) % 2 == if k < n then 0 else a / Pow2(k - n) % 2
    ensures Apply(env, TShiftR, a, n).value / Pow2(k) % 2 == if k + n >= 64 then 0 else a / Pow2(k + n) % 2
  {
    hide Pow2;
    Pow2Width(WIDTH);
    LowBits(a * Pow2(n), WIDTH, k);
    ShiftedUp(a, n, k);
    ShiftedDown(a, n, k);
    if k + n >= 64 {
      BitsAbove(a, WIDTH, k + n);
    }
  }

  lemma {:induction false} BitsAbove(a: nat, m: nat, k: nat)
    requires a < Pow2(m) && m <= k
    ensures a / Pow2(k) == 0
    decreases m
  {
    if m > 0 {
      Halved(a, Pow2(k - 1));
      BitsAbove(a / 2, m - 1, k - 1);
    } else {
      QuotientIs(a, Pow2(k), 0, 0);
    }
  }

  // ---------------------------------------------------------------- arithmetic

  /** `~` turns every bit round. */
  lemma {:induction false} NotBits(a: nat, m: nat, k: nat)
    requires a < Pow2(m) && k < m
    ensures (Pow2(m) - 1 - a) / Pow2(k) % 2 == 1 <==> a / Pow2(k) % 2 == 0
    decreases k
  {
    if k > 0 {
      assert (Pow2(m) - 1 - a) / 2 == Pow2(m - 1) - 1 - a / 2;
      NotBits(a / 2, m - 1, k - 1);
      Halved(a, Pow2(k - 1));
      Halved(Pow2(m) - 1 - a, Pow2(k - 1));
    }
  }

  lemma UnaryBits(a: Word, k: nat)
    requires k < 64
    ensures ApplyUnary(TNot, a) / Pow2(k) % 2 == 1 <==> a / Pow2(k) % 2 == 0
    ensures (a + ApplyUnary(TMinus, a)) % 0x1_0000_0000_0000_0000 == 0 && ApplyUnary(TPlus, a) == a
  {
    hide Pow2;
    Pow2Width(WIDTH);
    NotBits(a, WIDTH, k);
  }

  /** Sums, differences and products are right modulo 2^64, and a quotient and its
      remainder make up the dividend; there are none exactly for a zero divisor. */
  lemma ArithmeticMeans(env: Env, a: Word, b: Word)
    ensures Apply(env, TPlus, a, b).Some? && Apply(env, TMinus, a, b).Some? && Apply(env, TMul, a, b).Some?
    ensures (Apply(env, TPlus, a, b).value - a - b) % 0x1_0000_0000_0000_0000 == 0
    ensures (Apply(env, TMinus, a, b).value + b - a) % 0x1_0000_0000_0000_0000 == 0
    ensures (Apply(env, TMul, a, b).value - a * b) % 0x1_0000_0000_0000_0000 == 0
    ensures Apply(env, TDiv, a, b).None? <==> b == 0
    ensures Apply(env, TMod, a, b).None? <==> b == 0
    ensures b > 0 ==>
      a == b * Apply(env, TDiv, a, b).value + Apply(env, TMod, a, b).value && Apply(env, TMod, a, b).value < b
  {
    Congruent(a + b);
    Congruent(a - b);
    Congruent(a * b);
    if b > 0 { Euclid(a, b); }
  }

  lemma Congruent(x: int)
    ensures (x % WORD - x) % WORD == 0
  {
  }

  // ---------------------------------------------------------------- precedence

  /** From the loosest to the tightest. */
  const OPERATORS: seq<set<Token>> :=
    [{TOr}, {TEor}, {TAnd}, {TShiftL, TShiftR}, {TPlus, TMinus}, {TMul, TDiv, TMod}]

  /** Two operators between three operands, in front of a token that ends the expression:
      the left one is applied first unless the right one binds tighter. */
  lemma Precedence(env: Env, a: Word, t: BinaryToken, b: Word, u: BinaryToken, c: Word, i: nat, j: nat, k: List<Token>)
    requires i < 6 && j < 6 && t in OPERATORS[i] && u in OPERATORS[j] && Ended(k)
    ensures var x := if i >= j then Apply(env, t, a, b) else Apply(env, u, b, c);
      var y := if x.None? then None else if i >= j then Apply(env, u, x.value, c) else Apply(env, t, a, x.value);
      Parse(env, 0, Cons(TNumber(a), Cons(t, Cons(TNumber(b), Cons(u, Cons(TNumber(c), k))))))
      == if y.None? then Fail else Ok(y.value, k)
  {
    hide Parse, Apply;
    assert Level(t) == i && Level(u) == j;
    var e := if i >= j then Binary(u, Binary(t, Number(a), Number(b)), Number(c))
             else Binary(t, Number(a), Binary(u, Number(b), Number(c)));
    if i >= j {
      var left := Binary(t, Number(a), Number(b));
      assert Print(left, j, Cons(u, Cons(TNumber(c), k)))
        == Cons(TNumber(a), Cons(t, Cons(TNumber(b), Cons(u, Cons(TNumber(c), k)))));
      assert Eval(env, left) == Apply(env, t, a, b);
    } else {
      var right := Binary(u, Number(b), Number(c));
      assert Print(right, i + 1, k) == Cons(TNumber(b), Cons(u, Cons(TNumber(c), k)));
      assert Eval(env, right) == Apply(env, u, b, c);
    }
    PrintedExpression(env, e, k);
  }
}
