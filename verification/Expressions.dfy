/** The expression language of the cxmon monitor: words, tokens, trees, and the
    grammar that `mon_expression` and the functions below it parse. */
module Expressions {
  import opened Bytes

  const WIDTH: nat := 64
  const WORD: int := 0x1_0000_0000_0000_0000

  type Word = w: int | 0 <= w < WORD

  datatype Token =
    | TEnd | TNull
    | TNumber(value: Word) | TName(name: string) | TString(text: string)
    | TLParen | TRParen | TDot | TColon | TComma
    | TPlus | TMinus | TMul | TDiv | TMod | TAnd | TOr | TEor | TShiftL | TShiftR
    | TNot | TAssign

  /** What an expression is evaluated in. Shifting by the word width or more is
      undefined in the program; `overshift` stands for whatever the host does. */
  datatype Env = Env(vars: map<string, Word>, dot: Word, colon: Word, overshift: (Token, Word, Word) -> Word)

  // ---------------------------------------------------------------- words

  lemma Pow2Width(n: nat)
    requires n == WIDTH
    ensures Pow2(n) == WORD
  {
    Pow2By32(n - 32);
    Pow2By32(n - 64);
  }

  lemma Pow2By32(n: nat)
    ensures Pow2(n + 32) == 0x1_0000_0000 * Pow2(n)
  {
    hide Pow2;
    Pow2By8(n + 24);
    Pow2By8(n + 16);
    Pow2By8(n + 8);
    Pow2By8(n);
  }

  lemma Pow2By8(n: nat)
    ensures Pow2(n + 8) == 0x100 * Pow2(n)
  {
    assert Pow2(n + 8) == 2 * Pow2(n + 7) == 4 * Pow2(n + 6) == 8 * Pow2(n + 5) == 16 * Pow2(n + 4);
    assert Pow2(n + 4) == 2 * Pow2(n + 3) == 4 * Pow2(n + 2) == 8 * Pow2(n + 1) == 16 * Pow2(n);
  }

  /** The bitwise operation t. */
  function Bitwise(t: Token, a: nat, b: nat): nat
    decreases a + b
  {
    if a == 0 && b == 0 then 0
    else
      var x, y := a % 2 == 1, b % 2 == 1;
      (if (if t == TAnd then x && y else if t == TOr then x || y else x != y) then 1 else 0)
      + 2 * Bitwise(t, a / 2, b / 2)
  }

  lemma {:induction false} BitwiseBelow(t: Token, a: nat, b: nat, n: nat)
    requires a < Pow2(n) && b < Pow2(n)
    ensures Bitwise(t, a, b) < Pow2(n)
    decreases n
  {
    if n > 0 {
      BitwiseBelow(t, a / 2, b / 2, n - 1);
    }
  }

  lemma BitwiseWord(t: Token, a: Word, b: Word)
    ensures Bitwise(t, a, b) < WORD
  {
    var n: nat := WIDTH;
    Pow2Width(n);
    BitwiseBelow(t, a, b, n);
  }

  function BitOp(t: Token, a: Word, b: Word): Word {
    BitwiseWord(t, a, b);
    Bitwise(t, a, b)
  }

  lemma QuotientBound(a: int, b: int, q: int, r: int)
    requires b > 0 && a >= 0 && a == b * q + r && 0 <= r < b
    ensures 0 <= q <= a && r <= a
  {
    Times(b, q);
  }

  lemma Quotient(a: nat, b: nat)
    requires b > 0
    ensures 0 <= a / b <= a && 0 <= a % b <= a
  {
    Euclid(a, b);
    QuotientBound(a, b, a / b, a % b);
  }

  function Divide(a: Word, b: nat): Word
    requires b > 0
  {
    Quotient(a, b);
    a / b
  }

  function Remainder(a: Word, b: nat): Word
    requires b > 0
  {
    Quotient(a, b);
    a % b
  }

  function Sum(a: int, b: int): Word { (a + b) % WORD }

  function Difference(a: int, b: int): Word { (a - b) % WORD }

  function Product(a: int, b: int): Word { a * b % WORD }

  function Shift(env: Env, t: Token, a: Word, n: Word): Word {
    if n >= WIDTH then env.overshift(t, a, n)
    else if t == TShiftL then Product(a, Pow2(n))
    else Divide(a, Pow2(n))
  }

  /** A binary operation on words; None for a division by zero. */
  function Apply(env: Env, t: Token, a: Word, b: Word): Option<Word> {
    match t
    case TPlus => Some(Sum(a, b))
    case TMinus => Some(Difference(a, b))
    case TMul => Some(Product(a, b))
    case TDiv => if b == 0 then None else Some(Divide(a, b))
    case TMod => if b == 0 then None else Some(Remainder(a, b))
    case TShiftL => Some(Shift(env, t, a, b))
    case TShiftR => Some(Shift(env, t, a, b))
    case _ => Some(BitOp(t, a, b))
  }

  function ApplyUnary(t: Token, a: Word): Word {
    if t == TMinus then (WORD - a) % WORD else if t == TNot then WORD - 1 - a else a
  }

  // ---------------------------------------------------------------- trees

  const FACTOR: nat := 6

  /** The precedence level of a binary operator; -1 for any other token. */
  function Level(t: Token): int {
    match t
    case TOr => 0
    case TEor => 1
    case TAnd => 2
    case TShiftL => 3
    case TShiftR => 3
    case TPlus => 4
    case TMinus => 4
    case TMul => 5
    case TDiv => 5
    case TMod => 5
    case _ => -1
  }

  predicate IsUnary(t: Token) { t == TPlus || t == TMinus || t == TNot }

  type BinaryToken = t: Token | Level(t) >= 0 witness TOr

  type UnaryToken = t: Token | IsUnary(t) witness TNot

  /** An expression; Group is a pair of parentheses the precedences do not require. */
  datatype Expr =
    | Number(value: Word)
    | Name(name: string)
    | Dot
    | Colon
    | Unary(un: UnaryToken, operand: Expr)
    | Binary(op: BinaryToken, left: Expr, right: Expr)
    | Group(inner: Expr)

  function Eval(env: Env, e: Expr): Option<Word> {
    match e
    case Number(v) => Some(v)
    case Name(n) => if n in env.vars then Some(env.vars[n]) else None
    case Dot => Some(env.dot)
    case Colon => Some(env.colon)
    case Unary(t, e1) =>
      var a := Eval(env, e1);
      if a.None? then None else Some(ApplyUnary(t, a.value))
    case Binary(t, l, r) =>
      var a, b := Eval(env, l), Eval(env, r);
      if a.None? || b.None? then None else Apply(env, t, a.value, b.value)
    case Group(e1) => Eval(env, e1)
  }

  /** The subexpressions of e, e itself included. */
  function Parts(e: Expr): set<Expr> {
    {e} + match e
      case Unary(_, e1) => Parts(e1)
      case Binary(_, l, r) => Parts(l) + Parts(r)
      case Group(e1) => Parts(e1)
      case _ => {}
  }

  /** An undefined name, or a division whose divisor is zero. */
  predicate FaultAt(env: Env, e: Expr) {
    (e.Name? && e.name !in env.vars) ||
    (e.Binary? && (e.op == TDiv || e.op == TMod) && Eval(env, e.right) == Some(0))
  }

  /** Evaluation fails exactly when some part of the tree is at fault. */
  lemma {:induction false} EvalFails(env: Env, e: Expr)
    ensures Eval(env, e).None? <==> exists p :: p in Parts(e) && FaultAt(env, p)
    decreases e
  {
    match e {
      case Unary(_, e1) => EvalFails(env, e1);
      case Group(e1) => EvalFails(env, e1);
      case Binary(_, l, r) =>
        EvalFails(env, l);
        EvalFails(env, r);
      case _ =>
    }
    if FaultAt(env, e) {
      assert e in Parts(e);
    }
  }

  // ---------------------------------------------------------------- printing

  /** The tokens of e in a place that wants level lvl, in front of the tokens k,
      with only the parentheses the precedences require. */
  function Print(e: Expr, lvl: nat, k: List<Token>): List<Token>
    decreases e, e.Binary? && Level(e.op) < lvl
  {
    match e
    case Number(v) => Cons(TNumber(v), k)
    case Name(n) => Cons(TName(n), k)
    case Dot => Cons(TDot, k)
    case Colon => Cons(TColon, k)
    case Unary(t, e1) => Cons(t, Print(e1, FACTOR, k))
    case Binary(t, l, r) =>
      if Level(t) < lvl then Cons(TLParen, Print(e, 0, Cons(TRParen, k)))
      else Print(l, Level(t), Cons(t, Print(r, Level(t) + 1, k)))
    case Group(e1) => Cons(TLParen, Print(e1, 0, Cons(TRParen, k)))
  }

  // ---------------------------------------------------------------- the grammar

  datatype Parsed = Fail | Ok(value: Word, rest: List<Token>)

  function Length<T>(ts: List<T>): nat { if ts.Nil? then 0 else 1 + Length(ts.tail) }

  predicate Shorter(p: Parsed, n: nat) { p.Ok? ==> Length(p.rest) < n }

  /** An operand of level lvl, then operators of that level with their operands. */
  function Parse(env: Env, lvl: nat, ts: List<Token>): (p: Parsed)
    requires lvl <= FACTOR
    ensures Shorter(p, Length(ts))
    decreases Length(ts), 2 * (FACTOR - lvl) + 1
  {
    if lvl == FACTOR then ParseFactor(env, ts)
    else match Parse(env, lvl + 1, ts)
      case Fail => Fail
      case Ok(a, rest) => ParseLoop(env, lvl, a, rest)
  }

  /** The operators of level lvl after an operand worth a, left to right. */
  function ParseLoop(env: Env, lvl: nat, a: Word, ts: List<Token>): (p: Parsed)
    requires lvl < FACTOR
    ensures Shorter(p, Length(ts) + 1)
    decreases Length(ts), 2 * FACTOR + 2
  {
    if ts.Nil? || Level(ts.head) != lvl then Ok(a, ts)
    else match Parse(env, lvl + 1, ts.tail)
      case Fail => Fail
      case Ok(b, rest) =>
        var c := Apply(env, ts.head, a, b);
        if c.None? then Fail else ParseLoop(env, lvl, c.value, rest)
  }

  function ParseFactor(env: Env, ts: List<Token>): (p: Parsed)
    ensures Shorter(p, Length(ts))
    decreases Length(ts), 0
  {
    if ts.Nil? then Fail
    else match ts.head
      case TNumber(v) => Ok(v, ts.tail)
      case TName(n) => if n in env.vars then Ok(env.vars[n], ts.tail) else Fail
      case TDot => Ok(env.dot, ts.tail)
      case TColon => Ok(env.colon, ts.tail)
      case TLParen =>
        (match Parse(env, 0, ts.tail)
         case Fail => Fail
         case Ok(a, rest) => if rest.Cons? && rest.head == TRParen then Ok(a, rest.tail) else Fail)
      case _ =>
        if !IsUnary(ts.head) then Fail
        else match ParseFactor(env, ts.tail)
          case Fail => Fail
          case Ok(a, rest) => Ok(ApplyUnary(ts.head, a), rest)
  }

  // ---------------------------------------------------------------- printing, then parsing

  /** No operator binding tighter than level lvl comes first. */
  predicate NoTighter(ts: List<Token>, lvl: nat) { ts.Cons? ==> Level(ts.head) <= lvl }

  /** How parsing goes on after an operand of level lvl. */
  function Continue(env: Env, lvl: nat, a: Option<Word>, k: List<Token>): Parsed
    requires lvl <= FACTOR
  {
    if a.None? then Fail else if lvl == FACTOR then Ok(a.value, k) else ParseLoop(env, lvl, a.value, k)
  }

  lemma OneLevelUp(env: Env, lvl: nat, a: Option<Word>, k: List<Token>, ts: List<Token>)
    requires lvl < FACTOR && NoTighter(k, lvl)
    requires Parse(env, lvl + 1, ts) == Continue(env, lvl + 1, a, k)
    ensures Parse(env, lvl, ts) == Continue(env, lvl, a, k)
  {
  }

  lemma ParseOperator(env: Env, e: Expr, ts: List<Token>, us: List<Token>, k: List<Token>)
    requires e.Binary? && NoTighter(k, Level(e.op))
    requires Parse(env, Level(e.op), ts) == Continue(env, Level(e.op), Eval(env, e.left), Cons(e.op, us))
    requires Parse(env, Level(e.op) + 1, us) == Continue(env, Level(e.op) + 1, Eval(env, e.right), k)
    ensures Parse(env, Level(e.op), ts) == Continue(env, Level(e.op), Eval(env, e), k)
  {
  }

  lemma ParseParentheses(env: Env, a: Option<Word>, ts: List<Token>, k: List<Token>)
    requires Parse(env, 0, ts) == Continue(env, 0, a, Cons(TRParen, k))
    ensures Parse(env, FACTOR, Cons(TLParen, ts)) == Continue(env, FACTOR, a, k)
  {
  }

  /** Parsing what Print wrote yields the value of the tree, and goes on with the
      tokens behind it. */
  lemma {:induction false} ParsePrint(env: Env, e: Expr, lvl: nat, k: List<Token>)
    requires lvl <= FACTOR && NoTighter(k, lvl)
    ensures Parse(env, lvl, Print(e, lvl, k)) == Continue(env, lvl, Eval(env, e), k)
    decreases e, if e.Binary? && Level(e.op) < lvl then 20 - lvl else FACTOR - lvl
  {
    hide Eval;
    if e.Binary? && lvl == Level(e.op) {
      var us := Print(e.right, lvl + 1, k);
      ParsePrint(env, e.left, lvl, Cons(e.op, us));
      ParsePrint(env, e.right, lvl + 1, k);
      ParseOperator(env, e, Print(e, lvl, k), us, k);
    } else if lvl < FACTOR {
      ParsePrint(env, e, lvl + 1, k);
      PrintLevelUp(e, lvl, k);
      OneLevelUp(env, lvl, Eval(env, e), k, Print(e, lvl + 1, k));
    } else if e.Group? {
      ParsePrint(env, e.inner, 0, Cons(TRParen, k));
      ParseParentheses(env, Eval(env, e.inner), Print(e.inner, 0, Cons(TRParen, k)), k);
      EvalGroup(env, e);
    } else if e.Binary? {
      ParsePrint(env, e, 0, Cons(TRParen, k));
      ParseParentheses(env, Eval(env, e), Print(e, 0, Cons(TRParen, k)), k);
    } else {
      if e.Unary? { ParsePrint(env, e.operand, FACTOR, k); }
      ParseSimple(env, e, k);
    }
  }

  lemma PrintLevelUp(e: Expr, lvl: nat, k: List<Token>)
    requires e.Binary? ==> Level(e.op) != lvl
    ensures Print(e, lvl, k) == Print(e, lvl + 1, k)
  {
  }

  lemma EvalGroup(env: Env, e: Expr)
    requires e.Group?
    ensures Eval(env, e) == Eval(env, e.inner)
  {
  }

  lemma ParseSimple(env: Env, e: Expr, k: List<Token>)
    requires !e.Binary? && !e.Group?
    requires e.Unary? ==>
      Parse(env, FACTOR, Print(e.operand, FACTOR, k)) == Continue(env, FACTOR, Eval(env, e.operand), k)
    ensures Parse(env, FACTOR, Print(e, FACTOR, k)) == Continue(env, FACTOR, Eval(env, e), k)
  {
  }

  /** The tokens at the front cannot continue an expression. */
  predicate Ended(k: List<Token>) { k.Cons? ==> Level(k.head) < 0 }

  /** Printing and parsing a whole expression: its value with the following tokens
      left over, or a failure exactly when its evaluation fails. */
  lemma PrintedExpression(env: Env, e: Expr, k: List<Token>)
    requires Ended(k)
    ensures Parse(env, 0, Print(e, 0, k)) == if Eval(env, e).None? then Fail else Ok(Eval(env, e).value, k)
  {
    ParsePrint(env, e, 0, k);
  }

  // ---------------------------------------------------------------- what is accepted

  /** e needs no parentheses where level lvl is wanted. */
  predicate Tight(e: Expr, lvl: nat) { e.Binary? ==> Level(e.op) >= lvl }

  predicate NotAbove(k: List<Token>, lvl: nat) { k.Cons? ==> Level(k.head) < lvl }

  lemma {:induction false} ParseSound(env: Env, lvl: nat, ts: List<Token>) returns (e: Expr)
    requires lvl <= FACTOR && Parse(env, lvl, ts).Ok?
    ensures Tight(e, lvl) && Print(e, lvl, Parse(env, lvl, ts).rest) == ts
    ensures Eval(env, e) == Some(Parse(env, lvl, ts).value)
    ensures NotAbove(Parse(env, lvl, ts).rest, lvl) || lvl == FACTOR
    decreases Length(ts), 2 * (FACTOR - lvl) + 1
  {
    if lvl == FACTOR {
      e := FactorSound(env, ts);
    } else {
      var p := Parse(env, lvl + 1, ts);
      e := ParseSound(env, lvl + 1, ts);
      e := LoopSound(env, lvl, e, p.value, p.rest);
    }
  }

  lemma {:induction false} LoopSound(env: Env, lvl: nat, e0: Expr, a: Word, ts: List<Token>) returns (e: Expr)
    requires lvl < FACTOR && Tight(e0, lvl) && Eval(env, e0) == Some(a)
    requires ParseLoop(env, lvl, a, ts).Ok? && (NotAbove(ts, lvl + 1) || lvl + 1 == FACTOR)
    ensures Tight(e, lvl) && Print(e, lvl, ParseLoop(env, lvl, a, ts).rest) == Print(e0, lvl, ts)
    ensures Eval(env, e) == Some(ParseLoop(env, lvl, a, ts).value)
    ensures NotAbove(ParseLoop(env, lvl, a, ts).rest, lvl)
    decreases Length(ts), 2 * FACTOR + 2
  {
    if ts.Nil? || Level(ts.head) != lvl {
      e := e0;
    } else {
      var p := Parse(env, lvl + 1, ts.tail);
      var e1 := ParseSound(env, lvl + 1, ts.tail);
      e := Binary(ts.head, e0, e1);
      e := LoopSound(env, lvl, e, Apply(env, ts.head, a, p.value).value, p.rest);
    }
  }

  lemma {:induction false} FactorSound(env: Env, ts: List<Token>) returns (e: Expr)
    requires ParseFactor(env, ts).Ok?
    ensures Tight(e, FACTOR) && Print(e, FACTOR, ParseFactor(env, ts).rest) == ts
    ensures Eval(env, e) == Some(ParseFactor(env, ts).value)
    decreases Length(ts), 0
  {
    var t := ts.head;
    if t.TNumber? {
      e := Number(t.value);
    } else if t.TName? {
      e := Name(t.name);
    } else if t.TDot? {
      e := Dot;
    } else if t.TColon? {
      e := Colon;
    } else if t.TLParen? {
      e := ParseSound(env, 0, ts.tail);
      e := Group(e);
    } else {
      e := FactorSound(env, ts.tail);
      e := Unary(t, e);
    }
  }

  /** The parser accepts exactly the printed trees: it succeeds with value v and
      rest k if and only if the tokens are those of some tree worth v in front of k,
      and k cannot continue an expression. */
  lemma AcceptsExactly(env: Env, ts: List<Token>, v: Word, k: List<Token>)
    ensures Parse(env, 0, ts) == Ok(v, k)
      <==> Ended(k) && exists e :: Print(e, 0, k) == ts && Eval(env, e) == Some(v)
  {
    if Parse(env, 0, ts) == Ok(v, k) {
      var e := ParseSound(env, 0, ts);
    }
    if Ended(k) {
      forall e | Print(e, 0, k) == ts && Eval(env, e) == Some(v)
        ensures Parse(env, 0, ts) == Ok(v, k)
      {
        PrintedExpression(env, e, k);
      }
    }
  }
}
