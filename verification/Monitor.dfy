/** The scanner and the expression parser of the cxmon monitor, which share the
    input line, the read position and the current token. */
module Monitors {
  import opened Bytes
  import opened Expressions
  import opened Scanner

  class Monitor {
    var input: string             // the input line, without its terminating NUL
    var inPtr: nat
    var monToken: Token           // the last token read, with its number, name or string
    var vars: map<string, Word>
    var monDotAddress: Word
    var colonValue: Word
    const overshift: (Token, Word, Word) -> Word

    constructor (line: string, overshift: (Token, Word, Word) -> Word)
      requires IsLine(line)
      ensures Valid() && input == line && inPtr == 0 && monToken == TEnd && vars == map[]
    {
      input, inPtr, monToken := line, 0, TEnd;
      vars, monDotAddress, colonValue, this.overshift := map[], 0, 0, overshift;
    }

    /** After a token that stops the scanner, the read position may lie behind the NUL. */
    ghost predicate Valid()
      reads this
    {
      IsLine(input) && inPtr <= |input| + 1 && (!Stops(monToken) ==> inPtr <= |input|)
    }

    function Environment(): Env
      reads this
    {
      Env(vars, monDotAddress, colonValue, overshift)
    }

    /** The current token and the ones still to be scanned. */
    ghost function Ahead(): List<Token>
      requires Valid()
      reads this
    {
      if Stops(monToken) then Cons(monToken, Nil) else Cons(monToken, Tokens(input, inPtr))
    }

    /** A bound on how much can still be read. */
    ghost function Left(): nat
      requires Valid()
      reads this
    {
      if Stops(monToken) then 0 else |input| + 1 - inPtr
    }

    // ------------------------------------------------------------ characters

    method GetChar() returns (c: char)
      requires inPtr <= |input|
      modifies this`inPtr
      ensures c == At(input, old(inPtr)) && inPtr == old(inPtr) + 1
    {
      c := At(input, inPtr);
      inPtr := inPtr + 1;
    }

    method PutBack(c: char)
      requires 0 < inPtr <= |input| + 1 && c == At(input, inPtr - 1)
      modifies this`inPtr, this`input
      ensures inPtr == old(inPtr) - 1 && input == old(input)
    {
      inPtr := inPtr - 1;
      if inPtr < |input| {
        input := input[inPtr := c];
      }
    }

    // ------------------------------------------------------------ the scanner

    /** `get_hex_number` and `get_dec_number`. */
    method GetNumber(r: Radix) returns (t: Token)
      requires r != Chars && inPtr <= |input| && IsLine(input)
      modifies this`inPtr, this`input
      ensures input == old(input) && Scanned(t, inPtr) == ScanDigits(r, input, old(inPtr))
    {
      hide IsHex, DigitValue, WordValue, Base;
      ghost var p := inPtr;
      var c := GetChar();
      var i: Word := 0;
      ValueNothing(r, input[p..p]);
      if !IsDigitOf(r, c) {
        return TNull;
      }
      ghost var e := DigitsEnd(r, input, p);
      while IsDigitOf(r, c)
        invariant p < inPtr <= |input| + 1 && input == old(input)
        invariant c == At(input, inPtr - 1)
        invariant DigitsEnd(r, input, inPtr - 1) == e
        invariant i == WordValue(r, input[p..inPtr - 1])
        decreases |input| + 1 - inPtr
      {
        ValueStep(r, input, p, inPtr - 1);
        i := (i * Base(r) + DigitValue(r, c)) % WORD;
        c := GetChar();
      }
      if IsAlnum(c) {
        t := TNull;
      } else {
        PutBack(c);
        t := TNumber(i);
      }
    }

    /** `get_char_number`, behind the opening quote. */
    method GetCharNumber() returns (t: Token)
      requires inPtr <= |input| && IsLine(input)
      modifies this`inPtr
      ensures Scanned(t, inPtr) == ScanChars(input, old(inPtr))
    {
      ghost var p := inPtr;
      var i: Word := 0;
      var c := GetChar();
      while c != NUL
        invariant p < inPtr <= |input| + 1 && c == At(input, inPtr - 1)
        invariant DigitsEnd(Chars, input, inPtr - 1) == DigitsEnd(Chars, input, p)
        invariant i == WordValue(Chars, input[p..inPtr - 1])
        decreases |input| + 1 - inPtr
      {
        if c == '\'' {
          return TNumber(i);
        }
        ValueStep(Chars, input, p, inPtr - 1);
        i := (i * 0x100 + c as int % 0x100) % WORD;
        c := GetChar();
      }
      t := TNull;
    }

    /** `get_string`, behind the opening quote: one pass for the length, one for the text. */
    method GetString() returns (t: Token)
      requires inPtr <= |input| && IsLine(input)
      modifies this`inPtr
      ensures Scanned(t, inPtr) == ScanString(input, old(inPtr))
    {
      var oldInPtr := inPtr;
      var n := 0;
      var c := GetChar();
      while c != NUL && c != '"'
        invariant inPtr == oldInPtr + n + 1 <= |input| + 1 && c == At(input, inPtr - 1)
        invariant StringEnd(input, inPtr - 1) == StringEnd(input, oldInPtr)
        decreases |input| + 1 - inPtr
      {
        n := n + 1;
        c := GetChar();
      }
      if c == NUL {
        return TNull;
      }
      inPtr := oldInPtr;
      var text := CopyChars(n);
      c := GetChar();
      t := TString(text);
    }

    /** Copies n characters. */
    method CopyChars(n: nat) returns (text: string)
      requires inPtr + n <= |input|
      modifies this`inPtr
      ensures inPtr == old(inPtr) + n && text == input[old(inPtr)..inPtr]
    {
      text := "";
      var i := 0;
      while i < n
        invariant i <= n && inPtr == old(inPtr) + i && text == input[old(inPtr)..inPtr]
      {
        var c := GetChar();
        text := text + [c];
        i := i + 1;
      }
    }

    /** `get_hex_or_name`: reads the word again as a name if it is no number. */
    method GetHexOrName() returns (t: Token)
      requires inPtr < |input| && IsLine(input) && IsAlnum(input[inPtr])
      modifies this`inPtr, this`input
      ensures input == old(input) && Scanned(t, inPtr) == ScanWord(input, old(inPtr))
    {
      hide ScanDigits, WordValue;
      var oldInPtr := inPtr;
      t := GetNumber(Hex);
      if t.TNumber? {
        return;
      }
      inPtr := oldInPtr;
      var c := GetChar();
      var n := 0;
      while IsAlnum(c)
        invariant inPtr == oldInPtr + n + 1 <= |input| + 1 && c == At(input, inPtr - 1) && input == old(input)
        invariant NameEnd(input, inPtr - 1) == NameEnd(input, oldInPtr)
        decreases |input| + 1 - inPtr
      {
        n := n + 1;
        c := GetChar();
      }
      inPtr := oldInPtr;
      var name := CopyChars(n);
      t := TName(name);
    }

    /** The switch of `mon_get_token` over c, the character just read. */
    method GetSymbol(c: char)
      requires 0 < inPtr <= |input| && IsLine(input) && c == input[inPtr - 1] && !IsSpace(c)
      modifies this`inPtr, this`input, this`monToken
      ensures input == old(input) && Scanned(monToken, inPtr) == ScanSymbol(input, old(inPtr) - 1)
    {
      hide ScanDigits, ScanChars, ScanString, ScanWord;
      if c == '<' || c == '>' {
        var d := GetChar();
        monToken := if d != c then TNull else if c == '<' then TShiftL else TShiftR;
      } else if c == '$' {
        monToken := GetNumber(Hex);
      } else if c == '_' {
        monToken := GetNumber(Dec);
      } else if c == '\'' {
        monToken := GetCharNumber();
      } else if c == '"' {
        monToken := GetString();
      } else if IsAlnum(c) {
        PutBack(c);
        monToken := GetHexOrName();
      } else {
        monToken := Single(c);
      }
    }

    /** `mon_get_token`: nothing is read behind the end of the line. */
    method MonGetToken()
      requires Valid() && !Stops(monToken)
      modifies this`inPtr, this`input, this`monToken
      ensures Valid() && input == old(input)
      ensures Scanned(monToken, inPtr) == Scan(input, old(inPtr))
      ensures Ahead() == old(Ahead()).tail && Left() < old(Left())
    {
      hide ScanSymbol;
      ghost var p := inPtr;
      var c := GetChar();
      while IsSpace(c)
        invariant p < inPtr <= |input| + 1 && c == At(input, inPtr - 1) && input == old(input)
        invariant SpaceEnd(input, inPtr - 1) == SpaceEnd(input, p)
        decreases |input| + 1 - inPtr
      {
        c := GetChar();
      }
      if c == NUL {
        monToken := TEnd;
      } else {
        GetSymbol(c);
      }
    }

    // ------------------------------------------------------------ the parser

    /** A parsing method has done what the grammar says. */
    ghost predicate Agrees(p: Parsed, ok: bool, number: Word)
      requires Valid()
      reads this
    {
      if p.Fail? then !ok else ok && number == p.value && Ahead() == p.rest
    }

    /** `mon_expression` */
    method MonExpression() returns (ok: bool, number: Word)
      requires Valid()
      modifies this`inPtr, this`input, this`monToken
      ensures Valid() && input == old(input) && Left() <= old(Left())
      ensures Agrees(Parse(Environment(), 0, old(Ahead())), ok, number)
      decreases Left(), 6
    {
      hide Parse, ParseLoop, Ahead, Tokens, Scan, BitOp, Shift, Sum, Difference, Product, Divide, Remainder, IsLine;
      ghost var env, ts := Environment(), Ahead();
      var accu: Word, expr: Word;
      LoopEnter(env, 0, ts);
      ok, accu := EorExpr();
      if !ok {
        return false, 0;
      }
      while true
        invariant Valid() && input == old(input) && Left() <= old(Left())
        invariant Parse(env, 0, ts) == ParseLoop(env, 0, accu, Ahead())
        decreases Left()
      {
        ghost var us := Ahead();
        AheadHead();
        LoopExit(env, 0, accu, us);
        if monToken == TOr {
          MonGetToken();
          ok, expr := EorExpr();
          LoopStep(env, 0, accu, us);
          if !ok {
            return false, 0;
          }
          accu := BitOp(TOr, accu, expr);
        } else {
          return true, accu;
        }
      }
    }

    /** `eor_expr` */
    method EorExpr() returns (ok: bool, number: Word)
      requires Valid()
      modifies this`inPtr, this`input, this`monToken
      ensures Valid() && input == old(input) && Left() <= old(Left())
      ensures Agrees(Parse(Environment(), 1, old(Ahead())), ok, number)
      decreases Left(), 5
    {
      hide Parse, ParseLoop, Ahead, Tokens, Scan, BitOp, Shift, Sum, Difference, Product, Divide, Remainder, IsLine;
      ghost var env, ts := Environment(), Ahead();
      var accu: Word, expr: Word;
      LoopEnter(env, 1, ts);
      ok, accu := AndExpr();
      if !ok {
        return false, 0;
      }
      while true
        invariant Valid() && input == old(input) && Left() <= old(Left())
        invariant Parse(env, 1, ts) == ParseLoop(env, 1, accu, Ahead())
        decreases Left()
      {
        ghost var us := Ahead();
        AheadHead();
        LoopExit(env, 1, accu, us);
        if monToken == TEor {
          MonGetToken();
          ok, expr := AndExpr();
          LoopStep(env, 1, accu, us);
          if !ok {
            return false, 0;
          }
          accu := BitOp(TEor, accu, expr);
        } else {
          return true, accu;
        }
      }
    }

    /** `and_expr` */
    method AndExpr() returns (ok: bool, number: Word)
      requires Valid()
      modifies this`inPtr, this`input, this`monToken
      ensures Valid() && input == old(input) && Left() <= old(Left())
      ensures Agrees(Parse(Environment(), 2, old(Ahead())), ok, number)
      decreases Left(), 4
    {
      hide Parse, ParseLoop, Ahead, Tokens, Scan, BitOp, Shift, Sum, Difference, Product, Divide, Remainder, IsLine;
      ghost var env, ts := Environment(), Ahead();
      var accu: Word, expr: Word;
      LoopEnter(env, 2, ts);
      ok, accu := ShiftExpr();
      if !ok {
        return false, 0;
      }
      while true
        invariant Valid() && input == old(input) && Left() <= old(Left())
        invariant Parse(env, 2, ts) == ParseLoop(env, 2, accu, Ahead())
        decreases Left()
      {
        ghost var us := Ahead();
        AheadHead();
        LoopExit(env, 2, accu, us);
        if monToken == TAnd {
          MonGetToken();
          ok, expr := ShiftExpr();
          LoopStep(env, 2, accu, us);
          if !ok {
            return false, 0;
          }
          accu := BitOp(TAnd, accu, expr);
        } else {
          return true, accu;
        }
      }
    }

    /** `shift_expr` */
    method ShiftExpr() returns (ok: bool, number: Word)
      requires Valid()
      modifies this`inPtr, this`input, this`monToken
      ensures Valid() && input == old(input) && Left() <= old(Left())
      ensures Agrees(Parse(Environment(), 3, old(Ahead())), ok, number)
      decreases Left(), 3
    {
      hide Parse, ParseLoop, Ahead, Tokens, Scan, BitOp, Shift, Sum, Difference, Product, Divide, Remainder, IsLine;
      ghost var env, ts := Environment(), Ahead();
      var accu: Word, expr: Word;
      LoopEnter(env, 3, ts);
      ok, accu := AddExpr();
      if !ok {
        return false, 0;
      }
      while true
        invariant Valid() && input == old(input) && Left() <= old(Left())
        invariant Parse(env, 3, ts) == ParseLoop(env, 3, accu, Ahead())
        decreases Left()
      {
        ghost var us := Ahead();
        AheadHead();
        LoopExit(env, 3, accu, us);
        var op := monToken;
        if op != TShiftL && op != TShiftR {
          return true, accu;
        }
        MonGetToken();
        ok, expr := AddExpr();
        LoopStep(env, 3, accu, us);
        if !ok {
          return false, 0;
        }
        accu := Shift(Environment(), op, accu, expr);
      }
    }

    /** `add_expr` */
    method AddExpr() returns (ok: bool, number: Word)
      requires Valid()
      modifies this`inPtr, this`input, this`monToken
      ensures Valid() && input == old(input) && Left() <= old(Left())
      ensures Agrees(Parse(Environment(), 4, old(Ahead())), ok, number)
      decreases Left(), 2
    {
      hide Parse, ParseLoop, Ahead, Tokens, Scan, BitOp, Shift, Sum, Difference, Product, Divide, Remainder, IsLine;
      ghost var env, ts := Environment(), Ahead();
      var accu: Word, expr: Word;
      LoopEnter(env, 4, ts);
      ok, accu := MulExpr();
      if !ok {
        return false, 0;
      }
      while true
        invariant Valid() && input == old(input) && Left() <= old(Left())
        invariant Parse(env, 4, ts) == ParseLoop(env, 4, accu, Ahead())
        decreases Left()
      {
        ghost var us := Ahead();
        AheadHead();
        LoopExit(env, 4, accu, us);
        var op := monToken;
        if op != TPlus && op != TMinus {
          return true, accu;
        }
        MonGetToken();
        ok, expr := MulExpr();
        LoopStep(env, 4, accu, us);
        if !ok {
          return false, 0;
        }
        accu := if op == TPlus then Sum(accu, expr) else Difference(accu, expr);
      }
    }

    /** `mul_expr` */
    method MulExpr() returns (ok: bool, number: Word)
      requires Valid()
      modifies this`inPtr, this`input, this`monToken
      ensures Valid() && input == old(input) && Left() <= old(Left())
      ensures Agrees(Parse(Environment(), 5, old(Ahead())), ok, number)
      decreases Left(), 1
    {
      hide Parse, ParseLoop, Ahead, Tokens, Scan, BitOp, Shift, Sum, Difference, Product, Divide, Remainder, IsLine;
      ghost var env, ts := Environment(), Ahead();
      var accu: Word, expr: Word;
      LoopEnter(env, 5, ts);
      ok, accu := Factor();
      if !ok {
        return false, 0;
      }
      while true
        invariant Valid() && input == old(input) && Left() <= old(Left())
        invariant Parse(env, 5, ts) == ParseLoop(env, 5, accu, Ahead())
        decreases Left()
      {
        ghost var us := Ahead();
        AheadHead();
        LoopExit(env, 5, accu, us);
        var op := monToken;
        if op != TMul && op != TDiv && op != TMod {
          return true, accu;
        }
        MonGetToken();
        ok, expr := Factor();
        LoopStep(env, 5, accu, us);
        if !ok {
          return false, 0;
        }
        if op == TMul {
          accu := Product(accu, expr);
        } else if expr == 0 {
          return false, 0;
        } else {
          accu := if op == TDiv then Divide(accu, expr) else Remainder(accu, expr);
        }
      }
    }

    /** `factor` */
    method Factor() returns (ok: bool, number: Word)
      requires Valid()
      modifies this`inPtr, this`input, this`monToken
      ensures Valid() && input == old(input) && Left() <= old(Left())
      ensures Agrees(Parse(Environment(), FACTOR, old(Ahead())), ok, number)
      decreases Left(), 0
    {
      hide Parse, ParseLoop, Ahead, Tokens, Scan, ApplyUnary, IsLine;
      ghost var env, ts := Environment(), Ahead();
      AheadHead();
      ParseIsFactor(env, ts);
      number := 0;
      match monToken {
        case TNumber(v) =>
          number := v;
          MonGetToken();
          ok := true;
        case TName(n) =>
          ok := n in vars;
          if ok {
            number := vars[n];
            MonGetToken();
          }
        case TDot =>
          number := monDotAddress;
          MonGetToken();
          ok := true;
        case TColon =>
          number := colonValue;
          MonGetToken();
          ok := true;
        case TPlus =>
          MonGetToken();
          ok, number := Factor();
          ParseIsFactor(env, ts.tail);
          UnaryPlus(number);
        case TMinus =>
          MonGetToken();
          ok, number := Factor();
          ParseIsFactor(env, ts.tail);
          if ok {
            number := ApplyUnary(TMinus, number);
          }
        case TNot =>
          MonGetToken();
          ok, number := Factor();
          ParseIsFactor(env, ts.tail);
          if ok {
            number := ApplyUnary(TNot, number);
          }
        case TLParen =>
          MonGetToken();
          ok, number := MonExpression();
          AheadHead();
          if ok {
            if monToken == TRParen {
              MonGetToken();
            } else {
              ok := false;
            }
          }
        case _ =>
          ok := false;
      }
    }

    /** What a command does to read an argument: with the text of a tree in front of it,
        it gets the value of the tree, or fails exactly when the tree has none; the
        current token is then the first one behind the tree. */
    method ReadArgument(ghost e: Expr, ghost rest: string) returns (ok: bool, number: Word)
      requires Valid() && !Stops(monToken) && ReadableNames(e)
      requires input[inPtr..] == TextOf(e, rest) && |rest| <= |input| && !IsAlnum(At(rest, 0))
      requires Ended(Tokens(input, |input| - |rest|))
      modifies this`inPtr, this`input, this`monToken
      ensures Valid() && input == old(input)
      ensures ok <==> Eval(old(Environment()), e).Some?
      ensures ok ==> number == Eval(old(Environment()), e).value && Ahead() == Tokens(input, |input| - |rest|)
    {
      hide Tokens, Eval, TextOf, Parse;
      PrintScanParse(Environment(), e, input, inPtr, rest);
      AheadTail();
      MonGetToken();
      ok, number := MonExpression();
    }

    lemma AheadTail()
      requires Valid() && !Stops(monToken)
      ensures Ahead().Cons? && Ahead().tail == Tokens(input, inPtr)
    {
    }

    lemma AheadHead()
      requires Valid()
      ensures Ahead().Cons? && Ahead().head == monToken
    {
    }
  }

  lemma ValueNothing(r: Radix, s: string)
    requires s == ""
    ensures WordValue(r, s) == 0 && !IsHex(NUL)
  {
  }

  lemma ValueStep(r: Radix, s: string, p: nat, q: nat)
    requires p <= q < |s|
    ensures WordValue(r, s[p..q + 1]) == (WordValue(r, s[p..q]) * Base(r) + DigitValue(r, s[q])) % WORD
  {
    assert s[p..q + 1][..q - p] == s[p..q];
    WordStep(Value(r, s[p..q]), Base(r), DigitValue(r, s[q]));
  }

  lemma WordStep(v: nat, b: nat, d: nat)
    requires b == 10 || b == 16 || b == 0x100
    ensures (v * b + d) % WORD == (v % WORD * b + d) % WORD
  {
    WordShift(v % WORD * b + d, v / WORD * b);
    assert v * b == v % WORD * b + WORD * (v / WORD * b);
  }

  lemma WordShift(x: int, k: int)
    ensures (x + WORD * k) % WORD == x % WORD
  {
  }

  lemma LoopEnter(env: Env, lvl: nat, ts: List<Token>)
    requires lvl < FACTOR
    ensures Parse(env, lvl, ts) == match Parse(env, lvl + 1, ts)
      case Fail => Fail
      case Ok(a, rest) => ParseLoop(env, lvl, a, rest)
  {
  }

  lemma LoopExit(env: Env, lvl: nat, a: Word, ts: List<Token>)
    requires lvl < FACTOR
    ensures ts.Nil? || Level(ts.head) != lvl ==> ParseLoop(env, lvl, a, ts) == Ok(a, ts)
  {
  }

  lemma LoopStep(env: Env, lvl: nat, a: Word, ts: List<Token>)
    requires lvl < FACTOR && ts.Cons? && Level(ts.head) == lvl
    ensures ParseLoop(env, lvl, a, ts) == match Parse(env, lvl + 1, ts.tail)
      case Fail => Fail
      case Ok(b, rest) =>
        var c := Apply(env, ts.head, a, b);
        if c.None? then Fail else ParseLoop(env, lvl, c.value, rest)
  {
  }

  lemma UnaryPlus(a: Word)
    ensures ApplyUnary(TPlus, a) == a
  {
  }

  lemma ParseIsFactor(env: Env, ts: List<Token>)
    ensures Parse(env, FACTOR, ts) == ParseFactor(env, ts)
  {
  }
}
