/** What the monitor's scanner makes of an input line. A line is a C string: the
    character behind the last one is NUL. */
module Scanner {
  import opened Bytes
  import opened Expressions

  const NUL: char := '\0'

  function At(s: string, i: nat): char { if i < |s| then s[i] else NUL }

  predicate IsSpace(c: char) { c == ' ' || 9 <= c as int <= 13 }

  predicate IsDigit(c: char) { '0' <= c <= '9' }

  predicate IsAlnum(c: char) { IsDigit(c) || 'A' <= c <= 'Z' || 'a' <= c <= 'z' }

  predicate IsHex(c: char) { IsDigit(c) || 'A' <= c <= 'F' || 'a' <= c <= 'f' }

  predicate IsLine(s: string) { forall i :: 0 <= i < |s| ==> s[i] != NUL }

  // ---------------------------------------------------------------- numbers

  /** The digits of a number: hexadecimal, decimal, or whole characters. */
  datatype Radix = Hex | Dec | Chars

  function Base(r: Radix): nat { match r case Hex => 16 case Dec => 10 case Chars => 0x100 }

  predicate IsDigitOf(r: Radix, c: char) {
    match r case Hex => IsHex(c) case Dec => IsDigit(c) case Chars => c != '\''
  }

  function DigitValue(r: Radix, c: char): nat {
    if r == Chars then c as int % 0x100
    else if IsDigit(c) then c as int - '0' as int
    else if 'A' <= c <= 'F' then c as int - 'A' as int + 10
    else if 'a' <= c <= 'f' then c as int - 'a' as int + 10
    else 0
  }

  /** The number written by the digits ds, unbounded. */
  function Value(r: Radix, ds: string): nat {
    if ds == "" then 0 else Value(r, ds[..|ds| - 1]) * Base(r) + DigitValue(r, ds[|ds| - 1])
  }

  function WordValue(r: Radix, ds: string): Word { Value(r, ds) % WORD }

  /** Where the run of digits from p on ends. */
  function DigitsEnd(r: Radix, s: string, p: nat): (e: nat)
    requires p <= |s|
    ensures p <= e <= |s|
    ensures forall i :: p <= i < e ==> IsDigitOf(r, s[i])
    ensures e < |s| ==> !IsDigitOf(r, s[e])
    decreases |s| - p
  {
    if p < |s| && IsDigitOf(r, s[p]) then DigitsEnd(r, s, p + 1) else p
  }

  function NameEnd(s: string, p: nat): (e: nat)
    requires p <= |s|
    ensures p <= e <= |s|
    ensures forall i :: p <= i < e ==> IsAlnum(s[i])
    ensures e < |s| ==> !IsAlnum(s[e])
    decreases |s| - p
  {
    if p < |s| && IsAlnum(s[p]) then NameEnd(s, p + 1) else p
  }

  function StringEnd(s: string, p: nat): (e: nat)
    requires p <= |s|
    ensures p <= e <= |s|
    ensures forall i :: p <= i < e ==> s[i] != '"'
    ensures e < |s| ==> s[e] == '"'
    decreases |s| - p
  {
    if p < |s| && s[p] != '"' then StringEnd(s, p + 1) else p
  }

  function SpaceEnd(s: string, p: nat): (e: nat)
    requires p <= |s|
    ensures p <= e <= |s|
    ensures forall i :: p <= i < e ==> IsSpace(s[i])
    ensures e < |s| ==> !IsSpace(s[e])
    decreases |s| - p
  {
    if p < |s| && IsSpace(s[p]) then SpaceEnd(s, p + 1) else p
  }

  // ---------------------------------------------------------------- tokens

  /** A token and the position behind it; behind an unusable token that may be
      one past the end of the line. */
  datatype Scanned = Scanned(token: Token, next: nat)

  /** No token is asked for after one of these. */
  predicate Stops(t: Token) { t == TEnd || t == TNull }

  predicate Inside(r: Scanned, s: string, p: nat) {
    p < r.next <= |s| + 1 && (!Stops(r.token) ==> r.next <= |s|)
  }

  /** A hexadecimal or decimal number at p, which must not run into a letter or digit. */
  function ScanDigits(r: Radix, s: string, p: nat): (t: Scanned)
    requires p <= |s|
    ensures t.next <= |s| + 1 && (!Stops(t.token) ==> p < t.next <= |s|) && p < t.next
  {
    var e := DigitsEnd(r, s, p);
    if e == p then Scanned(TNull, p + 1)
    else if IsAlnum(At(s, e)) then Scanned(TNull, e + 1)
    else Scanned(TNumber(WordValue(r, s[p..e])), e)
  }

  /** A character constant behind its opening quote. */
  function ScanChars(s: string, p: nat): (t: Scanned)
    requires p <= |s|
    ensures Inside(t, s, p)
  {
    var e := DigitsEnd(Chars, s, p);
    if e == |s| then Scanned(TNull, e + 1) else Scanned(TNumber(WordValue(Chars, s[p..e])), e + 1)
  }

  function ScanString(s: string, p: nat): (t: Scanned)
    requires p <= |s|
    ensures Inside(t, s, p)
  {
    var e := StringEnd(s, p);
    if e == |s| then Scanned(TNull, e + 1) else Scanned(TString(s[p..e]), e + 1)
  }

  /** A word: a number if all of it is hexadecimal, a name otherwise. */
  function ScanWord(s: string, p: nat): (t: Scanned)
    requires p < |s| && IsAlnum(s[p])
    ensures Inside(t, s, p)
  {
    var n := ScanDigits(Hex, s, p);
    if n.token.TNumber? then n else Scanned(TName(s[p..NameEnd(s, p)]), NameEnd(s, p))
  }

  /** The tokens of one character. */
  function Single(c: char): Token {
    match c
    case '(' => TLParen
    case ')' => TRParen
    case '.' => TDot
    case ':' => TColon
    case ',' => TComma
    case '+' => TPlus
    case '-' => TMinus
    case '*' => TMul
    case '/' => TDiv
    case '%' => TMod
    case '&' => TAnd
    case '|' => TOr
    case '^' => TEor
    case '~' => TNot
    case '=' => TAssign
    case _ => TNull
  }

  /** The token at p, which is not a space. */
  function ScanSymbol(s: string, p: nat): (t: Scanned)
    requires p < |s|
    ensures Inside(t, s, p)
  {
    var c := s[p];
    if c == '<' || c == '>' then
      Scanned(if At(s, p + 1) != c then TNull else if c == '<' then TShiftL else TShiftR, p + 2)
    else if c == '$' then ScanDigits(Hex, s, p + 1)
    else if c == '_' then ScanDigits(Dec, s, p + 1)
    else if c == '\'' then ScanChars(s, p + 1)
    else if c == '"' then ScanString(s, p + 1)
    else if IsAlnum(c) then ScanWord(s, p)
    else Scanned(Single(c), p + 1)
  }

  /** The next token from p on. */
  function Scan(s: string, p: nat): (t: Scanned)
    requires p <= |s| && IsLine(s)
    ensures Inside(t, s, p)
  {
    var q := SpaceEnd(s, p);
    if q == |s| then Scanned(TEnd, q + 1) else ScanSymbol(s, q)
  }

  /** The tokens from p on, up to the first that stops the scanner. */
  function Tokens(s: string, p: nat): List<Token>
    requires p <= |s| && IsLine(s)
    decreases |s| - p
  {
    var t := Scan(s, p);
    if Stops(t.token) then Cons(t.token, Nil) else Cons(t.token, Tokens(s, t.next))
  }

  // ---------------------------------------------------------------- spelling

  /** The characters at the end of a spelling that would swallow a following letter or digit. */
  predicate IsWordToken(t: Token) { t.TNumber? || t.TName? }

  predicate IsNameText(n: string) {
    n != "" && (forall i :: 0 <= i < |n| ==> IsAlnum(n[i])) && exists i :: 0 <= i < |n| && !IsHex(n[i])
  }

  /** w is a way to write the token t. */
  predicate Spells(w: string, t: Token) {
    match t
    case TNumber(v) =>
      SpellsDigits(Hex, w, v) ||
      (|w| > 1 && w[0] == '$' && SpellsDigits(Hex, w[1..], v)) ||
      (|w| > 1 && w[0] == '_' && SpellsDigits(Dec, w[1..], v)) ||
      (|w| > 1 && w[0] == '\'' == w[|w| - 1] && SpellsChars(w[1..|w| - 1], v))
    case TName(n) => w == n && IsNameText(n)
    case TShiftL => w == "<<"
    case TShiftR => w == ">>"
    case TString(_) => false
    case _ => |w| == 1 && !IsAlnum(w[0]) && t == Single(w[0]) && t != TNull
  }

  predicate SpellsDigits(r: Radix, ds: string, v: Word) {
    ds != "" && (forall i :: 0 <= i < |ds| ==> IsDigitOf(r, ds[i])) && WordValue(r, ds) == v
  }

  predicate SpellsChars(ds: string, v: Word) {
    (forall i :: 0 <= i < |ds| ==> IsDigitOf(Chars, ds[i])) && WordValue(Chars, ds) == v
  }

  predicate AllSpace(sp: string) { forall i :: 0 <= i < |sp| ==> IsSpace(sp[i]) }

  /** A token in a text: white space, then a spelling. */
  datatype Lexeme = Lexeme(space: string, word: string, token: Token)

  function Text(ls: List<Lexeme>, rest: string): string {
    if ls.Nil? then rest else ls.head.space + ls.head.word + Text(ls.tail, rest)
  }

  function TokensOf(ls: List<Lexeme>, k: List<Token>): List<Token> {
    if ls.Nil? then k else Cons(ls.head.token, TokensOf(ls.tail, k))
  }

  /** Every lexeme is well written, and no number or name runs into a letter or digit. */
  predicate WellSpelled(ls: List<Lexeme>, rest: string) {
    ls.Cons? ==>
      AllSpace(ls.head.space) && Spells(ls.head.word, ls.head.token) &&
      (IsWordToken(ls.head.token) ==> !IsAlnum(At(Text(ls.tail, rest), 0))) &&
      WellSpelled(ls.tail, rest)
  }

  lemma {:induction false} SpaceEndIs(s: string, p: nat, e: nat)
    requires p <= e <= |s| && (forall i :: p <= i < e ==> IsSpace(s[i])) && (e < |s| ==> !IsSpace(s[e]))
    ensures SpaceEnd(s, p) == e
    decreases e - p
  {
    if p < e { SpaceEndIs(s, p + 1, e); }
  }

  lemma {:induction false} DigitsEndIs(r: Radix, s: string, p: nat, e: nat)
    requires p <= e <= |s| && (forall i :: p <= i < e ==> IsDigitOf(r, s[i])) && (e < |s| ==> !IsDigitOf(r, s[e]))
    ensures DigitsEnd(r, s, p) == e
    decreases e - p
  {
    if p < e { DigitsEndIs(r, s, p + 1, e); }
  }

  lemma {:induction false} NameEndIs(s: string, p: nat, e: nat)
    requires p <= e <= |s| && (forall i :: p <= i < e ==> IsAlnum(s[i])) && (e < |s| ==> !IsAlnum(s[e]))
    ensures NameEnd(s, p) == e
    decreases e - p
  {
    if p < e { NameEndIs(s, p + 1, e); }
  }

  /** Scanning a number written in hexadecimal or decimal digits. */
  lemma ScanDigitsSpelled(r: Radix, s: string, p: nat, e: nat, v: Word)
    requires r != Chars && p <= e <= |s| && SpellsDigits(r, s[p..e], v) && !IsAlnum(At(s, e))
    ensures ScanDigits(r, s, p) == Scanned(TNumber(v), e)
  {
    forall i | p <= i < e
      ensures IsDigitOf(r, s[i])
    {
      assert s[i] == s[p..e][i - p];
    }
    DigitsEndIs(r, s, p, e);
  }

  lemma ScanCharsSpelled(s: string, p: nat, e: nat, v: Word)
    requires p <= e < |s| && SpellsChars(s[p..e], v) && s[e] == '\''
    ensures ScanChars(s, p) == Scanned(TNumber(v), e + 1)
  {
    forall i | p <= i < e
      ensures IsDigitOf(Chars, s[i])
    {
      assert s[i] == s[p..e][i - p];
    }
    DigitsEndIs(Chars, s, p, e);
  }

  lemma ScanNameSpelled(s: string, p: nat, e: nat)
    requires p < e <= |s| && IsNameText(s[p..e]) && !IsAlnum(At(s, e))
    ensures IsAlnum(s[p]) && ScanWord(s, p) == Scanned(TName(s[p..e]), e)
  {
    assert s[p] == s[p..e][0];
    forall i | p <= i < e
      ensures IsAlnum(s[i])
    {
      assert s[i] == s[p..e][i - p];
    }
    NameEndIs(s, p, e);
    var k :| 0 <= k < e - p && !IsHex(s[p..e][k]);
    var d := DigitsEnd(Hex, s, p);
    assert !IsDigitOf(Hex, s[p + k]);
    assert d <= p + k;
    assert IsAlnum(At(s, d));
  }

  lemma SubSlice(s: string, p: nat, e: nat, i: nat, j: nat)
    requires p <= e <= |s| && i <= j <= e - p
    ensures s[p..e][i..j] == s[p + i..p + j]
  {
    assert forall k :: 0 <= k < j - i ==> s[p..e][i..j][k] == s[p + i..p + j][k];
  }

  /** A word of the line, spelled as a number. */
  lemma ScanNumberSpelled(s: string, p: nat, e: nat, v: Word)
    requires p < e <= |s| && Spells(s[p..e], TNumber(v)) && !IsAlnum(At(s, e))
    ensures !IsSpace(s[p]) && ScanSymbol(s, p) == Scanned(TNumber(v), e)
  {
    hide WordValue;
    var w := s[p..e];
    assert w[0] == s[p] && w[|w| - 1] == s[e - 1];
    if SpellsDigits(Hex, w, v) {
      assert IsDigitOf(Hex, w[0]);
      ScanDigitsSpelled(Hex, s, p, e, v);
    } else {
      assert w[1..] == s[p + 1..e];
      if w[0] == '$' {
        ScanDigitsSpelled(Hex, s, p + 1, e, v);
      } else if w[0] == '_' {
        ScanDigitsSpelled(Dec, s, p + 1, e, v);
      } else {
        SubSlice(s, p, e, 1, |w| - 1);
        ScanCharsSpelled(s, p + 1, e - 1, v);
      }
    }
  }

  /** A spelled token scans as itself. */
  lemma ScanSpelled(s: string, p: nat, e: nat, t: Token)
    requires p < e <= |s| && Spells(s[p..e], t) && (IsWordToken(t) ==> !IsAlnum(At(s, e)))
    ensures !IsSpace(s[p]) && ScanSymbol(s, p) == Scanned(t, e)
  {
    var w := s[p..e];
    if t.TNumber? {
      ScanNumberSpelled(s, p, e, t.value);
    } else if t.TName? {
      ScanNameSpelled(s, p, e);
    } else {
      ScanOperatorSpelled(s, p, e, t);
    }
  }

  lemma ScanOperatorSpelled(s: string, p: nat, e: nat, t: Token)
    requires p < e <= |s| && Spells(s[p..e], t) && !IsWordToken(t)
    ensures !IsSpace(s[p]) && ScanSymbol(s, p) == Scanned(t, e)
  {
    hide ScanDigits, ScanChars, ScanString, ScanWord;
    var w := s[p..e];
    assert w[0] == s[p];
    if t == TShiftL || t == TShiftR {
      assert w[1] == s[p + 1];
    }
  }

  lemma SpellsSomething(w: string, t: Token)
    requires Spells(w, t)
    ensures w != "" && !Stops(t)
  {
  }

  lemma ScanLexeme(s: string, p: nat, l: Lexeme)
    requires IsLine(s) && p + |l.space| + |l.word| <= |s| && AllSpace(l.space) && Spells(l.word, l.token)
    requires s[p..p + |l.space|] == l.space && s[p + |l.space|..p + |l.space| + |l.word|] == l.word
    requires IsWordToken(l.token) ==> !IsAlnum(At(s, p + |l.space| + |l.word|))
    ensures Scan(s, p) == Scanned(l.token, p + |l.space| + |l.word|) && !Stops(l.token)
  {
    hide Spells, ScanSymbol;
    var q := p + |l.space|;
    SpellsSomething(l.word, l.token);
    ScanSpelled(s, q, q + |l.word|, l.token);
    forall i | p <= i < q
      ensures IsSpace(s[i])
    {
      assert s[i] == s[p..q][i - p];
    }
    SpaceEndIs(s, p, q);
  }

  /** Scanning a written token list gives back the tokens, and goes on with the
      rest of the line. */
  lemma {:induction false} TokensOfText(s: string, p: nat, ls: List<Lexeme>, rest: string)
    requires IsLine(s) && p <= |s| && s[p..] == Text(ls, rest) && WellSpelled(ls, rest)
    ensures |rest| <= |s| - p && Tokens(s, p) == TokensOf(ls, Tokens(s, |s| - |rest|))
    decreases ls
  {
    hide Spells, Scan;
    if ls.Cons? {
      var l, tail := ls.head, Text(ls.tail, rest);
      var q := p + |l.space|;
      var e := q + |l.word|;
      assert s[p..] == l.space + l.word + tail;
      assert s[p..q] == s[p..][..|l.space|] == l.space;
      assert s[q..e] == s[p..][|l.space|..|l.space| + |l.word|] == l.word;
      assert s[e..] == s[p..][|l.space| + |l.word|..] == tail;
      assert At(s, e) == At(tail, 0);
      ScanLexeme(s, p, l);
      TokensOfText(s, e, ls.tail, rest);
    }
  }

  // ---------------------------------------------------------------- expressions as text

  /** Evaluating an expression written at position p of a line: whatever the spacing
      and the spelling of its tokens, parsing yields the value of the tree and leaves
      the tokens of the rest of the line, or fails exactly when the evaluation fails. */
  lemma TextOfExpression(env: Env, e: Expr, s: string, p: nat, ls: List<Lexeme>, rest: string, k: List<Token>)
    requires IsLine(s) && p <= |s| && s[p..] == Text(ls, rest) && WellSpelled(ls, rest) && |rest| <= |s|
    requires k == Tokens(s, |s| - |rest|) && Ended(k) && TokensOf(ls, k) == Print(e, 0, k)
    ensures Parse(env, 0, Tokens(s, p)) == if Eval(env, e).None? then Fail else Ok(Eval(env, e).value, k)
  {
    TokensOfText(s, p, ls, rest);
    PrintedExpression(env, e, k);
  }

  /** No two neighbouring tokens are both words. */
  predicate WordsApart(ts: List<Token>) {
    ts.Cons? ==> (ts.tail.Cons? ==> !(IsWordToken(ts.head) && IsWordToken(ts.tail.head))) && WordsApart(ts.tail)
  }

  predicate StartsWithWord(ts: List<Token>) { ts.Cons? && IsWordToken(ts.head) }

  /** Printed trees need no spaces: operands are never neighbours. */
  lemma {:induction false} PrintApart(e: Expr, lvl: nat, k: List<Token>)
    requires WordsApart(k) && !StartsWithWord(k)
    ensures WordsApart(Print(e, lvl, k))
    decreases e, e.Binary? && Level(e.op) < lvl
  {
    match e {
      case Unary(t, e1) => PrintApart(e1, FACTOR, k);
      case Group(e1) => PrintApart(e1, 0, Cons(TRParen, k));
      case Binary(t, l, r) =>
        if Level(t) < lvl {
          PrintApart(e, 0, Cons(TRParen, k));
        } else {
          PrintApart(r, Level(t) + 1, k);
          PrintApart(l, Level(t), Cons(t, Print(r, Level(t) + 1, k)));
        }
      case _ =>
    }
  }

  /** The names of a tree are names the scanner can read. */
  predicate ReadableNames(e: Expr) {
    match e
    case Name(n) => IsNameText(n)
    case Unary(_, e1) => ReadableNames(e1)
    case Binary(_, l, r) => ReadableNames(l) && ReadableNames(r)
    case Group(e1) => ReadableNames(e1)
    case _ => true
  }

  function HexDigit(n: nat): (c: char)
    requires n < 16
    ensures IsHex(c) && DigitValue(Hex, c) == n
  {
    if n < 10 then '0' + n as char else 'a' + (n - 10) as char
  }

  function HexText(n: nat): (ds: string)
    ensures ds != "" && (forall i :: 0 <= i < |ds| ==> IsDigitOf(Hex, ds[i])) && Value(Hex, ds) == n
    decreases n
  {
    if n < 16 then
      assert Value(Hex, [HexDigit(n)]) == Value(Hex, "") * 16 + n;
      [HexDigit(n)]
    else
      var ds := HexText(n / 16) + [HexDigit(n % 16)];
      assert ds[..|ds| - 1] == HexText(n / 16);
      ds
  }

  /** A token that can stand in an expression. */
  predicate Writable(t: Token) {
    t.TNumber? || (t.TName? && IsNameText(t.name)) ||
    t in {TLParen, TRParen, TDot, TColon, TPlus, TMinus, TMul, TDiv, TMod, TAnd, TOr, TEor, TShiftL, TShiftR, TNot}
  }

  function WordOf(t: Token): (w: string)
    requires Writable(t)
    ensures Spells(w, t)
    ensures IsWordToken(t) <==> IsAlnum(At(w, 0))
  {
    match t
    case TNumber(v) => HexText(v)
    case TName(n) => n
    case TLParen => "("
    case TRParen => ")"
    case TDot => "."
    case TColon => ":"
    case TPlus => "+"
    case TMinus => "-"
    case TMul => "*"
    case TDiv => "/"
    case TMod => "%"
    case TAnd => "&"
    case TOr => "|"
    case TEor => "^"
    case TShiftL => "<<"
    case TShiftR => ">>"
    case TNot => "~"
  }

  predicate AllWritable(ts: List<Token>) { ts.Cons? ==> Writable(ts.head) && AllWritable(ts.tail) }

  /** Tokens written without any white space. */
  function Compact(ts: List<Token>): List<Lexeme>
    requires AllWritable(ts)
  {
    if ts.Nil? then Nil else Cons(Lexeme("", WordOf(ts.head), ts.head), Compact(ts.tail))
  }

  lemma {:induction false} PrintWritable(e: Expr, lvl: nat, k: List<Token>)
    requires ReadableNames(e) && AllWritable(k)
    ensures AllWritable(Print(e, lvl, k))
    decreases e, e.Binary? && Level(e.op) < lvl
  {
    match e {
      case Unary(t, e1) => PrintWritable(e1, FACTOR, k);
      case Group(e1) => PrintWritable(e1, 0, Cons(TRParen, k));
      case Binary(t, l, r) =>
        if Level(t) < lvl {
          PrintWritable(e, 0, Cons(TRParen, k));
        } else {
          PrintWritable(r, Level(t) + 1, k);
          PrintWritable(l, Level(t), Cons(t, Print(r, Level(t) + 1, k)));
        }
      case _ =>
    }
  }

  /** Compact text is well spelled in front of anything but a letter or digit. */
  lemma {:induction false} CompactSpelled(ts: List<Token>, rest: string)
    requires AllWritable(ts) && WordsApart(ts) && !IsAlnum(At(rest, 0))
    ensures WellSpelled(Compact(ts), rest) && TokensOf(Compact(ts), Nil) == ts
    ensures ts.Cons? ==> At(Text(Compact(ts), rest), 0) == At(WordOf(ts.head), 0)
    decreases ts
  {
    if ts.Cons? {
      CompactSpelled(ts.tail, rest);
      SpellsSomething(WordOf(ts.head), ts.head);
      var ls := Compact(ts);
      assert Text(ls, rest) == "" + WordOf(ts.head) + Text(ls.tail, rest);
    }
  }

  function Append(ts: List<Token>, k: List<Token>): List<Token> {
    if ts.Nil? then k else Cons(ts.head, Append(ts.tail, k))
  }

  lemma {:induction false} PrintAppend(e: Expr, lvl: nat, j: List<Token>, k: List<Token>)
    ensures Print(e, lvl, Append(j, k)) == Append(Print(e, lvl, j), k)
    decreases e, e.Binary? && Level(e.op) < lvl
  {
    match e {
      case Unary(t, e1) => PrintAppend(e1, FACTOR, j, k);
      case Group(e1) => PrintAppend(e1, 0, Cons(TRParen, j), k);
      case Binary(t, l, r) =>
        if Level(t) < lvl {
          PrintAppend(e, 0, Cons(TRParen, j), k);
        } else {
          PrintAppend(r, Level(t) + 1, j, k);
          PrintAppend(l, Level(t), Cons(t, Print(r, Level(t) + 1, j)), k);
        }
      case _ =>
    }
  }

  lemma {:induction false} CompactTokens(ts: List<Token>, k: List<Token>)
    requires AllWritable(ts)
    ensures TokensOf(Compact(ts), k) == Append(ts, k)
  {
    if ts.Cons? { CompactTokens(ts.tail, k); }
  }

  /** The text of a tree: no white space, hexadecimal numbers, and only the
      parentheses its precedences require. */
  function TextOf(e: Expr, rest: string): string
    requires ReadableNames(e)
  {
    PrintWritable(e, 0, Nil);
    Text(Compact(Print(e, 0, Nil)), rest)
  }

  /** Print, scan, parse: a tree written at position p of a line evaluates to its
      value, with what follows it left over. */
  lemma PrintScanParse(env: Env, e: Expr, s: string, p: nat, rest: string)
    requires ReadableNames(e) && IsLine(s) && p <= |s| && s[p..] == TextOf(e, rest) && |rest| <= |s|
    requires !IsAlnum(At(rest, 0)) && Ended(Tokens(s, |s| - |rest|))
    ensures Parse(env, 0, Tokens(s, p))
      == if Eval(env, e).None? then Fail else Ok(Eval(env, e).value, Tokens(s, |s| - |rest|))
  {
    var ts, k := Print(e, 0, Nil), Tokens(s, |s| - |rest|);
    PrintWritable(e, 0, Nil);
    PrintApart(e, 0, Nil);
    CompactSpelled(ts, rest);
    CompactTokens(ts, k);
    PrintAppend(e, 0, Nil, k);
    TextOfExpression(env, e, s, p, Compact(ts), rest, k);
  }
}
