/** The ways to write a number for the monitor, and the characters between the tokens. */
module Spellings {
  import opened Bytes
  import opened Expressions
  import opened Scanner

  function UpperHexText(n: nat): (ds: string)
    ensures ds != "" && forall i :: 0 <= i < |ds| ==> '0' <= ds[i] <= '9' || 'A' <= ds[i] <= 'F'
    decreases n
  {
    var d := n % 16;
    var c := if d < 10 then '0' + d as char else 'A' + (d - 10) as char;
    if n < 16 then [c] else UpperHexText(n / 16) + [c]
  }

  function DecimalText(n: nat): (ds: string)
    ensures ds != "" && forall i :: 0 <= i < |ds| ==> '0' <= ds[i] <= '9'
    decreases n
  {
    if n < 10 then ['0' + n as char] else DecimalText(n / 10) + ['0' + (n % 10) as char]
  }

  lemma ValueOne(r: Radix, c: char)
    ensures Value(r, [c]) == DigitValue(r, c)
  {
    assert [c][..0] == "";
    assert Value(r, [c]) == Value(r, "") * Base(r) + DigitValue(r, c);
  }

  lemma ValueLast(r: Radix, ds: string, c: char)
    ensures Value(r, ds + [c]) == Value(r, ds) * Base(r) + DigitValue(r, c)
  {
    assert (ds + [c])[..|ds|] == ds;
  }

  lemma {:induction false} UpperHexValue(n: nat)
    ensures Value(Hex, UpperHexText(n)) == n
    decreases n
  {
    hide Value;
    var c := UpperHexText(n)[|UpperHexText(n)| - 1];
    if n < 16 {
      ValueOne(Hex, c);
    } else {
      UpperHexValue(n / 16);
      ValueLast(Hex, UpperHexText(n / 16), c);
    }
  }

  lemma {:induction false} DecimalValue(n: nat)
    ensures Value(Dec, DecimalText(n)) == n
    decreases n
  {
    hide Value;
    var c := DecimalText(n)[|DecimalText(n)| - 1];
    if n < 10 {
      ValueOne(Dec, c);
    } else {
      DecimalValue(n / 10);
      ValueLast(Dec, DecimalText(n / 10), c);
    }
  }

  /** A word is spelled by its hexadecimal digits in small or capital letters, with or without
      a dollar sign, and by its decimal digits behind an underscore. */
  lemma NumberSpellings(v: Word)
    ensures Spells(HexText(v), TNumber(v)) && Spells("$" + HexText(v), TNumber(v))
    ensures Spells(UpperHexText(v), TNumber(v)) && Spells("$" + UpperHexText(v), TNumber(v))
    ensures Spells("_" + DecimalText(v), TNumber(v))
  {
    hide Value, UpperHexText, DecimalText, HexText;
    UpperHexValue(v);
    DecimalValue(v);
    assert ("$" + HexText(v))[1..] == HexText(v) && ("$" + UpperHexText(v))[1..] == UpperHexText(v);
    assert ("_" + DecimalText(v))[1..] == DecimalText(v);
  }

  /** A quoted constant takes its characters as the bytes of a number, the first one on top;
      what does not fit into the word is lost there. */
  lemma QuotedSpellings(ds: string, c: char, v: Word)
    requires (forall i :: 0 <= i < |ds| ==> ds[i] != '\'') && c != '\''
    ensures Spells("''", TNumber(0))
    ensures Spells("'" + ds + "'", TNumber(v)) ==>
      Spells("'" + (ds + [c]) + "'", TNumber((v * 256 + c as int % 256) % 0x1_0000_0000_0000_0000))
  {
    hide Value;
    ValueLast(Chars, ds, c);
    Quoted("");
    Quoted(ds);
    Quoted(ds + [c]);
    NotNumber("'" + ds + "'", v);
    Cut256(Value(Chars, ds), c as int % 256);
    assert Value(Chars, "") == 0 by { NoValue(); }
    assert "''" == "'" + "" + "'";
  }

  lemma NoValue()
    ensures Value(Chars, "") == 0
  {
  }

  lemma Quoted(ds: string)
    ensures var w := "'" + ds + "'"; |w| > 1 && w[0] == '\'' == w[|w| - 1] && w[1..|w| - 1] == ds
  {
  }

  lemma NotNumber(w: string, v: Word)
    requires |w| > 1 && w[0] == '\''
    ensures !SpellsDigits(Hex, w, v)
  {
    assert !IsDigitOf(Hex, w[0]);
  }

  lemma Cut256(x: nat, d: nat)
    ensures (x % WORD * 256 + d) % WORD == (x * 256 + d) % WORD
  {
    var q := x / WORD;
    assert x == WORD * q + x % WORD;
    assert x * 256 + d == WORD * (256 * q) + (x % WORD * 256 + d);
  }

  /** White space is what C takes for it. */
  lemma WhiteSpace(c: char)
    ensures IsSpace(c) <==> c in {' ', '\t', '\n', '\U{0b}', '\U{0c}', '\r'}
  {
  }
}
