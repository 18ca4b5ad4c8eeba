/** The external representations themselves: what single texts read as, and what single data are written as. */
module Literals {
  import opened Syntax
  import opened Printer
  import opened RoundTrip
  import opened ReadsBack

  // ----- characters of the syntax -----

  /** White space is space, tab, line feed, vertical tab, form feed and return; parentheses end a token too. */
  lemma Terminals(c: char)
    ensures IsSpace(c) <==> c as int in {9, 10, 11, 12, 13, 32}
    ensures IsTerminal(c) <==> IsSpace(c) || c == '(' || c == ')'
  {
  }

  /** Folding makes each of the 26 capital letters the small one and leaves all else alone. */
  lemma FoldsLetters(s: string, i: nat)
    requires i < |s|
    ensures Fold(s, false) == s
    ensures var c := s[i];
      if 'A' <= c <= 'Z' then Fold(s, true)[i] == "abcdefghijklmnopqrstuvwxyz"[c as int - 'A' as int]
      else Fold(s, true)[i] == c
  {
    var c := s[i];
    assert 'A' <= c <= 'Z' ==> "abcdefghijklmnopqrstuvwxyz"[c as int - 'A' as int] == 'a' + (c - 'A');
  }

  // ----- named characters -----

  /** The names of section 6.6 of R7RS */
  predicate IsName(name: string, code: int) {
    || (name == "alarm" && code == 7) || (name == "backspace" && code == 8) || (name == "delete" && code == 127)
    || (name == "escape" && code == 27) || (name == "newline" && code == 10) || (name == "null" && code == 0)
    || (name == "return" && code == 13) || (name == "space" && code == 32) || (name == "tab" && code == 9)
  }

  lemma InTable(name: string, code: int) returns (i: nat)
    requires IsName(name, code)
    ensures i < |NAMED_CHARS| && NAMED_CHARS[i].0 == name && NAMED_CHARS[i].1 == code
  {
    i := if code == 7 then 0 else if code == 8 then 1 else if code == 127 then 2 else if code == 27 then 3
         else if code == 10 then 4 else if code == 0 then 5 else if code == 13 then 6 else if code == 32 then 7 else 8;
  }

  lemma {:induction false} NameBack(i: nat, j: nat)
    requires j <= i < |NAMED_CHARS|
    ensures NameFrom(NAMED_CHARS[i].1, j) == Some(NAMED_CHARS[i].0)
    decreases i - j
  {
    if j < i { NameBack(i, j + 1); }
  }

  /** Each name reads as its own character, and each of these characters is written by its name. */
  lemma NamedCharacter(name: string, code: int, k: string, fold: bool)
    requires IsName(name, code) && Delimited(k)
    ensures Read(Input("#\\" + name + k, fold)) == Done(Char(code), Input(k, fold))
    ensures Show(Char(code)) == "#\\" + name
  {
    var i := InTable(name, code);
    hide IsName;
    NamedBack(i, 0);
    NameBack(i, 0);
    NameOk(i);
    hide NameFrom;
    hide NamedFrom;
    LowerFolds(name, fold);
    assert CharLiteral(name, fold) == Some(code);
    CharacterReads(name, code, k, fold);
  }

  lemma CharacterReads(lit: string, code: int, k: string, fold: bool)
    requires NoTerminal(lit) && NoNul(lit) && CharLiteral(lit, fold) == Some(code) && Delimited(k)
    ensures Read(Input("#\\" + lit + k, fold)) == Done(Char(code), Input(k, fold))
  {
    hide CharLiteral;
    LiteralRead(lit, k, fold);
    SharpReads(lit, k, fold);
  }

  /** What read_character makes of the text behind the backslash */
  lemma SharpReads(lit: string, k: string, fold: bool)
    requires ReadCharacter(Input(lit + k, fold)).Done? ==> ReadCharacter(Input(lit + k, fold)).value.Char?
    ensures Read(Input("#\\" + lit + k, fold)) == ReadCharacter(Input(lit + k, fold))
  {
    hide ReadSharp;
    hide ReadCharacter;
    CharSharp(lit, k, fold);
    SharpText(("#\\" + lit + k)[1..], fold);
    assert "#" + ("#\\" + lit + k)[1..] == "#\\" + lit + k;
  }

  /** One character reads as itself, unless it delimits. */
  lemma BareCharacter(c: char, k: string, fold: bool)
    requires !IsTerminal(c) && c != '\0' && Delimited(k)
    ensures Read(Input("#\\" + [c] + k, fold)) == Done(Char(c as int), Input(k, fold))
  {
    CharacterReads([c], c as int, k, fold);
  }

  /** A character of ASCII that has no name is written bare. */
  lemma BareWritten(code: nat)
    requires code < 128 && forall name :: !IsName(name, code)
    ensures Show(Char(code)) == "#\\" + [code as char]
  {
    assert forall j :: 0 <= j < |NAMED_CHARS| ==> IsName(NAMED_CHARS[j].0, NAMED_CHARS[j].1);
    NoName(code, 0);
    assert IsName("null", 0);
    CStringWhole("#\\" + [code as char]);
  }

  lemma NoName(code: int, i: nat)
    requires forall j :: 0 <= j < |NAMED_CHARS| ==> NAMED_CHARS[j].1 != code
    ensures NameFrom(code, i) == None
    decreases |NAMED_CHARS| - i
  {
    if i < |NAMED_CHARS| { NoName(code, i + 1); }
  }

  // ----- numbers -----

  /** The digits, in small and in capital letters */
  function DigitOf(d: nat, upper: bool): char
    requires d < 16
  {
    (if upper then "0123456789ABCDEF" else "0123456789abcdef")[d]
  }

  /** `n` in positional notation */
  function Numeral(n: nat, radix: nat, upper: bool): string
    requires 2 <= radix <= 16
  {
    if n < radix then [DigitOf(n, upper)] else Numeral(n / radix, radix, upper) + [DigitOf(n % radix, upper)]
  }

  function DigitsOf(radix: nat): char -> bool
  {
    if radix == 2 then IsBinaryDigit
    else if radix == 8 then IsOctalDigit
    else if radix == 10 then IsDigit
    else IsHexDigit
  }

  predicate IsRadix(radix: nat) { radix == 2 || radix == 8 || radix == 10 || radix == 16 }

  lemma DigitIs(d: nat, radix: nat, upper: bool)
    requires IsRadix(radix) && d < radix
    ensures var c := DigitOf(d, upper);
      && HexValue(c) == d && DigitsOf(radix)(c) && !IsTerminal(c) && c != '-' && c != '+'
  {
    var c := DigitOf(d, upper);
    assert c == if d < 10 then '0' + d as char else if upper then 'A' + (d - 10) as char else 'a' + (d - 10) as char;
  }

  lemma NumeralStep(n: nat, radix: nat, upper: bool)
    requires IsRadix(radix)
    ensures Numeral(n, radix, upper) ==
      (if n < radix then "" else Numeral(n / radix, radix, upper)) + [DigitOf(n % radix, upper)]
    ensures (n / radix) * radix + n % radix == n && (n < radix ==> n / radix == 0)
  {
    Rebuilt(n, radix);
    hide DigitOf;
    if n < radix { NothingBefore([DigitOf(n, upper)]); }
  }

  lemma {:induction false} NumeralValue(n: nat, radix: nat, upper: bool)
    requires IsRadix(radix) && n < TWO_64
    ensures Unsigned(Numeral(n, radix, upper), radix) == n
    decreases n
  {
    hide Unsigned;
    hide Numeral;
    hide DigitOf;
    hide HexValue;
    hide DigitsOf;
    hide IsTerminal;
    DigitIs(n % radix, radix, upper);
    NumeralStep(n, radix, upper);
    var front := if n < radix then "" else Numeral(n / radix, radix, upper);
    if n >= radix { NumeralValue(n / radix, radix, upper); }
    UnsignedAppend(front, DigitOf(n % radix, upper), radix);
  }

  lemma {:induction false} NumeralDigits(n: nat, radix: nat, upper: bool)
    requires IsRadix(radix)
    ensures var s := Numeral(n, radix, upper);
      s != "" && s[0] != '-' && s[0] != '+' && forall i :: 0 <= i < |s| ==> DigitsOf(radix)(s[i])
    decreases n
  {
    hide Numeral;
    hide DigitOf;
    hide HexValue;
    hide DigitsOf;
    hide IsTerminal;
    DigitIs(n % radix, radix, upper);
    NumeralStep(n, radix, upper);
    if n >= radix { NumeralDigits(n / radix, radix, upper); }
  }

  lemma Rebuilt(n: nat, radix: nat)
    requires radix > 0
    ensures (n / radix) * radix + n % radix == n && (n < radix ==> n / radix == 0 && n % radix == n)
  {
  }

  lemma UnsignedAppend(s: string, c: char, radix: int)
    ensures Unsigned(s + [c], radix) == (Unsigned(s, radix) * radix + HexValue(c)) % TWO_64
    ensures Unsigned("", radix) == 0
  {
    assert (s + [c])[..|s|] == s;
  }

  /** The sign in front of a numeral */
  function Sign(negative: bool, explicit: bool): string { if negative then "-" else if explicit then "+" else "" }

  function Signum(negative: bool): int { if negative then -1 else 1 }

  function WithSign(negative: bool, n: int): int { if negative then -n else n }

  /** A numeral, with a sign or without, is read as the number that it stands for. */
  lemma NumberReads(sign: string, negative: bool, n: nat, radix: nat, upper: bool, k: string, fold: bool)
    requires IsRadix(radix) && n < TWO_62 && Delimited(k)
    requires sign == Sign(negative, true) || sign == Sign(negative, false)
    ensures ReadNum(Input(sign + Numeral(n, radix, upper) + k, fold), radix, DigitsOf(radix)) ==
      Done(Fixnum(WithSign(negative, n)), Input(k, fold))
  {
    var s := Numeral(n, radix, upper);
    NumeralValue(n, radix, upper);
    NumeralDigits(n, radix, upper);
    hide Numeral;
    EndsDigits(radix, k);
    UntilEnd(s, k, Not(DigitsOf(radix)));
    SignParts(sign, negative, s, k);
    hide DigitsOf;
    NumberParts(sign + s + k, Signum(negative), s, k, radix, DigitsOf(radix), fold);
    assert Signum(negative) * n == WithSign(negative, n);
    FixSame(WithSign(negative, n));
    hide Fix;
    hide Unsigned;
    hide Signed;
    hide Until;
    hide ReadNum;
  }

  lemma NumberParts(t: string, sign: int, s: string, k: string, radix: int, isDigit: char -> bool, fold: bool)
    requires Signed(t) == (sign, s + k) && Until(s + k, Not(isDigit)) == |s|
    ensures ReadNum(Input(t, fold), radix, isDigit) == Done(Fixnum(Fix(sign * Unsigned(s, radix))), Input(k, fold))
  {
    hide Signed;
    hide Until;
    hide Unsigned;
    hide Fix;
    assert (s + k)[..|s|] == s && (s + k)[|s|..] == k;
  }

  lemma SignParts(sign: string, negative: bool, s: string, k: string)
    requires s != "" && s[0] != '-' && s[0] != '+' && (sign == Sign(negative, true) || sign == Sign(negative, false))
    ensures Signed(sign + s + k) == (Signum(negative), s + k)
  {
    var t := sign + s + k;
    if sign == "" { assert t == s + k; } else { assert t[0] == sign[0] && t[1..] == s + k; }
  }

  lemma EndsDigits(radix: nat, k: string)
    requires IsRadix(radix) && Delimited(k)
    ensures k != "" ==> Not(DigitsOf(radix))(k[0])
  {
  }

  /** Decimal numbers */
  lemma DecimalReads(n: nat, k: string, fold: bool)
    requires n < TWO_62 && Delimited(k)
    ensures Read(Input(Numeral(n, 10, false) + k, fold)) == Done(Fixnum(n), Input(k, fold))
  {
    var s := Numeral(n, 10, false);
    NumeralDigits(n, 10, false);
    NumberReads("", false, n, 10, false, k, fold);
    hide Numeral;
    hide ReadNum;
    hide Read;
    NothingBefore(s);
    DigitsRead(s + k, fold);
  }

  lemma SignedDecimalReads(c: char, n: nat, k: string, fold: bool)
    requires n < TWO_62 && Delimited(k) && (c == '+' || c == '-')
    ensures Read(Input([c] + (Numeral(n, 10, false) + k), fold)) ==
      Done(Fixnum(WithSign(c == '-', n)), Input(k, fold))
  {
    var s := Numeral(n, 10, false);
    NumeralDigits(n, 10, false);
    NumberReads("", false, n, 10, false, k, fold);
    hide Numeral;
    hide ReadNum;
    hide Read;
    NothingBefore(s);
    assert ReadNum(Input(s + k, fold), 10, IsDigit) == Done(Fixnum(n), Input(k, fold));
    SignedRead(c, s + k, fold);
    SignedFix(c, n);
    hide Fix;
  }

  lemma SignedFix(c: char, n: nat)
    requires n < TWO_62 && (c == '+' || c == '-')
    ensures Fix(n * if c == '+' then 1 else -1) == WithSign(c == '-', n)
  {
    FixSame(WithSign(c == '-', n));
  }

  lemma DigitsRead(t: string, fold: bool)
    requires t != "" && IsDigit(t[0])
    ensures Read(Input(t, fold)) == ReadNum(Input(t, fold), 10, IsDigit)
  {
    NumberDatum(t, fold);
    ReadHere(t, fold);
    hide ReadDatum;
    hide ReadNum;
    hide Read;
  }

  lemma SignedRead(c: char, t: string, fold: bool)
    requires (c == '+' || c == '-') && t != "" && IsDigit(t[0])
    ensures var r := ReadNum(Input(t, fold), 10, IsDigit);
      Read(Input([c] + t, fold)) == Done(Fixnum(Fix(r.value.n * if c == '+' then 1 else -1)), r.rest)
  {
    var u := [c] + t;
    assert u[1..] == t && u[1] == t[0] && u[0] == c;
    NotBegun(u);
    ReadHere(u, fold);
    NumberRead(u, fold);
    hide ReadDatum;
    hide ReadNum;
    hide Read;
    hide Fix;
  }

  lemma NotBegun(t: string)
    requires |t| > 1 && (t[0] == '+' || t[0] == '-') && IsDigit(t[1])
    ensures !Begins(t)
  {
  }

  /** `#b`, `#o` and `#x` */
  lemma RadixReads(radix: nat, sign: string, negative: bool, n: nat, upper: bool, k: string, fold: bool)
    requires n < TWO_62 && Delimited(k) && (sign == Sign(negative, true) || sign == Sign(negative, false))
    requires radix == 2 || radix == 8 || radix == 16
    ensures var c := if radix == 2 then 'b' else if radix == 8 then 'o' else 'x';
      Read(Input("#" + ([c] + (sign + Numeral(n, radix, upper) + k)), fold)) ==
        Done(Fixnum(WithSign(negative, n)), Input(k, fold))
  {
    var c := if radix == 2 then 'b' else if radix == 8 then 'o' else 'x';
    var u := sign + Numeral(n, radix, upper) + k;
    NumberReads(sign, negative, n, radix, upper, k, fold);
    hide Numeral;
    assert DigitsOf(radix) == if radix == 2 then IsBinaryDigit else if radix == 8 then IsOctalDigit else IsHexDigit;
    TokenReads(c, u, fold);
    hide ReadNum;
    hide ReadSharp;
    hide Read;
  }

  /** `#` and a character, unless that opens something */
  lemma TokenReads(c: char, u: string, fold: bool)
    requires c != '(' && c != 'u' && c != '#'
    ensures var t, rest := "#" + ([c] + u), Input(u, fold);
      && Read(Input(t, fold)) == AfterVoid(ReadSharp(Input([c] + u, fold)), Input([c] + u, fold))
      && ReadSharp(Input([c] + u, fold)) ==
        if c == 't' || c == 'f' then ReadBoolean(c, rest)
        else if c == '\\' then ReadCharacter(rest)
        else if c == 'b' then ReadNum(rest, 2, IsBinaryDigit)
        else if c == 'o' then ReadNum(rest, 8, IsOctalDigit)
        else if c == 'x' then ReadNum(rest, 16, IsHexDigit)
        else if c == '!' then ReadSharpBang(rest)
        else if c == ';' then AsVoid(Read(rest))
        else if c == '|' then Comment(AfterBlock(rest.text), rest)
        else if c == '/' then Comment(AfterLine(rest.text), rest)
        else Failed
  {
    hide ReadSharp;
    hide Read;
    hide AfterVoid;
    hide ReadNum;
    hide ReadBoolean;
    hide ReadCharacter;
    hide ReadSharpBang;
    hide AfterBlock;
    hide AfterLine;
    var t := "#" + ([c] + u);
    assert t[1..] == [c] + u && t[2..] == u && t[1] == c;
    SharpSwitch(t, fold);
    SharpText([c] + u, fold);
  }

  /** Fixnums are written in decimal. */
  lemma {:induction false} DecimalWritten(n: int)
    requires n >= 0
    ensures Show(Fixnum(n)) == Numeral(n, 10, false)
    ensures n > 0 ==> Show(Fixnum(-n)) == "-" + Numeral(n, 10, false)
  {
    DigitIs(n % 10, 10, false);
    assert DigitOf(n % 10, false) == '0' + (n % 10) as char;
    if n >= 10 { DecimalWritten(n / 10); }
    assert n > 0 ==> Decimal(-n) == "-" + Decimal(n);
  }

  /** A hexadecimal code reads as its character if it is one of ASCII, and is an error if it is another that fits. */
  lemma HexCharacter(n: nat, upper: bool, k: string, fold: bool)
    requires n < 0x8000_0000 && Delimited(k)
    ensures Read(Input("#\\" + ("x" + Numeral(n, 16, upper)) + k, fold)) ==
      if n < 128 then Done(Char(n), Input(k, fold)) else Failed
  {
    var s := Numeral(n, 16, upper);
    HexNumeral(n, upper, fold);
    hide Numeral;
    LiteralRead("x" + s, k, fold);
    hide CharLiteral;
    SharpReads("x" + s, k, fold);
  }

  /** A character outside of ASCII is written by its code. */
  lemma HexWritten(code: nat)
    requires code > 127
    ensures Show(Char(code)) == "#\\x" + Numeral(code, 16, false)
  {
    NoName(code, 0);
    HexIsNumeral(code);
    hide HexText;
    hide Numeral;
  }

  lemma {:induction false} HexIsNumeral(n: nat)
    ensures HexText(n) == Numeral(n, 16, false)
  {
    DigitIs(n % 16, 16, false);
    assert DigitOf(n % 16, false) == HexDigit(n % 16);
    if n >= 16 { HexIsNumeral(n / 16); }
  }

  lemma {:induction false} HexDigits(n: nat, upper: bool)
    ensures Hex(Numeral(n, 16, upper)) == n && Numeral(n, 16, upper) != ""
    ensures forall i :: 0 <= i < |Numeral(n, 16, upper)| ==> IsHexDigit(Numeral(n, 16, upper)[i])
  {
    DigitIs(n % 16, 16, upper);
    hide DigitOf;
    hide HexValue;
    if n < 16 {
      assert n % 16 == n && [DigitOf(n, upper)][..0] == "" && Hex("") == 0;
    } else {
      HexDigits(n / 16, upper);
      var s := Numeral(n / 16, 16, upper);
      assert (s + [DigitOf(n % 16, upper)])[..|s|] == s;
    }
  }

  lemma HexNumeral(n: nat, upper: bool, fold: bool)
    requires n < 0x8000_0000
    ensures var lit := "x" + Numeral(n, 16, upper);
      NoTerminal(lit) && NoNul(lit) && CharLiteral(lit, fold) == if n < 128 then Some(n as int) else None
  {
    var s := Numeral(n, 16, upper);
    HexDigits(n, upper);
    hide Numeral;
    HexToken(s);
    FoldedHex(s, fold);
    FoldedX(s, fold);
    HexPrefixAll(Fold(s, fold));
    hide Fold;
    hide Hex;
    LiteralInHex("x" + s, Fold(s, fold), n, fold);
  }

  lemma LiteralInHex(lit: string, f: string, n: nat, fold: bool)
    requires |lit| > 1 && Fold(lit, fold) == "x" + f && HexPrefix(f) == Int32(n) && n < 0x8000_0000
    ensures CharLiteral(lit, fold) == if n < 128 then Some(n as int) else None
  {
    hide NamedFrom;
    hide HexPrefix;
    hide Fold;
    assert ("x" + f)[1..] == f;
  }

  lemma HexToken(s: string)
    requires forall i :: 0 <= i < |s| ==> IsHexDigit(s[i])
    ensures NoTerminal("x" + s) && NoNul("x" + s)
  {
  }

  lemma FoldedX(s: string, fold: bool)
    ensures Fold("x" + s, fold) == "x" + Fold(s, fold)
  {
  }

  lemma HexPrefixAll(f: string)
    requires forall i :: 0 <= i < |f| ==> IsHexDigit(f[i])
    ensures HexPrefix(f) == Int32(Hex(f))
  {
    UntilEnd(f, "", Not(IsHexDigit));
    assert f + "" == f && f[..|f|] == f;
    hide Hex;
    hide Until;
  }

  /** Folding case leaves the digits of a number what they are. */
  lemma {:induction false} FoldedHex(s: string, fold: bool)
    requires forall i :: 0 <= i < |s| ==> IsHexDigit(s[i])
    ensures var f := Fold(s, fold);
      Hex(f) == Hex(s) && (forall i :: 0 <= i < |s| ==> IsHexDigit(f[i])) && |f| == |s|
    decreases |s|
  {
    var f := Fold(s, fold);
    if s != "" {
      var n := |s| - 1;
      FoldedHex(s[..n], fold);
      assert f[..n] == Fold(s[..n], fold);
      assert HexValue(f[n]) == HexValue(s[n]) && IsHexDigit(f[n]);
      assert forall i :: 0 <= i < n ==> f[i] == f[..n][i];
    }
  }

  // ----- booleans -----

  /** Either name of a boolean */
  predicate IsBoolean(word: string, b: bool) {
    if b then word == "t" || word == "true" else word == "f" || word == "false"
  }

  lemma Booleans(word: string, b: bool, k: string, fold: bool)
    requires IsBoolean(word, b) && Delimited(k)
    ensures Read(Input("#" + (word + k), fold)) == Done(Bool(b), Input(k, fold))
    ensures Show(Bool(b)) == if b then "#t" else "#f"
  {
    BooleanWord(word, b);
    BooleanReads(word, b, k, fold);
    hide IsBoolean;
    hide Read;
    hide ReadBoolean;
    hide Delimited;
    hide NoNul;
    hide NoTerminal;
    FirstRest(word, k);
    BooleanToken(word[0], word[1..] + k, fold);
  }

  lemma FirstRest(word: string, k: string)
    requires word != ""
    ensures word + k == [word[0]] + (word[1..] + k)
  {
  }

  lemma BooleanToken(c: char, u: string, fold: bool)
    requires c == 't' || c == 'f'
    ensures ReadBoolean(c, Input(u, fold)).Done? && !ReadBoolean(c, Input(u, fold)).value.Void? ==>
      Read(Input("#" + ([c] + u), fold)) == ReadBoolean(c, Input(u, fold))
  {
    TokenReads(c, u, fold);
    hide Read;
    hide ReadSharp;
    hide ReadBoolean;
  }

  lemma BooleanWord(word: string, b: bool)
    requires IsBoolean(word, b)
    ensures 1 <= |word| <= 5 && word[0] == (if b then 't' else 'f') && NoNul(word) && NoTerminal(word)
    ensures NoNul(word[1..]) && NoTerminal(word[1..])
  {
  }

  lemma BooleanReads(word: string, b: bool, k: string, fold: bool)
    requires IsBoolean(word, b) && Delimited(k)
    ensures word != "" && ReadBoolean(word[0], Input(word[1..] + k, fold)) == Done(Bool(b), Input(k, fold))
  {
    BooleanWord(word, b);
    var c, s := word[0], word[1..];
    UntilEnd(s, k, IsTerminal);
    CStringWhole(s);
    hide Until;
    hide CString;
    hide IsTerminal;
    assert [c] + s == word;
    assert "t"[0] == 't' && "true"[0] == 't' && "f"[0] == 'f' && "false"[0] == 'f';
  }

  // ----- abbreviations -----

  /** A list of the symbol and what is read next */
  predicate Abbreviates(r: Parse, symbol: string, next: Parse) {
    r == if next.Done? then Done(Pair(Symbol(symbol), Pair(next.value, Nil)), next.rest) else next
  }

  lemma Quotes(t: string, fold: bool)
    ensures Abbreviates(Read(Input("'" + t, fold)), "quote", Read(Input(t, fold)))
    ensures Abbreviates(Read(Input("`" + t, fold)), "quasiquote", Read(Input(t, fold)))
    ensures t != "" && t[0] != '@' ==> Abbreviates(Read(Input("," + t, fold)), "unquote", Read(Input(t, fold)))
    ensures Abbreviates(Read(Input(",@" + t, fold)), "unquote-splice", Read(Input(t, fold)))
  {
    hide Read;
    MarkReads('\'', t, fold);
    MarkReads('`', t, fold);
    MarkReads(',', t, fold);
    MarkReads(',', "@" + t, fold);
    assert ("@" + t)[1..] == t && "," + ("@" + t) == ",@" + t;
    assert "'" == ['\''] && "`" == ['`'] && "," == [','];
  }

  lemma MarkReads(c: char, t: string, fold: bool)
    requires c == '\'' || c == '`' || c == ','
    ensures Read(Input([c] + t, fold)) ==
      if c == '\'' then Wrap("quote", Read(Input(t, fold)))
      else if c == '`' then Wrap("quasiquote", Read(Input(t, fold)))
      else Unquote(Input(t, fold))
  {
    hide Read;
    hide Unquote;
    var u := [c] + t;
    assert u[0] == c && u[1..] == t;
    ReadHere(u, fold);
  }

  // ----- symbols between bars -----

  lemma BarSymbol(name: string, t: string, fold: bool)
    requires NoNul(name) && BarFree(name)
    ensures Read(Input("|" + name + "|" + t, fold)) == Done(Symbol(Fold(name, fold)), Input(t, fold))
  {
    var u := "|" + name + "|" + t;
    assert u[0] == '|' && u[1..] == name + ("|" + t);
    UntilEnd(name, "|" + t, IsPipe);
    CStringWhole(name);
    hide Until;
    hide CString;
    hide Fold;
    hide Read;
    ReadHere(u, fold);
    BarReads(u, fold);
    assert (name + ("|" + t))[|name| + 1..] == t;
  }

  lemma BarReads(u: string, fold: bool)
    requires u != "" && u[0] == '|'
    ensures ReadDatum('|', Input(u, fold)) == ReadBarSymbol(Input(u[1..], fold))
  {
    hide ReadBarSymbol;
  }

  // ----- comments and directives -----

  /** White space in front of a datum */
  lemma SpacesSkipped(c: char, t: string, fold: bool)
    requires IsSpace(c)
    ensures Read(Input([c] + t, fold)) == Read(Input(t, fold))
    ensures ReadList(Input([c] + t, fold)) == ReadList(Input(t, fold))
  {
    var u := [c] + t;
    assert u[0] == c && u[1..] == t;
    assert Skip(u) == Skip(t);
    hide Skip;
    hide ReadDatum;
    hide ListSwitch;
  }

  /** A line comment, outside of lists and inside */
  lemma LineComment(s: string, t: string, fold: bool)
    requires forall i :: 0 <= i < |s| ==> s[i] != '\n'
    ensures Read(Input(";" + (s + ("\n" + t)), fold)) == Read(Input(t, fold))
    ensures ReadList(Input(";" + (s + ("\n" + t)), fold)) == ReadList(Input(t, fold))
  {
    var u := ";" + (s + ("\n" + t));
    ConsumesLine(";" + s, t);
    assert u == ";" + s + ("\n" + t);
    hide ConsumeLine;
    hide Read;
    hide ReadList;
    ReadHere(u, fold);
    SemicolonReads(u, fold);
    SkipNone(u);
    ListSkips(Input(u, fold), u);
    LineSwitch(u, fold);
  }

  lemma SemicolonReads(u: string, fold: bool)
    requires u != "" && u[0] == ';'
    ensures ReadDatum(';', Input(u, fold)) == Read(Input(ConsumeLine(u), fold))
  {
    hide Read;
    hide ConsumeLine;
  }

  lemma ConsumesLine(s: string, t: string)
    requires forall i :: 0 <= i < |s| ==> s[i] != '\n'
    ensures ConsumeLine(s + ("\n" + t)) == t && AfterLine(s + ("\n" + t)) == Some(t)
  {
    UntilEnd(s, "\n" + t, IsNewline);
    hide Until;
    assert (s + ("\n" + t))[|s| + 1..] == t;
  }

  /** Behind `#;` a datum is read and dropped. */
  lemma DroppedDatum(u: string, fold: bool)
    ensures var r := Read(Input(u, fold));
      Read(Input("#;" + u, fold)) == if r.Done? then Read(r.rest) else r
  {
    hide Read;
    hide ReadSharp;
    hide AfterVoid;
    TokenReads(';', u, fold);
    VoidThen(Read(Input(u, fold)), Input([';'] + u, fold));
    SharpPair("#;", ';', u);
  }

  lemma VoidThen(r: Parse, input: Input)
    requires r.Done? ==> |r.rest.text| <= |input.text|
    ensures AfterVoid(AsVoid(r), input) == if r.Done? then Read(r.rest) else r
  {
    hide Read;
  }

  lemma SharpPair(s: string, c: char, u: string)
    requires |s| == 2 && s[0] == '#' && s[1] == c
    ensures s + u == "#" + ([c] + u)
  {
  }

  /** Behind `#|` a block comment ends where the module Comments says. */
  lemma DroppedBlock(u: string, fold: bool)
    ensures var r := AfterBlock(u);
      Read(Input("#|" + u, fold)) == if r.Some? then Read(Input(r.value, fold)) else Failed
  {
    hide Read;
    hide ReadSharp;
    hide AfterBlock;
    hide AfterVoid;
    TokenReads('|', u, fold);
    CommentThen(AfterBlock(u), Input(u, fold), Input(['|'] + u, fold));
    SharpPair("#|", '|', u);
  }

  lemma CommentThen(after: Option<string>, rest: Input, input: Input)
    requires after.Some? ==> |after.value| <= |input.text|
    ensures AfterVoid(Comment(after, rest), input) ==
      if after.Some? then Read(rest.(text := after.value)) else Failed
  {
    hide Read;
  }

  /** The directives turn the folding of case on and off. */
  lemma FoldCase(on: bool, k: string, fold: bool)
    requires Delimited(k)
    ensures Read(Input("#!" + (if on then "fold-case" else "no-fold-case") + k, fold)) == Read(Input(k, on))
  {
    var name := if on then "fold-case" else "no-fold-case";
    assert NoTerminal(name) && NoNul(name);
    hide Read;
    hide Directive;
    hide Delimited;
    hide NoTerminal;
    hide NoNul;
    FoldDirective(on, Input(k, fold));
    DirectiveReads(name, k, fold);
    BangText(name, k);
  }

  lemma BangText(name: string, k: string)
    ensures "#!" + name + k == "#" + (['!'] + (name + k))
  {
  }

  lemma FoldDirective(on: bool, rest: Input)
    ensures Directive(if on then "fold-case" else "no-fold-case", rest) == Done(Void, rest.(fold := on))
  {
    assert "fold-case"[0] == 'f' && "no-fold-case"[0] == 'n' && "eof"[0] == 'e';
  }

  lemma DirectiveReads(name: string, k: string, fold: bool)
    requires Delimited(k) && NoTerminal(name) && NoNul(name)
    ensures var r := Directive(name, Input(k, fold));
      Read(Input("#" + (['!'] + (name + k)), fold)) == if r.Done? && r.value.Void? then Read(r.rest) else r
  {
    TokenReads('!', name + k, fold);
    UntilEnd(name, k, IsTerminal);
    CStringWhole(name);
    hide Until;
    hide CString;
    hide Read;
    hide ReadSharp;
    hide Directive;
  }

  // ----- errors and the end -----

  /** At the end of a text there is the end-of-file object, but a list must have been closed. */
  lemma EndOfText(t: string, fold: bool)
    requires forall i :: 0 <= i < |t| ==> IsSpace(t[i])
    ensures Read(Input(t, fold)) == Done(EofObject, Input("", fold)) && ReadList(Input(t, fold)) == Failed
  {
    hide Read;
    hide ReadList;
    OnlySpaces(t);
    NothingLeft(t, fold);
    Unclosed(t, fold);
  }

  lemma OnlySpaces(t: string)
    requires forall i :: 0 <= i < |t| ==> IsSpace(t[i])
    ensures Skip(t) == ""
  {
    UntilEnd(t, "", Not(IsSpace));
    hide Until;
    assert t + "" == t;
  }

  lemma NothingLeft(t: string, fold: bool)
    requires Skip(t) == ""
    ensures Read(Input(t, fold)) == Done(EofObject, Input("", fold))
  {
    hide Skip;
    hide ReadDatum;
  }

  lemma Unclosed(t: string, fold: bool)
    requires Skip(t) == ""
    ensures ReadList(Input(t, fold)) == Failed
  {
    hide Skip;
    hide ListSwitch;
  }

  /** Nothing else may be closed. */
  lemma CloseFails(t: string, fold: bool)
    ensures Read(Input(")" + t, fold)) == Failed
  {
    ReadHere(")" + t, fold);
    hide Read;
  }

  lemma LoneSharp(fold: bool)
    ensures Read(Input("#", fold)) == Failed
  {
    assert "#" + "" == "#";
    SharpText("", fold);
    hide Read;
  }

  /** A number sign and a character that means nothing behind it */
  lemma UnknownSharp(c: char, t: string, fold: bool)
    requires c !in "tf\\(ubox!#;|/"
    ensures Read(Input("#" + ([c] + t), fold)) == Failed
  {
    TokenReads(c, t, fold);
    assert "tf\\(ubox!#;|/" == ['t', 'f', '\\', '(', 'u', 'b', 'o', 'x', '!', '#', ';', '|', '/'];
    assert c != 't' && c != 'f' && c != '\\' && c != 'b' && c != 'o' && c != 'x';
    assert c != '!' && c != ';' && c != '|' && c != '/';
    hide Read;
    hide ReadSharp;
  }

  // ----- what is written -----

  function Shows(elems: seq<Datum>): seq<string> { seq(|elems|, i requires 0 <= i < |elems| => Show(elems[i])) }

  /** With one space between each and the next */
  function Spaced(ts: seq<string>): string
  {
    if ts == [] then "" else if |ts| == 1 then ts[0] else ts[0] + " " + Spaced(ts[1..])
  }

  lemma SpacedMore(t: string, ts: seq<string>)
    ensures ([t] + ts)[1..] == ts
    ensures Spaced([t] + ts) == if ts == [] then t else t + " " + Spaced(ts)
  {
  }

  lemma ShowsFirst(elems: seq<Datum>)
    requires elems != []
    ensures Shows(elems) == [Show(elems[0])] + Shows(elems[1..])
  {
    hide Show;
  }

  /** Symbols as they are; nothing for the unspecified value */
  lemma Atoms(name: string)
    requires NoNul(name)
    ensures Show(Symbol(name)) == name && Show(Nil) == "()" && Show(Void) == "" && Show(EofObject) == "#!eof"
  {
    CStringWhole(name);
  }

  /** The rest of a list, from an element on */
  lemma {:induction false} RestWritten(elems: seq<Datum>, tail: Datum)
    requires elems != [] && !tail.Pair?
    ensures ShowCdr(Prepend(elems, tail), true) ==
      Spaced(Shows(elems)) + (if tail.Nil? then ")" else " . " + Show(tail) + ")")
    decreases |elems|
  {
    hide Show;
    var d, rest := Prepend(elems, tail), elems[1..];
    var end := if tail.Nil? then ")" else " . " + Show(tail) + ")";
    ShowsFirst(elems);
    SpacedMore(Show(elems[0]), Shows(rest));
    assert d == Pair(elems[0], Prepend(rest, tail));
    FirstWritten(d);
    if rest == [] {
      assert ShowCdr(tail, false) == end;
    } else {
      RestWritten(rest, tail);
      NextWritten(Prepend(rest, tail));
      Regroup(Show(elems[0]), " ", Spaced(Shows(rest)), end);
      assert Show(elems[0]) + (" " + (Spaced(Shows(rest)) + end)) == Show(elems[0]) + " " + Spaced(Shows(rest)) + end;
    }
  }

  lemma FirstWritten(d: Datum)
    requires d.Pair?
    ensures ShowCdr(d, true) == Show(d.car) + ShowCdr(d.cdr, false)
  {
    hide Show;
    assert "" + Show(d.car) == Show(d.car);
  }

  lemma NextWritten(d: Datum)
    requires d.Pair?
    ensures ShowCdr(d, false) == " " + ShowCdr(d, true)
  {
    hide Show;
    assert "" + Show(d.car) == Show(d.car);
    assert " " + Show(d.car) + ShowCdr(d.cdr, false) == " " + (Show(d.car) + ShowCdr(d.cdr, false));
  }

  /** A list: its elements with spaces between them, and a dot and a tail if it is not proper, between parentheses. */
  lemma ListWritten(elems: seq<Datum>, tail: Datum)
    requires elems != [] && !tail.Pair?
    ensures Show(Prepend(elems, tail)) ==
      "(" + (Spaced(Shows(elems)) + (if tail.Nil? then ")" else " . " + Show(tail) + ")"))
  {
    RestWritten(elems, tail);
    hide ShowCdr;
    hide Spaced;
    hide Shows;
  }

  /** A vector: its elements with spaces between them, between `#(` and `)` */
  lemma VectorWritten(elems: seq<Datum>)
    ensures Show(Vector(elems)) == "#(" + (Spaced(Shows(elems)) + ")")
  {
    var d := Vector(elems);
    VectorText(d, "");
    if elems == [] {
      assert "" + ")" == ")";
    } else {
      ElementsWritten(d, 0);
      assert elems[0..] == elems;
    }
    hide Spaced;
    hide Shows;
    hide Show;
  }

  lemma {:induction false} ElementsWritten(d: Datum, i: nat)
    requires d.Vector? && i < |d.elems|
    ensures Show(d.elems[i]) + ShowFrom(d, i + 1) == Spaced(Shows(d.elems[i..])) + ")"
    decreases |d.elems| - i
  {
    hide Show;
    var e, rest := Show(d.elems[i]), d.elems[i + 1..];
    assert d.elems[i..][1..] == rest;
    ShowsFirst(d.elems[i..]);
    SpacedMore(e, Shows(rest));
    hide Shows;
    hide Spaced;
    if i + 1 < |d.elems| {
      ElementsWritten(d, i + 1);
      NoRest(d, i);
      hide ShowFrom;
      assert e + (" " + (Spaced(Shows(rest)) + ")")) == e + " " + Spaced(Shows(rest)) + ")";
    } else {
      assert Shows(rest) == [] by { NoShows(rest); }
    }
  }

  lemma NoShows(elems: seq<Datum>)
    requires elems == []
    ensures Shows(elems) == []
  {
  }

  lemma NoRest(d: Datum, i: nat)
    requires d.Vector? && i + 1 < |d.elems|
    ensures ShowFrom(d, i + 1) == " " + (Show(d.elems[i + 1]) + ShowFrom(d, i + 2))
  {
    hide Show;
    assert " " + Show(d.elems[i + 1]) + ShowFrom(d, i + 2) == " " + (Show(d.elems[i + 1]) + ShowFrom(d, i + 2));
  }

  /** A bytevector: its bytes in decimal, between `#u8(` and, unless it is empty, `)` */
  lemma BytevecWritten(bytes: seq<int>)
    ensures Show(Bytevec(bytes)) == "#u8(" + (Spaced(Shows(Fixnums(bytes))) + if bytes == [] then "" else ")")
  {
    if bytes == [] {
      assert "#u8(" + ("" + "") == "#u8(";
    } else {
      BytesWritten(bytes);
      hide Spaced;
      hide Shows;
      hide Decimal;
      assert "#u8(" + Decimal(bytes[0]) + ShowBytes(bytes[1..]) == "#u8(" + (Decimal(bytes[0]) + ShowBytes(bytes[1..]));
    }
  }

  lemma {:induction false} BytesWritten(bytes: seq<int>)
    requires bytes != []
    ensures Decimal(bytes[0]) + ShowBytes(bytes[1..]) == Spaced(Shows(Fixnums(bytes))) + ")"
  {
    hide Decimal;
    var b, rest := Decimal(bytes[0]), bytes[1..];
    assert Fixnums(bytes)[1..] == Fixnums(rest) && Show(Fixnums(bytes)[0]) == b;
    ShowsFirst(Fixnums(bytes));
    SpacedMore(b, Shows(Fixnums(rest)));
    if rest != [] {
      BytesWritten(rest);
      assert ShowBytes(rest) == " " + (Decimal(rest[0]) + ShowBytes(rest[1..])) by {
        assert " " + Decimal(rest[0]) + ShowBytes(rest[1..]) == " " + (Decimal(rest[0]) + ShowBytes(rest[1..]));
      }
      assert b + (" " + (Spaced(Shows(Fixnums(rest))) + ")")) == b + " " + Spaced(Shows(Fixnums(rest))) + ")";
    }
  }
}
