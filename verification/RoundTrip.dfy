/** Reading what `write` wrote. */
module RoundTrip {
  import opened Syntax
  import opened Printer
  import Ports
  import Reader

  /** Nothing follows, or something that ends a token. */
  predicate Delimited(k: string) { k == "" || IsTerminal(k[0]) }

  predicate NoTerminal(s: string) { forall i :: 0 <= i < |s| ==> !IsTerminal(s[i]) }

  /** A character with a meaning of its own at the start of a datum */
  predicate IsMark(c: char) { c in "\"'`,#;|" }

  /** A name that one token can stand for without bars */
  predicate Bare(name: string) {
    && name != "" && NoNul(name) && NoTerminal(name) && !IsDigit(name[0]) && !IsMark(name[0])
    && (name[0] in "+-" && |name| > 1 ==> !IsDigit(name[1]))
  }

  /** A symbol that reads as itself */
  predicate PlainAtTop(name: string, fold: bool) { Bare(name) && Fold(name, fold) == name }

  /** The same as an element of a list, where a single dot is none. */
  predicate PlainSymbol(name: string, fold: bool) { PlainAtTop(name, fold) && name != "." }

  /** A character that reads as itself: ASCII, but for the parentheses, vertical tab and form feed. */
  predicate PlainChar(code: int) { 0 <= code < 128 && code !in {11, 12, 40, 41} }

  predicate AreBytes(bytes: seq<int>) { forall i :: 0 <= i < |bytes| ==> 0 <= bytes[i] < 256 }

  predicate IsDot(d: Datum) { d == Symbol(".") }

  /** What `read` makes of `write`, as ReadsBack.ReadsBackExactly proves */
  predicate Readable(d: Datum, fold: bool) {
    match d
    case Void => false
    case Nil => true
    case EofObject => true
    case Bool(_) => true
    case Fixnum(n) => -TWO_62 <= n < TWO_62
    case Char(code) => PlainChar(code)
    case Symbol(name) => PlainAtTop(name, fold)
    case Pair(car, cdr) => !IsDot(car) && Readable(car, fold) && Readable(cdr, fold)
    case Vector(elems) => forall e :: e in elems ==> !IsDot(e) && Readable(e, fold)
    case Bytevec(bytes) => bytes != [] && AreBytes(bytes)
  }

  // ----- tokens -----

  lemma NothingBefore(k: string)
    ensures "" + k == k
  {
  }

  lemma {:induction false} UntilEnd(a: string, k: string, stop: char -> bool)
    requires (forall i :: 0 <= i < |a| ==> !stop(a[i])) && (k == "" || stop(k[0]))
    ensures Until(a + k, stop) == |a| && (a + k)[..|a|] == a && (a + k)[|a|..] == k
  {
    if a == "" {
      NothingBefore(k);
    } else {
      UntilEnd(a[1..], k, stop);
      assert (a + k)[1..] == a[1..] + k;
    }
  }

  lemma CStringWhole(s: string)
    requires NoNul(s)
    ensures CString(s) == s
  {
  }

  lemma SkipNone(t: string)
    requires t == "" || !IsSpace(t[0])
    ensures Skip(t) == t
  {
  }

  lemma SkipOne(t: string)
    requires t == "" || !IsSpace(t[0])
    ensures Skip(" " + t) == t
  {
    assert (" " + t)[1..] == t && IsSpace((" " + t)[0]);
    SkipNone(t);
    assert Until(" " + t, Not(IsSpace)) == 1 + Until(t, Not(IsSpace));
  }

  // ----- numbers -----

  lemma {:induction false} DecimalDigits(n: nat)
    ensures forall i :: 0 <= i < |Decimal(n)| ==> IsDigit(Decimal(n)[i])
  {
    if n >= 10 { DecimalDigits(n / 10); }
  }

  lemma {:induction false} DecimalValue(n: nat)
    requires n < TWO_64
    ensures Unsigned(Decimal(n), 10) == n
  {
    if n < 10 {
      assert [Digit(n)][..0] == "";
      assert Unsigned("", 10) == 0;
    } else {
      DecimalValue(n / 10);
      var s := Decimal(n / 10);
      assert (s + [Digit(n % 10)])[..|s|] == s;
    }
  }

  lemma NumTrip(n: nat, k: string, fold: bool)
    requires n < TWO_64 && Delimited(k)
    ensures IsDigit(Decimal(n)[0])
    ensures ReadNum(Input(Decimal(n) + k, fold), 10, IsDigit) == Done(Fixnum(Fix(n)), Input(k, fold))
  {
    hide Fix;
    hide Decimal;
    hide Unsigned;
    DecimalDigits(n);
    DecimalValue(n);
    assert k != "" ==> !IsDigit(k[0]) && Not(IsDigit)(k[0]);
    UntilEnd(Decimal(n), k, Not(IsDigit));
  }

  lemma FixSame(n: int)
    ensures -TWO_62 <= n < TWO_62 ==> Fix(n) == n
    ensures 0 < n <= TWO_62 ==> Fix(Fix(n) * -1) == -n
  {
  }

  // ----- characters -----

  predicate Lower(s: string) { forall i :: 0 <= i < |s| ==> !('A' <= s[i] <= 'Z') && !IsTerminal(s[i]) && s[i] != '\0' }

  lemma LowerFolds(s: string, fold: bool)
    requires Lower(s)
    ensures Fold(s, fold) == s && NoNul(s)
  {
  }

  /** The names in named_chars are distinct, so a name leads back to its value. */
  lemma {:induction false} NamedBack(i: nat, j: nat)
    requires j <= i < |NAMED_CHARS|
    ensures NamedFrom(NAMED_CHARS[i].0, j) == Some(NAMED_CHARS[i].1)
    decreases i - j
  {
    if j < i {
      var a, b := NAMED_CHARS[i].0, NAMED_CHARS[j].0;
      assert |a| != |b| || a[0] != b[0];
      NamedBack(i, j + 1);
    }
  }

  lemma NameOk(i: nat)
    requires i < |NAMED_CHARS|
    ensures var name := NAMED_CHARS[i].0;
      PlainChar(NAMED_CHARS[i].1) && Lower(name) && |name| > 1 && name[0] != 'x'
  {
    assert Letters(NAMED_CHARS[i].0);
  }

  predicate Letters(s: string) { forall i :: 0 <= i < |s| ==> 'a' <= s[i] <= 'z' }

  lemma {:induction false} NameTrip(code: int, i: nat)
    requires NameFrom(code, i).Some?
    ensures var name := NameFrom(code, i).value;
      PlainChar(code) && Lower(name) && |name| > 1 && name[0] != 'x' && NamedFrom(name, 0) == Some(code)
    decreases |NAMED_CHARS| - i
  {
    hide Lower;
    hide PlainChar;
    if NAMED_CHARS[i].1 == code {
      NamedBack(i, 0);
      NameOk(i);
    } else {
      NameTrip(code, i + 1);
    }
  }

  lemma {:induction false} HexTextBack(n: nat)
    ensures Hex(HexText(n)) == n && Lower(HexText(n))
    ensures forall i :: 0 <= i < |HexText(n)| ==> IsHexDigit(HexText(n)[i])
  {
    if n < 16 {
      HexAppend("", n);
      NothingBefore([HexDigit(n)]);
    } else {
      HexTextBack(n / 16);
      HexAppend(HexText(n / 16), n % 16);
    }
  }

  lemma HexAppend(s: string, n: nat)
    requires n < 16
    ensures Hex(s + [HexDigit(n)]) == Hex(s) * 16 + n && IsHexDigit(HexDigit(n))
    ensures Lower(s) ==> Lower(s + [HexDigit(n)])
  {
    HexDigitBack(n);
    hide HexDigit;
    assert (s + [HexDigit(n)])[..|s|] == s;
  }

  lemma HexDigitBack(n: nat)
    requires n < 16
    ensures var c := HexDigit(n);
      IsHexDigit(c) && HexValue(c) == n && !('A' <= c <= 'Z') && !IsTerminal(c) && c != '\0'
  {
  }

  /** The text of a character literal after the backslash. */
  function Literal(code: nat): string
  {
    var name := NameFrom(code, 0);
    if name.Some? then name.value
    else if code > 127 then "x" + HexText(code)
    else [code as char]
  }

  lemma LiteralShown(code: nat)
    ensures ShowChar(code) == "#\\" + Literal(code)
    ensures NoNul(Literal(code))
  {
    if NameFrom(code, 0).Some? {
      NameTrip(code, 0);
    } else if code > 127 {
      HexTextBack(code);
    } else {
      NotNull(code);
      CStringWhole("#\\" + [code as char]);
    }
  }

  lemma NotNull(code: nat)
    requires NameFrom(code, 0).None?
    ensures code != 0
  {
    if code == 0 {
      assert NAMED_CHARS[5].1 == 0;
      NameFound(0, 0, 5);
    }
  }

  lemma {:induction false} NameFound(code: int, i: nat, j: nat)
    requires i <= j < |NAMED_CHARS| && NAMED_CHARS[j].1 == code
    ensures NameFrom(code, i).Some?
    decreases j - i
  {
    if NAMED_CHARS[i].1 != code { NameFound(code, i + 1, j); }
  }

  lemma NoEmptyName(i: nat)
    requires i <= |NAMED_CHARS|
    ensures NamedFrom("", i) == None
    decreases |NAMED_CHARS| - i
  {
    if i < |NAMED_CHARS| {
      assert |NAMED_CHARS[i].0| > 0;
      NoEmptyName(i + 1);
    }
  }

  lemma LiteralRead(str: string, k: string, fold: bool)
    requires NoTerminal(str) && NoNul(str) && Delimited(k)
    ensures ReadCharacter(Input(str + k, fold)) ==
      match CharLiteral(str, fold) case None => Failed case Some(code) => Done(Char(code), Input(k, fold))
  {
    hide CharLiteral;
    UntilEnd(str, k, IsTerminal);
    CStringWhole(str);
  }

  lemma NamedLiteral(code: nat, fold: bool)
    requires NameFrom(code, 0).Some?
    ensures CharLiteral(Literal(code), fold) == Some(code) && NoTerminal(Literal(code)) && PlainChar(code)
  {
    hide HexPrefix;
    NameTrip(code, 0);
    LowerFolds(Literal(code), fold);
  }

  /** A code that fits 32 bits is rejected, and a larger one is another character. */
  lemma HexLiteral(code: nat, fold: bool)
    requires NameFrom(code, 0).None? && code > 127
    ensures CharLiteral(Literal(code), fold) != Some(code) && NoTerminal(Literal(code))
  {
    hide Hex;
    var h := HexText(code);
    HexTextBack(code);
    assert Lower("x" + h);
    LowerFolds("x" + h, fold);
    assert ("x" + h)[1..] == h && h != "";
    UntilEnd(h, "", Not(IsHexDigit));
    assert h + "" == h && HexPrefix(h) == Int32(code);
  }

  /** A character literal reads back exactly when it is plain, on either setting of fold-case. */
  lemma CharTrip(code: nat, k: string, fold: bool)
    requires Delimited(k)
    ensures ReadCharacter(Input(Literal(code) + k, fold)) == Done(Char(code), Input(k, fold)) <==> PlainChar(code)
  {
    var lit := Literal(code);
    LiteralShown(code);
    if NameFrom(code, 0).Some? {
      NamedLiteral(code, fold);
      LiteralRead(lit, k, fold);
    } else if code > 127 {
      HexLiteral(code, fold);
      LiteralRead(lit, k, fold);
    } else if IsTerminal(code as char) {
      BareTerminal(code as char, k, fold);
      assert lit == [code as char];
    } else {
      assert CharLiteral([code as char], fold) == Some(code);
      LiteralRead(lit, k, fold);
    }
  }

  /** A terminal right after the backslash: no character is read. */
  lemma BareTerminal(c: char, k: string, fold: bool)
    requires IsTerminal(c)
    ensures ReadCharacter(Input([c] + k, fold)) == Failed
    ensures NameFrom(c as int, 0).None? ==> !PlainChar(c as int)
  {
    NoEmptyName(0);
    UntilEnd("", [c] + k, IsTerminal);
    assert "" + ([c] + k) == [c] + k;
    assert CharLiteral("", fold) == None;
    var code := c as int;
    if code == 9 { NameFound(code, 0, 8); }
    if code == 10 { NameFound(code, 0, 4); }
    if code == 13 { NameFound(code, 0, 6); }
    if code == 32 { NameFound(code, 0, 7); }
  }

  // ----- any datum -----

  /** `t` reads as `d` and then `k`, and its first character sends the readers the right way. */
  ghost predicate Trips(d: Datum, t: string, k: string, fold: bool) {
    && t != "" && !IsSpace(t[0]) && t[0] != ')' && t[0] != ';' && !d.Void?
    && (t[0] == '#' ==> ReadSharp(Input(t[1..], fold)) == Done(d, Input(k, fold)))
    && (t[0] != '#' ==> ReadDatum(t[0], Input(t, fold)) == Done(d, Input(k, fold)) && !d.EofObject?)
    && (t[0] == '.' ==> |t| > 1 && !IsTerminal(t[1]) && ReadSymbol(Input(t[1..], fold), ".") == Done(d, Input(k, fold)))
  }

  lemma ReadBegins(input: Input)
    ensures var text := Skip(input.text);
      Read(input) == if text == "" then Done(EofObject, input.(text := text))
        else ReadDatum(text[0], input.(text := text))
  {
    hide ReadDatum;
  }

  lemma ReadHere(t: string, fold: bool)
    requires t != "" && !IsSpace(t[0])
    ensures Read(Input(t, fold)) == ReadDatum(t[0], Input(t, fold))
  {
    hide ReadDatum;
    hide Read;
    hide Skip;
    hide Until;
    SkipNone(t);
    var input := Input(t, fold);
    ReadBegins(input);
    assert input.(text := t) == input;
  }

  lemma DatumSharp(t: string, fold: bool)
    requires t != "" && t[0] == '#'
    ensures ReadDatum('#', Input(t, fold)) == AfterVoid(ReadSharp(Input(t[1..], fold)), Input(t[1..], fold))
  {
    hide ReadSharp;
    hide AfterVoid;
  }

  lemma NotVoid(r: Parse, input: Input)
    requires (r.Done? ==> |r.rest.text| <= |input.text|) && !(r.Done? && r.value.Void?)
    ensures AfterVoid(r, input) == r
  {
  }

  lemma TripRead(d: Datum, t: string, k: string, fold: bool)
    requires Trips(d, t, k, fold)
    ensures Read(Input(t, fold)) == Done(d, Input(k, fold))
    ensures Read(Input(" " + t, fold)) == Done(d, Input(k, fold))
  {
    hide ReadSharp;
    hide ReadDatum;
    hide ReadSymbol;
    hide Read;
    hide AfterVoid;
    hide Skip;
    SkipNone(t);
    SkipOne(t);
    ReadBegins(Input(t, fold));
    ReadBegins(Input(" " + t, fold));
    if t[0] == '#' {
      DatumSharp(t, fold);
      NotVoid(ReadSharp(Input(t[1..], fold)), Input(t[1..], fold));
    }
  }

  /** As an element of a list */
  lemma TripElement(d: Datum, t: string, k: string, fold: bool)
    requires Trips(d, t, k, fold)
    ensures ReadList(Input(t, fold)) == Cons(d, ReadList(Input(k, fold)))
    ensures ReadList(Input(" " + t, fold)) == Cons(d, ReadList(Input(k, fold)))
  {
    SkipNone(t);
    SkipOne(t);
    TripRead(d, t, k, fold);
    ListElement(d, t, k, fold);
    ListSkips(Input(t, fold), t);
    ListSkips(Input(" " + t, fold), t);
  }

  lemma ListSkips(input: Input, t: string)
    requires Skip(input.text) == t && t != ""
    ensures ReadList(input) == ListSwitch(t[0], input.(text := t))
  {
  }

  lemma ListElement(d: Datum, t: string, k: string, fold: bool)
    requires Trips(d, t, k, fold) && Read(Input(t, fold)) == Done(d, Input(k, fold))
    ensures ListSwitch(t[0], Input(t, fold)) == Cons(d, ReadList(Input(k, fold)))
  {
    hide ReadSharp;
    hide ReadDatum;
    hide ReadSymbol;
    hide ReadList;
    hide Read;
    hide Skip;
  }

  lemma FixnumTrip(n: int, k: string, fold: bool)
    requires -TWO_62 <= n < TWO_62 && Delimited(k)
    ensures Trips(Fixnum(n), Decimal(n) + k, k, fold)
  {
    hide ReadNum;
    hide ReadDatum;
    hide Trips;
    hide Fix;
    if n >= 0 {
      NumTrip(n, k, fold);
      FixSame(n);
      NumberDatum(Decimal(n) + k, fold);
      NumberTrips(Fixnum(n), Decimal(n) + k, k, fold);
    } else {
      NumTrip(-n, k, fold);
      FixSame(-n);
      assert Decimal(n) == "-" + Decimal(-n);
      assert ("-" + Decimal(-n) + k)[1..] == Decimal(-n) + k;
      NumberDatum(Decimal(n) + k, fold);
      NumberTrips(Fixnum(n), Decimal(n) + k, k, fold);
    }
  }

  /** What begins with a digit or a minus sign and a digit */
  lemma NumberDatum(t: string, fold: bool)
    ensures t != "" && IsDigit(t[0]) ==> ReadDatum(t[0], Input(t, fold)) == ReadNum(Input(t, fold), 10, IsDigit)
    ensures |t| > 1 && t[0] == '-' && IsDigit(t[1]) ==>
      var r := ReadNum(Input(t[1..], fold), 10, IsDigit);
      ReadDatum('-', Input(t, fold)) == Done(Fixnum(Fix(r.value.n * -1)), r.rest)
  {
    hide ReadNum;
    hide Fix;
  }

  lemma NumberTrips(d: Datum, t: string, k: string, fold: bool)
    requires t != "" && (IsDigit(t[0]) || t[0] == '-') && !d.Void? && !d.EofObject?
    requires ReadDatum(t[0], Input(t, fold)) == Done(d, Input(k, fold))
    ensures Trips(d, t, k, fold)
  {
    hide ReadDatum;
    hide ReadSharp;
    hide ReadSymbol;
  }

  lemma SymbolTrip(name: string, k: string, fold: bool)
    requires PlainSymbol(name, fold) && Delimited(k)
    ensures Show(Symbol(name)) == name && Trips(Symbol(name), name + k, k, fold)
  {
    hide Until;
    hide ReadSymbol;
    hide ReadDatum;
    hide ReadSharp;
    CStringWhole(name);
    SymbolDatum(name, k, fold);
    SymbolRest(name, 1, k, fold);
    assert name[..1] == [name[0]];
    assert (name + k)[1..] == name[1..] + k;
    if |name| > 1 { assert (name + k)[1] == name[1]; }
    assert name[0] == '.' ==> name == "." + name[1..];
  }

  lemma SymbolDatum(name: string, k: string, fold: bool)
    requires PlainSymbol(name, fold) && Delimited(k)
    ensures ReadDatum(name[0], Input(name + k, fold)) == Done(Symbol(name), Input(k, fold))
  {
    if name[0] in "+-" { SignedSymbol(name, k, fold); } else { UnsignedSymbol(name, k, fold); }
  }

  lemma SignedSymbol(name: string, k: string, fold: bool)
    requires PlainSymbol(name, fold) && Delimited(k) && name[0] in "+-"
    ensures ReadDatum(name[0], Input(name + k, fold)) == Done(Symbol(name), Input(k, fold))
  {
    SymbolRest(name, 1, k, fold);
    FirstAndRest(name, k);
    hide ReadSymbol;
    hide ReadDatum;
    hide Fold;
    hide NoNul;
    hide NoTerminal;
    assert |name + k| > 1 ==> !IsDigit((name + k)[1]);
    DatumSign(name + k, fold);
  }

  lemma UnsignedSymbol(name: string, k: string, fold: bool)
    requires PlainSymbol(name, fold) && Delimited(k) && name[0] !in "+-"
    ensures ReadDatum(name[0], Input(name + k, fold)) == Done(Symbol(name), Input(k, fold))
  {
    SymbolRest(name, 0, k, fold);
    hide ReadSymbol;
    hide ReadDatum;
    hide Fold;
    hide NoNul;
    assert name[0..] == name && name[..0] == "";
    DatumPlain(name + k, fold);
  }

  lemma FirstAndRest(name: string, k: string)
    requires name != "" && Delimited(k)
    ensures name[..1] == [name[0]] && (name + k)[1..] == name[1..] + k
    ensures |name + k| > 1 ==> if |name| > 1 then (name + k)[1] == name[1] else IsTerminal((name + k)[1])
  {
  }

  /** A sign that no digit follows begins a symbol. */
  lemma DatumSign(t: string, fold: bool)
    requires t != "" && t[0] in "+-" && (|t| > 1 ==> !IsDigit(t[1]))
    ensures ReadDatum(t[0], Input(t, fold)) == ReadSymbol(Input(t[1..], fold), [t[0]])
  {
    hide ReadSymbol;
    hide ReadNum;
    hide Read;
  }

  /** So does any character that has no other meaning. */
  lemma DatumPlain(t: string, fold: bool)
    requires t != "" && !IsTerminal(t[0]) && !IsDigit(t[0]) && !IsMark(t[0]) && t[0] !in "+-"
    ensures ReadDatum(t[0], Input(t, fold)) == ReadSymbol(Input(t, fold), "")
  {
    hide ReadSymbol;
    hide ReadNum;
    hide Read;
    hide ReadSharp;
    hide ReadList;
    var c := t[0];
    assert c != '"' && c != '\'' && c != '`' && c != ',' && c != '#' && c != ';' && c != '|' && c != '+' && c != '-';
  }

  lemma SymbolRest(name: string, i: nat, k: string, fold: bool)
    requires i <= |name| && NoTerminal(name) && NoNul(name) && Fold(name, fold) == name && Delimited(k)
    ensures ReadSymbol(Input(name[i..] + k, fold), name[..i]) == Done(Symbol(name), Input(k, fold))
  {
    UntilEnd(name[i..], k, IsTerminal);
    CStringWhole(name[i..]);
    assert name[..i] + name[i..] == name;
    assert Fold(name[i..], fold) == name[i..] by {
      forall j | 0 <= j < |name| - i ensures Fold(name[i..], fold)[j] == name[i + j] {
        assert Fold(name, fold)[i + j] == name[i + j];
      }
    }
  }

  /** `#` and then what read_sharp reads */
  lemma SharpTrip(d: Datum, s: string, k: string, fold: bool)
    requires ReadSharp(Input(s + k, fold)) == Done(d, Input(k, fold)) && !d.Void?
    ensures Trips(d, "#" + s + k, k, fold)
  {
    hide ReadSharp;
    assert ("#" + s + k)[1..] == s + k;
  }

  /** The cases of read_sharp that the printer makes use of */
  lemma SharpCases(s: string, fold: bool)
    ensures ReadSharp(Input("t" + s, fold)) == ReadBoolean('t', Input(s, fold))
    ensures ReadSharp(Input("f" + s, fold)) == ReadBoolean('f', Input(s, fold))
    ensures ReadSharp(Input("\\" + s, fold)) == ReadCharacter(Input(s, fold))
    ensures ReadSharp(Input("!" + s, fold)) == ReadSharpBang(Input(s, fold))
    ensures ReadSharp(Input("(" + s, fold)) == AsVector(ReadList(Input(s, fold)))
  {
    hide ReadBoolean;
    hide ReadCharacter;
    hide ReadSharpBang;
    hide ReadList;
    assert ("t" + s)[1..] == s && ("f" + s)[1..] == s && ("\\" + s)[1..] == s && ("!" + s)[1..] == s
      && ("(" + s)[1..] == s;
  }

  lemma BoolTrip(b: bool, k: string, fold: bool)
    requires Delimited(k)
    ensures Trips(Bool(b), Show(Bool(b)) + k, k, fold)
  {
    assert Show(Bool(b)) == if b then "#t" else "#f";
    hide *;
    SharpCases(k, fold);
    BooleanRead(if b then 't' else 'f', k, fold);
    SharpTrip(Bool(b), if b then "t" else "f", k, fold);
    BoolText();
  }

  lemma BooleanRead(c: char, k: string, fold: bool)
    requires Delimited(k) && (c == 't' || c == 'f')
    ensures ReadBoolean(c, Input(k, fold)) == Done(Bool(c == 't'), Input(k, fold))
  {
    hide Until;
    UntilEnd("", k, IsTerminal);
    assert "" + k == k;
    CStringWhole("");
    assert [c] + "" == [c];
    assert "t" == ['t'] && "f" == ['f'];
  }

  lemma EofText()
    ensures "!" + "eof" == "!eof" && "#" + "!eof" == "#!eof"
  {
  }

  lemma BoolText()
    ensures "#" + "t" == "#t" && "#" + "f" == "#f"
  {
  }

  lemma EofTrip(k: string, fold: bool)
    requires Delimited(k)
    ensures Trips(EofObject, Show(EofObject) + k, k, fold)
  {
    assert Show(EofObject) == "#!eof";
    hide *;
    SharpCases("eof" + k, fold);
    EofRead(k, fold);
    EofText();
    Associate("!", "eof", k);
    SharpTrip(EofObject, "!eof", k, fold);
  }

  lemma Associate(a: string, b: string, c: string)
    ensures a + (b + c) == a + b + c
  {
  }

  lemma EofRead(k: string, fold: bool)
    requires Delimited(k)
    ensures ReadSharpBang(Input("eof" + k, fold)) == Done(EofObject, Input(k, fold))
  {
    hide Until;
    UntilEnd("eof", k, IsTerminal);
    CStringWhole("eof");
  }

  lemma PlainCharTrip(code: int, k: string, fold: bool)
    requires PlainChar(code) && Delimited(k)
    ensures Trips(Char(code), ShowChar(code) + k, k, fold)
  {
    hide Literal;
    hide ShowChar;
    hide ReadSharp;
    hide ReadCharacter;
    hide Trips;
    LiteralShown(code);
    CharTrip(code, k, fold);
    SharpCases(Literal(code) + k, fold);
    BackslashText(Literal(code), k);
    SharpTrip(Char(code), "\\" + Literal(code), k, fold);
  }

  lemma BackslashText(s: string, k: string)
    ensures "\\" + (s + k) == "\\" + s + k && "#" + ("\\" + s) == "#\\" + s
  {
  }

  lemma NilTrip(k: string, fold: bool)
    ensures Trips(Nil, Show(Nil) + k, k, fold)
  {
    EndOfList(k, fold);
    assert ("()" + k)[1..] == ")" + k;
  }

  lemma EndOfList(k: string, fold: bool)
    ensures ReadList(Input(")" + k, fold)) == Done(Nil, Input(k, fold))
  {
    SkipNone(")" + k);
    assert (")" + k)[1..] == k;
  }

  predicate SelfDelimited(d: Datum) { d.Nil? || d.Pair? || d.Vector? || d.Bytevec? }

  /** Every readable datum trips, with a delimiter behind it if it needs one; a single dot is none in a list. */
  lemma {:induction false} Trip(d: Datum, k: string, fold: bool)
    requires Readable(d, fold) && !IsDot(d) && (Delimited(k) || SelfDelimited(d))
    ensures Trips(d, Show(d) + k, k, fold)
    decreases d, 1
  {
    hide Trips;
    match d
    case Nil => NilTrip(k, fold);
    case EofObject => EofTrip(k, fold);
    case Bool(b) => BoolTrip(b, k, fold);
    case Fixnum(n) => FixnumTrip(n, k, fold);
    case Char(code) => PlainCharTrip(code, k, fold);
    case Symbol(name) => SymbolTrip(name, k, fold);
    case Pair(_, _) => PairTrip(d, k, fold);
    case Vector(_) => VectorTrip(d, k, fold);
    case Bytevec(bytes) => BytevecTrip(bytes, k, fold);
  }

  lemma {:induction false} PairTrip(d: Datum, k: string, fold: bool)
    requires d.Pair? && Readable(d, fold)
    ensures Trips(d, Show(d) + k, k, fold)
    decreases d, 0
  {
    hide Show;
    hide ReadList;
    var k' := ShowCdr(d.cdr, false) + k;
    CdrDelimited(d.cdr, k);
    Trip(d.car, k', fold);
    TripElement(d.car, Show(d.car) + k', k', fold);
    CdrTrip(d.cdr, k, fold);
    PairShown(d, k);
    ListTrips(d, Show(d.car) + k', k, fold);
  }

  lemma PairShown(d: Datum, k: string)
    requires d.Pair?
    ensures Show(d) + k == "(" + (Show(d.car) + (ShowCdr(d.cdr, false) + k))
    ensures ShowCdr(d, false) + k == " " + (Show(d.car) + (ShowCdr(d.cdr, false) + k))
  {
    hide Show;
    hide ShowCdr;
    PairText(d);
    Regroup("(" + "", Show(d.car), ShowCdr(d.cdr, false), k);
    Regroup(" ", Show(d.car), ShowCdr(d.cdr, false), k);
  }

  lemma PairText(d: Datum)
    requires d.Pair?
    ensures Show(d) == "(" + "" + Show(d.car) + ShowCdr(d.cdr, false)
    ensures ShowCdr(d, false) == " " + Show(d.car) + ShowCdr(d.cdr, false)
  {
    assert ShowCdr(d, true) == "" + Show(d.car) + ShowCdr(d.cdr, false);
    Joined("(", "", Show(d.car), ShowCdr(d.cdr, false));
  }

  lemma Regroup(o: string, a: string, b: string, k: string)
    ensures o + a + b + k == o + (a + (b + k))
  {
  }

  lemma ListTrips(d: Datum, s: string, k: string, fold: bool)
    requires ReadList(Input(s, fold)) == Done(d, Input(k, fold)) && !d.Void? && !d.EofObject?
    ensures Trips(d, "(" + s, k, fold)
  {
    hide ReadList;
    assert ("(" + s)[1..] == s;
  }

  lemma CdrDelimited(cdr: Datum, k: string)
    ensures Delimited(ShowCdr(cdr, false) + k)
  {
    hide Show;
  }

  /** The rest of a list is read by the loop of read_list. */
  lemma {:induction false} CdrTrip(cdr: Datum, k: string, fold: bool)
    requires Readable(cdr, fold)
    ensures ReadList(Input(ShowCdr(cdr, false) + k, fold)) == Done(cdr, Input(k, fold))
    decreases cdr, 3
  {
    hide Show;
    hide Trips;
    if cdr.Pair? {
      hide ReadList;
      var k' := ShowCdr(cdr.cdr, false) + k;
      CdrDelimited(cdr.cdr, k);
      Trip(cdr.car, k', fold);
      TripElement(cdr.car, Show(cdr.car) + k', k', fold);
      CdrTrip(cdr.cdr, k, fold);
      PairShown(cdr, k);
    } else if cdr.Nil? {
      EndOfList(k, fold);
    } else {
      TailTrip(cdr, ")" + k, fold);
      DottedTail(cdr, Show(cdr), k, fold);
    }
  }

  /** In a tail, as at the outer level, a single dot is a symbol. */
  lemma {:induction false} TailTrip(d: Datum, k: string, fold: bool)
    requires Readable(d, fold) && (Delimited(k) || SelfDelimited(d))
    ensures Read(Input(Show(d) + k, fold)) == Done(d, Input(k, fold))
    ensures Read(Input(" " + (Show(d) + k), fold)) == Done(d, Input(k, fold))
    decreases d, 2
  {
    hide Trips;
    hide Read;
    if IsDot(d) {
      DotAtTop(k, fold);
      SpaceRead("." + k, fold);
    } else {
      hide Show;
      Trip(d, k, fold);
      TripRead(d, Show(d) + k, k, fold);
    }
  }

  lemma SpaceRead(t: string, fold: bool)
    requires t != "" && !IsSpace(t[0])
    ensures Read(Input(" " + t, fold)) == Read(Input(t, fold))
  {
    hide ReadDatum;
    hide Read;
    SkipNone(t);
    SkipOne(t);
    hide Skip;
    ReadBegins(Input(t, fold));
    ReadBegins(Input(" " + t, fold));
  }

  lemma DottedTail(d: Datum, s: string, k: string, fold: bool)
    requires Read(Input(" " + (s + (")" + k)), fold)) == Done(d, Input(")" + k, fold))
    ensures ReadList(Input(" . " + s + ")" + k, fold)) == Done(d, Input(k, fold))
  {
    hide Read;
    hide Until;
    var t := " " + (s + (")" + k));
    assert " . " + s + ")" + k == " " + ("." + t);
    SkipOne("." + t);
    assert ("." + t)[1..] == t && t[0] == ' ';
    SkipNone(")" + k);
    assert (")" + k)[1..] == k;
    ListSkips(Input(" . " + s + ")" + k, fold), "." + t);
  }

  // ----- vectors -----

  function ListOf(elems: seq<Datum>): Datum { Prepend(elems, Nil) }

  lemma {:induction false} ElementsOf(elems: seq<Datum>)
    ensures Elements(ListOf(elems)) == elems
  {
    if elems != [] { ElementsOf(elems[1..]); }
  }

  lemma {:induction false} VectorTrip(d: Datum, k: string, fold: bool)
    requires d.Vector? && Readable(d, fold)
    ensures Trips(d, Show(d) + k, k, fold)
    decreases d, 0
  {
    hide Trips;
    hide ReadList;
    hide Show;
    hide ShowFrom;
    var elems := d.elems;
    VectorText(d, k);
    if elems == [] {
      EndOfList(k, fold);
      VectorShown(d, ")", k, fold);
    } else {
      var k' := ShowFrom(d, 1) + k;
      FromTrip(d, 1, k, fold);
      Trip(elems[0], k', fold);
      TripElement(elems[0], Show(elems[0]) + k', k', fold);
      assert elems == [elems[0]] + elems[1..];
      VectorShown(d, Show(elems[0]) + ShowFrom(d, 1), k, fold);
    }
  }

  lemma VectorText(d: Datum, k: string)
    requires d.Vector?
    ensures d.elems == [] ==> Show(d) == "#(" + ")"
    ensures d.elems != [] ==> Show(d) == "#(" + (Show(d.elems[0]) + ShowFrom(d, 1))
    ensures d.elems != [] ==> Show(d.elems[0]) + (ShowFrom(d, 1) + k) == Show(d.elems[0]) + ShowFrom(d, 1) + k
  {
    if d.elems == [] {
      assert "#()" == "#(" + ")";
    } else {
      hide ShowFrom;
      assert Show(d) == "#(" + Show(d.elems[0]) + ShowFrom(d, 1);
    }
  }

  lemma VectorShown(d: Datum, s: string, k: string, fold: bool)
    requires d.Vector? && Show(d) == "#(" + s
    requires ReadList(Input(s + k, fold)) == Done(ListOf(d.elems), Input(k, fold))
    ensures Trips(d, Show(d) + k, k, fold)
  {
    hide Trips;
    hide ReadList;
    ElementsOf(d.elems);
    assert ("(" + s + k)[1..] == s + k;
    assert "#" + ("(" + s) == "#(" + s;
    SharpTrip(d, "(" + s, k, fold);
  }

  lemma {:induction false} FromTrip(d: Datum, i: nat, k: string, fold: bool)
    requires d.Vector? && i <= |d.elems| && Readable(d, fold)
    ensures ReadList(Input(ShowFrom(d, i) + k, fold)) == Done(ListOf(d.elems[i..]), Input(k, fold))
    ensures Delimited(ShowFrom(d, i) + k)
    decreases d, 0, |d.elems| - i
  {
    hide Trips;
    hide ReadList;
    hide Show;
    if i == |d.elems| {
      EndOfList(k, fold);
    } else {
      var k' := ShowFrom(d, i + 1) + k;
      FromTrip(d, i + 1, k, fold);
      Trip(d.elems[i], k', fold);
      TripElement(d.elems[i], Show(d.elems[i]) + k', k', fold);
      assert d.elems[i..] == [d.elems[i]] + d.elems[i + 1..];
      assert ShowFrom(d, i) + k == " " + (Show(d.elems[i]) + k');
    }
  }

  // ----- bytevectors -----

  function Fixnums(bytes: seq<int>): (r: seq<Datum>)
    ensures |r| == |bytes|
  {
    seq(|bytes|, i requires 0 <= i < |bytes| => Fixnum(bytes[i]))
  }

  lemma BytesBack(bytes: seq<int>)
    requires AreBytes(bytes)
    ensures ToBytes(Fixnums(bytes)) == Some(bytes)
  {
    assert forall d :: d in Fixnums(bytes) ==> IsByte(d);
    assert ToBytes(Fixnums(bytes)).value == bytes;
  }

  lemma BytevecTrip(bytes: seq<int>, k: string, fold: bool)
    requires bytes != [] && AreBytes(bytes)
    ensures Trips(Bytevec(bytes), Show(Bytevec(bytes)) + k, k, fold)
  {
    hide Trips;
    hide ReadList;
    BytesTrip(bytes[1..], k, fold);
    ByteElement(bytes, ShowBytes(bytes[1..]) + k, k, fold);
    BytevecShown(bytes, k, fold);
  }

  lemma FixnumsCons(bytes: seq<int>)
    requires bytes != []
    ensures Fixnums(bytes) == [Fixnum(bytes[0])] + Fixnums(bytes[1..])
    ensures ListOf(Fixnums(bytes)) == Pair(Fixnum(bytes[0]), ListOf(Fixnums(bytes[1..])))
  {
    assert Fixnums(bytes)[1..] == Fixnums(bytes[1..]);
  }

  lemma BytevecShown(bytes: seq<int>, k: string, fold: bool)
    requires bytes != [] && AreBytes(bytes)
    requires ReadList(Input(Decimal(bytes[0]) + (ShowBytes(bytes[1..]) + k), fold)) ==
      Done(ListOf(Fixnums(bytes)), Input(k, fold))
    ensures Trips(Bytevec(bytes), Show(Bytevec(bytes)) + k, k, fold)
  {
    hide Trips;
    hide ReadList;
    hide Decimal;
    hide ShowBytes;
    hide Fixnums;
    hide ToBytes;
    ElementsOf(Fixnums(bytes));
    BytesBack(bytes);
    var s := Decimal(bytes[0]) + ShowBytes(bytes[1..]);
    assert s + k == Decimal(bytes[0]) + (ShowBytes(bytes[1..]) + k);
    var u := "u8(" + s;
    assert (u + k)[1..] == "8(" + s + k && ("8(" + s + k)[2..] == s + k;
    assert "#" + u == Show(Bytevec(bytes));
    SharpTrip(Bytevec(bytes), u, k, fold);
  }

  lemma {:induction false} BytesTrip(bytes: seq<int>, k: string, fold: bool)
    requires AreBytes(bytes)
    ensures ReadList(Input(ShowBytes(bytes) + k, fold)) == Done(ListOf(Fixnums(bytes)), Input(k, fold))
    ensures Delimited(ShowBytes(bytes) + k)
  {
    hide Trips;
    hide ReadList;
    hide Decimal;
    hide Fixnums;
    if bytes == [] {
      EndOfList(k, fold);
    } else {
      var k' := ShowBytes(bytes[1..]) + k;
      BytesTrip(bytes[1..], k, fold);
      ByteElement(bytes, k', k, fold);
      Regroup(" ", Decimal(bytes[0]), ShowBytes(bytes[1..]), k);
    }
  }

  lemma ByteElement(bytes: seq<int>, k': string, k: string, fold: bool)
    requires bytes != [] && AreBytes(bytes) && Delimited(k')
    requires ReadList(Input(k', fold)) == Done(ListOf(Fixnums(bytes[1..])), Input(k, fold))
    ensures ReadList(Input(Decimal(bytes[0]) + k', fold)) == Done(ListOf(Fixnums(bytes)), Input(k, fold))
    ensures ReadList(Input(" " + (Decimal(bytes[0]) + k'), fold)) == Done(ListOf(Fixnums(bytes)), Input(k, fold))
  {
    hide Trips;
    hide ReadList;
    hide Decimal;
    FixnumTrip(bytes[0], k', fold);
    TripElement(Fixnum(bytes[0]), Decimal(bytes[0]) + k', k', fold);
    FixnumsCons(bytes);
  }

  // ----- the round trip -----

  /** Reading what was written gives the datum back and consumes exactly what was written. */
  lemma ReadShown(d: Datum, k: string, fold: bool)
    requires Readable(d, fold) && (Delimited(k) || SelfDelimited(d))
    ensures Read(Input(Show(d) + k, fold)) == Done(d, Input(k, fold))
  {
    TailTrip(d, k, fold);
  }

  /** `(write 'a (open-output-string))` is an error. */
  method WriteSymbolToString() returns (written: bool, text: string)
    ensures !written && text == ""
  {
    assert CString("a") == "a";
    var out := new OutPort(false);
    written := out.WriteSymbol("a");
    text := out.text;
  }

  lemma SharpPrefix(s: string)
    ensures ("#" + s)[0] == '#' && ("#" + s)[1..] == s
  {
  }

  lemma SharpText(s: string, fold: bool)
    ensures Read(Input("#" + s, fold)) == AfterVoid(ReadSharp(Input(s, fold)), Input(s, fold))
  {
    hide ReadSharp;
    hide Read;
    hide ReadDatum;
    hide AfterVoid;
    SharpPrefix(s);
    SkipNone("#" + s);
    hide Skip;
    ReadBegins(Input("#" + s, fold));
    DatumSharp("#" + s, fold);
  }

  /** The empty bytevector is written without its parenthesis, so at the end of a file it does not read back. */
  lemma EmptyBytevector(fold: bool)
    ensures Show(Bytevec([])) == "#u8("
    ensures Read(Input(Show(Bytevec([])), fold)) == Failed
  {
    SharpText("u8(", fold);
    OpenBytevector(fold);
    hide ReadSharp;
    hide Read;
    assert "#" + "u8(" == "#u8(";
  }

  lemma OpenBytevector(fold: bool)
    ensures ReadSharp(Input("u8(", fold)) == Failed
  {
    assert "u8("[1..] == "8(" && "8("[2..] == "";
    assert ReadList(Input("", fold)) == Failed;
    hide ReadList;
  }

  lemma DotAtTop(k: string, fold: bool)
    requires Delimited(k)
    ensures Show(Symbol(".")) == "." && Read(Input("." + k, fold)) == Done(Symbol("."), Input(k, fold))
  {
    hide Until;
    hide Skip;
    CStringWhole(".");
    SkipNone("." + k);
    UntilEnd(".", k, IsTerminal);
    assert Fold(".", fold) == ".";
  }
}
