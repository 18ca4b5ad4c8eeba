/** What read.c reads: the text of a port as a function of its remaining characters and its case folding. */
module Syntax {

  datatype Datum =
    | Void
    | Nil
    | EofObject
    | Bool(b: bool)
    | Fixnum(n: int)
    | Char(code: int)
    | Symbol(name: string)
    | Pair(car: Datum, cdr: Datum)
    | Vector(elems: seq<Datum>)
    | Bytevec(bytes: seq<int>)

  datatype Option<T> = None | Some(value: T)

  datatype Input = Input(text: string, fold: bool)

  /** A read either ends with a datum or in a read error; string literals and `##` are not part of this model. */
  datatype Parse = Done(value: Datum, rest: Input) | Failed | Outside

  // ----- characters -----

  predicate IsSpace(c: char) { c == ' ' || '\t' <= c <= '\r' }

  predicate IsDigit(c: char) { '0' <= c <= '9' }

  predicate IsHexDigit(c: char) { IsDigit(c) || 'a' <= c <= 'f' || 'A' <= c <= 'F' }

  predicate IsOctalDigit(c: char) { '0' <= c < '8' }

  predicate IsBinaryDigit(c: char) { c == '0' || c == '1' }

  predicate IsPipe(c: char) { c == '|' }

  predicate IsNewline(c: char) { c == '\n' }

  predicate IsNul(c: char) { c == '\0' }

  predicate IsTerminal(c: char) { IsSpace(c) || c == '(' || c == ')' }

  function Not(p: char -> bool): char -> bool { c => !p(c) }

  function ToLower(c: char): char { if 'A' <= c <= 'Z' then c + ('a' - 'A') else c }

  function HexValue(c: char): int
  {
    if IsDigit(c) then c as int - '0' as int
    else if 'a' <= c <= 'f' then c as int - 'a' as int + 10
    else c as int - 'A' as int + 10
  }

  /** The number of characters before the first one that satisfies `stop`. */
  function Until(text: string, stop: char -> bool): (n: nat)
    ensures n <= |text| && (n < |text| ==> stop(text[n]))
  {
    if text == "" || stop(text[0]) then 0 else 1 + Until(text[1..], stop)
  }

  lemma {:induction false} NotBefore(text: string, stop: char -> bool)
    ensures forall i :: 0 <= i < Until(text, stop) ==> !stop(text[i])
  {
    if text != "" && !stop(text[0]) {
      NotBefore(text[1..], stop);
    }
  }

  /** Where the next bar stands, or the end of the text */
  function NextBar(text: string): (n: nat)
    ensures n <= |text| && (n < |text| ==> text[n] == '|')
  {
    Until(text, IsPipe)
  }

  function Skip(text: string): string { text[Until(text, Not(IsSpace))..] }

  /** The C string that starts like `s`. */
  function CString(s: string): string { s[..Until(s, IsNul)] }

  /** handle_case on each character */
  function Fold(s: string, fold: bool): (r: string)
    ensures |r| == |s|
  {
    seq(|s|, i requires 0 <= i < |s| => if fold then ToLower(s[i]) else s[i])
  }

  // ----- numbers -----

  const TWO_62: int := 0x4000_0000_0000_0000
  const TWO_63: int := 0x8000_0000_0000_0000
  const TWO_64: int := 0x1_0000_0000_0000_0000

  /** What remains of a long in a tagged fixnum. */
  function Fix(n: int): int { (n + TWO_62) % TWO_63 - TWO_62 }

  /** The unsigned long that read_unum computes from a run of digits. */
  function Unsigned(digits: string, radix: int): int
  {
    if digits == "" then 0 else
      var k := |digits| - 1;
      Accumulate(Unsigned(digits[..k], radix), radix, digits[k])
  }

  /** One turn of the loop of read_unum, on an unsigned long */
  function Accumulate(n: int, radix: int, c: char): int { (n * radix + HexValue(c)) % TWO_64 }

  /** The sign that a text starts with, and what follows it. */
  function Signed(text: string): (int, string)
  {
    if text == "" then (1, text)
    else if text[0] == '-' then (-1, text[1..])
    else if text[0] == '+' then (1, text[1..])
    else (1, text)
  }

  function ReadNum(input: Input, radix: int, isDigit: char -> bool): (r: Parse)
    ensures r.Done? && |r.rest.text| <= |input.text| && r.rest.fold == input.fold && r.value.Fixnum?
    ensures input.text != "" && isDigit(input.text[0]) ==> |r.rest.text| < |input.text|
  {
    var (sign, t) := Signed(input.text);
    var n := Until(t, Not(isDigit));
    Done(Fixnum(Fix(sign * Unsigned(t[..n], radix))), input.(text := t[n..]))
  }

  // ----- symbols, characters, booleans -----

  /** read_until up to a terminal, read as a symbol */
  function ReadSymbol(input: Input, prefix: string): (r: Parse)
    ensures r.Done? && r.rest == input.(text := input.text[Until(input.text, IsTerminal)..])
  {
    var n := Until(input.text, IsTerminal);
    Done(Symbol(prefix + Fold(CString(input.text[..n]), input.fold)), input.(text := input.text[n..]))
  }

  function ReadBarSymbol(input: Input): (r: Parse)
    ensures r.Done? ==> |r.rest.text| < |input.text|
  {
    var n := NextBar(input.text);
    if n == |input.text| then Failed
    else Done(Symbol(Fold(CString(input.text[..n]), input.fold)), input.(text := input.text[n + 1..]))
  }

  const NAMED_CHARS: seq<(string, int)> := [
    ("alarm", 7), ("backspace", 8), ("delete", 127), ("escape", 27), ("newline", 10),
    ("null", 0), ("return", 13), ("space", 32), ("tab", 9)
  ]

  /** The first entry from `i` on with that name. */
  function NamedFrom(name: string, i: nat): Option<int>
    decreases |NAMED_CHARS| - i
  {
    if i >= |NAMED_CHARS| then None
    else if NAMED_CHARS[i].0 == name then Some(NAMED_CHARS[i].1)
    else NamedFrom(name, i + 1)
  }

  /** What remains of a number in the 32 bits of a UChar32 */
  function Int32(n: int): int { (n + 0x8000_0000) % 0x1_0000_0000 - 0x8000_0000 }

  /** The value of the hexadecimal digits that `s` starts with */
  function HexPrefix(s: string): int { Int32(Hex(s[..Until(s, Not(IsHexDigit))])) }

  function Hex(digits: string): int
  {
    if digits == "" then 0 else
      var k := |digits| - 1;
      Hex(digits[..k]) * 16 + HexValue(digits[k])
  }

  /** The value of the character literal whose text after the backslash is `str`. */
  function CharLiteral(str: string, fold: bool): Option<int>
  {
    if |str| == 1 then Some(str[0] as int) else
      var s := Fold(str, fold);
      if s != "" && s[0] == 'x' then
        if HexPrefix(s[1..]) < 128 then Some(HexPrefix(s[1..])) else None
      else NamedFrom(s, 0)
  }

  function ReadCharacter(input: Input): (r: Parse)
    ensures r.Done? ==> |r.rest.text| <= |input.text|
  {
    var n := Until(input.text, IsTerminal);
    match CharLiteral(CString(input.text[..n]), input.fold)
    case None => Failed
    case Some(code) => Done(Char(code), input.(text := input.text[n..]))
  }

  function ReadBoolean(first: char, input: Input): (r: Parse)
    ensures r.Done? ==> |r.rest.text| <= |input.text|
  {
    var n := Until(input.text, IsTerminal);
    var str := CString(input.text[..n]);
    var buf := [first] + if |str| <= 4 then str else str[..4];
    if buf == "t" || buf == "true" then Done(Bool(true), input.(text := input.text[n..]))
    else if buf == "f" || buf == "false" then Done(Bool(false), input.(text := input.text[n..]))
    else Failed
  }

  /** navi_read, after a sign: a number or a symbol */
  function AfterSign(c: char, input: Input): (r: Parse)
    ensures r.Done? && |r.rest.text| <= |input.text|
  {
    if input.text != "" && IsDigit(input.text[0]) then
      var r := ReadNum(input, 10, IsDigit);
      Done(Fixnum(Fix(r.value.n * if c == '+' then 1 else -1)), r.rest)
    else ReadSymbol(input, [c])
  }

  // ----- comments -----

  /** The rest after the next newline, if there is one. */
  function AfterLine(text: string): (r: Option<string>)
    ensures r.Some? ==> |r.value| < |text|
  {
    var n := Until(text, IsNewline);
    if n == |text| then None else Some(text[n + 1..])
  }

  /** consume_line */
  function ConsumeLine(text: string): (r: string)
    ensures |r| <= |text| && (text != "" ==> |r| < |text|)
  {
    var r := AfterLine(text);
    if r.None? then "" else r.value
  }

  /** The rest after a block comment: after each bar one character is taken, and it must be `#` to end. */
  function AfterBlock(text: string): (r: Option<string>)
    ensures r.Some? ==> |r.value| < |text|
  {
    var n := NextBar(text);
    if n == |text| then None else
      var rest := text[n + 1..];
      if rest == "" then None else if rest[0] == '#' then Some(rest[1..]) else AfterBlock(rest[1..])
  }

  function Comment(after: Option<string>, input: Input): (r: Parse)
    ensures r.Done? ==> after.Some? && r.rest.text == after.value
  {
    if after.None? then Failed else Done(Void, input.(text := after.value))
  }

  function ReadSharpBang(input: Input): (r: Parse)
    ensures r.Done? ==> |r.rest.text| <= |input.text|
  {
    var n := Until(input.text, IsTerminal);
    Directive(CString(input.text[..n]), input.(text := input.text[n..]))
  }

  function Directive(str: string, rest: Input): (r: Parse)
    ensures r.Done? ==> |r.rest.text| <= |rest.text|
  {
    if str != "" && str[0] == '/' then Comment(AfterLine(rest.text), rest)
    else if str == "" then Done(Void, rest.(text := ConsumeLine(rest.text)))
    else if str == "eof" then Done(EofObject, rest)
    else if str == "fold-case" then Done(Void, rest.(fold := true))
    else if str == "no-fold-case" then Done(Void, rest.(fold := false))
    else Failed
  }

  // ----- lists -----

  /** The cars of the pairs of a list; a dotted tail is not among them. */
  function Elements(list: Datum): seq<Datum>
  {
    if list.Pair? then [list.car] + Elements(list.cdr) else []
  }

  /** The elements in front of the tail. */
  function Prepend(elems: seq<Datum>, tail: Datum): Datum
  {
    if elems == [] then tail else Pair(elems[0], Prepend(elems[1..], tail))
  }

  predicate IsByte(d: Datum) { d.Fixnum? && 0 <= d.n < 256 }

  /** navi_list_to_bytevec */
  function ToBytes(elems: seq<Datum>): Option<seq<int>>
  {
    if forall d :: d in elems ==> IsByte(d) then
      Some(seq(|elems|, i requires 0 <= i < |elems| => assert elems[i] in elems; elems[i].n))
    else None
  }

  function AsVector(r: Parse): Parse
  {
    if r.Done? then Done(Vector(Elements(r.value)), r.rest) else r
  }

  function AsBytevec(r: Parse): Parse
  {
    if r.Done? then
      var bytes := ToBytes(Elements(r.value));
      if bytes.None? then Failed else Done(Bytevec(bytes.value), r.rest)
    else r
  }

  function AsVoid(r: Parse): Parse { if r.Done? then Done(Void, r.rest) else r }

  /** navi_sym_wrap */
  function Wrap(symbol: string, r: Parse): Parse
  {
    if r.Done? then Done(Pair(Symbol(symbol), Pair(r.value, Nil)), r.rest) else r
  }

  function Cons(car: Datum, r: Parse): Parse
  {
    if r.Done? then Done(Pair(car, r.value), r.rest) else r
  }

  /** What follows a dotted tail must be the end of the list. */
  function CloseList(r: Parse): (r': Parse)
    ensures r'.Done? ==> r.Done? && r'.value == r.value && |r'.rest.text| < |r.rest.text|
  {
    if r.Done? then
      var t := Skip(r.rest.text);
      if t != "" && t[0] == ')' then Done(r.value, r.rest.(text := t[1..])) else Failed
    else r
  }

  // ----- the reader -----

  /** navi_read */
  function Read(input: Input): (r: Parse)
    ensures r.Done? ==> |r.rest.text| <= |input.text| && (input.text != "" ==> |r.rest.text| < |input.text|)
    decreases |input.text|, 2
  {
    var text := Skip(input.text);
    if text == "" then Done(EofObject, input.(text := text))
    else ReadDatum(text[0], input.(text := text))
  }

  /** The switch of navi_read; `input` begins with `c`. */
  function ReadDatum(c: char, input: Input): (r: Parse)
    requires input.text != "" && input.text[0] == c && !IsSpace(c)
    ensures r.Done? ==> |r.rest.text| < |input.text|
    decreases |input.text|, 1
  {
    var rest := input.(text := input.text[1..]);
    if IsDigit(c) then ReadNum(input, 10, IsDigit)
    else if c == '"' then Outside
    else if c == '\'' then Wrap("quote", Read(rest))
    else if c == '`' then Wrap("quasiquote", Read(rest))
    else if c == ',' then Unquote(rest)
    else if c == '#' then AfterVoid(ReadSharp(rest), rest)
    else if c == '(' then ReadList(rest)
    else if c == ')' then Failed
    else if c == ';' then Read(input.(text := ConsumeLine(input.text)))
    else if c == '|' then ReadBarSymbol(rest)
    else if c == '+' || c == '-' then AfterSign(c, rest)
    else ReadSymbol(input, "")
  }

  /** navi_read goes on after a comment. */
  function AfterVoid(r: Parse, input: Input): (r': Parse)
    requires r.Done? ==> |r.rest.text| <= |input.text|
    ensures r'.Done? ==> |r'.rest.text| <= |input.text|
    decreases |input.text|, 3
  {
    if r.Done? && r.value.Void? then Read(r.rest) else r
  }

  /** navi_read, after a comma */
  function Unquote(input: Input): (r: Parse)
    ensures r.Done? ==> |r.rest.text| <= |input.text|
    decreases |input.text|, 3
  {
    if input.text == "" then Failed
    else if input.text[0] == '@' then Wrap("unquote-splice", Read(input.(text := input.text[1..])))
    else Wrap("unquote", Read(input))
  }

  /** read_list */
  function ReadList(input: Input): (r: Parse)
    ensures r.Done? ==> |r.rest.text| < |input.text|
    decreases |input.text|, 4
  {
    var text := Skip(input.text);
    if text == "" then Failed else ListSwitch(text[0], input.(text := text))
  }

  /** The switch of read_list; `input` begins with `c`. */
  function ListSwitch(c: char, input: Input): (r: Parse)
    requires input.text != "" && input.text[0] == c && !IsSpace(c)
    ensures r.Done? ==> |r.rest.text| < |input.text|
    decreases |input.text|, 3
  {
    var rest := input.(text := input.text[1..]);
    if c == ')' then Done(Nil, rest)
    else if c == '.' then ListDot(rest)
    else if c == '#' then ListMore(ReadSharp(rest), rest)
    else if c == ';' then ReadList(input.(text := ConsumeLine(input.text)))
    else
      var r := Read(input);
      if !r.Done? then r
      else if r.value.EofObject? then Failed
      else Cons(r.value, ReadList(r.rest))
  }

  /** read_list, after a dot: a symbol or the tail */
  function ListDot(input: Input): (r: Parse)
    ensures r.Done? ==> |r.rest.text| <= |input.text|
    decreases |input.text|, 5
  {
    if input.text == "" then Failed
    else if IsTerminal(input.text[0]) then CloseList(Read(input))
    else
      var r := ReadSymbol(input, ".");
      Cons(r.value, ReadList(r.rest))
  }

  /** read_list, after what read_sharp has read */
  function ListMore(r: Parse, input: Input): (r': Parse)
    requires r.Done? ==> |r.rest.text| <= |input.text|
    ensures r'.Done? ==> |r'.rest.text| <= |input.text|
    decreases |input.text|, 5
  {
    if !r.Done? then r
    else if r.value.Void? then ReadList(r.rest)
    else Cons(r.value, ReadList(r.rest))
  }

  /** read_sharp */
  function ReadSharp(input: Input): (r: Parse)
    ensures r.Done? ==> |r.rest.text| <= |input.text|
    decreases |input.text|, 0
  {
    if input.text == "" then Failed else
      var c := input.text[0];
      var rest := input.(text := input.text[1..]);
      if c == 't' || c == 'f' then ReadBoolean(c, rest)
      else if c == '\\' then ReadCharacter(rest)
      else if c == '(' then AsVector(ReadList(rest))
      else if c == 'u' then
        if |rest.text| >= 2 && rest.text[0] == '8' && rest.text[1] == '(' then
          AsBytevec(ReadList(rest.(text := rest.text[2..])))
        else Failed
      else if c == 'b' then ReadNum(rest, 2, IsBinaryDigit)
      else if c == 'o' then ReadNum(rest, 8, IsOctalDigit)
      else if c == 'x' then ReadNum(rest, 16, IsHexDigit)
      else if c == '!' then ReadSharpBang(rest)
      else if c == '#' then Outside
      else if c == ';' then AsVoid(Read(rest))
      else if c == '|' then Comment(AfterBlock(rest.text), rest)
      else if c == '/' then Comment(AfterLine(rest.text), rest)
      else Failed
  }
}
