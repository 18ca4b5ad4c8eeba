/** read.c: the reader, which advances a port; each function does what Syntax says. */
module Reader {
  import opened Ports
  import opened Syntax

  /** An int that is a character or EOF. */
  datatype Next = End | Ch(c: char)

  /** How a read ends: with a datum, in navi_read_error, or in a part that is not modelled. */
  datatype Outcome = Got(value: Datum) | ReadError | NotModelled

  ghost function In(port: Port): Input
    requires port.Valid()
    reads port
  {
    Input(port.Rest(), port.foldCase)
  }

  function First(text: string): Next { if text == "" then End else Ch(text[0]) }

  function Tail(text: string): string { if text == "" then "" else text[1..] }

  /** `r` and the port are as `p` says. */
  ghost predicate Reads(r: Outcome, p: Parse, port: Port)
    reads port
  {
    port.Valid() &&
    match p
    case Done(value, rest) => r == Got(value) && In(port) == rest
    case Failed => r == ReadError
    case Outside => r == NotModelled
  }

  // ----- one character -----

  /** peek_char */
  method PeekChar(port: Port) returns (c: Next)
    requires port.Valid()
    modifies port`pos, port`buffer, port`bufferFull, port`gotEof
    ensures port.Valid() && port.Rest() == old(port.Rest()) && c == First(port.Rest())
  {
    var ch := port.PortPeekChar();
    if ch == EofObj || ch.code == EOF {
      return End;
    }
    return Ch(ch.code as char);
  }

  /** read_char */
  method ReadChar(port: Port) returns (c: Next)
    requires port.Valid()
    modifies port`pos, port`buffer, port`bufferFull, port`gotEof
    ensures port.Valid() && c == First(old(port.Rest())) && port.Rest() == Tail(old(port.Rest()))
  {
    var ch := port.PortReadChar();
    if ch == EofObj {
      return End;
    }
    return Ch(ch.code as char);
  }

  /** peek_first_char */
  method PeekFirstChar(port: Port) returns (c: Next)
    requires port.Valid()
    modifies port`pos, port`buffer, port`bufferFull, port`gotEof
    ensures port.Valid() && port.Rest() == Skip(old(port.Rest())) && c == First(port.Rest())
  {
    c := PeekChar(port);
    while c.Ch? && IsSpace(c.c)
      invariant port.Valid() && c == First(port.Rest())
      invariant Skip(port.Rest()) == Skip(old(port.Rest()))
      decreases |port.Rest()|
    {
      SkipSpace(port.Rest());
      var _ := ReadChar(port);
      c := PeekChar(port);
    }
    SkipNothing(port.Rest());
  }

  lemma SkipSpace(text: string)
    requires text != "" && IsSpace(text[0])
    ensures Skip(text) == Skip(text[1..])
  {
  }

  lemma SkipNothing(text: string)
    requires text == "" || !IsSpace(text[0])
    ensures Skip(text) == text
  {
  }

  /** `done` is a part of `t` in front of its first stop, and `rest` is what follows it. */
  ghost predicate Running(t: string, stop: char -> bool, done: string, rest: string) {
    t == done + rest && Until(t, stop) == |done| + Until(rest, stop)
  }

  lemma RunStart(t: string, stop: char -> bool)
    ensures Running(t, stop, "", t)
  {
    assert "" + t == t;
  }

  lemma RunStep(t: string, stop: char -> bool, done: string, rest: string)
    requires Running(t, stop, done, rest) && rest != "" && !stop(rest[0])
    ensures Running(t, stop, done + [rest[0]], rest[1..])
  {
    assert t == (done + [rest[0]]) + rest[1..];
  }

  lemma RunEnd(t: string, stop: char -> bool, done: string, rest: string)
    requires Running(t, stop, done, rest) && (rest == "" || stop(rest[0]))
    ensures var n := Until(t, stop); done == t[..n] && rest == t[n..] && (n == |t| <==> rest == "")
  {
  }

  /** read_until; `eofStops` says whether `stop` accepts the end of the file, which otherwise is an error. */
  method ReadUntil(port: Port, stop: char -> bool, eofStops: bool) returns (r: Option<string>)
    requires port.Valid()
    modifies port`pos, port`buffer, port`bufferFull, port`gotEof
    ensures port.Valid()
    ensures var t, n := old(port.Rest()), Until(old(port.Rest()), stop);
      if n == |t| && !eofStops then r.None?
      else r == Some(CString(t[..n])) && port.Rest() == t[n..]
  {
    hide Running;
    hide Until;
    ghost var t := port.Rest();
    var str := "";
    RunStart(t, stop);
    var c := PeekChar(port);
    while c.Ch? && !stop(c.c)
      invariant port.Valid() && c == First(port.Rest()) && Running(t, stop, str, port.Rest())
      decreases |port.Rest()|
    {
      RunStep(t, stop, str, port.Rest());
      str := str + [c.c];
      var _ := ReadChar(port);
      c := PeekChar(port);
    }
    RunEnd(t, stop, str, port.Rest());
    if c.End? && !eofStops {
      return None;
    }
    return Some(CString(str));
  }

  // ----- numbers -----

  /** read_unum */
  method ReadUnum(port: Port, radix: int, isDigit: char -> bool) returns (n: int)
    requires port.Valid()
    modifies port`pos, port`buffer, port`bufferFull, port`gotEof
    ensures port.Valid()
    ensures var t, k := old(port.Rest()), Until(old(port.Rest()), Not(isDigit));
      n == Unsigned(t[..k], radix) && port.Rest() == t[k..]
  {
    hide Running;
    hide Until;
    hide Unsigned;
    hide Accumulate;
    ghost var t, done := port.Rest(), "";
    n := 0;
    RunStart(t, Not(isDigit));
    NoDigits(radix);
    var c := PeekChar(port);
    while c.Ch? && isDigit(c.c)
      invariant port.Valid() && c == First(port.Rest()) && Running(t, Not(isDigit), done, port.Rest())
      invariant n == Unsigned(done, radix)
      decreases |port.Rest()|
    {
      RunStep(t, Not(isDigit), done, port.Rest());
      UnsignedStep(done, c.c, radix);
      done := done + [c.c];
      n := Accumulate(n, radix, c.c);
      var _ := ReadChar(port);
      c := PeekChar(port);
    }
    RunEnd(t, Not(isDigit), done, port.Rest());
  }

  lemma NoDigits(radix: int)
    ensures Unsigned("", radix) == 0
  {
  }

  lemma UnsignedStep(digits: string, c: char, radix: int)
    ensures Unsigned(digits + [c], radix) == Accumulate(Unsigned(digits, radix), radix, c)
  {
    assert (digits + [c])[..|digits|] == digits;
  }

  /** The sign in read_num */
  method ReadSign(port: Port) returns (sign: int)
    requires port.Valid()
    modifies port`pos, port`buffer, port`bufferFull, port`gotEof
    ensures port.Valid() && (sign, port.Rest()) == Signed(old(port.Rest()))
  {
    sign := 1;
    var c := PeekChar(port);
    if c == Ch('-') {
      sign := -1;
      c := ReadChar(port);
    } else if c == Ch('+') {
      c := ReadChar(port);
    }
  }

  /** read_num, and navi_make_fixnum on its result */
  method ReadFixnum(port: Port, radix: int, isDigit: char -> bool) returns (r: Outcome)
    requires port.Valid()
    modifies port`pos, port`buffer, port`bufferFull, port`gotEof
    ensures Reads(r, ReadNum(old(In(port)), radix, isDigit), port)
  {
    hide Until;
    hide Unsigned;
    hide Fix;
    hide Signed;
    hide Not;
    var sign := ReadSign(port);
    var n := ReadUnum(port, radix, isDigit);
    return Got(Fixnum(Fix(sign * n)));
  }

  // ----- symbols, characters, booleans -----

  /** handle_case, over a whole C string */
  method HandleCase(port: Port, str: string) returns (r: string)
    ensures r == Fold(str, port.foldCase)
  {
    r := "";
    for i := 0 to |str|
      invariant r == Fold(str[..i], port.foldCase)
    {
      r := r + [if port.foldCase then ToLower(str[i]) else str[i]];
    }
    assert str[..|str|] == str;
  }

  /** read_symbol and read_symbol_with_prefix, with isterminal as `stop` */
  method ReadSymbolUntilTerminal(port: Port, prefix: string) returns (r: Outcome)
    requires port.Valid()
    modifies port`pos, port`buffer, port`bufferFull, port`gotEof
    ensures Reads(r, ReadSymbol(old(In(port)), prefix), port)
  {
    hide Until;
    hide CString;
    hide Fold;
    var str := ReadUntil(port, IsTerminal, true);
    var name := HandleCase(port, str.value);
    return Got(Symbol(prefix + name));
  }

  /** read_symbol, with ispipe as `stop`, and the closing pipe */
  method ReadSymbolUntilPipe(port: Port) returns (r: Outcome)
    requires port.Valid()
    modifies port`pos, port`buffer, port`bufferFull, port`gotEof
    ensures Reads(r, ReadBarSymbol(old(In(port))), port)
  {
    hide CString;
    hide Fold;
    BarSymbol(In(port));
    hide ReadBarSymbol;
    hide Until;
    var str := ReadUntil(port, IsPipe, false);
    if str.None? {
      return ReadError;
    }
    var name := HandleCase(port, str.value);
    var _ := ReadChar(port);
    return Got(Symbol(name));
  }

  lemma BarSymbol(input: Input)
    ensures var t, n := input.text, Until(input.text, IsPipe);
      && (n == |t| ==> ReadBarSymbol(input) == Failed)
      && (n < |t| ==> t[n..] != "")
      && (n < |t| ==>
            ReadBarSymbol(input) == Done(Symbol(Fold(CString(t[..n]), input.fold)), input.(text := t[n..][1..])))
  {
    hide Until;
    hide CString;
    hide Fold;
  }

  /** The search of read_character in named_chars */
  method FindNamed(name: string) returns (r: Option<int>)
    ensures r == NamedFrom(name, 0)
  {
    for i := 0 to |NAMED_CHARS|
      invariant NamedFrom(name, i) == NamedFrom(name, 0)
    {
      if NAMED_CHARS[i].0 == name {
        return Some(NAMED_CHARS[i].1);
      }
    }
    return None;
  }

  /** The value of the hexadecimal digits that `str` starts with */
  method ReadHexPrefix(str: string) returns (ch: int)
    ensures ch == HexPrefix(str)
  {
    ch := 0;
    var i := 0;
    while i < |str| && IsHexDigit(str[i])
      invariant 0 <= i <= |str| && ch == Int32(Hex(str[..i]))
      invariant Until(str, Not(IsHexDigit)) == i + Until(str[i..], Not(IsHexDigit))
    {
      assert str[..i + 1][..i] == str[..i];
      Int32Step(Hex(str[..i]), HexValue(str[i]));
      ch := Int32(ch * 16);
      ch := Int32(ch + HexValue(str[i]));
      i := i + 1;
    }
  }

  /** Wrapping around after every step or once at the end is the same. */
  lemma Int32Step(n: int, digit: int)
    ensures Int32(Int32(Int32(n) * 16) + digit) == Int32(n * 16 + digit)
  {
    var k := (n - Int32(n)) / 0x1_0000_0000;
    assert n == Int32(n) + k * 0x1_0000_0000;
    var m := Int32(n) * 16;
    var l := (m - Int32(m)) / 0x1_0000_0000;
    assert m == Int32(m) + l * 0x1_0000_0000;
    assert n * 16 + digit == Int32(m) + digit + (l + 16 * k) * 0x1_0000_0000;
  }

  /** read_character */
  method ReadCharacter(port: Port) returns (r: Outcome)
    requires port.Valid()
    modifies port`pos, port`buffer, port`bufferFull, port`gotEof
    ensures Reads(r, Syntax.ReadCharacter(old(In(port))), port)
  {
    var str0 := ReadUntil(port, IsTerminal, true);
    var str := str0.value;
    if |str| == 1 {
      return Got(Char(str[0] as int));
    }
    str := HandleCase(port, str);
    if str != "" && str[0] == 'x' {
      var ch := ReadHexPrefix(str[1..]);
      if ch >= 128 {
        return ReadError;
      }
      return Got(Char(ch));
    }
    var code := FindNamed(str);
    if code.None? {
      return ReadError;
    }
    return Got(Char(code.value));
  }

  /** read_boolean */
  method ReadBoolean(port: Port, first: char) returns (r: Outcome)
    requires port.Valid()
    modifies port`pos, port`buffer, port`bufferFull, port`gotEof
    ensures Reads(r, Syntax.ReadBoolean(first, old(In(port))), port)
  {
    var str := ReadUntil(port, IsTerminal, true);
    var buf := [first] + if |str.value| <= 4 then str.value else str.value[..4];
    if buf == "t" || buf == "true" {
      return Got(Bool(true));
    }
    if buf == "f" || buf == "false" {
      return Got(Bool(false));
    }
    return ReadError;
  }

  // ----- comments -----

  /** A loop that reads up to and with `c`; the result says whether `c` was found before the end. */
  method ReadPast(port: Port, c: char, stop: char -> bool) returns (found: bool)
    requires port.Valid() && forall d :: stop(d) <==> d == c
    modifies port`pos, port`buffer, port`bufferFull, port`gotEof
    ensures port.Valid()
    ensures var t, n := old(port.Rest()), Until(old(port.Rest()), stop);
      if n == |t| then !found && port.Rest() == "" else found && port.Rest() == t[n + 1..]
  {
    hide Running;
    hide Until;
    ghost var t, done := port.Rest(), "";
    RunStart(t, stop);
    while true
      invariant port.Valid() && Running(t, stop, done, port.Rest())
      decreases |port.Rest()|
    {
      ghost var rest := port.Rest();
      var d := ReadChar(port);
      if d == End || d == Ch(c) {
        RunEnd(t, stop, done, rest);
        return d == Ch(c);
      }
      RunStep(t, stop, done, rest);
      done := done + [d.c];
    }
  }

  /** consume_line */
  method ConsumeLine(port: Port)
    requires port.Valid()
    modifies port`pos, port`buffer, port`bufferFull, port`gotEof
    ensures port.Valid() && port.Rest() == Syntax.ConsumeLine(old(port.Rest()))
  {
    var _ := ReadPast(port, '\n', IsNewline);
  }

  /** A comment up to a newline, which must be there */
  method SkipLine(port: Port) returns (r: Outcome)
    requires port.Valid()
    modifies port`pos, port`buffer, port`bufferFull, port`gotEof
    ensures Reads(r, Comment(AfterLine(old(port.Rest())), old(In(port))), port)
  {
    var found := ReadPast(port, '\n', IsNewline);
    return if found then Got(Void) else ReadError;
  }

  /** The block comment of read_sharp */
  method SkipBlock(port: Port) returns (r: Outcome)
    requires port.Valid()
    modifies port`pos, port`buffer, port`bufferFull, port`gotEof
    ensures Reads(r, Comment(AfterBlock(old(port.Rest())), old(In(port))), port)
  {
    hide Until;
    hide AfterBlock;
    ghost var after := AfterBlock(port.Rest());
    while true
      invariant port.Valid() && AfterBlock(port.Rest()) == after
      decreases |port.Rest()|
    {
      BlockTurn(port.Rest());
      var found := ReadPast(port, '|', IsPipe);
      if !found {
        return ReadError;
      }
      var c := ReadChar(port);
      if c == End {
        return ReadError;
      }
      if c == Ch('#') {
        return Got(Void);
      }
    }
  }

  /** What the next bar and the character behind it mean */
  lemma BlockTurn(t: string)
    ensures var n := Until(t, IsPipe);
      if n == |t| || t[n + 1..] == "" then AfterBlock(t) == None
      else var rest := t[n + 1..]; AfterBlock(t) == if rest[0] == '#' then Some(rest[1..]) else AfterBlock(rest[1..])
  {
    assert NextBar(t) == Until(t, IsPipe);
    hide NextBar;
    hide Until;
    var n := NextBar(t);
    if n < |t| {
      var rest := t[n + 1..];
      if rest == "" {
      } else if rest[0] == '#' {
      } else {
      }
    }
  }

  /** read_sharp_bang */
  method ReadSharpBang(port: Port) returns (r: Outcome)
    requires port.Valid()
    modifies port
    ensures Reads(r, Syntax.ReadSharpBang(old(In(port))), port)
  {
    hide Until;
    hide CString;
    hide Syntax.Directive;
    var str := ReadUntil(port, IsTerminal, true);
    r := Directive(port, str.value);
  }

  /** What read_sharp_bang does about the text that it has read */
  method Directive(port: Port, str: string) returns (r: Outcome)
    requires port.Valid()
    modifies port
    ensures Reads(r, Syntax.Directive(str, old(In(port))), port)
  {
    hide Until;
    hide AfterLine;
    if str != "" && str[0] == '/' {
      r := SkipLine(port);
      return;
    }
    if str == "" {
      ConsumeLine(port);
      return Got(Void);
    }
    if str == "eof" {
      return Got(EofObject);
    }
    if str == "fold-case" {
      port.foldCase := true;
      return Got(Void);
    }
    if str == "no-fold-case" {
      port.foldCase := false;
      return Got(Void);
    }
    return ReadError;
  }

  // ----- data -----

  /** How one turn of the loop of read_list ends. */
  datatype Turn = Element(value: Datum) | Again | Last(tail: Datum) | Stop(outcome: Outcome)

  /** A turn that began before a list that parses as `p`, with `size` characters to come, is as the list reader says. */
  ghost predicate Turned(t: Turn, p: Parse, size: nat, port: Port)
    reads port
  {
    port.Valid() &&
    match t
    case Element(value) => p == Cons(value, Syntax.ReadList(In(port))) && |port.Rest()| < size
    case Again => p == Syntax.ReadList(In(port)) && |port.Rest()| < size
    case Last(tail) => p == Done(tail, In(port))
    case Stop(outcome) => !outcome.Got? && p == if outcome == ReadError then Failed else Outside
  }

  /** Puts elements in front of a parsed list. */
  function PrependTo(elems: seq<Datum>, r: Parse): Parse
  {
    if r.Done? then Done(Prepend(elems, r.value), r.rest) else r
  }

  lemma {:induction false} PrependLast(elems: seq<Datum>, d: Datum, tail: Datum)
    ensures Prepend(elems + [d], tail) == Prepend(elems, Pair(d, tail))
  {
    if elems == [] {
      assert elems + [d] == [d];
    } else {
      PrependLast(elems[1..], d, tail);
      assert (elems + [d])[1..] == elems[1..] + [d];
    }
  }

  /** read_list; `elems` are the pairs built so far */
  method ReadList(port: Port) returns (r: Outcome)
    requires port.Valid()
    modifies port
    ensures Reads(r, Syntax.ReadList(old(In(port))), port)
    decreases |port.Rest()|, 5
  {
    hide Syntax.ReadList;
    var elems := [];
    ghost var p := Syntax.ReadList(In(port));
    while true
      invariant port.Valid() && |port.Rest()| <= |old(port.Rest())|
      invariant p == PrependTo(elems, Syntax.ReadList(In(port)))
      decreases |port.Rest()|
    {
      var t := ListTurn(port);
      match t
      case Element(d) =>
        ghost var tail := Syntax.ReadList(In(port));
        if tail.Done? { PrependLast(elems, d, tail.value); }
        elems := elems + [d];
      case Again =>
      case Last(tail) => return Got(Prepend(elems, tail));
      case Stop(outcome) => return outcome;
    }
  }

  /** One turn of the loop of read_list */
  method ListTurn(port: Port) returns (t: Turn)
    requires port.Valid()
    modifies port
    ensures Turned(t, Syntax.ReadList(old(In(port))), |old(port.Rest())|, port)
    decreases |port.Rest()|, 4
  {
    hide Syntax.ListSwitch;
    hide Syntax.ReadList;
    hide Skip;
    hide Cons;
    ListBegins(In(port));
    var c := PeekFirstChar(port);
    if c == End {
      return Stop(ReadError);
    }
    t := ListSwitch(port, c.c);
  }

  lemma ListBegins(input: Input)
    ensures var text := Skip(input.text);
      && |text| <= |input.text| && (text != "" ==> !IsSpace(text[0]))
      && Syntax.ReadList(input) == if text == "" then Failed else Syntax.ListSwitch(text[0], input.(text := text))
  {
    hide Syntax.ListSwitch;
  }

  lemma ListCases(c: char, input: Input)
    requires input.text != "" && input.text[0] == c && !IsSpace(c)
    ensures var rest, r := input.(text := input.text[1..]), Syntax.ListSwitch(c, input);
      && (c == ')' ==> r == Done(Nil, rest))
      && (c == '.' ==> r == Syntax.ListDot(rest))
      && (c == '#' ==> r == ListMore(Syntax.ReadSharp(rest), rest))
      && (c == ';' ==> r == Syntax.ReadList(input.(text := Syntax.ConsumeLine(input.text))))
      && (c != ')' && c != '.' && c != '#' && c != ';' ==> r == ListNext(Syntax.Read(input)))
  {
    hide Syntax.ReadSharp;
    hide Syntax.Read;
    hide Syntax.ReadList;
    hide Syntax.ListDot;
    hide ListMore;
    hide Syntax.ConsumeLine;
  }

  /** The switch of read_list on the character `c`, which it has peeked at */
  method ListSwitch(port: Port, c: char) returns (t: Turn)
    requires port.Valid() && First(port.Rest()) == Ch(c) && !IsSpace(c)
    modifies port
    ensures Turned(t, Syntax.ListSwitch(c, old(In(port))), |old(port.Rest())|, port)
    decreases |port.Rest()|, 3
  {
    hide Until;
    hide Skip;
    hide Syntax.ReadSharp;
    hide Syntax.Read;
    hide Syntax.ReadList;
    hide Syntax.ListDot;
    hide ListMore;
    hide Syntax.ConsumeLine;
    ListCases(c, In(port));
    hide Syntax.ListSwitch;
    hide ListNext;
    hide Turned;
    match c
    case ')' =>
      t := ListEnd(port);
    case '.' =>
      var _ := ReadChar(port);
      t := ListDot(port);
    case '#' =>
      var _ := ReadChar(port);
      t := ListSharp(port);
    case ';' =>
      t := ListComment(port);
    case _ =>
      t := ListDatum(port);
  }

  /** read_list, at the parenthesis */
  method ListEnd(port: Port) returns (t: Turn)
    requires port.Valid() && port.Rest() != ""
    modifies port
    ensures Turned(t, Done(Nil, old(In(port)).(text := old(In(port)).text[1..])), |old(port.Rest())|, port)
  {
    var _ := ReadChar(port);
    return Last(Nil);
  }

  /** read_list, at a comment up to the end of the line */
  method ListComment(port: Port) returns (t: Turn)
    requires port.Valid() && port.Rest() != ""
    modifies port
    ensures var input := old(In(port));
      Turned(t, Syntax.ReadList(input.(text := Syntax.ConsumeLine(input.text))), |old(port.Rest())|, port)
  {
    hide Syntax.ReadList;
    ConsumeLine(port);
    return Again;
  }

  /** An element of a list; the file must not end here. */
  function ListNext(r: Parse): Parse {
    if !r.Done? then r else if r.value.EofObject? then Failed else Cons(r.value, Syntax.ReadList(r.rest))
  }

  /** navi_iread, as read_list calls it */
  method ListDatum(port: Port) returns (t: Turn)
    requires port.Valid() && port.Rest() != ""
    modifies port
    ensures Turned(t, ListNext(Syntax.Read(old(In(port)))), |old(port.Rest())|, port)
    decreases |port.Rest()|, 3, 0
  {
    hide Until;
    hide Syntax.Read;
    hide Syntax.ReadList;
    var r := Read(port);
    return if !r.Got? then Stop(r) else if r.value.EofObject? then Stop(ReadError) else Element(r.value);
  }

  /** read_list, after a sharp sign: an element, unless it is a comment */
  method ListSharp(port: Port) returns (t: Turn)
    requires port.Valid()
    modifies port
    ensures Turned(t, ListMore(Syntax.ReadSharp(old(In(port))), old(In(port))), 1 + |old(port.Rest())|, port)
    decreases |port.Rest()|, 5
  {
    hide Until;
    hide Syntax.ReadSharp;
    hide Syntax.ReadList;
    var r := ReadSharp(port);
    return if !r.Got? then Stop(r) else if r.value.Void? then Again else Element(r.value);
  }

  /** read_list, after a dot: a symbol or the tail */
  method ListDot(port: Port) returns (t: Turn)
    requires port.Valid()
    modifies port
    ensures Turned(t, Syntax.ListDot(old(In(port))), 1 + |old(port.Rest())|, port)
    decreases |port.Rest()|, 5
  {
    hide Until;
    hide Syntax.Read;
    hide Syntax.ReadList;
    hide CloseList;
    hide ReadSymbol;
    var c := PeekChar(port);
    if c == End {
      return Stop(ReadError);
    }
    if !IsTerminal(c.c) {
      var r := ReadSymbolUntilTerminal(port, ".");
      return Element(r.value);
    }
    t := ListTail(port);
  }

  /** The dotted tail of a list, and its parenthesis */
  method ListTail(port: Port) returns (t: Turn)
    requires port.Valid()
    modifies port
    ensures Turned(t, CloseList(Syntax.Read(old(In(port)))), 1 + |old(port.Rest())|, port)
    decreases |port.Rest()|, 3
  {
    hide Until;
    hide Skip;
    hide Syntax.Read;
    var r := Read(port);
    if !r.Got? {
      return Stop(r);
    }
    var c := PeekFirstChar(port);
    if c != Ch(')') {
      return Stop(ReadError);
    }
    var _ := ReadChar(port);
    return Last(r.value);
  }

  /** navi_list_to_vector of read_list */
  method ReadVector(port: Port) returns (r: Outcome)
    requires port.Valid()
    modifies port
    ensures Reads(r, AsVector(Syntax.ReadList(old(In(port)))), port)
    decreases |port.Rest()|, 6
  {
    r := ReadList(port);
    if r.Got? {
      var elems := ListElements(r.value);
      r := Got(Vector(elems));
    }
  }

  /** navi_list_for_each over a list */
  method ListElements(list: Datum) returns (elems: seq<Datum>)
    ensures elems == Elements(list)
  {
    elems := [];
    var cons := list;
    while cons.Pair?
      invariant Elements(list) == elems + Elements(cons)
      decreases cons
    {
      elems := elems + [cons.car];
      cons := cons.cdr;
    }
  }

  /** navi_list_to_bytevec of read_list */
  method ReadBytevec(port: Port) returns (r: Outcome)
    requires port.Valid()
    modifies port
    ensures Reads(r, AsBytevec(Syntax.ReadList(old(In(port)))), port)
    decreases |port.Rest()|, 6
  {
    r := ReadList(port);
    if r.Got? {
      var elems := ListElements(r.value);
      r := MakeBytevec(elems);
    }
  }

  /** The loop of navi_list_to_bytevec, which checks each element */
  method MakeBytevec(elems: seq<Datum>) returns (r: Outcome)
    ensures r == if ToBytes(elems).None? then ReadError else Got(Bytevec(ToBytes(elems).value))
  {
    var bytes: seq<int> := [];
    for i := 0 to |elems|
      invariant |bytes| == i
      invariant forall j :: 0 <= j < i ==> IsByte(elems[j]) && bytes[j] == elems[j].n
    {
      if !IsByte(elems[i]) {
        assert elems[i] in elems;
        return ReadError;
      }
      bytes := bytes + [elems[i].n];
    }
    assert forall d :: d in elems ==> IsByte(d);
    assert bytes == ToBytes(elems).value;
    return Got(Bytevec(bytes));
  }

  /** read_sharp */
  method ReadSharp(port: Port) returns (r: Outcome)
    requires port.Valid()
    modifies port
    ensures Reads(r, Syntax.ReadSharp(old(In(port))), port)
    decreases |port.Rest()|, 0
  {
    hide Until;
    hide Syntax.ReadList;
    hide Syntax.Read;
    hide ToBytes;
    var c := ReadChar(port);
    if c == End { return ReadError; }
    match c.c
    case 't' => r := ReadBoolean(port, 't');
    case 'f' => r := ReadBoolean(port, 'f');
    case '\\' => r := ReadCharacter(port);
    case '(' => r := ReadVector(port);
    case 'u' => r := ReadSharpU(port);
    case 'b' => r := ReadFixnum(port, 2, IsBinaryDigit);
    case 'o' => r := ReadFixnum(port, 8, IsOctalDigit);
    case 'x' => r := ReadFixnum(port, 16, IsHexDigit);
    case '!' => r := ReadSharpBang(port);
    case '#' => r := NotModelled;
    case ';' =>
      r := Read(port);
      if r.Got? { r := Got(Void); }
    case '|' => r := SkipBlock(port);
    case '/' => r := SkipLine(port);
    case _ => r := ReadError;
  }

  /** The bytevector syntax after `#u` */
  method ReadSharpU(port: Port) returns (r: Outcome)
    requires port.Valid()
    modifies port
    ensures var input := old(In(port));
      if |input.text| >= 2 && input.text[0] == '8' && input.text[1] == '(' then
        Reads(r, AsBytevec(Syntax.ReadList(input.(text := input.text[2..]))), port)
      else port.Valid() && r == ReadError
    decreases |port.Rest()|, 7
  {
    hide Syntax.ReadList;
    hide ToBytes;
    var c := ReadChar(port);
    if c != Ch('8') { return ReadError; }
    c := ReadChar(port);
    if c != Ch('(') { return ReadError; }
    r := ReadBytevec(port);
  }

  /** navi_sym_wrap of navi_read */
  method ReadWrapped(port: Port, symbol: string) returns (r: Outcome)
    requires port.Valid()
    modifies port
    ensures Reads(r, Wrap(symbol, Syntax.Read(old(In(port)))), port)
    decreases |port.Rest()|, 3
  {
    hide Syntax.Read;
    r := Read(port);
    if r.Got? {
      r := Got(Pair(Symbol(symbol), Pair(r.value, Nil)));
    }
  }

  /** The comma of navi_read */
  method ReadUnquote(port: Port) returns (r: Outcome)
    requires port.Valid()
    modifies port
    ensures Reads(r, Unquote(old(In(port))), port)
    decreases |port.Rest()|, 4
  {
    hide Syntax.Read;
    var c := PeekChar(port);
    if c == End {
      return ReadError;
    }
    if c == Ch('@') {
      var _ := ReadChar(port);
      r := ReadWrapped(port, "unquote-splice");
    } else {
      r := ReadWrapped(port, "unquote");
    }
  }

  /** What navi_read does about a sign that it has read */
  method ReadAfterSign(port: Port, c: char) returns (r: Outcome)
    requires port.Valid()
    modifies port`pos, port`buffer, port`bufferFull, port`gotEof
    ensures Reads(r, AfterSign(c, old(In(port))), port)
  {
    hide ReadNum;
    hide ReadSymbol;
    hide Fix;
    var sign := if c == '+' then 1 else -1;
    var d := PeekChar(port);
    if d.Ch? && IsDigit(d.c) {
      r := ReadFixnum(port, 10, IsDigit);
      return Got(Fixnum(Fix(r.value.n * sign)));
    }
    r := ReadSymbolUntilTerminal(port, [c]);
  }

  /** navi_read */
  method Read(port: Port) returns (r: Outcome)
    requires port.Valid()
    modifies port
    ensures Reads(r, Syntax.Read(old(In(port))), port)
    decreases |port.Rest()|, 2
  {
    hide Until;
    hide Syntax.ReadDatum;
    var c := PeekFirstChar(port);
    if c == End {
      return Got(EofObject);
    }
    r := ReadDatum(port, c.c);
  }

  lemma DatumCases(c: char, input: Input)
    requires input.text != "" && input.text[0] == c && !IsSpace(c)
    ensures var rest, r := input.(text := input.text[1..]), Syntax.ReadDatum(c, input);
      if IsDigit(c) then r == ReadNum(input, 10, IsDigit)
      else match c
        case '"' => r == Outside
        case '\'' => r == Wrap("quote", Syntax.Read(rest))
        case '`' => r == Wrap("quasiquote", Syntax.Read(rest))
        case ',' => r == Unquote(rest)
        case '#' => r == AfterVoid(Syntax.ReadSharp(rest), rest)
        case '(' => r == Syntax.ReadList(rest)
        case ')' => r == Failed
        case ';' => r == Syntax.Read(input.(text := Syntax.ConsumeLine(input.text)))
        case '|' => r == ReadBarSymbol(rest)
        case _ => r == if c == '+' || c == '-' then AfterSign(c, rest) else ReadSymbol(input, "")
  {
    hide Syntax.Read;
    hide Syntax.ReadList;
    hide Syntax.ReadSharp;
    hide ReadNum;
    hide ReadSymbol;
    hide ReadBarSymbol;
    hide Unquote;
    hide AfterSign;
    hide AfterVoid;
    hide Wrap;
  }

  /** A read that has ended without a datum */
  lemma Ended(port: Port)
    requires port.Valid()
    ensures Reads(ReadError, Failed, port) && Reads(NotModelled, Outside, port)
  {
  }

  /** navi_read, after a sharp sign: a comment is not a datum */
  method ReadAfterSharp(port: Port) returns (r: Outcome)
    requires port.Valid()
    modifies port
    ensures Reads(r, AfterVoid(Syntax.ReadSharp(old(In(port))), old(In(port))), port)
    decreases |port.Rest()|, 3
  {
    hide Syntax.ReadSharp;
    hide Syntax.Read;
    r := ReadSharp(port);
    if r == Got(Void) {
      r := Read(port);
    }
  }

  /** The switch of navi_read on the character `c`, which it has peeked at */
  method ReadDatum(port: Port, c: char) returns (r: Outcome)
    requires port.Valid() && First(port.Rest()) == Ch(c) && !IsSpace(c)
    modifies port
    ensures Reads(r, Syntax.ReadDatum(c, old(In(port))), port)
    decreases |port.Rest()|, 1
  {
    hide Until;
    hide Skip;
    hide Syntax.Read;
    hide Syntax.ReadList;
    hide Syntax.ReadSharp;
    hide ReadNum;
    hide ReadSymbol;
    hide ReadBarSymbol;
    hide Unquote;
    hide AfterSign;
    hide Wrap;
    DatumCases(c, In(port));
    Ended(port);
    hide Syntax.ReadDatum;
    hide AfterVoid;
    hide Reads;
    if IsDigit(c) {
      r := ReadFixnum(port, 10, IsDigit);
      return;
    }
    match c
    case '"' => r := NotModelled;
    case '\'' =>
      var _ := ReadChar(port);
      r := ReadWrapped(port, "quote");
    case '`' =>
      var _ := ReadChar(port);
      r := ReadWrapped(port, "quasiquote");
    case ',' =>
      var _ := ReadChar(port);
      r := ReadUnquote(port);
    case '#' =>
      var _ := ReadChar(port);
      r := ReadAfterSharp(port);
    case '(' =>
      var _ := ReadChar(port);
      r := ReadList(port);
    case ')' =>
      var _ := ReadChar(port);
      Ended(port);
      r := ReadError;
    case ';' =>
      ConsumeLine(port);
      r := Read(port);
    case '|' =>
      var _ := ReadChar(port);
      r := ReadSymbolUntilPipe(port);
    case '+' =>
      var _ := ReadChar(port);
      r := ReadAfterSign(port, c);
    case '-' =>
      var _ := ReadChar(port);
      r := ReadAfterSign(port, c);
    case _ =>
      r := ReadSymbolUntilTerminal(port, "");
  }
}
