/** display.c: the external representation that `write` gives a datum. */
module Printer {
  import opened Syntax

  // ----- what is written -----

  /** snprintf with `%ld` */
  function Decimal(n: int): (s: string)
    ensures s != ""
    decreases if n < 0 then 1 - n else n
  {
    if n < 0 then "-" + Decimal(-n)
    else if n < 10 then [Digit(n)]
    else Decimal(n / 10) + [Digit(n % 10)]
  }

  function Digit(n: int): char
    requires 0 <= n < 10
  {
    '0' + n as char
  }

  /** snprintf with `%lx` */
  function HexText(n: nat): string
  {
    if n < 16 then [HexDigit(n)] else HexText(n / 16) + [HexDigit(n % 16)]
  }

  function HexDigit(n: int): char
    requires 0 <= n < 16
  {
    if n < 10 then Digit(n) else 'a' + (n - 10) as char
  }

  /** The first entry of named_chars from `i` on with that value. */
  function NameFrom(code: int, i: nat): Option<string>
    decreases |NAMED_CHARS| - i
  {
    if i >= |NAMED_CHARS| then None
    else if NAMED_CHARS[i].1 == code then Some(NAMED_CHARS[i].0)
    else NameFrom(code, i + 1)
  }

  function ShowChar(code: int): string
  {
    var name := NameFrom(code, 0);
    if name.Some? then "#\\" + name.value
    else if code > 127 then "#\\x" + HexText(code)
    else CString("#\\" + [(code % 256) as char])
  }

  function Show(d: Datum): string
    decreases d, 1
  {
    match d
    case Void => ""
    case Nil => "()"
    case EofObject => "#!eof"
    case Bool(b) => if b then "#t" else "#f"
    case Fixnum(n) => Decimal(n)
    case Char(code) => ShowChar(code)
    case Symbol(name) => CString(name)
    case Pair(_, _) => "(" + ShowCdr(d, true)
    case Vector(elems) => if elems == [] then "#()" else "#(" + Show(elems[0]) + ShowFrom(d, 1)
    case Bytevec(bytes) => if bytes == [] then "#u8(" else "#u8(" + Decimal(bytes[0]) + ShowBytes(bytes[1..])
  }

  /** write_cdr: the rest of a list, up to its parenthesis. */
  function ShowCdr(cdr: Datum, head: bool): string
    requires head ==> cdr.Pair?
    decreases cdr, if head then 0 else 2
  {
    if cdr.Pair? then (if head then "" else " ") + Show(cdr.car) + ShowCdr(cdr.cdr, false)
    else if cdr.Nil? then ")"
    else " . " + Show(cdr) + ")"
  }

  /** The elements of a vector from `i` on, each after a space, and its parenthesis. */
  function ShowFrom(d: Datum, i: nat): string
    requires d.Vector? && i <= |d.elems|
    decreases d, 0, |d.elems| - i
  {
    if i == |d.elems| then ")" else " " + Show(d.elems[i]) + ShowFrom(d, i + 1)
  }

  function ShowBytes(bytes: seq<int>): string
  {
    if bytes == [] then ")" else " " + Decimal(bytes[0]) + ShowBytes(bytes[1..])
  }

  // ----- the writers -----

  lemma Joined(t: string, a: string, b: string, c: string)
    ensures t + a + b + c == t + (a + b + c)
  {
  }

  predicate NoNul(s: string) { forall i :: 0 <= i < |s| ==> s[i] != '\0' }

  lemma {:induction false} DecimalNoNul(n: int)
    ensures NoNul(Decimal(n))
    decreases if n < 0 then 1 - n else n
  {
    if n < 0 { DecimalNoNul(-n); } else if n >= 10 { DecimalNoNul(n / 10); }
  }

  lemma {:induction false} HexNoNul(n: nat)
    ensures NoNul(HexText(n))
  {
    if n >= 16 { HexNoNul(n / 16); }
  }

  lemma {:induction false} NameNoNul(code: int, i: nat)
    ensures NameFrom(code, i).Some? ==> NoNul(NameFrom(code, i).value)
    decreases |NAMED_CHARS| - i
  {
    if i < |NAMED_CHARS| {
      assert NoNul(NAMED_CHARS[i].0);
      NameNoNul(code, i + 1);
    }
  }

  /** Nothing in `d` is displayed byte by byte: symbols are, unless they are empty. */
  predicate SymbolFree(d: Datum) {
    match d
    case Symbol(name) => CString(name) == ""
    case Pair(car, cdr) => SymbolFree(car) && SymbolFree(cdr)
    case Vector(elems) => forall e :: e in elems ==> SymbolFree(e)
    case _ => true
  }

  lemma PrefixAfter(t: string, a: string, u: string, b: string, c: string)
    requires t + a <= u <= t + a + b
    ensures t <= u <= t + (a + b + c)
  {
    assert t + (a + b + c) == t + a + b + c;
    assert t <= t + a;
  }

  lemma NextCharacter(s: string, i: nat)
    requires i < |s| && s[i] != '\0'
    ensures s[..i + 1] == s[..i] + [s[i]] && Until(s[i..], IsNul) == 1 + Until(s[i + 1..], IsNul)
  {
    assert s[i..][1..] == s[i + 1..];
  }

  lemma LastCharacter(s: string, i: nat)
    requires i <= |s| && (i < |s| ==> s[i] == '\0') && Until(s, IsNul) == i + Until(s[i..], IsNul)
    ensures CString(s) == s[..i] && (NoNul(s) ==> i == |s| && s[..i] == s)
  {
  }

  /**
   * An output port, and what has been written to it: a port that takes bytes, as a file does, or one that takes
   * characters, as the port of open-output-string does.
   */
  class OutPort {
    /** write_u8 is set; otherwise write_char is. */
    const bytes: bool
    var text: string

    constructor (bytes: bool)
      ensures this.bytes == bytes && text == ""
    {
      this.bytes := bytes;
      text := "";
    }

    /** navi_port_write_byte, with check_can_write_u8: false stands for its error. */
    method WriteByte(c: char) returns (ok: bool)
      modifies this
      ensures ok == bytes && text == if ok then old(text) + [c] else old(text)
    {
      if !bytes {
        return false;
      }
      text := text + [c];
      return true;
    }

    /** navi_port_write_char: on a port that takes bytes a character of ASCII is one byte. */
    method PutChar(c: char)
      modifies this
      ensures text == old(text) + [c]
    {
      text := text + [c];
    }

    /** navi_port_write_cstr: up to the first null character */
    method WriteCstr(str: string)
      modifies this
      ensures text == old(text) + CString(str)
      ensures NoNul(str) ==> text == old(text) + str
    {
      var i := 0;
      while i < |str| && str[i] != '\0'
        invariant 0 <= i <= |str| && text == old(text) + str[..i]
        invariant Until(str, IsNul) == i + Until(str[i..], IsNul)
      {
        NextCharacter(str, i);
        if bytes {
          var _ := WriteByte(str[i]);
        } else {
          PutChar(str[i]);
        }
        i := i + 1;
      }
      LastCharacter(str, i);
    }

    /** write_symbol: byte by byte, on either kind of port */
    method WriteSymbol(name: string) returns (ok: bool)
      modifies this
      ensures ok <==> bytes || CString(name) == ""
      ensures text == if ok then old(text) + CString(name) else old(text)
    {
      var i := 0;
      while i < |name| && name[i] != '\0'
        invariant 0 <= i <= |name| && text == old(text) + name[..i] && (i > 0 ==> bytes)
        invariant Until(name, IsNul) == i + Until(name[i..], IsNul)
      {
        NextCharacter(name, i);
        ok := WriteByte(name[i]);
        if !ok {
          return;
        }
        i := i + 1;
      }
      return true;
    }

    /**
     * _navi_display, with `write` set: all of Show(d), on a port that takes bytes always, on another exactly if there
     * is no symbol in the way; otherwise it fails, with a part written.
     */
    method Display(d: Datum) returns (ok: bool)
      modifies this
      ensures ok <==> bytes || SymbolFree(d)
      ensures if ok then text == old(text) + Show(d) else old(text) <= text <= old(text) + Show(d)
      decreases d, 2
    {
      hide Until;
      hide Decimal;
      ok := true;
      match d
      case Void =>
      case Nil => WriteCstr("()");
      case EofObject => WriteCstr("#!eof");
      case Bool(b) => WriteCstr(if b then "#t" else "#f");
      case Fixnum(n) => WriteFixnum(n);
      case Char(code) => WriteChar(code);
      case Symbol(name) => ok := WriteSymbol(name);
      case Pair(_, _) => ok := WritePair(d);
      case Vector(_) => ok := WriteVector(d);
      case Bytevec(bytes) => WriteBytevec(bytes);
    }

    /** write_fixnum */
    method WriteFixnum(n: int)
      modifies this
      ensures text == old(text) + Decimal(n)
    {
      DecimalNoNul(n);
      WriteCstr(Decimal(n));
    }

    /** navi_char_name */
    method CharName(code: int) returns (r: Option<string>)
      ensures r == NameFrom(code, 0)
    {
      for i := 0 to |NAMED_CHARS|
        invariant NameFrom(code, i) == NameFrom(code, 0)
      {
        if NAMED_CHARS[i].1 == code {
          return Some(NAMED_CHARS[i].0);
        }
      }
      return None;
    }

    /** write_char */
    method WriteChar(code: int)
      modifies this
      ensures text == old(text) + ShowChar(code)
    {
      hide Until;
      var name := CharName(code);
      if name.Some? {
        NameNoNul(code, 0);
        WriteCstr("#\\" + name.value);
      } else if code > 127 {
        HexNoNul(code);
        WriteCstr("#\\x" + HexText(code));
      } else {
        WriteCstr("#\\" + [(code % 256) as char]);
      }
    }

    /** write_pair */
    method WritePair(d: Datum) returns (ok: bool)
      requires d.Pair?
      modifies this
      ensures ok <==> bytes || SymbolFree(d)
      ensures if ok then text == old(text) + Show(d) else old(text) <= text <= old(text) + Show(d)
      decreases d, 1
    {
      hide Until;
      hide CString;
      hide ShowCdr;
      ghost var t := text;
      WriteCstr("(");
      ok := WriteCdr(d, true);
      assert t + "(" + ShowCdr(d, true) == t + ("(" + ShowCdr(d, true));
      assert t <= t + "(";
    }

    /** write_cdr */
    method WriteCdr(cdr: Datum, head: bool) returns (ok: bool)
      requires head ==> cdr.Pair?
      modifies this
      ensures ok <==> bytes || SymbolFree(cdr)
      ensures if ok then text == old(text) + ShowCdr(cdr, head) else old(text) <= text <= old(text) + ShowCdr(cdr, head)
      decreases cdr, if head then 0 else 3
    {
      hide Until;
      hide Show;
      hide CString;
      match cdr
      case Pair(car, rest) => ok := WriteMore(car, rest, head);
      case Nil =>
        WriteCstr(")");
        ok := true;
      case _ => ok := WriteTail(cdr);
    }

    /** write_cdr on a pair: a space, unless it is the first, the car and the rest */
    method WriteMore(car: Datum, rest: Datum, head: bool) returns (ok: bool)
      modifies this
      ensures ok <==> bytes || (SymbolFree(car) && SymbolFree(rest))
      ensures var s := (if head then "" else " ") + Show(car) + ShowCdr(rest, false);
        if ok then text == old(text) + s else old(text) <= text <= old(text) + s
      decreases Datum.Pair(car, rest), if head then 0 else 3, 0
    {
      hide Until;
      hide Show;
      hide CString;
      hide ShowCdr;
      hide SymbolFree;
      ghost var t, a := text, if head then "" else " ";
      if !head { WriteCstr(" "); }
      assert text == t + a;
      ok := Display(car);
      Joined(t, a, Show(car), ShowCdr(rest, false));
      if !ok {
        PrefixAfter(t, a, text, Show(car), ShowCdr(rest, false));
        return;
      }
      ok := WriteCdr(rest, false);
      if !ok {
        assert t + a + Show(car) == t + (a + Show(car));
        assert t <= t + (a + Show(car));
      }
    }

    /** write_cdr on the tail of a dotted list */
    method WriteTail(cdr: Datum) returns (ok: bool)
      modifies this
      ensures ok <==> bytes || SymbolFree(cdr)
      ensures var s := " . " + Show(cdr) + ")";
        if ok then text == old(text) + s else old(text) <= text <= old(text) + s
      decreases cdr, 3, 0
    {
      hide Until;
      hide Show;
      hide CString;
      hide SymbolFree;
      ghost var t := text;
      WriteCstr(" . ");
      ok := Display(cdr);
      Joined(t, " . ", Show(cdr), ")");
      if !ok {
        PrefixAfter(t, " . ", text, Show(cdr), ")");
        return;
      }
      WriteCstr(")");
    }

    /** write_vector */
    method WriteVector(d: Datum) returns (ok: bool)
      requires d.Vector?
      modifies this
      ensures ok <==> bytes || SymbolFree(d)
      ensures if ok then text == old(text) + Show(d) else old(text) <= text <= old(text) + Show(d)
      decreases d, 1
    {
      hide Until;
      hide CString;
      hide ShowFrom;
      if |d.elems| == 0 {
        WriteCstr("#()");
        return true;
      }
      ghost var t, first := text, Show(d.elems[0]);
      WriteCstr("#(");
      ok := Display(d.elems[0]);
      Joined(t, "#(", first, ShowFrom(d, 1));
      if !ok {
        PrefixAfter(t, "#(", text, first, ShowFrom(d, 1));
        return;
      }
      assert t <= t + "#(" + first;
      ok := WriteFrom(d);
    }

    /** The loop of write_vector, behind the first element */
    method WriteFrom(d: Datum) returns (ok: bool)
      requires d.Vector? && d.elems != []
      modifies this
      ensures ok <==> bytes || forall i :: 1 <= i < |d.elems| ==> SymbolFree(d.elems[i])
      ensures if ok then text == old(text) + ShowFrom(d, 1) else old(text) <= text <= old(text) + ShowFrom(d, 1)
      decreases d, 0
    {
      hide Until;
      hide CString;
      hide Show;
      hide SymbolFree;
      ghost var t := text;
      for i := 1 to |d.elems|
        invariant text + ShowFrom(d, i) == t + ShowFrom(d, 1) && t <= text
        invariant bytes || forall j :: 1 <= j < i ==> SymbolFree(d.elems[j])
      {
        ghost var u := text;
        Joined(u, " ", Show(d.elems[i]), ShowFrom(d, i + 1));
        WriteCstr(" ");
        ok := Display(d.elems[i]);
        if !ok {
          PrefixAfter(u, " ", text, Show(d.elems[i]), ShowFrom(d, i + 1));
          return;
        }
        assert u <= text;
      }
      WriteCstr(")");
      ok := true;
    }

    /** write_bytevec */
    method WriteBytevec(bytes: seq<int>)
      modifies this
      ensures text == old(text) + Show(Bytevec(bytes))
    {
      hide Until;
      hide Decimal;
      if |bytes| == 0 {
        WriteCstr("#u8(");
        return;
      }
      WriteCstr("#u8(");
      WriteFixnum(bytes[0]);
      ghost var t := text;
      for i := 1 to |bytes|
        invariant text + ShowBytes(bytes[i..]) == t + ShowBytes(bytes[1..])
      {
        assert bytes[i..][1..] == bytes[i + 1..];
        Joined(text, " ", Decimal(bytes[i]), ShowBytes(bytes[i + 1..]));
        WriteCstr(" ");
        WriteFixnum(bytes[i]);
      }
      WriteCstr(")");
      Joined(old(text), "#u8(", Decimal(bytes[0]), ShowBytes(bytes[1..]));
    }
  }
}
