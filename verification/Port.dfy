/** port.c: textual input ports on strings, with their one-character buffer. */
module Ports {

  /** A Scheme value that a port operation returns: the end-of-file object or a character. */
  datatype CharObj = EofObj | CharObj(code: int)

  const EOF := -1

  class Port {
    /** The string that is read, and the index of the next character in it. */
    const expr: string
    var pos: nat
    var buffer: int
    /** BUFFER_FULL, GOT_EOF and FOLD_CASE */
    var bufferFull: bool
    var gotEof: bool
    var foldCase: bool

    /** navi_open_input_string */
    constructor (s: string)
      ensures Valid() && Rest() == s && !foldCase
    {
      expr, pos, buffer := s, 0, 0;
      bufferFull, gotEof, foldCase := false, false, false;
    }

    ghost predicate Valid()
      reads this
    {
      && pos <= |expr| && (gotEof ==> pos == |expr|)
      && (bufferFull && !gotEof ==> pos > 0 && buffer == expr[pos - 1] as int)
    }

    /** What has not been delivered yet. */
    ghost function Rest(): string
      requires Valid()
      reads this
    {
      if gotEof then "" else if bufferFull then expr[pos - 1..] else expr[pos..]
    }

    /** string_read */
    method StringRead() returns (ch: int)
      requires pos <= |expr|
      modifies this`pos
      ensures pos <= |expr|
      ensures old(pos) == |expr| ==> ch == EOF && pos == old(pos)
      ensures old(pos) < |expr| ==> ch == expr[old(pos)] as int && pos == old(pos) + 1
    {
      if pos == |expr| {
        return EOF;
      }
      ch := expr[pos] as int;
      pos := pos + 1;
    }

    /** navi_port_buffer_char */
    method BufferChar()
      requires Valid() && !bufferFull && !gotEof
      modifies this`pos, this`buffer, this`gotEof
      ensures pos <= |expr| && expr[old(pos)..] == old(Rest())
      ensures old(Rest()) == "" ==> gotEof && buffer == EOF && pos == |expr|
      ensures old(Rest()) != "" ==> !gotEof && pos == old(pos) + 1 && buffer == old(Rest())[0] as int
    {
      buffer := StringRead();
      if buffer == EOF {
        gotEof := true;
      }
    }

    /** navi_port_read_char: delivers the next character, and at the end the end-of-file object for ever. */
    method PortReadChar() returns (ch: CharObj)
      requires Valid()
      modifies this`pos, this`buffer, this`bufferFull, this`gotEof
      ensures Valid()
      ensures old(Rest()) == "" ==> ch == EofObj && Rest() == ""
      ensures old(Rest()) != "" ==> ch == CharObj(old(Rest())[0] as int) && Rest() == old(Rest())[1..]
    {
      if gotEof {
        return EofObj;
      }
      if bufferFull {
        bufferFull := false;
        return CharObj(buffer);
      }
      BufferChar();
      if gotEof {
        return EofObj;
      }
      return CharObj(buffer);
    }

    /** navi_port_peek_char: consumes nothing; the first peek at the end gives the character -1. */
    method PortPeekChar() returns (ch: CharObj)
      requires Valid()
      modifies this`pos, this`buffer, this`bufferFull, this`gotEof
      ensures Valid() && Rest() == old(Rest())
      ensures Rest() == "" ==> gotEof && ch == if old(gotEof) then EofObj else CharObj(EOF)
      ensures Rest() != "" ==> ch == CharObj(Rest()[0] as int)
    {
      if gotEof {
        return EofObj;
      }
      if !bufferFull {
        BufferChar();
        bufferFull := true;
      }
      return CharObj(buffer);
    }
  }
}
