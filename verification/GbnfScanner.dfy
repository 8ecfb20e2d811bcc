/** The loops that scan a GBNF source, each computing what the reader says is there. */
module GbnfScanner {
  import opened Wrappers
  import opened Gbnf
  import opened GbnfReader

  method ParseSpace(src: string, start: nat, newlineOk: bool) returns (pos: nat)
    ensures pos == SpaceEnd(src, start, newlineOk)
  {
    pos := start;
    while At(src, pos) == ' ' || At(src, pos) == '\t' || At(src, pos) == '#' || (newlineOk && IsNewline(At(src, pos)))
      invariant SpaceEnd(src, start, newlineOk) == SpaceEnd(src, pos, newlineOk)
      decreases |src| - pos
    {
      if At(src, pos) == '#' {
        ghost var mark := pos;
        pos := pos + 1;
        while At(src, pos) != NUL && !IsNewline(At(src, pos))
          invariant mark < pos && LineEnd(src, mark + 1) == LineEnd(src, pos)
          decreases |src| - pos
        {
          pos := pos + 1;
        }
      } else {
        pos := pos + 1;
      }
    }
  }

  method ParseName(src: string, start: nat) returns (r: Result<nat, SyntaxError>)
    ensures r == if NameEnd(src, start) == start then Failure(ExpectingName) else Success(NameEnd(src, start))
  {
    var pos := start;
    while IsWordChar(At(src, pos))
      invariant NameEnd(src, start) == NameEnd(src, pos)
      decreases |src| - pos
    {
      pos := pos + 1;
    }
    r := if pos == start then Failure(ExpectingName) else Success(pos);
  }

  /** The sign of a definition, and the space around it. */
  method ParseSign(src: string, start: nat) returns (r: Result<nat, SyntaxError>)
    ensures r == ReadSign(src, start)
  {
    var pos := ParseSpace(src, start, false);
    if !(At(src, pos) == ':' && At(src, pos + 1) == ':' && At(src, pos + 2) == '=') {
      return Failure(ExpectingDefinition);
    }
    pos := ParseSpace(src, pos + 3, true);
    r := Success(pos);
  }

  method ParseClose(src: string, start: nat, nested: bool) returns (r: Result<nat, SyntaxError>)
    ensures r == ReadClose(src, start, nested)
  {
    if At(src, start) != ')' {
      return Failure(ExpectingParen);
    }
    var pos := ParseSpace(src, start + 1, nested);
    r := Success(pos);
  }

  method ParseInt(src: string, start: nat) returns (r: Result<nat, SyntaxError>)
    ensures r == if IntEnd(src, start) == start then Failure(ExpectingInt) else Success(IntEnd(src, start))
  {
    var pos := start;
    while IsDigitChar(At(src, pos))
      invariant IntEnd(src, start) == IntEnd(src, pos)
      decreases |src| - pos
    {
      pos := pos + 1;
    }
    r := if pos == start then Failure(ExpectingInt) else Success(pos);
  }

  method ParseHex(src: string, start: nat, size: nat) returns (r: Result<(Code, nat), SyntaxError>)
    ensures r == ReadHex(src, start, start + size, 0)
  {
    var pos := start;
    var value: nat := 0;
    while pos < start + size && At(src, pos) != NUL
      invariant pos <= start + size
      invariant ReadHex(src, start, start + size, 0) == ReadHex(src, pos, start + size, value)
    {
      var c := At(src, pos);
      var digit := 0;
      if 'a' <= c <= 'f' {
        digit := c as int - 'a' as int + 10;
      } else if 'A' <= c <= 'F' {
        digit := c as int - 'A' as int + 10;
      } else if IsDigitChar(c) {
        digit := c as int - '0' as int;
      } else {
        break;
      }
      pos, value := pos + 1, 16 * value + digit;
    }
    r := if pos != start + size then Failure(ExpectingHex) else Success((value, pos));
  }

  method DecodeUtf8(src: string, start: nat) returns (value: Code, pos: nat)
    requires start < |src|
    ensures (value, pos) == ReadUtf8(src, start)
  {
    var first := At(src, start) as int;
    var end := start + Utf8Length(first);
    value, pos := Utf8Lead(first), start + 1;
    while pos < end && At(src, pos) != NUL
      invariant ReadUtf8(src, start) == ReadContinuation(src, pos, end, value)
    {
      value := 64 * value + At(src, pos) as int % 64;
      pos := pos + 1;
    }
  }

  method ParseChar(src: string, pos: nat) returns (r: Result<(Code, nat), SyntaxError>)
    ensures r == ReadChar(src, pos)
  {
    if At(src, pos) == '\\' {
      match At(src, pos + 1)
      case 'x' => r := ParseHex(src, pos + 2, 2);
      case 'u' => r := ParseHex(src, pos + 2, 4);
      case 'U' => r := ParseHex(src, pos + 2, 8);
      case 't' => r := Success(('\t' as int, pos + 2));
      case 'r' => r := Success(('\r' as int, pos + 2));
      case 'n' => r := Success(('\n' as int, pos + 2));
      case '\\' => r := Success(('\\' as int, pos + 2));
      case '"' => r := Success(('"' as int, pos + 2));
      case '[' => r := Success(('[' as int, pos + 2));
      case ']' => r := Success((']' as int, pos + 2));
      case _ => r := Failure(UnknownEscape);
    } else if At(src, pos) != NUL {
      var value, end := DecodeUtf8(src, pos);
      r := Success((value, end));
    } else {
      r := Failure(UnexpectedEnd);
    }
  }
}
