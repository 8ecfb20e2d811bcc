/** The loops of the parser that read literals, character sets and repetition bounds. */
module GbnfTerminals {
  import opened Wrappers
  import opened Gbnf
  import opened GrammarTable
  import opened Lowering
  import opened GbnfReader
  import opened GbnfScanner
  import opened ParseStore

  function TerminalElems(item: Expr): seq<Elem>
    requires item.Lit? || item.Class? || item.AnyChar?
  {
    match item
    case Lit(text) => LitElems(text)
    case Class(negated, ranges) => ClassElems(negated, ranges)
    case AnyChar => [CharAny]
  }

  method ParseLiteral(src: string, start: nat, out: seq<Elem>) returns (r: Result<nat, SyntaxError>, out': seq<Elem>)
    ensures match ReadLiteral(src, start, [])
      case Failure(e) => r == Failure(e)
      case Success(read) => r == Success(read.1) && out' == out + LitElems(read.0)
  {
    var pos := start;
    ghost var text: Text := [];
    out' := out;
    while At(src, pos) != '"'
      invariant ReadLiteral(src, start, []) == ReadLiteral(src, pos, text)
      invariant out' == out + LitElems(text)
      decreases |src| - pos
    {
      if At(src, pos) == NUL {
        return Failure(UnexpectedEnd), out';
      }
      var ch := ParseChar(src, pos);
      if ch.Failure? {
        return Failure(ch.error), out';
      }
      pos := ch.value.1;
      out' := out' + [Char(ch.value.0)];
      assert LitElems(text + [ch.value.0]) == LitElems(text) + [Char(ch.value.0)];
      text := text + [ch.value.0];
    }
    r := Success(pos);
  }

  /** One member of a character set, begun by an element of the kind of `lead`. */
  method ParseRange(src: string, start: nat, first: bool, negated: bool, out: seq<Elem>)
    returns (r: Result<nat, SyntaxError>, out': seq<Elem>)
    ensures match ReadRange(src, start)
      case Failure(e) => r == Failure(e)
      case Success(read) =>
        && r == Success(read.1)
        && var c := First(read.0);
        out' == out + RangeElems(if !first then CharAlt(c) else if negated then CharNot(c) else Char(c), read.0)
  {
    out' := out;
    var ch := ParseChar(src, start);
    if ch.Failure? {
      return Failure(ch.error), out';
    }
    var (c, pos) := ch.value;
    out' := out' + [if !first then CharAlt(c) else if negated then CharNot(c) else Char(c)];
    if At(src, pos) == '-' && At(src, pos + 1) != ']' {
      if At(src, pos + 1) == NUL {
        return Failure(UnexpectedEnd), out';
      }
      var ch' := ParseChar(src, pos + 1);
      if ch'.Failure? {
        return Failure(ch'.error), out';
      }
      pos := ch'.value.1;
      out' := out' + [RngUpper(ch'.value.0)];
    }
    r := Success(pos);
  }

  method ParseClass(src: string, start: nat, negated: bool, out: seq<Elem>)
    returns (r: Result<nat, SyntaxError>, out': seq<Elem>)
    ensures match ReadClass(src, start, [])
      case Failure(e) => r == Failure(e)
      case Success(read) => r == Success(read.1) && out' == out + ClassElems(negated, read.0)
  {
    var pos := start;
    ghost var ranges: seq<CharRange> := [];
    out' := out;
    while At(src, pos) != ']'
      invariant ReadClass(src, start, []) == ReadClass(src, pos, ranges)
      invariant out' == out + ClassElems(negated, ranges)
      decreases |src| - pos
    {
      if At(src, pos) == NUL {
        return Failure(UnexpectedEnd), out';
      }
      ClassElemsShape(negated, ranges);
      ghost var range := ReadRange(src, pos);
      r, out' := ParseRange(src, pos, |out| == |out'|, negated, out');
      if r.Failure? {
        return;
      }
      ClassElemsAppend(negated, ranges, range.value.0);
      ranges := ranges + [range.value.0];
      pos := r.value;
    }
    r := Success(pos);
  }

  method ParseUpperBound(src: string, start: nat, nested: bool) returns (max: int, pos: nat)
    ensures var read := ReadUpperBound(src, start, nested);
            pos == read.1 && max == if read.0.Some? then read.0.value else -1
  {
    max, pos := -1, start;
    if IsDigitChar(At(src, pos)) {
      var intEnd := ParseInt(src, pos);
      max := IntValue(src, pos, intEnd.value);
      pos := ParseSpace(src, intEnd.value, nested);
    }
  }

  /** The upper bound and the end of a repetition written with braces; an absent upper bound is -1. */
  method ParseRestOfBounds(src: string, start: nat, minTimes: nat, nested: bool)
    returns (r: Result<(int, nat), SyntaxError>)
    ensures match ReadRestOfBounds(src, start, minTimes, nested)
      case Failure(e) => r == Failure(e)
      case Success(read) => r == Success((if read.0.max.Some? then read.0.max.value else -1, read.1))
  {
    var maxTimes: int, pos := -1, start;
    if At(src, pos) == '}' {
      maxTimes := minTimes;
    } else if At(src, pos) == ',' {
      pos := ParseSpace(src, pos + 1, nested);
      maxTimes, pos := ParseUpperBound(src, pos, nested);
      if At(src, pos) != '}' {
        return Failure(ExpectingBrace);
      }
    } else {
      return Failure(ExpectingComma);
    }
    pos := ParseSpace(src, pos + 1, nested);
    r := Success((maxTimes, pos));
  }

  method ParseBounds(src: string, start: nat, nested: bool) returns (r: Result<(nat, int, nat), SyntaxError>)
    ensures match ReadBounds(src, start, nested)
      case Failure(e) => r == Failure(e)
      case Success(read) => r == Success((read.0.min, if read.0.max.Some? then read.0.max.value else -1, read.1))
  {
    if !IsDigitChar(At(src, start)) {
      return Failure(ExpectingInt);
    }
    var intEnd := ParseInt(src, start);
    var minTimes := IntValue(src, start, intEnd.value);
    var pos := ParseSpace(src, intEnd.value, nested);
    var rest :- ParseRestOfBounds(src, pos, minTimes, nested);
    r := Success((minTimes, rest.0, rest.1));
  }

  /** The elements of `out` from `last` on, `minTimes` times. */
  method RepeatPrevious(out: seq<Elem>, last: nat, minTimes: nat) returns (out': seq<Elem>)
    requires last <= |out|
    ensures out' == out[..last] + Repeat(out[last..], minTimes)
  {
    var previous := out[last..];
    out' := out;
    if minTimes == 0 {
      out' := out[..last];
    } else {
      for i := 1 to minTimes
        invariant out' == out[..last] + Repeat(previous, i)
      {
        RepeatAppend(previous, i);
        out' := out' + previous;
      }
    }
  }

  method ParseMark(src: string, start: nat, nested: bool) returns (r: Result<(nat, int, nat), SyntaxError>)
    requires IsMark(At(src, start))
    ensures match ReadMark(src, start, nested)
      case Failure(e) => r == Failure(e)
      case Success(read) => r == Success((read.0.min, if read.0.max.Some? then read.0.max.value else -1, read.1))
  {
    var pos := ParseSpace(src, start + 1, nested);
    match At(src, start)
    case '*' => r := Success((0, -1, pos));
    case '+' => r := Success((1, -1, pos));
    case '?' => r := Success((0, 1, pos));
    case _ => r := ParseBounds(src, pos, nested);
  }

  /** A literal, a character set or a dot, and the space after it. */
  method ParseTerminal(src: string, start: nat, out: seq<Elem>, nested: bool)
    returns (r: Result<nat, SyntaxError>, out': seq<Elem>)
    requires StartsTerminal(At(src, start))
    ensures match ReadTerminal(src, start, nested)
      case Failure(e) => r == Failure(e)
      case Success(read) => r == Success(read.1) && out' == out + TerminalElems(read.0)
  {
    if At(src, start) == '"' {
      r, out' := ParseLiteral(src, start + 1, out);
    } else if At(src, start) == '[' {
      var negated := At(src, start + 1) == '^';
      r, out' := ParseClass(src, if negated then start + 2 else start + 1, negated, out);
    } else {
      r, out' := Success(start), out + [CharAny];
    }
    if r.Success? {
      var pos := ParseSpace(src, r.value + 1, nested);
      r := Success(pos);
    }
  }
}
