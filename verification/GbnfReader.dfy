/**
  What a GBNF source text says: the expression, or the error, found at each position of the text.
  A source is a string of bytes that ends at its first NUL, or at its end.
 */
module GbnfReader {
  import opened Wrappers
  import opened Gbnf

  datatype SyntaxError =
    | UnexpectedEnd
    | ExpectingHex
    | ExpectingName
    | ExpectingInt
    | UnknownEscape
    | ExpectingItem
    | ExpectingParen
    | ExpectingBrace
    | ExpectingComma
    | ExpectingDefinition
    | ExpectingNewline
    | UndefinedRule

  const NUL := '\0'

  function At(src: string, pos: nat): char {
    if pos < |src| then src[pos] else NUL
  }

  predicate IsDigitChar(c: char) {
    '0' <= c <= '9'
  }

  predicate IsWordChar(c: char) {
    'a' <= c <= 'z' || 'A' <= c <= 'Z' || c == '-' || IsDigitChar(c)
  }

  predicate IsNewline(c: char) {
    c == '\r' || c == '\n'
  }

  // ---------------------------------------------------------------------------------------------
  // Scanning

  function LineEnd(src: string, pos: nat): (end: nat)
    ensures pos <= end && (pos <= |src| ==> end <= |src|)
    decreases |src| - pos
  {
    if At(src, pos) == NUL || IsNewline(At(src, pos)) then pos else LineEnd(src, pos + 1)
  }

  function SpaceEnd(src: string, pos: nat, newlineOk: bool): (end: nat)
    ensures pos <= end && (pos <= |src| ==> end <= |src|)
    decreases |src| - pos
  {
    var c := At(src, pos);
    if c == ' ' || c == '\t' || (newlineOk && IsNewline(c)) then SpaceEnd(src, pos + 1, newlineOk)
    else if c == '#' then SpaceEnd(src, LineEnd(src, pos + 1), newlineOk)
    else pos
  }

  function NameEnd(src: string, pos: nat): (end: nat)
    ensures pos <= end && (pos <= |src| ==> end <= |src|)
    ensures forall i :: pos <= i < end ==> i < |src| && IsWordChar(src[i])
    decreases |src| - pos
  {
    if IsWordChar(At(src, pos)) then NameEnd(src, pos + 1) else pos
  }

  function IntEnd(src: string, pos: nat): (end: nat)
    ensures pos <= end && (pos <= |src| ==> end <= |src|)
    ensures forall i :: pos <= i < end ==> i < |src| && IsDigitChar(src[i])
    decreases |src| - pos
  {
    if IsDigitChar(At(src, pos)) then IntEnd(src, pos + 1) else pos
  }

  /** The number written from `pos` to `end`. */
  function IntValue(src: string, pos: nat, end: nat): nat
    requires pos <= end <= |src|
    requires forall i :: pos <= i < end ==> IsDigitChar(src[i])
    decreases end
  {
    if pos == end then 0
    else
      assert IsDigitChar(src[end - 1]);
      10 * IntValue(src, pos, end - 1) + (src[end - 1] as int - '0' as int)
  }

  // ---------------------------------------------------------------------------------------------
  // Characters

  function HexDigit(c: char): Option<nat> {
    if 'a' <= c <= 'f' then Some(c as int - 'a' as int + 10)
    else if 'A' <= c <= 'F' then Some(c as int - 'A' as int + 10)
    else if IsDigitChar(c) then Some(c as int - '0' as int)
    else None
  }

  /** The hexadecimal digits from `pos` to `end`, appended to those of `value`. */
  function ReadHex(src: string, pos: nat, end: nat, value: nat): (r: Result<(Code, nat), SyntaxError>)
    requires pos <= end
    ensures r.Success? ==> r.value.1 == end && (end <= |src| || end == pos)
    decreases end - pos
  {
    if pos == end then Success((value, pos))
    else match HexDigit(At(src, pos))
      case None => Failure(ExpectingHex)
      case Some(d) => ReadHex(src, pos + 1, end, 16 * value + d)
  }

  /** How many bytes a UTF-8 sequence has, going by its first. */
  function Utf8Length(first: nat): (len: nat)
    ensures 1 <= len <= 4
  {
    if first < 0xC0 then 1 else if first < 0xE0 then 2 else if first < 0xF0 then 3 else 4
  }

  function Utf8Lead(first: nat): nat {
    match Utf8Length(first)
    case 1 => first % 0x80
    case 2 => first % 0x40
    case 3 => first % 0x20
    case _ => first % 0x10
  }

  /** The continuation bytes from `pos` to `end`, or to the end of the source if that comes first. */
  function ReadContinuation(src: string, pos: nat, end: nat, value: nat): (r: (Code, nat))
    ensures pos <= r.1 && (pos <= |src| ==> r.1 <= |src|)
    decreases end - pos
  {
    if pos < end && At(src, pos) != NUL then
      ReadContinuation(src, pos + 1, end, 64 * value + At(src, pos) as int % 64)
    else (value, pos)
  }

  function ReadUtf8(src: string, pos: nat): (r: (Code, nat))
    requires pos < |src|
    ensures pos < r.1 <= |src|
  {
    var first := At(src, pos) as int;
    ReadContinuation(src, pos + 1, pos + Utf8Length(first), Utf8Lead(first))
  }

  function ReadChar(src: string, pos: nat): (r: Result<(Code, nat), SyntaxError>)
    ensures r.Success? ==> pos < r.value.1 <= |src|
  {
    var c, e := At(src, pos), At(src, pos + 1);
    if c == '\\' then
      if e == 'x' then ReadHex(src, pos + 2, pos + 4, 0)
      else if e == 'u' then ReadHex(src, pos + 2, pos + 6, 0)
      else if e == 'U' then ReadHex(src, pos + 2, pos + 10, 0)
      else if e == 't' then Success(('\t' as int, pos + 2))
      else if e == 'r' then Success(('\r' as int, pos + 2))
      else if e == 'n' then Success(('\n' as int, pos + 2))
      else if e == '\\' || e == '"' || e == '[' || e == ']' then Success((e as int, pos + 2))
      else Failure(UnknownEscape)
    else if c != NUL then Success(ReadUtf8(src, pos))
    else Failure(UnexpectedEnd)
  }

  /** The characters up to the closing quote, and where that quote is. */
  function ReadLiteral(src: string, pos: nat, text: Text): (r: Result<(Text, nat), SyntaxError>)
    ensures r.Success? ==> pos <= r.value.1 < |src|
    decreases |src| - pos
  {
    if At(src, pos) == '"' then Success((text, pos))
    else if At(src, pos) == NUL then Failure(UnexpectedEnd)
    else
      var (c, p) :- ReadChar(src, pos);
      ReadLiteral(src, p, text + [c])
  }

  /** One member of a character set. */
  function ReadRange(src: string, pos: nat): (r: Result<(CharRange, nat), SyntaxError>)
    ensures r.Success? ==> pos < r.value.1 <= |src|
  {
    var (c, p) :- ReadChar(src, pos);
    if At(src, p) == '-' && At(src, p + 1) != ']' then
      if At(src, p + 1) == NUL then Failure(UnexpectedEnd)
      else
        var (d, q) :- ReadChar(src, p + 1);
        Success((Span(c, d), q))
    else Success((One(c), p))
  }

  /** The members of a character set up to the closing bracket, and where that bracket is. */
  function ReadClass(src: string, pos: nat, ranges: seq<CharRange>): (r: Result<(seq<CharRange>, nat), SyntaxError>)
    ensures r.Success? ==> pos <= r.value.1 < |src|
    decreases |src| - pos
  {
    if At(src, pos) == ']' then Success((ranges, pos))
    else if At(src, pos) == NUL then Failure(UnexpectedEnd)
    else
      var (range, p) :- ReadRange(src, pos);
      ReadClass(src, p, ranges + [range])
  }

  // ---------------------------------------------------------------------------------------------
  // Expressions

  datatype Bounds = Bounds(min: nat, max: Option<nat>)

  /** The upper bound of a repetition, if there is one, and where the text goes on after it. */
  function ReadUpperBound(src: string, pos: nat, nested: bool): (r: (Option<nat>, nat))
    ensures pos <= r.1 && (pos <= |src| ==> r.1 <= |src|)
  {
    if IsDigitChar(At(src, pos)) then
      (Some(IntValue(src, pos, IntEnd(src, pos))), SpaceEnd(src, IntEnd(src, pos), nested))
    else (None, pos)
  }

  /** What follows the lower bound `min` of a repetition written with braces. */
  function ReadRestOfBounds(src: string, pos: nat, min: nat, nested: bool): (r: Result<(Bounds, nat), SyntaxError>)
    ensures r.Success? ==> pos < r.value.1 <= |src|
  {
    if At(src, pos) == '}' then Success((Bounds(min, Some(min)), SpaceEnd(src, pos + 1, nested)))
    else if At(src, pos) == ',' then
      var (max, q) := ReadUpperBound(src, SpaceEnd(src, pos + 1, nested), nested);
      if At(src, q) != '}' then Failure(ExpectingBrace)
      else Success((Bounds(min, max), SpaceEnd(src, q + 1, nested)))
    else Failure(ExpectingComma)
  }

  /** A repetition written with braces, from its first bound on. */
  function ReadBounds(src: string, pos: nat, nested: bool): (r: Result<(Bounds, nat), SyntaxError>)
    ensures r.Success? ==> pos < r.value.1 <= |src|
  {
    if !IsDigitChar(At(src, pos)) then Failure(ExpectingInt)
    else
      var end := IntEnd(src, pos);
      ReadRestOfBounds(src, SpaceEnd(src, end, nested), IntValue(src, pos, end), nested)
  }

  /** Whether an item leaves anything behind that a repetition mark can apply to. */
  predicate Emits(item: Expr) {
    match item
    case Lit(text) => text != []
    case Class(_, ranges) => ranges != []
    case Rep(_, min, max) => min > 0 || max.None? || max.value > 0
    case _ => true
  }

  /** The sequence `acc` with its last item repeated. */
  function Repeated(acc: Expr, bounds: Bounds): Result<Expr, SyntaxError> {
    if acc.Cat? && Emits(acc.right) then Success(Cat(acc.left, Rep(acc.right, bounds.min, bounds.max)))
    else Failure(ExpectingItem)
  }

  predicate StartsTerminal(c: char) {
    c == '"' || c == '[' || c == '.'
  }

  predicate StartsItem(c: char) {
    StartsTerminal(c) || IsWordChar(c) || c == '('
  }

  predicate IsMark(c: char) {
    c == '*' || c == '+' || c == '?' || c == '{'
  }

  /** A literal, character set or any character, and where the text goes on after it. */
  function ReadTerminal(src: string, pos: nat, nested: bool): (r: Result<(Expr, nat), SyntaxError>)
    requires StartsTerminal(At(src, pos))
    ensures r.Success? ==> pos < r.value.1 <= |src|
    ensures r.Success? ==> r.value.0.Lit? || r.value.0.Class? || r.value.0.AnyChar?
  {
    var c := At(src, pos);
    if c == '"' then
      var (text, p) :- ReadLiteral(src, pos + 1, []);
      Success((Lit(text), SpaceEnd(src, p + 1, nested)))
    else if c == '[' then
      var negated := At(src, pos + 1) == '^';
      var (ranges, p) :- ReadClass(src, if negated then pos + 2 else pos + 1, []);
      Success((Class(negated, ranges), SpaceEnd(src, p + 1, nested)))
    else Success((AnyChar, SpaceEnd(src, pos + 1, nested)))
  }

  /** The closing parenthesis of a group, and where the text goes on after it. */
  function ReadClose(src: string, pos: nat, nested: bool): (r: Result<nat, SyntaxError>)
    ensures r.Success? ==> pos < r.value <= |src|
  {
    if At(src, pos) != ')' then Failure(ExpectingParen) else Success(SpaceEnd(src, pos + 1, nested))
  }

  /** A literal, character set, reference or group, and where the text goes on after it. */
  function ReadItem(src: string, pos: nat, nested: bool): (r: Result<(Expr, nat), SyntaxError>)
    requires StartsItem(At(src, pos))
    ensures r.Success? ==> pos < r.value.1 <= |src|
    ensures r.Success? ==> !r.value.0.Empty? && !r.value.0.Cat? && !r.value.0.Alt?
    decreases |src| - pos, 0
  {
    var c := At(src, pos);
    if StartsTerminal(c) then ReadTerminal(src, pos, nested)
    else if IsWordChar(c) then
      var end := NameEnd(src, pos);
      Success((Ref(src[pos..end]), SpaceEnd(src, end, nested)))
    else
      var (body, p) :- ReadAlternates(src, SpaceEnd(src, pos + 1, true), true);
      var next :- ReadClose(src, p, nested);
      Success((Group(body), next))
  }

  /** A repetition mark, and where the text goes on after it. */
  function ReadMark(src: string, pos: nat, nested: bool): (r: Result<(Bounds, nat), SyntaxError>)
    requires IsMark(At(src, pos))
    ensures r.Success? ==> pos < r.value.1 <= |src|
  {
    var p := SpaceEnd(src, pos + 1, nested);
    match At(src, pos)
    case '*' => Success((Bounds(0, None), p))
    case '+' => Success((Bounds(1, None), p))
    case '?' => Success((Bounds(0, Some(1)), p))
    case _ => ReadBounds(src, p, nested)
  }

  /** The items from `pos` on, put after those of `acc`. */
  function ReadSequence(src: string, pos: nat, nested: bool, acc: Expr): (r: Result<(Expr, nat), SyntaxError>)
    ensures r.Success? ==> pos <= r.value.1 && (pos <= |src| ==> r.value.1 <= |src|)
    decreases |src| - pos, 1
  {
    if StartsItem(At(src, pos)) then
      var (item, p) :- ReadItem(src, pos, nested);
      ReadSequence(src, p, nested, Cat(acc, item))
    else if IsMark(At(src, pos)) then
      var (bounds, p) :- ReadMark(src, pos, nested);
      var acc' :- Repeated(acc, bounds);
      ReadSequence(src, p, nested, acc')
    else Success((acc, pos))
  }

  function ReadAlternates(src: string, pos: nat, nested: bool): (r: Result<(Expr, nat), SyntaxError>)
    ensures r.Success? ==> pos <= r.value.1 && (pos <= |src| ==> r.value.1 <= |src|)
    decreases |src| - pos, 2
  {
    var (first, p) :- ReadSequence(src, pos, nested, Empty);
    ReadOthers(src, p, nested, first)
  }

  /** The alternatives that follow `acc`. */
  function ReadOthers(src: string, pos: nat, nested: bool, acc: Expr): (r: Result<(Expr, nat), SyntaxError>)
    ensures r.Success? ==> pos <= r.value.1 && (pos <= |src| ==> r.value.1 <= |src|)
    decreases |src| - pos, 0
  {
    if At(src, pos) == '|' then
      var (next, p) :- ReadSequence(src, SpaceEnd(src, pos + 1, true), nested, Empty);
      ReadOthers(src, p, nested, Alt(acc, next))
    else Success((acc, pos))
  }

  // ---------------------------------------------------------------------------------------------
  // Rules

  datatype Definition = Definition(name: Name, body: Expr)

  /** The end of a definition, and where the next one begins. */
  function ReadRuleEnd(src: string, pos: nat): (r: Result<nat, SyntaxError>)
    ensures r.Success? ==> pos <= r.value && (pos <= |src| ==> r.value <= |src|)
  {
    if At(src, pos) == '\r' then Success(SpaceEnd(src, if At(src, pos + 1) == '\n' then pos + 2 else pos + 1, true))
    else if At(src, pos) == '\n' then Success(SpaceEnd(src, pos + 1, true))
    else if At(src, pos) == NUL then Success(SpaceEnd(src, pos, true))
    else Failure(ExpectingNewline)
  }

  /** The sign of a definition, and where its body begins. */
  function ReadSign(src: string, pos: nat): (r: Result<nat, SyntaxError>)
    ensures r.Success? ==> pos < r.value <= |src|
  {
    var p := SpaceEnd(src, pos, false);
    if At(src, p) == ':' && At(src, p + 1) == ':' && At(src, p + 2) == '=' then Success(SpaceEnd(src, p + 3, true))
    else Failure(ExpectingDefinition)
  }

  function ReadRule(src: string, pos: nat): (r: Result<(Definition, nat), SyntaxError>)
    ensures r.Success? ==> pos < r.value.1 && (pos <= |src| ==> r.value.1 <= |src|)
    ensures r.Success? ==> '_' !in r.value.0.name
  {
    var end := NameEnd(src, pos);
    if end == pos then Failure(ExpectingName)
    else
      var start :- ReadSign(src, end);
      var (body, q) :- ReadAlternates(src, start, false);
      var next :- ReadRuleEnd(src, q);
      Success((Definition(src[pos..end], body), next))
  }

  /** The definitions from `pos` on, put after `defs`. */
  function ReadRules(src: string, pos: nat, defs: seq<Definition>): Result<seq<Definition>, SyntaxError>
    decreases |src| - pos
  {
    if At(src, pos) == NUL then Success(defs)
    else
      var (definition, p) :- ReadRule(src, pos);
      ReadRules(src, p, defs + [definition])
  }

  function ReadDefinitions(src: string): Result<seq<Definition>, SyntaxError> {
    ReadRules(src, SpaceEnd(src, 0, true), [])
  }

  /** A name defined more than once keeps its last definition. */
  function LastDefinitions(defs: seq<Definition>): Grammar {
    if defs == [] then map[]
    else
      var last := defs[|defs| - 1];
      LastDefinitions(defs[..|defs| - 1])[last.name := last.body]
  }

  /** The names an expression refers to. */
  function Names(e: Expr): set<Name> {
    match e
    case Ref(name) => {name}
    case Group(body) => Names(body)
    case Cat(left, right) => Names(left) + Names(right)
    case Alt(left, right) => Names(left) + Names(right)
    case Rep(item, _, _) => Names(item)
    case _ => {}
  }

  function ReferredNames(defs: seq<Definition>): set<Name> {
    set i, n | 0 <= i < |defs| && n in Names(defs[i].body) :: n
  }
}
