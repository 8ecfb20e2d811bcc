/** How characters, character sets, literals and bounds are spelled in GBNF. */
module GbnfSpelling {
  import opened Wrappers
  import opened Gbnf
  import opened GbnfReader
  import opened GbnfSyntax

  // ---------------------------------------------------------------------------------------------
  // Characters

  ghost predicate CharRead(c: Code, text: string, src: string, pos: nat) {
    TextAt(src, pos, text) ==> ReadChar(src, pos) == Success((c, pos + |text|))
  }

  ghost predicate GoodChar(c: Code, text: string) {
    text != "" && forall src, pos: nat {:trigger CharRead(c, text, src, pos)} :: CharRead(c, text, src, pos)
  }

  /** A character that stands for itself. */
  predicate IsRaw(c: Code) {
    0 < c < 0x80 && c as char != '\\'
  }

  lemma RawChar(c: Code)
    requires IsRaw(c)
    ensures GoodChar(c, [c as char])
  {
    var text := [c as char];
    forall src, pos: nat
      ensures CharRead(c, text, src, pos)
    {
      if TextAt(src, pos, text) {
        TextChar(src, pos, text, 0);
        assert Here(pos);
        assert ReadUtf8(src, pos) == (c, pos + 1);
      }
    }
  }

  function HexLetter(d: nat): (c: char)
    requires d < 16
    ensures HexDigit(c) == Some(d)
  {
    if d < 10 then '0' + d as char else 'A' + (d - 10) as char
  }

  function Pow16(n: nat): nat {
    if n == 0 then 1 else 16 * Pow16(n - 1)
  }

  /** The last `n` hexadecimal digits of a number. */
  function HexText(c: nat, n: nat): (t: string)
    ensures |t| == n
  {
    if n == 0 then "" else HexText(c / 16, n - 1) + [HexLetter(c % 16)]
  }

  lemma {:induction false} HexMore(src: string, pos: nat, end: nat, value: nat, x: nat, d: nat)
    requires pos <= end && ReadHex(src, pos, end, value) == Success((x, end)) && HexDigit(At(src, end)) == Some(d)
    ensures ReadHex(src, pos, end + 1, value) == Success((16 * x + d, end + 1))
    decreases end - pos
  {
    if pos < end {
      match HexDigit(At(src, pos))
      case None => assert false;
      case Some(e) => HexMore(src, pos + 1, end, 16 * value + e, x, d);
    }
  }

  lemma {:induction false} HexReads(src: string, pos: nat, c: nat, n: nat)
    requires c < Pow16(n) && TextAt(src, pos, HexText(c, n))
    ensures ReadHex(src, pos, pos + n, 0) == Success((c, pos + n))
    decreases n
  {
    if n > 0 {
      var t, last := HexText(c / 16, n - 1), [HexLetter(c % 16)];
      TextParts(src, pos, HexText(c, n), t, last);
      HexReads(src, pos, c / 16, n - 1);
      TextChar(src, pos + n - 1, last, 0);
      HexMore(src, pos, pos + n - 1, 0, c / 16, c % 16);
    }
  }

  /** A character by its code. */
  function Escaped(c: Code): string {
    "\\U" + HexText(c, 8)
  }

  lemma EscapedChar(c: Code)
    requires c < 0x1_0000_0000
    ensures GoodChar(c, Escaped(c))
  {
    var text := Escaped(c);
    assert Pow16(8) == 0x1_0000_0000;
    forall src, pos: nat
      ensures CharRead(c, text, src, pos)
    {
      if TextAt(src, pos, text) {
        TextParts(src, pos, text, "\\U", HexText(c, 8));
        TextChar(src, pos, "\\U", 0);
        TextChar(src, pos, "\\U", 1);
        HexReads(src, pos + 2, c, 8);
      }
    }
  }

  // ---------------------------------------------------------------------------------------------
  // Literals

  datatype Letter = Letter(c: Code, text: string)

  ghost predicate GoodLetter(l: Letter) {
    GoodChar(l.c, l.text) && l.text[0] != '"' && l.text[0] != NUL
  }

  function LettersText(letters: seq<Letter>): string {
    if letters == [] then "" else letters[0].text + LettersText(letters[1..])
  }

  function CodesOf(letters: seq<Letter>): Text {
    seq(|letters|, i requires 0 <= i < |letters| => letters[i].c)
  }

  ghost predicate GoodLetters(letters: seq<Letter>) {
    forall i: nat {:trigger LetterFits(letters, i)} :: LetterFits(letters, i)
  }

  ghost predicate LetterFits(letters: seq<Letter>, i: nat) {
    i < |letters| ==> GoodLetter(letters[i])
  }

  lemma LettersRest(letters: seq<Letter>)
    requires GoodLetters(letters) && letters != []
    ensures GoodLetter(letters[0]) && GoodLetters(letters[1..])
  {
    assert LetterFits(letters, 0);
    forall i: nat
      ensures LetterFits(letters[1..], i)
    {
      assert LetterFits(letters, i + 1);
    }
  }

  lemma {:induction false} LettersRead(src: string, pos: nat, letters: seq<Letter>, end: nat, before: Text)
    requires GoodLetters(letters)
    requires TextAt(src, pos, LettersText(letters)) && end == pos + |LettersText(letters)| && At(src, end) == '"'
    ensures ReadLiteral(src, pos, before) == Success((before + CodesOf(letters), end))
    decreases |letters|
  {
    if letters == [] {
      assert before + CodesOf(letters) == before;
    } else {
      var l, others := letters[0], letters[1..];
      LettersRest(letters);
      TextParts(src, pos, LettersText(letters), l.text, LettersText(others));
      TextChar(src, pos, l.text, 0);
      assert CharRead(l.c, l.text, src, pos);
      LettersRead(src, pos + |l.text|, others, end, before + [l.c]);
      assert before + [l.c] + CodesOf(others) == before + CodesOf(letters);
    }
  }

  function Literal(letters: seq<Letter>): Syntax {
    Term(Lit(CodesOf(letters)), "\"" + (LettersText(letters) + "\""))
  }

  lemma GoodLiteral(letters: seq<Letter>)
    requires forall i :: 0 <= i < |letters| ==> GoodLetter(letters[i])
    ensures IsItem(Literal(letters))
  {
    var expr, inner := Lit(CodesOf(letters)), LettersText(letters);
    var text := "\"" + (inner + "\"");
    assert GoodLetters(letters) by {
      assert forall i: nat :: LetterFits(letters, i);
    }
    forall src, pos: nat
      ensures TermRead(expr, text, src, pos)
    {
      if TextAt(src, pos, text) {
        var end := LiteralReads(src, pos, letters);
        assert end + 1 == pos + |text|;
      }
    }
  }

  lemma LiteralReads(src: string, pos: nat, letters: seq<Letter>) returns (end: nat)
    requires GoodLetters(letters) && TextAt(src, pos, "\"" + (LettersText(letters) + "\""))
    ensures At(src, pos) == '"' && end == pos + 1 + |LettersText(letters)|
    ensures ReadLiteral(src, pos + 1, []) == Success((CodesOf(letters), end))
  {
    var inner := LettersText(letters);
    end := pos + 1 + |inner|;
    TextParts(src, pos, "\"" + (inner + "\""), "\"", inner + "\"");
    TextParts(src, pos + 1, inner + "\"", inner, "\"");
    TextChar(src, pos, "\"", 0);
    TextChar(src, end, "\"", 0);
    LettersRead(src, pos + 1, letters, end, []);
    assert [] + CodesOf(letters) == CodesOf(letters);
  }

  // ---------------------------------------------------------------------------------------------
  // Character sets

  /** A member of a character set as it is written. */
  datatype Part = Part(range: CharRange, text: string)

  /** What follows is not taken for the upper end of a range. */
  predicate NoRange(src: string, pos: nat) {
    At(src, pos) == '-' ==> At(src, pos + 1) == ']'
  }

  predicate BeginsWith(t: string, c: char) {
    t != "" && t[0] == c
  }

  ghost predicate RangeRead(p: Part, src: string, pos: nat) {
    TextAt(src, pos, p.text) && NoRange(src, pos + |p.text|) ==>
      ReadRange(src, pos) == Success((p.range, pos + |p.text|))
  }

  ghost predicate GoodPart(p: Part) {
    && p.text != "" && p.text[0] != ']' && p.text[0] != NUL
    && forall src, pos: nat {:trigger RangeRead(p, src, pos)} :: RangeRead(p, src, pos)
  }

  lemma GoodOne(c: Code, text: string)
    requires GoodChar(c, text) && text[0] != ']' && text[0] != NUL
    ensures GoodPart(Part(One(c), text))
  {
    var p := Part(One(c), text);
    forall src, pos: nat
      ensures RangeRead(p, src, pos)
    {
      assert CharRead(c, text, src, pos);
    }
  }

  lemma SpanReads(src: string, pos: nat, lo: Code, low: string, hi: Code, high: string)
    requires GoodChar(lo, low) && GoodChar(hi, high) && high[0] != ']' && high[0] != NUL
    requires TextAt(src, pos, low + ("-" + high))
    ensures ReadRange(src, pos) == Success((Span(lo, hi), pos + |low + ("-" + high)|))
  {
    var mid := pos + |low|;
    TextParts(src, pos, low + ("-" + high), low, "-" + high);
    TextParts(src, mid, "-" + high, "-", high);
    TextChar(src, mid, "-", 0);
    TextChar(src, mid + 1, high, 0);
    assert CharRead(lo, low, src, pos);
    assert CharRead(hi, high, src, mid + 1);
  }

  lemma GoodSpan(lo: Code, low: string, hi: Code, high: string)
    requires GoodChar(lo, low) && low[0] != ']' && low[0] != NUL
    requires GoodChar(hi, high) && high[0] != ']' && high[0] != NUL
    ensures GoodPart(Part(Span(lo, hi), low + ("-" + high)))
  {
    var p := Part(Span(lo, hi), low + ("-" + high));
    forall src, pos: nat
      ensures RangeRead(p, src, pos)
    {
      if TextAt(src, pos, p.text) {
        SpanReads(src, pos, lo, low, hi, high);
      }
    }
  }

  function PartsText(parts: seq<Part>): string {
    if parts == [] then "" else parts[0].text + PartsText(parts[1..])
  }

  function RangesOf(parts: seq<Part>): seq<CharRange> {
    seq(|parts|, i requires 0 <= i < |parts| => parts[i].range)
  }

  /** A dash is written only at the beginning or the end of the set. */
  ghost predicate GoodParts(parts: seq<Part>) {
    forall i: nat {:trigger Fits(parts, i)} :: Fits(parts, i)
  }

  ghost predicate Fits(parts: seq<Part>, i: nat) {
    i < |parts| ==>
      GoodPart(parts[i]) && (BeginsWith(parts[i].text, '-') ==> i == 0 || (i == |parts| - 1 && parts[i].text == "-"))
  }

  /** The rest of a set is one, and begins with a dash only if that is all of it. */
  lemma GoodRest(parts: seq<Part>)
    requires GoodParts(parts) && parts != []
    ensures GoodPart(parts[0]) && GoodParts(parts[1..])
    ensures var others := parts[1..];
            others != [] && BeginsWith(others[0].text, '-') ==> |others| == 1 && others[0].text == "-"
  {
    var others := parts[1..];
    assert Fits(parts, 0) && Fits(parts, 1);
    forall i: nat
      ensures Fits(others, i)
    {
      assert Fits(parts, i + 1);
    }
  }

  lemma PartsFollow(src: string, pos: nat, parts: seq<Part>, end: nat)
    requires GoodParts(parts)
    requires parts != [] && BeginsWith(parts[0].text, '-') ==> |parts| == 1 && parts[0].text == "-"
    requires TextAt(src, pos, PartsText(parts)) && end == pos + |PartsText(parts)| && At(src, end) == ']'
    ensures NoRange(src, pos)
  {
    if parts != [] {
      assert Fits(parts, 0);
      FirstOfParts(parts);
      TextChar(src, pos, PartsText(parts), 0);
    }
  }

  lemma FirstOfParts(parts: seq<Part>)
    requires parts != [] && parts[0].text != ""
    ensures PartsText(parts) != "" && PartsText(parts)[0] == parts[0].text[0]
    ensures |parts| == 1 ==> PartsText(parts) == parts[0].text
  {
    var rest := PartsText(parts[1..]);
    if |parts| == 1 {
      assert parts[1..] == [] && rest == "";
    }
  }

  lemma GoodPartRead(src: string, pos: nat, p: Part)
    requires GoodPart(p) && TextAt(src, pos, p.text) && NoRange(src, pos + |p.text|)
    ensures At(src, pos) != ']' && At(src, pos) != NUL && ReadRange(src, pos) == Success((p.range, pos + |p.text|))
  {
    TextChar(src, pos, p.text, 0);
    assert RangeRead(p, src, pos);
  }

  lemma PartRead(src: string, pos: nat, parts: seq<Part>, end: nat) returns (next: nat)
    requires GoodParts(parts) && parts != []
    requires TextAt(src, pos, PartsText(parts)) && end == pos + |PartsText(parts)| && At(src, end) == ']'
    ensures At(src, pos) != ']' && At(src, pos) != NUL && ReadRange(src, pos) == Success((parts[0].range, next))
    ensures TextAt(src, next, PartsText(parts[1..])) && end == next + |PartsText(parts[1..])|
  {
    var p, others := parts[0], parts[1..];
    next := pos + |p.text|;
    TextParts(src, pos, PartsText(parts), p.text, PartsText(others));
    GoodRest(parts);
    PartsFollow(src, next, others, end);
    GoodPartRead(src, pos, p);
  }

  lemma {:induction false} PartsRead(src: string, pos: nat, parts: seq<Part>, end: nat, before: seq<CharRange>)
    requires GoodParts(parts)
    requires TextAt(src, pos, PartsText(parts)) && end == pos + |PartsText(parts)| && At(src, end) == ']'
    ensures ReadClass(src, pos, before) == Success((before + RangesOf(parts), end))
    decreases |parts|
  {
    if parts == [] {
      assert before + RangesOf(parts) == before;
    } else {
      var p, others := parts[0], parts[1..];
      var next := PartRead(src, pos, parts, end);
      GoodRest(parts);
      PartsRead(src, next, others, end, before + [p.range]);
      assert before + [p.range] + RangesOf(others) == before + RangesOf(parts);
    }
  }

  function ClassText(negated: bool, parts: seq<Part>): string {
    (if negated then "[^" else "[") + (PartsText(parts) + "]")
  }

  function Set(negated: bool, parts: seq<Part>): Syntax {
    Term(Class(negated, RangesOf(parts)), ClassText(negated, parts))
  }

  lemma GoodSet(negated: bool, parts: seq<Part>)
    requires GoodParts(parts) && (!negated && parts != [] ==> !BeginsWith(parts[0].text, '^'))
    ensures IsItem(Set(negated, parts))
  {
    var expr, text := Class(negated, RangesOf(parts)), ClassText(negated, parts);
    forall src, pos: nat
      ensures TermRead(expr, text, src, pos)
    {
      if TextAt(src, pos, text) {
        SetReads(src, pos, negated, parts);
      }
    }
  }

  lemma SetOpens(src: string, pos: nat, negated: bool, parts: seq<Part>) returns (start: nat)
    requires GoodParts(parts) && (!negated && parts != [] ==> !BeginsWith(parts[0].text, '^'))
    requires TextAt(src, pos, ClassText(negated, parts))
    ensures At(src, pos) == '[' && (At(src, pos + 1) == '^' <==> negated)
    ensures start == if negated then pos + 2 else pos + 1
    ensures TextAt(src, start, PartsText(parts)) && At(src, start + |PartsText(parts)|) == ']'
    ensures start + |PartsText(parts)| + 1 == pos + |ClassText(negated, parts)|
  {
    var open, inner := if negated then "[^" else "[", PartsText(parts);
    start := pos + |open|;
    TextParts(src, pos, ClassText(negated, parts), open, inner + "]");
    TextParts(src, start, inner + "]", inner, "]");
    TextChar(src, pos, open, 0);
    TextChar(src, start + |inner|, "]", 0);
    if negated {
      TextChar(src, pos, open, 1);
    } else if parts != [] {
      assert Fits(parts, 0);
      TextChar(src, start, inner, 0);
      assert inner[0] == parts[0].text[0];
    }
  }

  lemma SetReads(src: string, pos: nat, negated: bool, parts: seq<Part>)
    requires GoodParts(parts) && (!negated && parts != [] ==> !BeginsWith(parts[0].text, '^'))
    requires TextAt(src, pos, ClassText(negated, parts))
    ensures At(src, pos) == '[' && (At(src, pos + 1) == '^' <==> negated)
    ensures var start := if negated then pos + 2 else pos + 1;
            ReadClass(src, start, []) == Success((RangesOf(parts), pos + |ClassText(negated, parts)| - 1))
  {
    var start := SetOpens(src, pos, negated, parts);
    PartsRead(src, start, parts, start + |PartsText(parts)|, []);
    assert [] + RangesOf(parts) == RangesOf(parts);
  }

  // ---------------------------------------------------------------------------------------------
  // Bounds

  lemma GoodSigns()
    ensures GoodMark(Bounds(0, None), "*") && GoodMark(Bounds(1, None), "+") && GoodMark(Bounds(0, Some(1)), "?")
    ensures GoodTerm(AnyChar, ".")
  {
    forall src, pos: nat
      ensures MarkRead(Bounds(0, None), "*", src, pos)
      ensures MarkRead(Bounds(1, None), "+", src, pos)
      ensures MarkRead(Bounds(0, Some(1)), "?", src, pos)
      ensures TermRead(AnyChar, ".", src, pos)
    {
      if TextAt(src, pos, "*") {
        TextChar(src, pos, "*", 0);
      }
      if TextAt(src, pos, "+") {
        TextChar(src, pos, "+", 0);
      }
      if TextAt(src, pos, "?") {
        TextChar(src, pos, "?", 0);
      }
      if TextAt(src, pos, ".") {
        TextChar(src, pos, ".", 0);
      }
    }
  }

  function DigitLetter(d: nat): (c: char)
    requires d < 10
    ensures IsDigitChar(c) && c as int - '0' as int == d
  {
    '0' + d as char
  }

  function Decimal(n: nat): (t: string)
    ensures t != ""
  {
    if n < 10 then [DigitLetter(n)] else Decimal(n / 10) + [DigitLetter(n % 10)]
  }

  /** The digits of a number are read as that number. */
  lemma {:induction false} DecimalReads(src: string, pos: nat, n: nat)
    requires TextAt(src, pos, Decimal(n))
    ensures pos + |Decimal(n)| <= |src| && forall i :: pos <= i < pos + |Decimal(n)| ==> IsDigitChar(src[i])
    ensures IntValue(src, pos, pos + |Decimal(n)|) == n
    decreases n
  {
    var end := pos + |Decimal(n)|;
    assert Here(pos);
    TextChar(src, pos, Decimal(n), |Decimal(n)| - 1);
    if n < 10 {
      assert IntValue(src, pos, pos) == 0;
    } else {
      TextParts(src, pos, Decimal(n), Decimal(n / 10), [DigitLetter(n % 10)]);
      DecimalReads(src, pos, n / 10);
    }
  }

  lemma {:induction false} IntEndAt(src: string, pos: nat, end: nat)
    requires pos <= end <= |src| && (forall i :: pos <= i < end ==> IsDigitChar(src[i])) && !IsDigitChar(At(src, end))
    ensures IntEnd(src, pos) == end
    decreases end - pos
  {
    if pos < end {
      IntEndAt(src, pos + 1, end);
    }
  }

  /** A number, and after it a sign that is no digit. */
  lemma NumberReads(src: string, pos: nat, n: nat)
    requires TextAt(src, pos, Decimal(n)) && !IsDigitChar(At(src, pos + |Decimal(n)|))
    ensures IsDigitChar(At(src, pos)) && IntEnd(src, pos) == pos + |Decimal(n)| <= |src|
    ensures IntValue(src, pos, IntEnd(src, pos)) == n
  {
    DecimalReads(src, pos, n);
    IntEndAt(src, pos, pos + |Decimal(n)|);
  }

  function UpperText(max: Option<nat>): string {
    if max.Some? then Decimal(max.value) else ""
  }

  function BoundsText(min: nat, max: Option<nat>): string {
    "{" + (Decimal(min) + ("," + (UpperText(max) + "}")))
  }

  lemma UpperReads(src: string, pos: nat, max: Option<nat>, nested: bool) returns (end: nat)
    requires TextAt(src, pos, UpperText(max) + "}")
    ensures end == pos + |UpperText(max)| && ReadUpperBound(src, pos, nested) == (max, end)
    ensures At(src, end) == '}' && Solid(At(src, pos))
  {
    var t := UpperText(max);
    end := pos + |t|;
    TextParts(src, pos, t + "}", t, "}");
    TextChar(src, end, "}", 0);
    if max.Some? {
      NumberReads(src, pos, max.value);
      NoSpace(src, end, nested);
    }
  }

  ghost predicate RestGives(src: string, pos: nat, min: nat, nested: bool, r: Result<(Bounds, nat), SyntaxError>) {
    forall p: nat {:trigger Here(p)} :: Here(p) && p == pos ==> ReadRestOfBounds(src, p, min, nested) == r
  }

  lemma RestFrom(src: string, pos: nat, min: nat, max: Option<nat>, nested: bool, end: nat)
    requires At(src, pos) == ',' && SpaceEnd(src, pos + 1, nested) == pos + 1
    requires ReadUpperBound(src, pos + 1, nested) == (max, end) && At(src, end) == '}'
    ensures RestGives(src, pos, min, nested, Success((Bounds(min, max), SpaceEnd(src, end + 1, nested))))
  {
  }

  lemma RestReads(src: string, pos: nat, min: nat, max: Option<nat>, nested: bool) returns (end: nat)
    requires TextAt(src, pos, "," + (UpperText(max) + "}"))
    ensures At(src, pos) == ',' && end == pos + |UpperText(max)| + 2
    ensures RestGives(src, pos, min, nested, Success((Bounds(min, max), SpaceEnd(src, end, nested))))
  {
    var rest := UpperText(max) + "}";
    TextParts(src, pos, "," + rest, ",", rest);
    TextChar(src, pos, ",", 0);
    end := UpperReads(src, pos + 1, max, nested);
    NoSpace(src, pos + 1, nested);
    RestFrom(src, pos, min, max, nested, end);
    end := end + 1;
  }

  lemma BoundsFrom(src: string, pos: nat, end: nat, min: nat, nested: bool, r: Result<(Bounds, nat), SyntaxError>)
    requires IsDigitChar(At(src, pos)) && IntEnd(src, pos) == end <= |src| && SpaceEnd(src, end, nested) == end
    requires IntValue(src, pos, IntEnd(src, pos)) == min && ReadRestOfBounds(src, end, min, nested) == r
    ensures ReadBounds(src, pos, nested) == r
  {
  }

  lemma LowerReads(src: string, pos: nat, min: nat, nested: bool, r: Result<(Bounds, nat), SyntaxError>)
    requires TextAt(src, pos, Decimal(min)) && At(src, pos + |Decimal(min)|) == ','
    requires RestGives(src, pos + |Decimal(min)|, min, nested, r)
    ensures IsDigitChar(At(src, pos)) && ReadBounds(src, pos, nested) == r
  {
    var end := pos + |Decimal(min)|;
    assert Here(end);
    NumberReads(src, pos, min);
    NoSpace(src, end, nested);
    BoundsFrom(src, pos, end, min, nested, r);
  }

  lemma BoundsRead(src: string, pos: nat, min: nat, max: Option<nat>, nested: bool) returns (end: nat)
    requires TextAt(src, pos, Decimal(min) + ("," + (UpperText(max) + "}")))
    ensures end == pos + |Decimal(min)| + |UpperText(max)| + 2
    ensures IsDigitChar(At(src, pos))
    ensures ReadBounds(src, pos, nested) == Success((Bounds(min, max), SpaceEnd(src, end, nested)))
  {
    var t, rest := Decimal(min), "," + (UpperText(max) + "}");
    TextParts(src, pos, t + rest, t, rest);
    end := RestReads(src, pos + |t|, min, max, nested);
    LowerReads(src, pos, min, nested, Success((Bounds(min, max), SpaceEnd(src, end, nested))));
  }

  lemma MarkReads(src: string, pos: nat, min: nat, max: Option<nat>, nested: bool) returns (end: nat)
    requires TextAt(src, pos, BoundsText(min, max))
    ensures At(src, pos) == '{' && end == pos + |BoundsText(min, max)|
    ensures ReadMark(src, pos, nested) == Success((Bounds(min, max), SpaceEnd(src, end, nested)))
  {
    var rest := Decimal(min) + ("," + (UpperText(max) + "}"));
    TextParts(src, pos, "{" + rest, "{", rest);
    TextChar(src, pos, "{", 0);
    end := BoundsRead(src, pos + 1, min, max, nested);
    NoSpace(src, pos + 1, nested);
  }

  lemma MarkFrom(bounds: Bounds, mark: string, src: string, pos: nat, end: nat)
    requires mark != "" && IsMark(mark[0]) && At(src, pos) == mark[0] && end == pos + |mark|
    requires forall nested :: ReadMark(src, pos, nested) == Success((bounds, SpaceEnd(src, end, nested)))
    ensures MarkRead(bounds, mark, src, pos)
  {
  }

  lemma GoodBounds(min: nat, max: Option<nat>)
    ensures GoodMark(Bounds(min, max), BoundsText(min, max))
  {
    var bounds, text := Bounds(min, max), BoundsText(min, max);
    forall src, pos: nat
      ensures MarkRead(bounds, text, src, pos)
    {
      if TextAt(src, pos, text) {
        var first := MarkReads(src, pos, min, max, true);
        forall nested
          ensures ReadMark(src, pos, nested) == Success((bounds, SpaceEnd(src, first, nested)))
        {
          var end := MarkReads(src, pos, min, max, nested);
          assert end == first;
        }
        MarkFrom(bounds, text, src, pos, first);
      }
    }
  }
}
