/** The notation character by character: UTF-8, escapes, hexadecimal digits, blanks and line breaks. */
module GbnfCharacters {
  import opened Wrappers
  import opened Gbnf
  import opened GbnfReader
  import opened GbnfSyntax
  import opened GbnfSpelling

  // ---------------------------------------------------------------------------------------------
  // UTF-8

  /** The byte of a continuation with these six bits. */
  function Continuing(bits: nat): (c: char)
    requires bits < 64
    ensures c as nat == 0x80 + bits
  {
    (0x80 + bits) as char
  }

  /** The bytes of a code point, as in section 3 of RFC 3629. */
  function Utf8Text(c: Code): (t: string)
    requires c <= 0x10_FFFF
    ensures t != ""
  {
    if c < 0x80 then [c as char]
    else if c < 0x800 then [(0xC0 + c / 0x40) as char, Continuing(c % 0x40)]
    else if c < 0x1_0000 then
      [(0xE0 + c / 0x1000) as char, Continuing(c / 0x40 % 0x40), Continuing(c % 0x40)]
    else
      [(0xF0 + c / 0x4_0000) as char, Continuing(c / 0x1000 % 0x40), Continuing(c / 0x40 % 0x40), Continuing(c % 0x40)]
  }

  lemma ContinuationStep(src: string, pos: nat, end: nat, value: nat, bits: nat)
    requires pos < end && bits < 64 && At(src, pos) == Continuing(bits)
    ensures ReadContinuation(src, pos, end, value) == ReadContinuation(src, pos + 1, end, 64 * value + bits)
  {
    assert At(src, pos) as int == 0x80 + bits;
  }

  lemma Utf8Two(src: string, pos: nat, lead: nat, x: nat)
    requires lead < 32 && x < 64 && TextAt(src, pos, [(0xC0 + lead) as char, Continuing(x)])
    ensures pos < |src| && ReadUtf8(src, pos) == (64 * lead + x, pos + 2)
  {
    var t := [(0xC0 + lead) as char, Continuing(x)];
    TextChar(src, pos, t, 0);
    TextChar(src, pos, t, 1);
    assert Here(pos);
    ContinuationStep(src, pos + 1, pos + 2, lead, x);
  }

  lemma Utf8Three(src: string, pos: nat, lead: nat, x: nat, y: nat)
    requires lead < 16 && x < 64 && y < 64 && TextAt(src, pos, [(0xE0 + lead) as char, Continuing(x), Continuing(y)])
    ensures pos < |src| && ReadUtf8(src, pos) == (64 * (64 * lead + x) + y, pos + 3)
  {
    var t := [(0xE0 + lead) as char, Continuing(x), Continuing(y)];
    TextChar(src, pos, t, 0);
    TextChar(src, pos, t, 1);
    TextChar(src, pos, t, 2);
    assert Here(pos);
    ContinuationStep(src, pos + 1, pos + 3, lead, x);
    ContinuationStep(src, pos + 2, pos + 3, 64 * lead + x, y);
  }

  lemma Utf8Four(src: string, pos: nat, lead: nat, x: nat, y: nat, z: nat)
    requires lead < 8 && x < 64 && y < 64 && z < 64
    requires TextAt(src, pos, [(0xF0 + lead) as char, Continuing(x), Continuing(y), Continuing(z)])
    ensures pos < |src| && ReadUtf8(src, pos) == (64 * (64 * (64 * lead + x) + y) + z, pos + 4)
  {
    var t := [(0xF0 + lead) as char, Continuing(x), Continuing(y), Continuing(z)];
    TextChar(src, pos, t, 0);
    TextChar(src, pos, t, 1);
    TextChar(src, pos, t, 2);
    TextChar(src, pos, t, 3);
    assert Here(pos);
    ContinuationStep(src, pos + 1, pos + 4, lead, x);
    ContinuationStep(src, pos + 2, pos + 4, 64 * lead + x, y);
    ContinuationStep(src, pos + 3, pos + 4, 64 * (64 * lead + x) + y, z);
  }

  lemma ThreeParts(c: nat, lead: nat, x: nat, y: nat)
    requires lead == c / 0x1000 && x == c / 0x40 % 0x40 && y == c % 0x40
    ensures 64 * (64 * lead + x) + y == c
  {
    assert c / 0x1000 == c / 0x40 / 0x40;
  }

  lemma FourParts(c: nat, lead: nat, x: nat, y: nat, z: nat)
    requires lead == c / 0x4_0000 && x == c / 0x1000 % 0x40 && y == c / 0x40 % 0x40 && z == c % 0x40
    ensures 64 * (64 * (64 * lead + x) + y) + z == c
  {
    assert c / 0x4_0000 == c / 0x40 / 0x1000 && c / 0x1000 == c / 0x40 / 0x40;
    ThreeParts(c / 0x40, lead, x, y);
  }

  /** The bytes of a code point are read as that code point. */
  lemma Utf8Reads(src: string, pos: nat, c: Code)
    requires 0 < c <= 0x10_FFFF && TextAt(src, pos, Utf8Text(c))
    ensures pos < |src| && ReadUtf8(src, pos) == (c, pos + |Utf8Text(c)|)
  {
    if c < 0x80 {
      TextChar(src, pos, Utf8Text(c), 0);
      assert Here(pos);
    } else if c < 0x800 {
      Utf8Two(src, pos, c / 0x40, c % 0x40);
    } else if c < 0x1_0000 {
      var lead, x, y := c / 0x1000, c / 0x40 % 0x40, c % 0x40;
      ThreeParts(c, lead, x, y);
      Utf8Three(src, pos, lead, x, y);
    } else {
      var lead, x, y, z := c / 0x4_0000, c / 0x1000 % 0x40, c / 0x40 % 0x40, c % 0x40;
      FourParts(c, lead, x, y, z);
      Utf8Four(src, pos, lead, x, y, z);
    }
  }

  /** Every code point but NUL and the backslash, written in UTF-8, is read as itself. */
  lemma Utf8Char(c: Code)
    requires 0 < c <= 0x10_FFFF && c != 92
    ensures GoodChar(c, Utf8Text(c))
  {
    var text := Utf8Text(c);
    assert text[0] as nat != 92 && text[0] as nat != 0;
    forall src, pos: nat
      ensures CharRead(c, text, src, pos)
    {
      if TextAt(src, pos, text) {
        TextChar(src, pos, text, 0);
        Utf8Reads(src, pos, c);
      }
    }
  }

  function Utf8Letters(text: Text): (letters: seq<Letter>)
    requires forall i :: 0 <= i < |text| ==> text[i] <= 0x10_FFFF
    ensures |letters| == |text|
  {
    seq(|text|, i requires 0 <= i < |text| => Letter(text[i], Utf8Text(text[i])))
  }

  /** A literal in UTF-8, without NUL, backslashes and quotes, is read as its text wherever it stands. */
  lemma Utf8Literal(text: Text)
    requires forall i :: 0 <= i < |text| ==> 0 < text[i] <= 0x10_FFFF && text[i] != 92 && text[i] != 34
    ensures IsItem(Literal(Utf8Letters(text))) && Meant(Literal(Utf8Letters(text))) == Lit(text)
  {
    var letters := Utf8Letters(text);
    forall i | 0 <= i < |letters|
      ensures GoodLetter(letters[i])
    {
      Utf8Char(text[i]);
      assert letters[i].text[0] as nat != 34 && letters[i].text[0] as nat != 0;
    }
    GoodLiteral(letters);
    assert CodesOf(letters) == text;
  }

  /** A range in a set, its ends written in UTF-8. */
  lemma Utf8Range(lo: Code, hi: Code)
    requires 0 < lo <= 0x10_FFFF && lo != 92 && lo != 93 && 0 < hi <= 0x10_FFFF && hi != 92 && hi != 93
    ensures GoodPart(Part(Span(lo, hi), Utf8Text(lo) + ("-" + Utf8Text(hi))))
  {
    Utf8Char(lo);
    Utf8Char(hi);
    assert Utf8Text(lo)[0] as nat != 93 && Utf8Text(lo)[0] as nat != 0;
    assert Utf8Text(hi)[0] as nat != 93 && Utf8Text(hi)[0] as nat != 0;
    GoodSpan(lo, Utf8Text(lo), hi, Utf8Text(hi));
  }

  // ---------------------------------------------------------------------------------------------
  // Escapes

  /** What may follow a backslash by itself, and the code it stands for. */
  const SHORT_ESCAPES: map<char, Code> :=
    map['t' := 9, 'r' := 13, 'n' := 10, '\\' := 92, '"' := 34, '[' := 91, ']' := 93]

  lemma ShortEscape(e: char)
    requires e in SHORT_ESCAPES
    ensures GoodChar(SHORT_ESCAPES[e], ['\\', e])
  {
    var text := ['\\', e];
    forall src, pos: nat
      ensures CharRead(SHORT_ESCAPES[e], text, src, pos)
    {
      if TextAt(src, pos, text) {
        TextChar(src, pos, text, 0);
        TextChar(src, pos, text, 1);
      }
    }
  }

  /** The number of hexadecimal digits after each of these letters. */
  const LONG_ESCAPES: map<char, nat> := map['x' := 2, 'u' := 4, 'U' := 8]

  /** A code by two, four or eight hexadecimal digits. */
  lemma LongEscape(e: char, c: Code)
    requires e in LONG_ESCAPES && c < Pow16(LONG_ESCAPES[e])
    ensures GoodChar(c, ['\\', e] + HexText(c, LONG_ESCAPES[e]))
  {
    var digits := HexText(c, LONG_ESCAPES[e]);
    var text := ['\\', e] + digits;
    forall src, pos: nat
      ensures CharRead(c, text, src, pos)
    {
      if TextAt(src, pos, text) {
        TextParts(src, pos, text, ['\\', e], digits);
        TextChar(src, pos, ['\\', e], 0);
        TextChar(src, pos, ['\\', e], 1);
        HexReads(src, pos + 2, c, LONG_ESCAPES[e]);
      }
    }
  }

  /** Nothing else may follow a backslash. */
  lemma OtherEscape(src: string, pos: nat)
    requires At(src, pos) == '\\' && At(src, pos + 1) !in SHORT_ESCAPES && At(src, pos + 1) !in LONG_ESCAPES
    ensures ReadChar(src, pos) == Failure(UnknownEscape)
  {
  }

  /** The sixteen digits, of which six may be written in two ways. */
  lemma HexDigits(c: char)
    ensures match HexDigit(c)
            case Some(d) => d < 16 && (c == "0123456789abcdef"[d] || c == "0123456789ABCDEF"[d])
            case None => c !in "0123456789abcdefABCDEF"
  {
  }

  /** Digits that are missing, or are none, are an error. */
  lemma {:induction false} HexWhen(src: string, pos: nat, n: nat, value: nat)
    ensures ReadHex(src, pos, pos + n, value).Success? <==>
            forall i :: pos <= i < pos + n ==> HexDigit(At(src, i)).Some?
    decreases n
  {
    if n > 0 {
      match HexDigit(At(src, pos))
      case None =>
      case Some(d) => HexWhen(src, pos + 1, n - 1, 16 * value + d);
    }
  }

  // ---------------------------------------------------------------------------------------------
  // Blanks

  /** From the sign `#` at `h` up to place `i` no line ends. */
  predicate InComment(src: string, h: nat, i: nat) {
    && h <= i
    && At(src, h) == '#'
    && forall k :: h <= k <= i ==> At(src, k) != NUL && At(src, k) != '\r' && At(src, k) != '\n'
  }

  /** Place `i` is a blank, a line break where these may be, or in a comment that begins at `pos` or after it. */
  predicate IsSkipped(src: string, pos: nat, i: nat, newlineOk: bool) {
    || At(src, i) == ' '
    || At(src, i) == '\t'
    || (newlineOk && (At(src, i) == '\r' || At(src, i) == '\n'))
    || exists h :: pos <= h <= i && InComment(src, h, i)
  }

  /** A comment goes on up to the end of its line. */
  lemma {:induction false} LineEnds(src: string, pos: nat)
    ensures var end := LineEnd(src, pos);
            && (At(src, end) == NUL || At(src, end) == '\r' || At(src, end) == '\n')
            && forall k :: pos <= k < end ==> At(src, k) != NUL && At(src, k) != '\r' && At(src, k) != '\n'
    decreases |src| - pos
  {
    if At(src, pos) != NUL && !IsNewline(At(src, pos)) {
      LineEnds(src, pos + 1);
    }
  }

  /** Space ends at the first place that is none of these. */
  lemma {:induction false} SpaceEnds(src: string, pos: nat, newlineOk: bool)
    ensures var end := SpaceEnd(src, pos, newlineOk);
            && (forall i :: pos <= i < end ==> IsSkipped(src, pos, i, newlineOk))
            && !IsSkipped(src, pos, end, newlineOk)
    decreases |src| - pos
  {
    var c, end := At(src, pos), SpaceEnd(src, pos, newlineOk);
    var next := if c == '#' then LineEnd(src, pos + 1) else pos + 1;
    if c == '#' {
      LineEnds(src, pos + 1);
    }
    if c == ' ' || c == '\t' || (newlineOk && IsNewline(c)) || c == '#' {
      SpaceEnds(src, next, newlineOk);
      forall i | pos <= i < end
        ensures IsSkipped(src, pos, i, newlineOk)
      {
        if i < next {
          if c == '#' {
            assert InComment(src, pos, i);
          }
        } else {
          assert IsSkipped(src, next, i, newlineOk);
          if h: nat :| next <= h <= i && InComment(src, h, i) {
            assert pos <= h;
          }
        }
      }
      if h :| pos <= h <= end && InComment(src, h, end) {
        assert false;
      }
    }
  }

  /** A definition ends at a line break or at the end of the text, with the space after it. */
  lemma RuleEnds(src: string, pos: nat)
    ensures ReadRuleEnd(src, pos) ==
            if At(src, pos) == '\r' || At(src, pos) == '\n' || At(src, pos) == NUL then
              Success(SpaceEnd(src, pos, true))
            else Failure(ExpectingNewline)
  {
  }

  // ---------------------------------------------------------------------------------------------
  // Names and single bounds

  const SMALL := "abcdefghijklmnopqrstuvwxyz"
  const CAPITAL := "ABCDEFGHIJKLMNOPQRSTUVWXYZ"
  const DIGITS := "0123456789"

  lemma SmallLetters(c: char)
    ensures 97 <= c as nat < 123 <==> c in SMALL
  {
    if 97 <= c as nat < 123 {
      assert SMALL[c as nat - 97] == c;
    }
  }

  lemma CapitalLetters(c: char)
    ensures 65 <= c as nat < 91 <==> c in CAPITAL
  {
    if 65 <= c as nat < 91 {
      assert CAPITAL[c as nat - 65] == c;
    }
  }

  lemma DecimalDigits(c: char)
    ensures 48 <= c as nat < 58 <==> c in DIGITS
  {
    if 48 <= c as nat < 58 {
      assert DIGITS[c as nat - 48] == c;
    }
  }

  /** Names are made of letters, digits and dashes. */
  lemma WordChars(c: char)
    ensures IsWordChar(c) <==> c in SMALL || c in CAPITAL || c in DIGITS || c == '-'
  {
    SmallLetters(c);
    CapitalLetters(c);
    DecimalDigits(c);
    assert 'z' as nat == 122 && 'Z' as nat == 90 && '9' as nat == 57;
  }

  lemma ExactReads(src: string, pos: nat, m: nat, nested: bool) returns (end: nat)
    requires TextAt(src, pos, "{" + (Decimal(m) + "}"))
    ensures At(src, pos) == '{' && end == pos + |"{" + (Decimal(m) + "}")|
    ensures ReadMark(src, pos, nested) == Success((Bounds(m, Some(m)), SpaceEnd(src, end, nested)))
  {
    var t := Decimal(m);
    var close := pos + 1 + |t|;
    end := close + 1;
    TextParts(src, pos, "{" + (t + "}"), "{", t + "}");
    TextParts(src, pos + 1, t + "}", t, "}");
    TextChar(src, pos, "{", 0);
    TextChar(src, close, "}", 0);
    NumberReads(src, pos + 1, m);
    NoSpace(src, close, nested);
    NoSpace(src, pos + 1, nested);
    BoundsFrom(src, pos + 1, close, m, nested, Success((Bounds(m, Some(m)), SpaceEnd(src, end, nested))));
  }

  /** A number alone between braces is both bounds. */
  lemma ExactBounds(m: nat)
    ensures GoodMark(Bounds(m, Some(m)), "{" + (Decimal(m) + "}"))
  {
    var bounds, text := Bounds(m, Some(m)), "{" + (Decimal(m) + "}");
    forall src, pos: nat
      ensures MarkRead(bounds, text, src, pos)
    {
      if TextAt(src, pos, text) {
        var first := ExactReads(src, pos, m, true);
        forall nested
          ensures ReadMark(src, pos, nested) == Success((bounds, SpaceEnd(src, first, nested)))
        {
          var end := ExactReads(src, pos, m, nested);
          assert end == first;
        }
        MarkFrom(bounds, text, src, pos, first);
      }
    }
  }
}
