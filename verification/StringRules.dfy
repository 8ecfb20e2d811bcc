/** The rules for characters and for space, as they are written. */
module StringRules {
  import opened Wrappers
  import opened Gbnf
  import opened Separated
  import opened GbnfReader
  import opened GbnfSyntax
  import opened GbnfSpelling
  import opened KeyExclusion

  lemma EscapeSigns()
    ensures GoodChar(BACKSLASH, "\\\\") && GoodChar(10, "\\n") && GoodChar(9, "\\t")
  {
    forall src, pos: nat
      ensures CharRead(BACKSLASH, "\\\\", src, pos)
    {
      TwoAt(src, pos, "\\\\");
    }
    forall src, pos: nat
      ensures CharRead(10, "\\n", src, pos)
    {
      TwoAt(src, pos, "\\n");
    }
    forall src, pos: nat
      ensures CharRead(9, "\\t", src, pos)
    {
      TwoAt(src, pos, "\\t");
    }
  }

  lemma TwoAt(src: string, pos: nat, t: string)
    requires |t| >= 2
    ensures TextAt(src, pos, t) ==> At(src, pos) == t[0] && At(src, pos + 1) == t[1]
  {
    if TextAt(src, pos, t) {
      TextChar(src, pos, t, 0);
      TextChar(src, pos, t, 1);
    }
  }

  function ByteText(c: Code): string {
    "\\x" + HexText(c, 2)
  }

  lemma ByteChar(c: Code)
    requires c < 256
    ensures GoodChar(c, ByteText(c))
  {
    var text := ByteText(c);
    assert Pow16(2) == 256;
    forall src, pos: nat
      ensures CharRead(c, text, src, pos)
    {
      if TextAt(src, pos, text) {
        TextParts(src, pos, text, "\\x", HexText(c, 2));
        TwoAt(src, pos, "\\x");
        HexReads(src, pos + 2, c, 2);
      }
    }
  }

  const BACKSLASH_PART := Part(One(BACKSLASH), "\\\\")
  const CONTROL_PART := Part(Span(0, 0x1F), ByteText(0) + ("-" + ByteText(0x1F)))
  const PLAIN_PARTS := [Part(One(QUOTE), "\""), BACKSLASH_PART, Part(One(0x7F), ByteText(0x7F)), CONTROL_PART]

  function RawParts(letters: string): seq<Part> {
    seq(|letters|, i requires 0 <= i < |letters| => Part(One(letters[i] as nat), [letters[i]]))
  }

  function SpanPart(lo: char, hi: char): Part {
    Part(Span(lo as nat, hi as nat), [lo] + ("-" + [hi]))
  }

  const ESCAPE_PARTS := [Part(One(QUOTE), "\""), BACKSLASH_PART] + RawParts("bfnrt")
  const HEX_PARTS := [SpanPart('0', '9'), SpanPart('a', 'f'), SpanPart('A', 'F')]
  const FOUR_HEX := Marked(Set(false, HEX_PARTS), Bounds(4, Some(4)), "{4}")
  const LETTER_U := Literal([Letter(LOWER_U, "u")])

  /** The rule for characters as it is written. */
  const CHAR_SYNTAX := Or(Set(true, PLAIN_PARTS), ESCAPED)

  const ESCAPED := Seq(Set(false, [BACKSLASH_PART]), Paren(false, ESCAPES))
  const ESCAPES := Or(Set(false, ESCAPE_PARTS), Seq(LETTER_U, FOUR_HEX))

  lemma PartsMore(p: Part, parts: seq<Part>)
    ensures PartsText([p] + parts) == p.text + PartsText(parts)
  {
    assert ([p] + parts)[1..] == parts;
  }

  lemma PlainText()
    ensures PartsText(PLAIN_PARTS) == "\"\\\\\\x7F\\x00-\\x1F"
  {
    var q, d := Part(One(QUOTE), "\""), Part(One(0x7F), ByteText(0x7F));
    FourParts(q, BACKSLASH_PART, d, CONTROL_PART);
    ByteTexts();
    assert CONTROL_PART.text == "\\x00-\\x1F";
  }

  lemma FourParts(a: Part, b: Part, c: Part, d: Part)
    ensures PartsText([a, b, c, d]) == a.text + (b.text + (c.text + d.text))
  {
    PartsMore(d, []);
    PartsMore(c, [d]);
    PartsMore(b, [c, d]);
    PartsMore(a, [b, c, d]);
    assert [c, d] == [c] + [d] && [b, c, d] == [b] + [c, d] && [a, b, c, d] == [a] + [b, c, d];
  }

  lemma ByteTexts()
    ensures ByteText(0) == "\\x00" && ByteText(0x1F) == "\\x1F" && ByteText(0x7F) == "\\x7F"
  {
    assert HexText(0, 2) == "00" && HexText(0x1F, 2) == "1F" && HexText(0x7F, 2) == "7F";
  }

  lemma {:induction false} RawText(letters: string)
    ensures PartsText(RawParts(letters)) == letters
    decreases |letters|
  {
    if letters != "" {
      RawText(letters[1..]);
      assert RawParts(letters)[1..] == RawParts(letters[1..]);
      assert letters == [letters[0]] + letters[1..];
    }
  }

  lemma EscapeText()
    ensures PartsText(ESCAPE_PARTS) == "\"\\\\bfnrt"
  {
    var q, raw := Part(One(QUOTE), "\""), RawParts("bfnrt");
    RawText("bfnrt");
    PartsMore(BACKSLASH_PART, raw);
    PartsMore(q, [BACKSLASH_PART] + raw);
    assert ESCAPE_PARTS == [q] + ([BACKSLASH_PART] + raw);
  }

  lemma HexPartsText()
    ensures PartsText(HEX_PARTS) == "0-9a-fA-F"
  {
    var d, l, u := SpanPart('0', '9'), SpanPart('a', 'f'), SpanPart('A', 'F');
    PartsMore(u, []);
    PartsMore(l, [u]);
    PartsMore(d, [l] + [u]);
    assert HEX_PARTS == [d] + ([l] + [u]);
  }

  lemma SetText(negated: bool, parts: seq<Part>, t: string)
    requires PartsText(parts) == t
    ensures TextOf(Set(negated, parts)) == (if negated then "[^" else "[") + (t + "]")
  {
  }

  lemma OneLetterText(c: Code, t: string)
    ensures TextOf(Literal([Letter(c, t)])) == "\"" + (t + "\"")
  {
    assert LettersText([Letter(c, t)]) == t;
  }

  lemma FourHexText()
    ensures TextOf(FOUR_HEX) == "[0-9a-fA-F]{4}"
  {
    HexPartsText();
    SetText(false, HEX_PARTS, "0-9a-fA-F");
  }

  lemma EscapesText()
    ensures TextOf(ESCAPES) == "[\"\\\\bfnrt]" + (" | " + ("\"u\"" + (" " + "[0-9a-fA-F]{4}")))
  {
    EscapeText();
    SetText(false, ESCAPE_PARTS, "\"\\\\bfnrt");
    OneLetterText(LOWER_U, "u");
    FourHexText();
  }

  lemma OrText(a: Syntax, b: Syntax, s: string, t: string)
    requires TextOf(a) == s && TextOf(b) == t
    ensures TextOf(Or(a, b)) == s + (" | " + t)
  {
  }

  lemma SeqText(a: Syntax, b: Syntax, s: string, t: string)
    requires TextOf(a) == s && TextOf(b) == t
    ensures TextOf(Seq(a, b)) == s + (" " + t)
  {
  }

  lemma EscapedText()
    ensures TextOf(ESCAPED) == "[\\\\]" + (" " + ("(" + (TextOf(ESCAPES) + ")")))
  {
    PartsMore(BACKSLASH_PART, []);
    SetText(false, [BACKSLASH_PART], "\\\\");
    assert TextOf(Set(false, [BACKSLASH_PART])) == "[\\\\]";
    SeqText(Set(false, [BACKSLASH_PART]), Paren(false, ESCAPES), "[\\\\]", "(" + (TextOf(ESCAPES) + ")"));
  }

  /** It is the text of the program. */
  lemma CharText()
    ensures CHAR_NAME == "char"
    ensures TextOf(CHAR_SYNTAX) == "[^" + ("\"\\\\\\x7F\\x00-\\x1F" + "]") + (" | " + TextOf(ESCAPED))
    ensures TextOf(ESCAPED) == "[\\\\]" + (" " + ("(" + (TextOf(ESCAPES) + ")")))
    ensures TextOf(ESCAPES) == "[\"\\\\bfnrt]" + (" | " + ("\"u\"" + (" " + "[0-9a-fA-F]{4}")))
  {
    PlainText();
    EscapesText();
    EscapedText();
    var t := "\"\\\\\\x7F\\x00-\\x1F";
    SetText(true, PLAIN_PARTS, t);
    OrText(Set(true, PLAIN_PARTS), ESCAPED, "[^" + (t + "]"), TextOf(ESCAPED));
  }

  lemma ExactBounds(n: nat)
    ensures GoodMark(Bounds(n, Some(n)), "{" + (Decimal(n) + "}"))
  {
    var bounds, text := Bounds(n, Some(n)), "{" + (Decimal(n) + "}");
    forall src, pos: nat
      ensures MarkRead(bounds, text, src, pos)
    {
      if TextAt(src, pos, text) {
        var end := pos + 1 + |Decimal(n)|;
        TextParts(src, pos, text, "{", Decimal(n) + "}");
        TextParts(src, pos + 1, Decimal(n) + "}", Decimal(n), "}");
        TextChar(src, pos, "{", 0);
        TextChar(src, end, "}", 0);
        NumberReads(src, pos + 1, n);
        forall nested
          ensures ReadMark(src, pos, nested) == Success((bounds, SpaceEnd(src, pos + |text|, nested)))
        {
          NoSpace(src, pos + 1, nested);
          NoSpace(src, end, nested);
          BoundsFrom(src, pos + 1, end, n, nested, Success((bounds, SpaceEnd(src, end + 1, nested))));
        }
      }
    }
  }

  lemma RawPart(c: char)
    requires IsRaw(c as nat) && c != ']'
    ensures GoodPart(Part(One(c as nat), [c]))
  {
    RawChar(c as nat);
    GoodOne(c as nat, [c]);
  }

  lemma SpanParts(lo: char, hi: char)
    requires IsRaw(lo as nat) && lo != ']' && IsRaw(hi as nat) && hi != ']'
    ensures GoodPart(SpanPart(lo, hi))
  {
    RawChar(lo as nat);
    RawChar(hi as nat);
    GoodSpan(lo as nat, [lo], hi as nat, [hi]);
  }

  lemma PlainSet()
    ensures IsItem(Set(true, PLAIN_PARTS)) && IsItem(Set(false, [BACKSLASH_PART]))
  {
    EscapeSigns();
    ByteChar(0);
    ByteChar(0x1F);
    ByteChar(0x7F);
    RawPart('"');
    GoodOne(BACKSLASH, "\\\\");
    GoodOne(0x7F, ByteText(0x7F));
    GoodSpan(0, ByteText(0), 0x1F, ByteText(0x1F));
    GoodSet(true, PLAIN_PARTS);
    GoodSet(false, [BACKSLASH_PART]);
  }

  lemma EscapeSet()
    ensures IsItem(Set(false, ESCAPE_PARTS))
  {
    EscapeSigns();
    RawPart('"');
    GoodOne(BACKSLASH, "\\\\");
    forall i | 2 <= i < |ESCAPE_PARTS|
      ensures GoodPart(ESCAPE_PARTS[i]) && ESCAPE_PARTS[i].text[0] != '-'
    {
      RawPart("bfnrt"[i - 2]);
    }
    GoodSet(false, ESCAPE_PARTS);
  }

  lemma HexItems()
    ensures IsItem(FOUR_HEX) && IsItem(LETTER_U)
  {
    SpanParts('0', '9');
    SpanParts('a', 'f');
    SpanParts('A', 'F');
    GoodSet(false, HEX_PARTS);
    ExactBounds(4);
    assert "{" + (Decimal(4) + "}") == "{4}";
    RawChar(LOWER_U);
    GoodLiteral([Letter(LOWER_U, "u")]);
  }

  /** It is read as the rule for characters. */
  lemma CharWritten()
    ensures IsAlternates(CHAR_SYNTAX)
  {
    PlainSet();
    EscapeSet();
    HexItems();
    assert IsSequence(LETTER_U) && IsSequence(FOUR_HEX);
    SequenceIsAlternates(Set(false, ESCAPE_PARTS));
    assert IsAlternates(ESCAPES);
    assert IsItem(Paren(false, ESCAPES));
    SequenceIsAlternates(Set(true, PLAIN_PARTS));
    assert IsSequence(Set(false, [BACKSLASH_PART])) && IsSequence(Paren(false, ESCAPES));
    assert IsSequence(ESCAPED);
  }

  lemma EscapesMeant()
    ensures Meant(ESCAPES) == Alt(ESCAPE, Cat(Lit([LOWER_U]), Rep(HEX_DIGIT, 4, Some(4))))
  {
    assert RangesOf(ESCAPE_PARTS) == ESCAPE.ranges;
    assert RangesOf(HEX_PARTS) == HEX_DIGIT.ranges;
    assert CodesOf([Letter(LOWER_U, "u")]) == [LOWER_U];
    MeantSeq(LETTER_U, FOUR_HEX);
  }

  lemma CharMeant()
    ensures Meant(CHAR_SYNTAX) == CHAR_RULE
  {
    assert RangesOf(PLAIN_PARTS) == CHAR_RULE.left.ranges;
    assert RangesOf([BACKSLASH_PART]) == [One(BACKSLASH)];
    EscapesMeant();
    MeantSeq(Set(false, [BACKSLASH_PART]), Paren(false, ESCAPES));
    assert Meant(ESCAPED) == CHAR_RULE.right;
  }

  // ---------------------------------------------------------------------------------------------
  // Space

  const BLANKS := Set(false, [Part(One(32), " "), Part(One(9), "\\t")])
  const NEWLINE := Seq(Literal([Letter(10, "\\n")]), Marked(BLANKS, Bounds(0, Some(20)), "{0,20}"))

  /** The rule for space as it is written. */
  const SPACE_SYNTAX := Or(Bar(Literal([Letter(32, " ")])), NEWLINE)

  lemma BlanksText()
    ensures TextOf(BLANKS) == "[ \\t]"
  {
    var s, t := Part(One(32), " "), Part(One(9), "\\t");
    PartsMore(t, []);
    PartsMore(s, [t]);
    assert [s, t] == [s] + [t];
    SetText(false, [s, t], " \\t");
  }

  lemma NewlineText()
    ensures TextOf(NEWLINE) == "\"\\n\"" + (" " + ("[ \\t]" + "{0,20}"))
  {
    OneLetterText(10, "\\n");
    BlanksText();
    var rest := Marked(BLANKS, Bounds(0, Some(20)), "{0,20}");
    SeqText(Literal([Letter(10, "\\n")]), rest, "\"\\n\"", "[ \\t]" + "{0,20}");
  }

  lemma SpaceText()
    ensures SPACE_NAME == "space"
    ensures TextOf(SPACE_SYNTAX) == "| \" \"" + (" | " + ("\"\\n\"" + (" " + ("[ \\t]" + "{0,20}"))))
  {
    var blank := Bar(Literal([Letter(32, " ")]));
    OneLetterText(32, " ");
    NewlineText();
    assert TextOf(blank) == "| \" \"";
    OrText(blank, NEWLINE, "| \" \"", TextOf(NEWLINE));
  }

  lemma SpaceWritten()
    ensures IsAlternates(SPACE_SYNTAX)
  {
    EscapeSigns();
    RawPart(' ');
    RawChar(32);
    GoodOne(9, "\\t");
    GoodSet(false, [Part(One(32), " "), Part(One(9), "\\t")]);
    GoodBounds(0, Some(20));
    assert BoundsText(0, Some(20)) == "{0,20}";
    GoodLiteral([Letter(10, "\\n")]);
    GoodLiteral([Letter(32, " ")]);
    var rest := Marked(BLANKS, Bounds(0, Some(20)), "{0,20}");
    assert IsItem(rest);
    assert IsSequence(rest) && IsSequence(Literal([Letter(10, "\\n")])) && IsSequence(Literal([Letter(32, " ")]));
    assert IsSequence(NEWLINE);
  }

  predicate IsBlank(c: Code) {
    c == 32 || c == 9
  }

  /** Nothing, a blank, or a line break and up to twenty blanks and tabs. */
  predicate IsSpace(w: Text) {
    w == [] || w == [32] || (0 < |w| <= 21 && w[0] == 10 && forall i :: 0 < i < |w| ==> IsBlank(w[i]))
  }

  lemma BlankAccepts(g: Grammar, k: nat, w: Text)
    ensures Match(g, k, Meant(BLANKS), w) <==> |w| == 1 && IsBlank(w[0])
  {
    if |w| == 1 {
      var r := BLANKS.expr.ranges;
      assert InRange(w[0], r[0]) || InRange(w[0], r[1]) <==> IsBlank(w[0]);
    }
  }

  lemma {:induction false} ManyBlanks(g: Grammar, k: nat, n: nat, w: Text)
    ensures Power(g, k, Meant(BLANKS), n, w) <==> |w| == n && forall i :: 0 <= i < n ==> IsBlank(w[i])
    decreases n
  {
    if n > 0 {
      forall i | 0 <= i <= |w|
        ensures Match(g, k, Meant(BLANKS), w[..i]) <==> i == 1 && IsBlank(w[0])
      {
        BlankAccepts(g, k, w[..i]);
      }
      if w != [] {
        ManyBlanks(g, k, n - 1, w[1..]);
        assert Match(g, k, Meant(BLANKS), w[..1]) <==> IsBlank(w[0]);
        assert forall i :: 0 < i < |w| ==> w[i] == w[1..][i - 1];
      }
    }
  }

  lemma BlanksExact(g: Grammar, k: nat, w: Text)
    ensures Match(g, k, Rep(Meant(BLANKS), 0, Some(20)), w) <==> |w| <= 20 && forall i :: 0 <= i < |w| ==> IsBlank(w[i])
  {
    if Match(g, k, Rep(Meant(BLANKS), 0, Some(20)), w) {
      var n := RepCount(g, k, Meant(BLANKS), 0, Some(20), w);
      ManyBlanks(g, k, n, w);
    }
    if |w| <= 20 && forall i :: 0 <= i < |w| ==> IsBlank(w[i]) {
      ManyBlanks(g, k, |w|, w);
      RepJoin(g, k, Meant(BLANKS), 0, Some(20), |w|, w);
    }
  }

  /** The rule for space describes exactly the texts of space, of at most 21 characters. */
  lemma SpaceExact(g: Grammar, k: nat, w: Text)
    ensures Match(g, k, Meant(SPACE_SYNTAX), w) <==> IsSpace(w)
  {
    var rest := Rep(Meant(BLANKS), 0, Some(20));
    SpaceMeant();
    LetterThen(g, k, 10, rest, w);
    if w != [] {
      BlanksExact(g, k, w[1..]);
      assert forall i :: 0 < i < |w| ==> w[i] == w[1..][i - 1];
    }
    EitherWay(g, k, Empty, Lit([32]), Alt(Empty, Lit([32])), w);
    EitherWay(g, k, Alt(Empty, Lit([32])), Cat(Lit([10]), rest), Meant(SPACE_SYNTAX), w);
  }

  lemma SpaceMeant()
    ensures Meant(SPACE_SYNTAX) == Alt(Alt(Empty, Lit([32])), Cat(Lit([10]), Rep(Meant(BLANKS), 0, Some(20))))
  {
    assert CodesOf([Letter(32, " ")]) == [32] && CodesOf([Letter(10, "\\n")]) == [10];
    MeantSeq(Literal([Letter(10, "\\n")]), Marked(BLANKS, Bounds(0, Some(20)), "{0,20}"));
    assert Meant(Bar(Literal([Letter(32, " ")]))) == Alt(Empty, Lit([32]));
  }
}
