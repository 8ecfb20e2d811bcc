/** A maximum of zero items: the text that is written for an array is refused by the parser. */
module RefusedRules {
  import opened Wrappers
  import opened Gbnf
  import opened Separated
  import opened GbnfReader
  import opened GbnfSyntax
  import opened GbnfSpelling
  import opened GbnfWriting
  import opened CompiledRules
  import opened GbnfParser

  // ---------------------------------------------------------------------------------------------
  // The mark

  /** An upper bound of minus one is a syntax error wherever it stands. */
  lemma MinusOneRefused(src: string, pos: nat, min: nat, nested: bool)
    requires TextAt(src, pos, MinusOneText(min))
    ensures At(src, pos) == '{' && ReadMark(src, pos, nested) == Failure(ExpectingBrace)
  {
    var end := MarkPlaces(src, pos, min);
    DecimalReads(src, pos + 1, min);
    NoSpace(src, pos + 1, nested);
    MinusRefused(src, pos + 1, end, nested);
  }

  lemma MarkPlaces(src: string, pos: nat, min: nat) returns (end: nat)
    requires TextAt(src, pos, MinusOneText(min))
    ensures end == pos + 1 + |Decimal(min)| && end + 1 < |src| && src[end] == ',' && src[end + 1] == '-'
    ensures At(src, pos) == '{' && Solid(At(src, pos + 1)) && TextAt(src, pos + 1, Decimal(min))
  {
    var t, rest := Decimal(min), "," + ("-1" + "}");
    end := pos + 1 + |t|;
    TextParts(src, pos, "{" + (t + rest), "{", t + rest);
    TextParts(src, pos + 1, t + rest, t, rest);
    TextChar(src, pos, "{", 0);
    DecimalReads(src, pos + 1, min);
    TextChar(src, end, rest, 0);
    TextChar(src, end, rest, 1);
  }

  // ---------------------------------------------------------------------------------------------
  // What it stands in

  ghost predicate SequenceFails(src: string, pos: nat, nested: bool, acc: Expr) {
    forall p: nat {:trigger Here(p)} :: Here(p) && p == pos ==> ReadSequence(src, p, nested, acc).Failure?
  }

  lemma FailsLater(src: string, pos: nat, nested: bool, acc: Expr, end: nat, acc': Expr)
    requires Leads(src, pos, nested, acc, end, acc') && SequenceFails(src, end, nested, acc')
    ensures SequenceFails(src, pos, nested, acc)
  {
    assert Here(pos) && Here(end);
  }

  lemma MarkFails(src: string, pos: nat, nested: bool, acc: Expr, min: nat)
    requires TextAt(src, pos, MinusOneText(min))
    ensures SequenceFails(src, pos, nested, acc) && At(src, pos) == '{' && SpaceEnd(src, pos, nested) == pos
  {
    MinusOneRefused(src, pos, min, nested);
    NoSpace(src, pos, nested);
  }

  /** A group fails with what is in it. */
  lemma GroupFails(src: string, pos: nat, nested: bool, acc: Expr)
    requires At(src, pos) == '(' && Solid(At(src, pos + 1)) && SequenceFails(src, pos + 1, true, Empty)
    ensures SequenceFails(src, pos, nested, acc)
  {
    NoSpace(src, pos + 1, true);
    assert Here(pos + 1);
    assert ReadAlternates(src, pos + 1, true).Failure?;
    assert ReadItem(src, pos, nested).Failure?;
  }

  /** An item, a blank, another item, and the mark. */
  lemma PairsFail(src: string, pos: nat, nested: bool, acc: Expr, item: Syntax, pair: Syntax, min: nat)
    requires IsItem(item) && IsItem(pair) && !pair.Seq?
    requires TextAt(src, pos, TextOf(item) + (" " + (TextOf(pair) + MinusOneText(min))))
    ensures SequenceFails(src, pos, nested, acc)
  {
    var e, d := ItemExpr(item), ItemExpr(pair);
    var next, end := PairPlaces(src, pos, nested, TextOf(item), pair, MinusOneText(min));
    MarkFails(src, end, nested, Cat(Cat(acc, e), d), min);
    ReadsItems(src, pos, nested, acc, item);
    ReadsItems(src, next, nested, Cat(acc, e), pair);
    FailsLater(src, next, nested, Cat(acc, e), end, Cat(Cat(acc, e), d));
    FailsLater(src, pos, nested, acc, next, Cat(acc, e));
  }

  lemma PairPlaces(src: string, pos: nat, nested: bool, t: string, pair: Syntax, mark: string)
    returns (next: nat, end: nat)
    requires IsItem(pair) && !pair.Seq? && TextAt(src, pos, t + (" " + (TextOf(pair) + mark)))
    ensures next == pos + |t| + 1 && end == next + |TextOf(pair)|
    ensures TextAt(src, pos, t) && At(src, pos + |t|) == ' ' && SpaceEnd(src, pos + |t|, nested) == next
    ensures TextAt(src, next, TextOf(pair)) && TextAt(src, end, mark)
  {
    var u := TextOf(pair);
    var whole := t + (" " + u);
    assert whole + mark == t + (" " + (u + mark));
    TextParts(src, pos, whole + mark, whole, mark);
    assert IsSequence(pair);
    next := Between(src, pos, whole, t, pair, nested);
    end := next + |u|;
  }

  lemma RepetitionFails(src: string, pos: nat, nested: bool, acc: Expr, item: Syntax, min: nat, sep: Syntax)
    requires IsItem(item) && !item.Seq? && IsSequence(sep)
    requires TextAt(src, pos, TextOf(BuildRepetition(item, min, Some(0), Some(sep))))
    ensures SequenceFails(src, pos, nested, acc)
  {
    var pair, others := Paren(false, Seq(sep, item)), if min == 0 then 0 else min - 1;
    var mark := MinusOneText(others);
    var rest := Marked(pair, Bounds(others, Some(0)), mark);
    assert IsSequence(item);
    SequenceIsAlternates(Seq(sep, item));
    assert IsItem(pair);
    var t := TextOf(item) + (" " + (TextOf(pair) + mark));
    assert TextOf(Seq(item, rest)) == t;
    if min > 0 {
      PairsFail(src, pos, nested, acc, item, pair, others);
    } else {
      assert TextOf(Paren(false, Seq(item, rest))) == "(" + (t + ")");
      TextParts(src, pos, ("(" + (t + ")")) + "?", "(" + (t + ")"), "?");
      TextParts(src, pos, "(" + (t + ")"), "(", t + ")");
      TextParts(src, pos + 1, t + ")", t, ")");
      TextChar(src, pos, "(", 0);
      TextParts(src, pos + 1, t, TextOf(item), " " + (TextOf(pair) + mark));
      SequenceIsAlternates(item);
      FirstAt(src, pos + 1, item);
      PairsFail(src, pos + 1, true, Empty, item, pair, others);
      GroupFails(src, pos, nested, acc);
    }
  }

  // ---------------------------------------------------------------------------------------------
  // Arrays

  lemma ArrayFails(src: string, pos: nat, item: Name, min: nat)
    requires IsWord(item) && TextAt(src, pos, TextOf(ArrayRule(item, min, Some(0))))
    ensures SequenceFails(src, pos, false, Empty)
  {
    var next := ArrayPlaces(src, pos, item, min);
    SignWritten('[');
    SignWritten(',');
    ReadsSequence(src, pos, false, Empty, OPEN);
    RepetitionFails(src, next, false, SequenceExpr(Empty, OPEN), Named(item), min, COMMA);
    FailsLater(src, pos, false, Empty, next, SequenceExpr(Empty, OPEN));
  }

  lemma ArrayPlaces(src: string, pos: nat, item: Name, min: nat) returns (next: nat)
    requires IsWord(item) && TextAt(src, pos, TextOf(ArrayRule(item, min, Some(0))))
    ensures TextAt(src, pos, TextOf(OPEN)) && At(src, pos + |TextOf(OPEN)|) == ' '
    ensures SpaceEnd(src, pos + |TextOf(OPEN)|, false) == next
    ensures TextAt(src, next, TextOf(BuildRepetition(Named(item), min, Some(0), Some(COMMA))))
  {
    var rep := BuildRepetition(Named(item), min, Some(0), Some(COMMA));
    ArrayText(item, min);
    next := AfterSpace(src, pos, TextOf(OPEN), TextOf(rep), " " + TextOf(CLOSE));
    RepetitionBegins(src, next, item, min);
    NoSpace(src, next, false);
  }

  lemma AfterSpace(src: string, pos: nat, t: string, u: string, rest: string) returns (next: nat)
    requires TextAt(src, pos, (t + (" " + u)) + rest)
    ensures TextAt(src, pos, t) && At(src, pos + |t|) == ' ' && TextAt(src, next, u)
    ensures SpaceEnd(src, pos + |t|, false) == SpaceEnd(src, next, false)
  {
    next := pos + |t| + 1;
    TextParts(src, pos, (t + (" " + u)) + rest, t + (" " + u), rest);
    SpacedParts(src, pos, t, u);
    OneSpace(src, pos + |t|, false);
  }

  lemma ArrayText(item: Name, min: nat)
    ensures TextOf(ArrayRule(item, min, Some(0))) ==
            (TextOf(OPEN) + (" " + TextOf(BuildRepetition(Named(item), min, Some(0), Some(COMMA))))) +
            (" " + TextOf(CLOSE))
  {
    var rep := BuildRepetition(Named(item), min, Some(0), Some(COMMA));
    assert TextOf(Seq(OPEN, rep)) == TextOf(OPEN) + (" " + TextOf(rep));
  }

  lemma SpacedParts(src: string, pos: nat, t: string, u: string)
    requires TextAt(src, pos, t + (" " + u))
    ensures TextAt(src, pos, t) && At(src, pos + |t|) == ' ' && TextAt(src, pos + |t| + 1, u)
  {
    TextParts(src, pos, t + (" " + u), t, " " + u);
    TextParts(src, pos + |t|, " " + u, " ", u);
    TextChar(src, pos + |t|, " ", 0);
  }

  lemma RepetitionBegins(src: string, pos: nat, item: Name, min: nat)
    requires IsWord(item) && TextAt(src, pos, TextOf(BuildRepetition(Named(item), min, Some(0), Some(COMMA))))
    ensures Solid(At(src, pos))
  {
    var rep := BuildRepetition(Named(item), min, Some(0), Some(COMMA));
    assert IsWordChar(item[0]);
    if min == 0 {
      assert TextOf(rep.item)[0] == '(';
      assert TextOf(rep)[0] == '(';
    } else {
      assert TextOf(rep.left)[0] == item[0];
      assert TextOf(rep)[0] == item[0];
    }
    TextChar(src, pos, TextOf(rep), 0);
  }

  lemma ArrayFirst(item: Name, min: nat)
    ensures var t := TextOf(ArrayRule(item, min, Some(0))); t != "" && t[0] == TextOf(OPEN)[0] && Solid(t[0])
  {
    SignWritten('[');
    FirstOfAlternates(OPEN);
    ArrayText(item, min);
  }

  lemma ArrayRuleFails(src: string, pos: nat, rule: Written, item: Name, min: nat)
    requires IsWord(rule.name) && IsWord(item) && rule.body == ArrayRule(item, min, Some(0))
    requires TextAt(src, pos, RuleText(rule))
    ensures At(src, pos) != NUL && ReadRule(src, pos).Failure?
  {
    ArrayFirst(item, min);
    var start, end := InsideRule(src, pos, rule);
    ArrayFails(src, start, item, min);
    BodyFails(src, pos, NameEnd(src, pos), start);
  }

  lemma BodyFails(src: string, pos: nat, end: nat, start: nat)
    requires NameEnd(src, pos) == end > pos && ReadSign(src, end) == Success(start)
    requires SequenceFails(src, start, false, Empty)
    ensures ReadRule(src, pos).Failure?
  {
    assert Here(start);
  }

  /** The rules before it are read, and then it fails. */
  lemma {:induction false} RulesFail(src: string, pos: nat, before: seq<Written>, rule: Written, after: seq<Written>,
                                     item: Name, min: nat, defs: seq<Definition>)
    requires AllWritten(before) && IsWord(rule.name) && IsWord(item) && rule.body == ArrayRule(item, min, Some(0))
    requires TextAt(src, pos, TextOfRules(before + ([rule] + after)))
    ensures Solid(At(src, pos)) && ReadRules(src, pos, defs).Failure?
    decreases |before|
  {
    var all := before + ([rule] + after);
    var first, others := all[0], all[1..];
    TextParts(src, pos, TextOfRules(all), RuleText(first), TextOfRules(others));
    if before == [] {
      assert first == rule;
      ArrayRuleFails(src, pos, rule, item, min);
      NameFirst(src, pos, rule);
    } else {
      var next := pos + |RuleText(first)|;
      RestWritten(before);
      assert first == before[0] && others == before[1..] + ([rule] + after);
      NameFirst(src, pos, first);
      RulesFail(src, next, before[1..], rule, after, item, min, defs + [Reread(first)]);
      ReadsRule(src, pos, first);
    }
  }

  lemma NameFirst(src: string, pos: nat, rule: Written)
    requires IsWord(rule.name) && TextAt(src, pos, RuleText(rule))
    ensures Solid(At(src, pos)) && At(src, pos) != NUL
  {
    assert IsWordChar(rule.name[0]);
    assert RuleText(rule)[0] == rule.name[0];
    TextChar(src, pos, RuleText(rule), 0);
  }

  /** A grammar with the rule that is written for an array of at most zero items is not read. */
  lemma ArrayRefused(before: seq<Written>, name: Name, item: Name, min: nat, after: seq<Written>)
    requires AllWritten(before) && IsWord(name) && IsWord(item)
    ensures ReadDefinitions(TextOfRules(before + ([Written(name, ArrayRule(item, min, Some(0)))] + after))).Failure?
  {
    var rule := Written(name, ArrayRule(item, min, Some(0)));
    var src := TextOfRules(before + ([rule] + after));
    assert TextAt(src, 0, src) by {
      assert src[0..0 + |src|] == src;
    }
    RulesFail(src, 0, before, rule, after, item, min, []);
    NoSpace(src, 0, true);
  }

  /** Whatever the other rules are, the parser leaves an empty table. */
  method ParseArrayOfNone(before: seq<Written>, name: Name, item: Name, min: nat, after: seq<Written>)
    returns (state: ParseState)
    requires AllWritten(before) && IsWord(name) && IsWord(item)
    ensures fresh(state) && Blank(state.View())
  {
    var text := FormatGrammar(before + ([Written(name, ArrayRule(item, min, Some(0)))] + after));
    ArrayRefused(before, name, item, min, after);
    state := Parse(text);
  }
}
