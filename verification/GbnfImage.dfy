/** Whatever is read can be written: the reader yields just the expressions that have a text. */
module GbnfImage {
  import opened Gbnf
  import opened GbnfReader
  import opened GbnfSyntax
  import opened GbnfSpelling
  import opened GbnfWriting
  import opened GbnfRendering

  // ---------------------------------------------------------------------------------------------
  // Characters

  lemma {:induction false} HexBelow(src: string, pos: nat, end: nat, value: nat, m: nat)
    requires pos <= end && value < Pow16(m)
    ensures var r := ReadHex(src, pos, end, value); r.Success? ==> r.value.0 < Pow16(m + (end - pos))
    decreases end - pos
  {
    if pos < end {
      match HexDigit(At(src, pos))
      case None =>
      case Some(d) => HexBelow(src, pos + 1, end, 16 * value + d, m + 1);
    }
  }

  function Pow64(n: nat): nat {
    if n == 0 then 1 else 64 * Pow64(n - 1)
  }

  lemma {:induction false} ContinuationBelow(src: string, pos: nat, end: nat, value: nat, m: nat)
    requires value < Pow64(m)
    ensures ReadContinuation(src, pos, end, value).0 < Pow64(m + if pos < end then end - pos else 0)
    decreases end - pos
  {
    PowerGrows(m, if pos < end then end - pos else 0);
    if pos < end && At(src, pos) != NUL {
      ContinuationBelow(src, pos + 1, end, 64 * value + At(src, pos) as int % 64, m + 1);
    }
  }

  lemma {:induction false} PowerGrows(m: nat, n: nat)
    ensures Pow64(m) <= Pow64(m + n)
    decreases n
  {
    if n > 0 {
      PowerGrows(m, n - 1);
    }
  }

  lemma Utf8Spelled(src: string, pos: nat)
    requires pos < |src|
    ensures IsSpelled(ReadUtf8(src, pos).0)
  {
    var len, lead := Utf8Length(At(src, pos) as int), Utf8Lead(At(src, pos) as int);
    assert Pow64(1) == 64 && Pow64(2) == 4096 && Pow64(3) == 262144 && Pow64(4) == 16777216 && Pow64(5) == 1073741824;
    ContinuationBelow(src, pos + 1, pos + len, lead, 2);
  }

  lemma CharSpelled(src: string, pos: nat)
    ensures var r := ReadChar(src, pos); r.Success? ==> IsSpelled(r.value.0)
  {
    assert Pow16(0) == 1 && Pow16(2) == 256 && Pow16(4) == 65536 && Pow16(8) == 0x1_0000_0000;
    HexBelow(src, pos + 2, pos + 4, 0, 0);
    HexBelow(src, pos + 2, pos + 6, 0, 0);
    HexBelow(src, pos + 2, pos + 10, 0, 0);
    if At(src, pos) != NUL {
      Utf8Spelled(src, pos);
    }
  }

  lemma {:induction false} LiteralRendered(src: string, pos: nat, text: Text)
    requires Renderable(Lit(text))
    ensures var r := ReadLiteral(src, pos, text); r.Success? ==> Renderable(Lit(r.value.0))
    decreases |src| - pos
  {
    if At(src, pos) != '"' && At(src, pos) != NUL {
      var r := ReadChar(src, pos);
      CharSpelled(src, pos);
      if r.Success? {
        LiteralRendered(src, r.value.1, text + [r.value.0]);
      }
    }
  }

  lemma RangeSpelled(src: string, pos: nat)
    ensures var r := ReadRange(src, pos); r.Success? ==> IsSpelledRange(r.value.0)
  {
    var r := ReadChar(src, pos);
    CharSpelled(src, pos);
    if r.Success? {
      CharSpelled(src, r.value.1 + 1);
    }
  }

  lemma {:induction false} ClassRendered(src: string, pos: nat, negated: bool, ranges: seq<CharRange>)
    requires Renderable(Class(negated, ranges))
    ensures var r := ReadClass(src, pos, ranges); r.Success? ==> Renderable(Class(negated, r.value.0))
    decreases |src| - pos
  {
    if At(src, pos) != ']' && At(src, pos) != NUL {
      var r := ReadRange(src, pos);
      RangeSpelled(src, pos);
      if r.Success? {
        ClassRendered(src, r.value.1, negated, ranges + [r.value.0]);
      }
    }
  }

  // ---------------------------------------------------------------------------------------------
  // Expressions

  lemma TerminalRendered(src: string, pos: nat, nested: bool)
    requires StartsTerminal(At(src, pos))
    ensures var r := ReadTerminal(src, pos, nested); r.Success? ==> Renderable(r.value.0)
  {
    var negated := At(src, pos + 1) == '^';
    LiteralRendered(src, pos + 1, []);
    ClassRendered(src, if negated then pos + 2 else pos + 1, negated, []);
  }

  lemma {:induction false} ItemRendered(src: string, pos: nat, nested: bool)
    requires StartsItem(At(src, pos))
    ensures var r := ReadItem(src, pos, nested); r.Success? ==> Renderable(r.value.0)
    decreases |src| - pos, 0
  {
    if StartsTerminal(At(src, pos)) {
      TerminalRendered(src, pos, nested);
    } else if IsWordChar(At(src, pos)) {
      WordRead(src, pos);
    } else {
      AlternatesRendered(src, SpaceEnd(src, pos + 1, true), true);
    }
  }

  lemma WordRead(src: string, pos: nat)
    requires IsWordChar(At(src, pos))
    ensures var end := NameEnd(src, pos); pos < end <= |src| && IsWord(src[pos..end])
  {
  }

  lemma {:induction false} SequenceRendered(src: string, pos: nat, nested: bool, acc: Expr)
    requires Renderable(acc)
    ensures var r := ReadSequence(src, pos, nested, acc); r.Success? ==> Renderable(r.value.0)
    decreases |src| - pos, 1
  {
    if StartsItem(At(src, pos)) {
      var r := ReadItem(src, pos, nested);
      ItemRendered(src, pos, nested);
      if r.Success? {
        SequenceRendered(src, r.value.1, nested, Cat(acc, r.value.0));
      }
    } else if IsMark(At(src, pos)) {
      var r := ReadMark(src, pos, nested);
      if r.Success? && Repeated(acc, r.value.0).Success? {
        SequenceRendered(src, r.value.1, nested, Repeated(acc, r.value.0).value);
      }
    }
  }

  lemma {:induction false} AlternatesRendered(src: string, pos: nat, nested: bool)
    ensures var r := ReadAlternates(src, pos, nested); r.Success? ==> Renderable(r.value.0)
    decreases |src| - pos, 2
  {
    var r := ReadSequence(src, pos, nested, Empty);
    SequenceRendered(src, pos, nested, Empty);
    if r.Success? {
      OthersRendered(src, r.value.1, nested, r.value.0);
    }
  }

  lemma {:induction false} OthersRendered(src: string, pos: nat, nested: bool, acc: Expr)
    requires Renderable(acc)
    ensures var r := ReadOthers(src, pos, nested, acc); r.Success? ==> Renderable(r.value.0)
    decreases |src| - pos, 0
  {
    if At(src, pos) == '|' {
      var next := SpaceEnd(src, pos + 1, true);
      var r := ReadSequence(src, next, nested, Empty);
      SequenceRendered(src, next, nested, Empty);
      if r.Success? {
        OthersRendered(src, r.value.1, nested, Alt(acc, r.value.0));
      }
    }
  }

  lemma {:induction false} RulesRendered(src: string, pos: nat, defs: seq<Definition>)
    requires AllRenderable(defs)
    ensures var r := ReadRules(src, pos, defs); r.Success? ==> AllRenderable(r.value)
    decreases |src| - pos
  {
    if At(src, pos) != NUL {
      var r := ReadRule(src, pos);
      RuleRendered(src, pos);
      if r.Success? {
        RulesRendered(src, r.value.1, defs + [r.value.0]);
      }
    }
  }

  lemma RuleRendered(src: string, pos: nat)
    ensures var r := ReadRule(src, pos); r.Success? ==> RenderableRule(r.value.0)
  {
    var end := NameEnd(src, pos);
    if end > pos {
      var sign := ReadSign(src, end);
      WordRead(src, pos);
      if sign.Success? {
        AlternatesRendered(src, sign.value, false);
      }
    }
  }

  /** Every source that is read can be written again, and what is then read means the same, name by name. */
  lemma Normalized(src: string)
    requires ReadDefinitions(src).Success?
    ensures var defs := ReadDefinitions(src).value;
            var again := ReadDefinitions(TextOfRules(RulesOf(defs)));
            && again.Success?
            && forall name, w :: InLanguage(LastDefinitions(again.value), name, w) <==>
              InLanguage(LastDefinitions(defs), name, w)
  {
    var defs := ReadDefinitions(src).value;
    var rules := RulesOf(defs);
    RulesRendered(src, SpaceEnd(src, 0, true), []);
    RulesWellWritten(defs);
    GrammarReadBack(rules);
    RulesAlike(rules);
    GrammarAlike(defs);
    forall name, w
      ensures InLanguage(LastDefinitions(RereadAll(rules)), name, w) <==> InLanguage(LastDefinitions(defs), name, w)
    {
      AlikeLanguages(GrammarOf(rules), LastDefinitions(RereadAll(rules)), name, w);
      AlikeLanguages(GrammarOf(rules), LastDefinitions(defs), name, w);
    }
  }
}
