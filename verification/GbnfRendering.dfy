/** Every expression that can be written in GBNF has a text that is read back with its meaning. */
module GbnfRendering {
  import opened Wrappers
  import opened Gbnf
  import opened GrammarTable
  import opened Lowering
  import opened GbnfReader
  import opened GbnfSyntax
  import opened GbnfSpelling
  import opened GbnfWriting
  import opened ParseSteps
  import opened GbnfParser

  // ---------------------------------------------------------------------------------------------
  // Texts

  predicate IsSpelled(c: Code) {
    c < 0x1_0000_0000
  }

  predicate IsSpelledRange(r: CharRange) {
    match r
    case One(c) => IsSpelled(c)
    case Span(lo, hi) => IsSpelled(lo) && IsSpelled(hi)
  }

  /** Its characters have codes of 32 bits, and its names are words. */
  predicate Renderable(e: Expr) {
    match e
    case Lit(text) => forall i :: 0 <= i < |text| ==> IsSpelled(text[i])
    case Class(_, ranges) => forall i :: 0 <= i < |ranges| ==> IsSpelledRange(ranges[i])
    case Ref(name) => IsWord(name)
    case Group(body) => Renderable(body)
    case Cat(left, right) => Renderable(left) && Renderable(right)
    case Alt(left, right) => Renderable(left) && Renderable(right)
    case Rep(item, _, _) => Renderable(item)
    case _ => true
  }

  function LettersOf(text: Text): seq<Letter> {
    seq(|text|, i requires 0 <= i < |text| => Letter(text[i], Escaped(text[i])))
  }

  function PartOf(r: CharRange): Part {
    match r
    case One(c) => Part(r, Escaped(c))
    case Span(lo, hi) => Part(r, Escaped(lo) + ("-" + Escaped(hi)))
  }

  function PartsOf(ranges: seq<CharRange>): seq<Part> {
    seq(|ranges|, i requires 0 <= i < |ranges| => PartOf(ranges[i]))
  }

  /** An expression as an item; parentheses are put around what is not one. */
  function ItemOf(e: Expr): Syntax
    decreases e, 0
  {
    match e
    case Empty => Paren(false, Nothing)
    case Lit(text) => Literal(LettersOf(text))
    case Class(negated, ranges) => Set(negated, PartsOf(ranges))
    case AnyChar => Term(AnyChar, ".")
    case Ref(name) => Named(name)
    case Group(body) => Paren(false, SyntaxOf(body))
    case Cat(left, right) => Paren(false, Seq(SequenceOf(left), SequenceOf(right)))
    case Alt(left, right) => Paren(false, Or(SyntaxOf(left), SequenceOf(right)))
    case Rep(item, min, max) =>
      Marked(if item.Group? then ItemOf(item) else Paren(false, SyntaxOf(item)), Bounds(min, max), BoundsText(min, max))
  }

  function SequenceOf(e: Expr): Syntax
    decreases e, 1
  {
    if e.Cat? then Seq(SequenceOf(e.left), SequenceOf(e.right)) else ItemOf(e)
  }

  /** An expression as it is written. */
  function SyntaxOf(e: Expr): Syntax
    decreases e, 2
  {
    if e.Alt? then Or(SyntaxOf(e.left), SequenceOf(e.right)) else SequenceOf(e)
  }

  // ---------------------------------------------------------------------------------------------
  // They are well written

  lemma LiteralOf(text: Text)
    requires Renderable(Lit(text))
    ensures IsItem(Literal(LettersOf(text))) && CodesOf(LettersOf(text)) == text
  {
    forall i | 0 <= i < |text|
      ensures GoodLetter(LettersOf(text)[i])
    {
      EscapedChar(text[i]);
    }
    GoodLiteral(LettersOf(text));
  }

  lemma SetOf(negated: bool, ranges: seq<CharRange>)
    requires Renderable(Class(negated, ranges))
    ensures IsItem(Set(negated, PartsOf(ranges))) && RangesOf(PartsOf(ranges)) == ranges
  {
    var parts := PartsOf(ranges);
    forall i | 0 <= i < |parts|
      ensures GoodPart(parts[i]) && parts[i].text[0] == '\\'
    {
      assert IsSpelledRange(ranges[i]);
      match ranges[i]
      case One(c) =>
        EscapedChar(c);
        GoodOne(c, Escaped(c));
      case Span(lo, hi) =>
        EscapedChar(lo);
        EscapedChar(hi);
        GoodSpan(lo, Escaped(lo), hi, Escaped(hi));
    }
    GoodSet(negated, parts);
  }

  lemma {:induction false} WellItem(e: Expr)
    requires Renderable(e)
    ensures IsItem(ItemOf(e))
    decreases e, 0
  {
    match e
    case Empty =>
    case Lit(text) => LiteralOf(text);
    case Class(negated, ranges) => SetOf(negated, ranges);
    case AnyChar => GoodSigns();
    case Ref(name) =>
    case Group(body) =>
      WellAlternates(body);
    case Cat(left, right) =>
      WellSequence(left);
      WellSequence(right);
      SequenceIsAlternates(Seq(SequenceOf(left), SequenceOf(right)));
    case Alt(left, right) =>
      WellAlternates(left);
      WellSequence(right);
    case Rep(item, min, max) =>
      GoodBounds(min, max);
      if item.Group? {
        WellItem(item);
      } else {
        WellAlternates(item);
      }
  }

  lemma {:induction false} WellSequence(e: Expr)
    requires Renderable(e)
    ensures IsSequence(SequenceOf(e))
    decreases e, 1
  {
    if e.Cat? {
      WellSequence(e.left);
      WellSequence(e.right);
    } else {
      WellItem(e);
      assert !ItemOf(e).Seq?;
    }
  }

  lemma {:induction false} WellAlternates(e: Expr)
    requires Renderable(e)
    ensures IsAlternates(SyntaxOf(e))
    decreases e, 2
  {
    if e.Alt? {
      WellAlternates(e.left);
      WellSequence(e.right);
    } else {
      WellSequence(e);
      SequenceIsAlternates(SequenceOf(e));
    }
  }

  // ---------------------------------------------------------------------------------------------
  // They mean what they are made from

  lemma {:induction false} ItemMeant(g: Grammar, k: nat, e: Expr)
    requires Renderable(e)
    ensures Alike(g, k, Meant(ItemOf(e)), e)
    decreases e, 0
  {
    match e
    case Lit(text) => LiteralOf(text);
    case Class(negated, ranges) => SetOf(negated, ranges);
    case Group(body) =>
      SyntaxMeant(g, k, body);
      AlikeGroup(g, k, Meant(SyntaxOf(body)), body);
    case Cat(left, right) =>
      SequenceMeant(g, k, left);
      SequenceMeant(g, k, right);
      AlikeCat(g, k, Meant(SequenceOf(left)), left, Meant(SequenceOf(right)), right);
    case Alt(left, right) =>
      SyntaxMeant(g, k, left);
      SequenceMeant(g, k, right);
    case Rep(item, min, max) =>
      RepMeant(g, k, item, min, max);
    case _ =>
  }

  lemma {:induction false} RepMeant(g: Grammar, k: nat, item: Expr, min: nat, max: Option<nat>)
    requires Renderable(item)
    ensures Alike(g, k, Meant(ItemOf(Rep(item, min, max))), Rep(item, min, max))
    decreases item, 3
  {
    if item.Group? {
      ItemMeant(g, k, item);
      AlikeRep(g, k, Meant(ItemOf(item)), item, min, max);
    } else {
      SyntaxMeant(g, k, item);
      AlikeRep(g, k, Group(Meant(SyntaxOf(item))), item, min, max);
    }
  }

  lemma {:induction false} SequenceMeant(g: Grammar, k: nat, e: Expr)
    requires Renderable(e)
    ensures Alike(g, k, Meant(SequenceOf(e)), e)
    decreases e, 1
  {
    if e.Cat? {
      SequenceMeant(g, k, e.left);
      SequenceMeant(g, k, e.right);
      AlikeCat(g, k, Meant(SequenceOf(e.left)), e.left, Meant(SequenceOf(e.right)), e.right);
    } else {
      ItemMeant(g, k, e);
    }
  }

  lemma {:induction false} SyntaxMeant(g: Grammar, k: nat, e: Expr)
    requires Renderable(e)
    ensures Alike(g, k, Meant(SyntaxOf(e)), e)
    decreases e, 2
  {
    if e.Alt? {
      SyntaxMeant(g, k, e.left);
      SequenceMeant(g, k, e.right);
    } else {
      SequenceMeant(g, k, e);
    }
  }

  lemma {:induction false} ItemKept(e: Expr)
    requires Renderable(e)
    ensures (Sensible(Meant(ItemOf(e))) <==> Sensible(e)) && Names(Meant(ItemOf(e))) == Names(e)
    decreases e, 0
  {
    match e
    case Lit(text) => LiteralOf(text);
    case Class(negated, ranges) => SetOf(negated, ranges);
    case Group(body) => SyntaxKept(body);
    case Cat(left, right) =>
      SequenceKept(left);
      SequenceKept(right);
    case Alt(left, right) =>
      SyntaxKept(left);
      SequenceKept(right);
    case Rep(item, _, _) =>
      if item.Group? {
        ItemKept(item);
      } else {
        SyntaxKept(item);
      }
    case _ =>
  }

  lemma {:induction false} SequenceKept(e: Expr)
    requires Renderable(e)
    ensures (Sensible(Meant(SequenceOf(e))) <==> Sensible(e)) && Names(Meant(SequenceOf(e))) == Names(e)
    decreases e, 1
  {
    if e.Cat? {
      SequenceKept(e.left);
      SequenceKept(e.right);
    } else {
      ItemKept(e);
    }
  }

  lemma {:induction false} SyntaxKept(e: Expr)
    requires Renderable(e)
    ensures (Sensible(Meant(SyntaxOf(e))) <==> Sensible(e)) && Names(Meant(SyntaxOf(e))) == Names(e)
    decreases e, 2
  {
    if e.Alt? {
      SyntaxKept(e.left);
      SequenceKept(e.right);
    } else {
      SequenceKept(e);
    }
  }

  /** The text of an expression is read to its end, as an expression of the same meaning at every depth. */
  lemma RenderedReadBack(e: Expr, nested: bool)
    requires Renderable(e)
    ensures var t := TextOf(SyntaxOf(e));
            var r := ReadAlternates(t, 0, nested);
            && r.Success?
            && r.value.1 == |t|
            && Names(r.value.0) == Names(e)
            && (Sensible(r.value.0) <==> Sensible(e))
            && forall g: Grammar, k: nat :: Alike(g, k, r.value.0, e)
  {
    var x := SyntaxOf(e);
    var t, e' := TextOf(x), AlternatesExpr(x);
    WellAlternates(e);
    assert TextAt(t, 0, t) by {
      assert t[0..0 + |t|] == t;
    }
    NoSpace(t, |t|, nested);
    ReadsAlternates(t, 0, nested, x);
    assert Here(0);
    SyntaxKept(e);
    ReadSame(x);
    forall g: Grammar, k: nat
      ensures Alike(g, k, e', e)
    {
      SyntaxMeant(g, k, e);
      AlternatesAlike(g, k, x);
    }
  }

  // ---------------------------------------------------------------------------------------------
  // Grammars

  predicate RenderableRule(d: Definition) {
    IsWord(d.name) && Renderable(d.body)
  }

  predicate AllRenderable(defs: seq<Definition>) {
    forall i :: 0 <= i < |defs| ==> RenderableRule(defs[i])
  }

  function RulesOf(defs: seq<Definition>): seq<Written> {
    seq(|defs|, i requires 0 <= i < |defs| => Written(defs[i].name, SyntaxOf(defs[i].body)))
  }

  lemma RulesWellWritten(defs: seq<Definition>)
    requires AllRenderable(defs)
    ensures AllWritten(RulesOf(defs))
    ensures (forall i :: 0 <= i < |defs| ==> Sensible(defs[i].body)) ==> SensibleRules(RulesOf(defs))
    ensures forall i :: 0 <= i < |defs| ==> Names(MeantAll(RulesOf(defs))[i].body) == Names(defs[i].body)
  {
    forall i | 0 <= i < |defs|
      ensures WellWritten(RulesOf(defs)[i])
      ensures Sensible(Meant(RulesOf(defs)[i].body)) <==> Sensible(defs[i].body)
      ensures Names(MeantAll(RulesOf(defs))[i].body) == Names(defs[i].body)
    {
      assert RenderableRule(defs[i]);
      WellAlternates(defs[i].body);
      SyntaxKept(defs[i].body);
    }
  }

  lemma {:induction false} GrammarAlike(defs: seq<Definition>)
    requires AllRenderable(defs)
    ensures AlikeGrammars(GrammarOf(RulesOf(defs)), LastDefinitions(defs))
    decreases |defs|
  {
    if defs != [] {
      var n := |defs| - 1;
      var front, last := defs[..n], defs[n];
      GrammarAlike(front);
      assert MeantAll(RulesOf(defs))[..n] == MeantAll(RulesOf(front));
      assert RenderableRule(last);
      forall g: Grammar, k: nat
        ensures Alike(g, k, Meant(SyntaxOf(last.body)), last.body)
      {
        SyntaxMeant(g, k, last.body);
      }
      AlikeMore(GrammarOf(RulesOf(front)), LastDefinitions(front), last.name, Meant(SyntaxOf(last.body)), last.body);
    }
  }

  lemma RulesClosed(defs: seq<Definition>)
    requires AllRenderable(defs) && Closed(defs)
    ensures Closed(MeantAll(RulesOf(defs)))
  {
    GrammarAlike(defs);
    RulesWellWritten(defs);
    forall n | n in ReferredNames(MeantAll(RulesOf(defs)))
      ensures n in ReferredNames(defs)
    {
      var i :| 0 <= i < |defs| && n in Names(MeantAll(RulesOf(defs))[i].body);
      assert n in Names(defs[i].body);
    }
  }

  /** The table of a grammar: each of its names is numbered, and denotes there what it does in the grammar. */
  ghost predicate TableOf(s: Store, g: Grammar) {
    forall name :: name in g ==> Denotes(s, g, name)
  }

  ghost predicate Denotes(s: Store, g: Grammar, name: Name) {
    name in s.ids && forall w :: InTable(s.rules, s.ids[name], w) <==> InLanguage(g, name, w)
  }

  /** Any grammar that can be written has a text from which the parser makes its table. */
  method CompileDefinitions(defs: seq<Definition>) returns (state: ParseState)
    requires AllRenderable(defs) && Closed(defs) && forall i :: 0 <= i < |defs| ==> Sensible(defs[i].body)
    ensures fresh(state) && TableOf(state.View(), LastDefinitions(defs))
  {
    var rules := RulesOf(defs);
    RulesWellWritten(defs);
    RulesClosed(defs);
    state := CompileRules(rules);
    RenderedTable(state.View(), defs);
  }

  lemma RenderedTable(s: Store, defs: seq<Definition>)
    requires AllRenderable(defs) && forall i :: 0 <= i < |defs| ==> Sensible(defs[i].body)
    requires Accepted(s, RereadAll(RulesOf(defs)))
    ensures TableOf(s, LastDefinitions(defs))
  {
    var rules, g := RulesOf(defs), LastDefinitions(defs);
    RulesWellWritten(defs);
    GrammarAlike(defs);
    forall name | name in g
      ensures Denotes(s, g, name)
    {
      assert name in GrammarOf(rules);
      WrittenLanguages(s, rules, name, []);
      forall w
        ensures InTable(s.rules, s.ids[name], w) <==> InLanguage(g, name, w)
      {
        WrittenLanguages(s, rules, name, w);
        AlikeLanguages(GrammarOf(rules), g, name, w);
      }
    }
  }
}
