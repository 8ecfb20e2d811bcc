/** Rules for integers, arrays and objects, from the expression that is generated to the table it is compiled to. */
module CompiledRules {
  import opened Wrappers
  import opened Gbnf
  import opened GrammarTable
  import opened Lowering
  import opened Separated
  import opened Meaning
  import ObjectMembers
  import ObjectRules
  import opened IntegerBounds
  import opened IntegerRules
  import opened GbnfReader
  import opened GbnfSyntax
  import opened GbnfSpelling
  import opened GbnfCharacters
  import opened GbnfWriting
  import opened GbnfRendering
  import opened ParseSteps
  import opened GbnfParser

  // ---------------------------------------------------------------------------------------------
  // Integers

  lemma {:induction false} StandaloneRenders(e: Expr)
    requires Standalone(e)
    ensures Renderable(e) && GbnfReader.Names(e) == {}
  {
    match e
    case Class(_, ranges) =>
      forall i | 0 <= i < |ranges|
        ensures IsSpelledRange(ranges[i])
      {
        assert AsciiRange(ranges[i]);
      }
    case Group(body) => StandaloneRenders(body);
    case Cat(left, right) =>
      StandaloneRenders(left);
      StandaloneRenders(right);
    case Alt(left, right) =>
      StandaloneRenders(left);
      StandaloneRenders(right);
    case Rep(item, _, _) => StandaloneRenders(item);
    case _ =>
  }

  /** In a table, a rule without references denotes what its expression accepts anywhere. */
  lemma StandaloneCompiled(s: Store, g: Grammar, name: Name, w: Text)
    requires Denotes(s, g, name) && name in g && Standalone(g[name])
    ensures InTable(s.rules, s.ids[name], w) <==> Accepts(g[name], w)
  {
    if k: nat :| Match(g, k, Ref(name), w) {
      SameEverywhere(g, k - 1, g[name], w);
    }
    if Accepts(g[name], w) {
      SameEverywhere(g, 0, g[name], w);
      assert Match(g, 1, Ref(name), w);
    }
  }

  /** A rule without references by itself: compiled from its text, it denotes what its expression accepts. */
  method CompileStandalone(name: Name, e: Expr) returns (state: ParseState)
    requires IsWord(name) && Standalone(e) && Sensible(e)
    ensures fresh(state) && name in state.symbolIds
    ensures forall w :: InTable(state.rules, state.symbolIds[name], w) <==> Accepts(e, w)
  {
    var defs := [Definition(name, e)];
    OneDefinition(name, e);
    state := CompileDefinitions(defs);
    StandaloneTable(state.View(), LastDefinitions(defs), name);
  }

  lemma OneDefinition(name: Name, e: Expr)
    requires IsWord(name) && Standalone(e)
    ensures var defs := [Definition(name, e)];
            LastDefinitions(defs) == map[name := e] && AllRenderable(defs) && Closed(defs)
  {
    var d := Definition(name, e);
    var none: seq<Definition> := [];
    StandaloneRenders(e);
    MoreDefinitions(none, d);
    assert none + [d] == [d];
    assert ReferredNames([d]) == {};
  }

  lemma StandaloneTable(s: Store, g: Grammar, name: Name)
    requires TableOf(s, g) && name in g && Standalone(g[name])
    ensures name in s.ids && forall w :: InTable(s.rules, s.ids[name], w) <==> Accepts(g[name], w)
  {
    assert Denotes(s, g, name);
    forall w
      ensures InTable(s.rules, s.ids[name], w) <==> Accepts(g[name], w)
    {
      StandaloneCompiled(s, g, name, w);
    }
  }

  /** The table denotes just the integers between the bounds, and "-0" if they are around zero. */
  ghost predicate TableExact(s: Store, name: Name, min: int, max: int)
    requires name in s.ids
  {
    forall w :: InTable(s.rules, s.ids[name], w) <==> SignedBetween(min, max, w)
  }

  /** The table for integers between two bounds is exact just when the generator keeps them. */
  method CompileBetween(name: Name, min: int, max: int) returns (state: ParseState)
    requires IsWord(name) && INT_MIN < min <= INT_MAX && INT_MIN < max < INT_MAX
    ensures fresh(state) && name in state.symbolIds
    ensures TableExact(state.View(), name, min, max) <==> KeepsBounds(min, max)
  {
    var r := BuildInteger(min, max);
    state := CompileStandalone(name, r.value);
    TableFollows(state.View(), name, r.value, min, max);
  }

  lemma TableFollows(s: Store, name: Name, e: Expr, min: int, max: int)
    requires name in s.ids && forall w :: InTable(s.rules, s.ids[name], w) <==> Accepts(e, w)
    ensures TableExact(s, name, min, max) <==> Exact(e, min, max)
  {
    if TableExact(s, name, min, max) {
      forall w
        ensures Accepts(e, w) <==> SignedBetween(min, max, w)
      {
        assert InTable(s.rules, s.ids[name], w) <==> Accepts(e, w);
      }
    }
  }

  // ---------------------------------------------------------------------------------------------
  // Literals in UTF-8

  /** A rule that is one literal, its characters written in UTF-8, is turned into a table of just this text. */
  method CompileUtf8(name: Name, text: Text) returns (state: ParseState)
    requires IsWord(name) && forall i :: 0 <= i < |text| ==> 0 < text[i] <= 0x10_FFFF && text[i] != 92 && text[i] != 34
    ensures fresh(state) && name in state.symbolIds
    ensures forall w :: InTable(state.rules, state.symbolIds[name], w) <==> w == text
  {
    var rules := [Written(name, Literal(Utf8Letters(text)))];
    Utf8Rule(name, text);
    state := CompileRules(rules);
    forall w
      ensures name in state.symbolIds && (InTable(state.rules, state.symbolIds[name], w) <==> w == text)
    {
      WrittenLanguages(state.View(), rules, name, w);
      LanguageMeans(GrammarOf(rules), name, w);
      LiteralMeans(GrammarOf(rules), text, w);
    }
  }

  lemma LiteralMeans(g: Grammar, text: Text, w: Text)
    ensures Means(g, Lit(text), w) <==> w == text
  {
    assert Match(g, 0, Lit(text), text);
  }

  lemma Utf8Rule(name: Name, text: Text)
    requires IsWord(name) && forall i :: 0 <= i < |text| ==> 0 < text[i] <= 0x10_FFFF && text[i] != 92 && text[i] != 34
    ensures var rules := [Written(name, Literal(Utf8Letters(text)))];
            && AllWritten(rules)
            && SensibleRules(rules)
            && Closed(MeantAll(rules))
            && GrammarOf(rules) == map[name := Lit(text)]
  {
    var x := Literal(Utf8Letters(text));
    var rules := [Written(name, x)];
    Utf8Literal(text);
    assert IsSequence(x);
    assert forall i: nat :: WrittenAt(rules, i);
    var none: seq<Definition> := [];
    var d := Definition(name, Lit(text));
    assert MeantAll(rules) == [d] == none + [d];
    MoreDefinitions(none, d);
  }

  // ---------------------------------------------------------------------------------------------
  // Arrays

  const SPACE := Named("space")
  const OPEN := Seq(Literal([Letter(91, "[")]), SPACE)
  const CLOSE := Seq(Literal([Letter(93, "]")]), SPACE)
  const COMMA := Seq(Literal([Letter(44, ",")]), SPACE)

  /** The rule for an array of between `min` and `max` items. */
  function ArrayRule(item: Name, min: nat, max: Option<nat>): Syntax {
    Seq(Seq(OPEN, BuildRepetition(Named(item), min, max, Some(COMMA))), CLOSE)
  }

  lemma SignWritten(c: char)
    requires IsRaw(c as nat) && c != '"'
    ensures IsSequence(Seq(Literal([Letter(c as nat, [c])]), SPACE))
    ensures Sensible(Meant(Seq(Literal([Letter(c as nat, [c])]), SPACE)))
  {
    RawChar(c as nat);
    GoodLiteral([Letter(c as nat, [c])]);
    assert IsSequence(Literal([Letter(c as nat, [c])])) && IsSequence(SPACE);
  }

  /** The rule is read back as what is meant. */
  lemma ArrayWritten(item: Name, min: nat, max: Option<nat>)
    requires IsWord(item) && (max.Some? ==> max.value >= 1)
    ensures IsAlternates(ArrayRule(item, min, max))
  {
    SignWritten('[');
    SignWritten(']');
    SignWritten(',');
    RepetitionWritten(Named(item), min, max, COMMA);
    SequenceIsAlternates(ArrayRule(item, min, max));
  }

  /** Its bounds are the right way round if they were. */
  lemma ArraySensible(item: Name, min: nat, max: Option<nat>)
    requires max.Some? ==> max.value >= 1
    ensures Sensible(Meant(ArrayRule(item, min, max))) <==> (max.Some? ==> min <= max.value)
  {
    var rep := BuildRepetition(Named(item), min, max, Some(COMMA));
    SensibleRepetition(Named(item), min, max, COMMA);
    assert Sensible(Meant(OPEN)) && Sensible(Meant(CLOSE));
    assert Meant(Seq(OPEN, rep)) == Cat(Meant(OPEN), Meant(rep));
  }

  /** A list of between `min` and `max` items with commas between them. */
  ghost predicate IsItems(g: Grammar, item: Name, min: nat, max: Option<nat>, w: Text) {
    IsList(g, Ref(item), Cat(Lit([44]), Ref("space")), min, max, w)
  }

  /** Such a list between brackets. */
  ghost predicate IsArray(g: Grammar, item: Name, min: nat, max: Option<nat>, w: Text) {
    exists a, x, b :: ArrayOf(g, item, min, max, w, a, x, b)
  }

  ghost predicate ArrayOf(g: Grammar, item: Name, min: nat, max: Option<nat>, w: Text, a: Text, x: Text, b: Text) {
    && w == a + x + b
    && Means(g, Cat(Lit([91]), Ref("space")), a)
    && IsItems(g, item, min, max, x)
    && Means(g, Cat(Lit([93]), Ref("space")), b)
  }

  lemma SignsMeant()
    ensures Meant(OPEN) == Cat(Lit([91]), Ref("space"))
    ensures Meant(CLOSE) == Cat(Lit([93]), Ref("space"))
    ensures Meant(COMMA) == Cat(Lit([44]), Ref("space"))
  {
    assert CodesOf([Letter(91, "[")]) == [91] && CodesOf([Letter(93, "]")]) == [93];
    assert CodesOf([Letter(44, ",")]) == [44];
  }

  lemma ItemsMeant(g: Grammar, item: Name, min: nat, max: Option<nat>, w: Text)
    requires max.Some? ==> max.value >= 1
    ensures Means(g, Meant(BuildRepetition(Named(item), min, max, Some(COMMA))), w) <==>
            IsItems(g, item, min, max, w)
  {
    var e := Meant(BuildRepetition(Named(item), min, max, Some(COMMA)));
    SignsMeant();
    if Means(g, e, w) {
      var k := Depth(g, e, w);
      SeparatedExact(g, k, Named(item), min, max, COMMA, w);
    }
    if IsItems(g, item, min, max, w) {
      var k: nat :| ListedWithin(Of(g, k, Ref(item)), Of(g, k, Meant(COMMA)), min, max, w);
      SeparatedExact(g, k, Named(item), min, max, COMMA, w);
    }
  }

  lemma ArrayMeant(g: Grammar, item: Name, min: nat, max: Option<nat>, w: Text)
    requires max.Some? ==> max.value >= 1
    ensures Means(g, Meant(ArrayRule(item, min, max)), w) <==> IsArray(g, item, min, max, w)
  {
    var rep := BuildRepetition(Named(item), min, max, Some(COMMA));
    var front := Cat(Meant(OPEN), Meant(rep));
    SignsMeant();
    assert Meant(Seq(OPEN, rep)) == front;
    if Means(g, Meant(ArrayRule(item, min, max)), w) {
      var c, b := SplitCat(g, front, Meant(CLOSE), w);
      var a, x := SplitCat(g, Meant(OPEN), Meant(rep), c);
      ItemsMeant(g, item, min, max, x);
      assert ArrayOf(g, item, min, max, w, a, x, b);
    }
    if a, x, b :| ArrayOf(g, item, min, max, w, a, x, b) {
      ItemsMeant(g, item, min, max, x);
      JoinCat(g, Meant(OPEN), Meant(rep), a, x);
      JoinCat(g, front, Meant(CLOSE), a + x, b);
    }
  }

  lemma LanguageMeans(g: Grammar, name: Name, w: Text)
    requires name in g
    ensures InLanguage(g, name, w) <==> Means(g, g[name], w)
  {
    MeansRef(g, name, w);
  }

  /**
    Both stages: a rule that is written as a separated repetition denotes the lists of between `min` and
    `max` items.
   */
  lemma SeparatedCompiled(s: Store, rules: seq<Written>, name: Name, item: Syntax, min: nat, max: Option<nat>,
                          sep: Syntax, w: Text)
    requires AllWritten(rules) && SensibleRules(rules) && Accepted(s, RereadAll(rules))
    requires name in GrammarOf(rules) && (max.Some? ==> max.value >= 1)
    requires GrammarOf(rules)[name] == Meant(BuildRepetition(item, min, max, Some(sep)))
    ensures name in s.ids
    ensures InTable(s.rules, s.ids[name], w) <==> IsList(GrammarOf(rules), Meant(item), Meant(sep), min, max, w)
  {
    WrittenLanguages(s, rules, name, w);
    ListRule(GrammarOf(rules), name, item, min, max, sep, w);
  }

  /** Both stages: a rule that is written for an array denotes the arrays of between `min` and `max` items. */
  lemma ArrayCompiled(s: Store, rules: seq<Written>, name: Name, item: Name, min: nat, max: Option<nat>, w: Text)
    requires AllWritten(rules) && SensibleRules(rules) && Accepted(s, RereadAll(rules))
    requires name in GrammarOf(rules) && (max.Some? ==> max.value >= 1)
    requires GrammarOf(rules)[name] == Meant(ArrayRule(item, min, max))
    ensures name in s.ids && (InTable(s.rules, s.ids[name], w) <==> IsArray(GrammarOf(rules), item, min, max, w))
  {
    WrittenLanguages(s, rules, name, w);
    LanguageMeans(GrammarOf(rules), name, w);
    ArrayMeant(GrammarOf(rules), item, min, max, w);
  }

  // ---------------------------------------------------------------------------------------------
  // Objects

  /**
    In a table, the rule for an object denotes exactly the objects with all required members and a
    selection of others.
   */
  lemma ObjectCompiled(s: Store, g: Grammar, kv: ObjectMembers.Members, required: seq<Name>, optional: seq<Name>,
                       name: Name, w: Text)
    requires Denotes(s, g, name) && name in g && ObjectRules.IsObject(g, kv, required, optional, g[name])
    ensures InTable(s.rules, s.ids[name], w) <==> ObjectRules.SomeObject(g, kv, required, optional, w)
  {
    LanguageMeans(g, name, w);
    ObjectRules.ObjectExact(g, kv, required, optional, g[name], w);
  }
}
