/** The rule for keys that are not listed, from the text that is generated to the table it is compiled to. */
module KeyRules {
  import opened Wrappers
  import opened Gbnf
  import opened GrammarTable
  import opened Lowering
  import opened GbnfReader
  import opened GbnfSyntax
  import opened GbnfWriting
  import opened ParseSteps
  import opened GbnfParser
  import opened KeyExclusion
  import opened KeySpelling
  import opened KeyTrie
  import opened StringRules

  // ---------------------------------------------------------------------------------------------
  // The text is read as what is meant

  /** `w` is a key that is let in, between quotes, and space. */
  ghost predicate LetIn(g: Grammar, k: nat, keys: set<Text>, w: Text) {
    exists key, space :: Quoted(g, k, keys, key, space, w)
  }

  lemma ReadsWhole(g: Grammar, k: nat, x: Syntax, nested: bool, w: Text)
    requires IsAlternates(x)
    ensures var t := TextOf(x);
            var r := ReadAlternates(t, 0, nested);
            r.Success? && r.value.1 == |t| && (Match(g, k, r.value.0, w) <==> Match(g, k, Meant(x), w))
  {
    var t := TextOf(x);
    WholeText(t);
    NoSpace(t, |t|, nested);
    ReadsAlternates(t, 0, nested, x);
    assert Here(0);
    AlternatesAlike(g, k, x);
  }

  /** Keys that can be written: the text is read to its end, as an expression for exactly the keys that are let in. */
  lemma KeyTextExact(g: Grammar, k: nat, keys: set<Text>, nested: bool, w: Text)
    requires AllBytes(keys) && Spellable(keys) && HasChars(g) && k > 0
    ensures var t := TextOf(NotStrings(keys));
            var r := ReadAlternates(t, 0, nested);
            r.Success? && r.value.1 == |t| && (Match(g, k, r.value.0, w) <==> LetIn(g, k, keys, w))
  {
    NotStringsWritten(keys);
    ReadsWhole(g, k, NotStrings(keys), nested, w);
    NotStringsExact(g, k, keys, w);
  }

  // ---------------------------------------------------------------------------------------------
  // A dash between the first characters

  /** The first of increasing elements is the smallest, and the rest are the others. */
  lemma FirstSmallest(cs: set<Code>, r: seq<Code>)
    requires Increasing(r) && r != [] && cs == Elements(r)
    ensures cs != {} && Smallest(cs) == r[0] && cs - {r[0]} == Elements(r[1..])
  {
    assert r[0] in cs;
    var m := Smallest(cs);
    var i :| 0 <= i < |r| && r[i] == m;
    assert r == [r[0]] + r[1..];
    forall j | 0 <= j < |r[1..]|
      ensures r[1..][j] != r[0]
    {
      assert r[1..][j] == r[j + 1];
    }
  }

  function Elements(r: seq<Code>): set<Code> {
    set c | c in r
  }

  lemma {:induction false} SortedIs(cs: set<Code>, r: seq<Code>)
    requires Increasing(r) && cs == Elements(r)
    ensures Sorted(cs) == r
    decreases |r|
  {
    if r != [] {
      FirstSmallest(cs, r);
      var rest := r[1..];
      SortedIs(cs - {r[0]}, rest);
      assert r == [r[0]] + rest;
    }
  }

  const DASHED: set<Text> := {[97, 45, 116], [97, 115]}
  const AFTER_A: set<Text> := {[45, 116], [115]}

  lemma DashedHeads()
    ensures Sorted(Heads(DASHED)) == [97] && After(DASHED, 97) == AFTER_A
    ensures 45 in Heads(AFTER_A) && 115 in Heads(AFTER_A)
    ensures Sorted(Heads(AFTER_A)) == [45, 115] && After(AFTER_A, 45) == {[116]} && After(AFTER_A, 115) == {[]}
  {
    var one: Text, two: Text := [97, 45, 116], [97, 115];
    assert one[1..] == [45, 116] && two[1..] == [115];
    var rest: Text, last: Text := [45, 116], [115];
    assert rest[1..] == [116] && last[1..] == [];
    assert Heads(DASHED) == {97} by {
      assert one[0] in Heads(DASHED);
    }
    assert Heads(AFTER_A) == {45, 115} by {
      assert rest[0] in Heads(AFTER_A) && last[0] in Heads(AFTER_A);
    }
    assert After(DASHED, 97) == AFTER_A by {
      assert one[1..] in After(DASHED, 97) && two[1..] in After(DASHED, 97);
    }
    assert After(AFTER_A, 45) == {[116]} by {
      assert rest[1..] in After(AFTER_A, 45);
    }
    assert After(AFTER_A, 115) == {[]} by {
      assert last[1..] in After(AFTER_A, 115);
    }
    SortedIs({97}, [97]);
    SortedIs({45, 115}, [45, 115]);
  }

  lemma DashedLost()
    ensures Lost([45, 115], 65)
  {
    var all := [QUOTE] + [45, 115];
    assert GapAt(all, 65, 1);
  }

  /**
    With "a-t" and "as" listed, the set for the second character holds the range from the quote to "s",
    and the key "aA", which is to be let in, is kept out by what is read from the text.
   */
  lemma DashFails(g: Grammar, k: nat, nested: bool, space: Text)
    requires HasChars(g) && k > 0
    ensures Spellable(DASHED) && IsMeant(DASHED, [97, 65]) && !Takes(DASHED, [97, 65])
    ensures var r := ReadAlternates(TextOf(KeyBody(DASHED)), 0, nested);
            r.Success? && !Match(g, k, r.value.0, [97, 65])
  {
    var w: Text := [97, 65];
    DashedMeant(w);
    DashedKept(w);
    AlternativesWritten(DASHED);
    BodyWritten(DASHED);
    SequenceIsAlternates(KeyBody(DASHED));
    ReadsWhole(g, k, KeyBody(DASHED), nested, w);
    KeysExact(g, k, DASHED, w);
  }

  lemma DashedMeant(w: Text)
    requires w == [97, 65]
    ensures AllBytes(DASHED) && Spellable(DASHED) && IsMeant(DASHED, w)
    ensures Begins(DASHED, [97]) && KeyExclusion.Continues(DASHED, [97])
    ensures !Begins(DASHED, w)
  {
    var s: Text, t: Text, a: Text := [97, 45, 116], [97, 115], [97];
    assert s in DASHED && t in DASHED && a < s && a <= s;
    assert AllStand(s) && AllStand(t) && IsBytes(s) && IsBytes(t);
    assert s[1] != w[1] && t[1] != w[1];
    assert !(w <= s) && !(w <= t);
  }

  lemma DashedKept(w: Text)
    requires w == [97, 65]
    ensures !Takes(DASHED, w)
  {
    DashedMeant(w);
    DashedHeads();
    DashedLost();
    DashedPlace(w);
    LostThere(DASHED, w, 1);
  }

  lemma LostThere(keys: set<Text>, w: Text, m: nat)
    requires Heads(keys) != {} && IsPlain(w) && m < |w|
    requires Parts(keys, w, m) && KeyExclusion.Continues(keys, w[..m]) && LostAt(keys, w, m)
    ensures !Takes(keys, w)
  {
    assert LostToDash(keys, w);
    PlainKeysExact(keys, w);
  }

  lemma DashedPlace(w: Text)
    requires w == [97, 65] && Begins(DASHED, [97]) && !Begins(DASHED, w)
    requires After(DASHED, 97) == AFTER_A && Sorted(Heads(AFTER_A)) == [45, 115] && Lost([45, 115], 65)
    ensures Parts(DASHED, w, 1) && LostAt(DASHED, w, 1)
  {
    var a: Text := [97];
    assert w[..1] == a && w[..2] == w;
    assert AfterAll(DASHED, a) == AfterAll(AFTER_A, []) by {
      assert a[1..] == [];
    }
  }

  // ---------------------------------------------------------------------------------------------
  // When a dash does no harm

  /** The keys that are to be let in, as far as their prefixes let them. */
  predicate IsMeant(keys: set<Text>, w: Text) {
    w !in keys && (w == [] || !KeyExclusion.Continues(keys, w))
  }

  lemma {:induction false} BeginsAll(keys: set<Text>, p: Text, c: Code)
    ensures Begins(keys, p + [c]) <==> c in Heads(AfterAll(keys, p))
    decreases |p|
  {
    if p == [] {
      BeginsHead(keys, c);
      assert p + [c] == [c];
    } else {
      BeginsAll(After(keys, p[0]), p[1..], c);
      BeginsAfter(keys, p[0], p[1..] + [c]);
      assert p + [c] == [p[0]] + (p[1..] + [c]);
    }
  }

  /** Where a dash stands between other characters that may come next, all the plain ones between them may. */
  ghost predicate NoneLost(keys: set<Text>) {
    forall p: Text, c: Code {:trigger LosesNone(keys, p, c)} :: LosesNone(keys, p, c)
  }

  ghost predicate LosesNone(keys: set<Text>, p: Text, c: Code) {
    var heads := Heads(AfterAll(keys, p));
    IsPlain(p) && Plain(c) && KeyExclusion.Continues(keys, p) && Lost(Sorted(heads), c) ==> c in heads
  }

  /** The plain keys that are let in are just those that are to be exactly when no dash loses a character. */
  lemma DashHarmless(keys: set<Text>)
    requires Heads(keys) != {}
    ensures (forall w :: IsPlain(w) ==> (Takes(keys, w) <==> IsMeant(keys, w))) <==> NoneLost(keys)
  {
    if NoneLost(keys) {
      forall w | IsPlain(w)
        ensures Takes(keys, w) <==> IsMeant(keys, w)
      {
        PlainKeysExact(keys, w);
        NotLost(keys, w);
      }
    } else {
      var p, c :| !LosesNone(keys, p, c);
      var w := LostKey(keys, p, c);
    }
  }

  lemma NotLost(keys: set<Text>, w: Text)
    requires NoneLost(keys) && IsPlain(w)
    ensures !LostToDash(keys, w)
  {
    forall m: nat | Parts(keys, w, m) && KeyExclusion.Continues(keys, w[..m])
      ensures !LostAt(keys, w, m)
    {
      assert w[..m + 1] == w[..m] + [w[m]];
      BeginsAll(keys, w[..m], w[m]);
      assert LosesNone(keys, w[..m], w[m]);
    }
  }

  lemma LostKey(keys: set<Text>, p: Text, c: Code) returns (w: Text)
    requires Heads(keys) != {} && !LosesNone(keys, p, c)
    ensures IsPlain(w) && IsMeant(keys, w) && !Takes(keys, w)
  {
    w := p + [c];
    assert w[..|p|] == p && w[..|p| + 1] == w;
    BeginsAll(keys, p, c);
    assert Begins(keys, p) by {
      var s :| s in keys && p < s;
    }
    assert !Begins(keys, w);
    assert w <= w && w !in keys;
    assert !KeyExclusion.Continues(keys, w) by {
      if s :| s in keys && w < s {
        assert w <= s;
      }
    }
    assert Parts(keys, w, |p|) && LostAt(keys, w, |p|);
    assert LostToDash(keys, w);
    PlainKeysExact(keys, w);
  }

  // ---------------------------------------------------------------------------------------------
  // From the listed keys to a table

  /** It is sensible, and refers to no rule but those for characters and space. */
  predicate Settled(e: Expr) {
    Sensible(e) && Names(e) <= {CHAR_NAME, SPACE_NAME}
  }

  lemma UnitsSettled()
    ensures Settled(Meant(UNITS_FROM_NONE)) && Settled(Meant(UNITS_FROM_ONE)) && Settled(Meant(Named(SPACE_NAME)))
  {
  }

  lemma SeqSettled(a: Syntax, b: Syntax)
    requires Settled(Meant(a)) && Settled(Meant(b))
    ensures Settled(Meant(Seq(a, b))) && Settled(Meant(Or(a, b)))
    ensures Settled(Meant(Paren(false, a))) && Settled(Meant(Paren(true, a)))
  {
  }

  lemma {:induction false} BranchSettled(keys: set<Text>, c: Code)
    requires c in Heads(keys)
    ensures Settled(Meant(Branch(keys, c)))
    decreases Longest(keys), 0
  {
    var after := After(keys, c);
    AfterShorter(keys, c);
    UnitsSettled();
    SeqSettled(SingleSet(c), UNITS_FROM_ONE);
    if Heads(after) != {} {
      AlternativesSettled(after);
      SeqSettled(Alternatives(after), SingleSet(c));
      SeqSettled(SingleSet(c), Paren(false, Alternatives(after)));
    }
  }

  lemma {:induction false} BranchesSettled(keys: set<Text>, cs: seq<Code>, n: nat)
    requires 0 < n <= |cs| && forall c :: c in cs ==> c in Heads(keys)
    ensures Settled(Meant(Branches(keys, cs, n)))
    decreases Longest(keys), 1, n
  {
    BranchSettled(keys, cs[n - 1]);
    if n > 1 {
      BranchesSettled(keys, cs, n - 1);
      SeqSettled(Branches(keys, cs, n - 1), Branch(keys, cs[n - 1]));
    }
  }

  lemma {:induction false} AlternativesSettled(keys: set<Text>)
    ensures Settled(Meant(Alternatives(keys)))
    decreases Longest(keys), 2
  {
    var cs := Sorted(Heads(keys));
    if cs != [] {
      BranchesSettled(keys, cs, |cs|);
      UnitsSettled();
      SeqSettled(OthersSet(cs), UNITS_FROM_NONE);
      SeqSettled(Branches(keys, cs, |cs|), Seq(OthersSet(cs), UNITS_FROM_NONE));
    }
  }

  lemma NotStringsSettled(keys: set<Text>)
    ensures Settled(Meant(NotStrings(keys)))
  {
    AlternativesSettled(keys);
    UnitsSettled();
    SeqSettled(Alternatives(keys), SingleSet(QUOTE));
    assert Settled(Meant(KeyBody(keys)));
    SeqSettled(SingleSet(QUOTE), Named(SPACE_NAME));
    SeqSettled(KeyBody(keys), Seq(SingleSet(QUOTE), Named(SPACE_NAME)));
    SeqSettled(SingleSet(QUOTE), Seq(KeyBody(keys), Seq(SingleSet(QUOTE), Named(SPACE_NAME))));
  }

  /** The rule for keys, with the rules it refers to. */
  function KeyGrammar(name: Name, keys: set<Text>): seq<Written> {
    [Written(SPACE_NAME, SPACE_SYNTAX), Written(CHAR_NAME, CHAR_SYNTAX), Written(name, NotStrings(keys))]
  }

  lemma GrammarOfThree(a: Written, b: Written, c: Written)
    ensures GrammarOf([a, b, c]) == map[a.name := Meant(a.body)][b.name := Meant(b.body)][c.name := Meant(c.body)]
  {
    var d, e, f := Definition(a.name, Meant(a.body)), Definition(b.name, Meant(b.body)),
      Definition(c.name, Meant(c.body));
    var none: seq<Definition> := [];
    MoreDefinitions(none, d);
    MoreDefinitions([d], e);
    MoreDefinitions([d, e], f);
    assert none + [d] == [d] && [d] + [e] == [d, e] && [d, e] + [f] == [d, e, f];
    assert MeantAll([a, b, c]) == [d, e, f];
  }

  lemma KeyGrammarOf(name: Name, keys: set<Text>)
    requires name != CHAR_NAME && name != SPACE_NAME
    ensures GrammarOf(KeyGrammar(name, keys)) ==
            map[SPACE_NAME := Meant(SPACE_SYNTAX), CHAR_NAME := CHAR_RULE, name := Meant(NotStrings(keys))]
  {
    CharMeant();
    GrammarOfThree(Written(SPACE_NAME, SPACE_SYNTAX), Written(CHAR_NAME, CHAR_SYNTAX), Written(name, NotStrings(keys)));
  }

  lemma BothSettled(a: Expr, b: Expr)
    requires Settled(a) && Settled(b)
    ensures Settled(Cat(a, b)) && Settled(Alt(a, b)) && Settled(Group(a)) && Settled(Group(b))
  {
  }

  lemma CharSettled()
    ensures Settled(CHAR_RULE)
  {
    var hex := Rep(HEX_DIGIT, 4, Some(4));
    assert Settled(HEX_DIGIT);
    assert Settled(hex);
    BothSettled(Lit([LOWER_U]), hex);
    BothSettled(ESCAPE, Cat(Lit([LOWER_U]), hex));
    BothSettled(Single(BACKSLASH), Alt(ESCAPE, Cat(Lit([LOWER_U]), hex)));
    BothSettled(Single(BACKSLASH), CHAR_RULE.right.right);
    BothSettled(CHAR_RULE.left, CHAR_RULE.right);
  }

  lemma SpaceSettled()
    ensures Settled(Meant(SPACE_SYNTAX))
  {
    SpaceMeant();
    var line := Cat(Lit([10]), Rep(Meant(BLANKS), 0, Some(20)));
    assert Settled(Meant(BLANKS));
    assert Settled(line);
  }

  lemma KeyGrammarSettled(name: Name, keys: set<Text>)
    requires name != CHAR_NAME && name != SPACE_NAME
    ensures SensibleRules(KeyGrammar(name, keys)) && Closed(MeantAll(KeyGrammar(name, keys)))
  {
    var rules, defs := KeyGrammar(name, keys), MeantAll(KeyGrammar(name, keys));
    KeyGrammarOf(name, keys);
    NotStringsSettled(keys);
    CharMeant();
    CharSettled();
    SpaceSettled();
    AllSettled(rules);
  }

  lemma AllSettled(rules: seq<Written>)
    requires |rules| == 3 && Settled(Meant(rules[0].body)) && Settled(Meant(rules[1].body))
    requires Settled(Meant(rules[2].body))
    requires CHAR_NAME in GrammarOf(rules) && SPACE_NAME in GrammarOf(rules)
    ensures SensibleRules(rules) && Closed(MeantAll(rules))
  {
    var defs := MeantAll(rules);
    forall n | n in ReferredNames(defs)
      ensures n in LastDefinitions(defs)
    {
      var i :| 0 <= i < |defs| && n in GbnfReader.Names(defs[i].body);
      assert Settled(Meant(rules[i].body));
    }
  }

  /** `w` is a key that is let in, between quotes, and space after them. */
  ghost predicate KeyAndSpace(keys: set<Text>, w: Text) {
    exists key, space :: w == [QUOTE] + key + [QUOTE] + space && Takes(keys, key) && IsSpace(space)
  }

  lemma KeyLanguage(g: Grammar, name: Name, keys: set<Text>, w: Text)
    requires HasChars(g) && SPACE_NAME in g && g[SPACE_NAME] == Meant(SPACE_SYNTAX)
    requires name in g && g[name] == Meant(NotStrings(keys))
    ensures InLanguage(g, name, w) <==> KeyAndSpace(keys, w)
  {
    if k: nat :| Match(g, k, Ref(name), w) {
      MatchMono(g, k, k + 2, Ref(name), w);
      NotStringsExact(g, k + 1, keys, w);
      var key, space :| Quoted(g, k + 1, keys, key, space, w);
      SpaceExact(g, k, space);
    }
    if key, space :| w == [QUOTE] + key + [QUOTE] + space && Takes(keys, key) && IsSpace(space) {
      SpaceExact(g, 0, space);
      assert Match(g, 1, Ref(SPACE_NAME), space);
      assert Quoted(g, 1, keys, key, space, w);
      NotStringsExact(g, 1, keys, w);
      assert Match(g, 2, Ref(name), w);
    }
  }

  /**
    From the listed keys through the text to the table: when the keys can be written, the rule that
    the parser makes of the generated text takes exactly the keys that are let in.
   */
  method CompileKeys(name: Name, strings: seq<Text>) returns (state: ParseState)
    requires IsWord(name) && name != CHAR_NAME && name != SPACE_NAME
    requires AllBytes(Listing(strings)) && Spellable(Listing(strings))
    ensures fresh(state) && name in state.symbolIds
    ensures forall w :: InTable(state.rules, state.symbolIds[name], w) <==> KeyAndSpace(Listing(strings), w)
  {
    ghost var keys := Listing(strings);
    var x := BuildNotStrings(strings);
    var rules := [Written(SPACE_NAME, SPACE_SYNTAX), Written(CHAR_NAME, CHAR_SYNTAX), Written(name, x)];
    KeyGrammarWritten(name, keys);
    KeyGrammarSettled(name, keys);
    state := CompileRules(rules);
    KeyTable(state.View(), name, keys);
  }

  lemma AllOfThree(a: Name, x: Syntax, b: Name, y: Syntax, c: Name, z: Syntax)
    requires IsWord(a) && IsWord(b) && IsWord(c) && IsAlternates(x) && IsAlternates(y) && IsAlternates(z)
    ensures AllWritten([Written(a, x), Written(b, y), Written(c, z)])
  {
  }

  lemma KeyGrammarWritten(name: Name, keys: set<Text>)
    requires IsWord(name) && AllBytes(keys) && Spellable(keys)
    ensures AllWritten(KeyGrammar(name, keys))
  {
    CharWritten();
    SpaceWritten();
    NotStringsWritten(keys);
    assert IsWord(SPACE_NAME) && IsWord(CHAR_NAME);
    AllOfThree(SPACE_NAME, SPACE_SYNTAX, CHAR_NAME, CHAR_SYNTAX, name, NotStrings(keys));
  }

  lemma KeyTable(s: Store, name: Name, keys: set<Text>)
    requires IsWord(name) && name != CHAR_NAME && name != SPACE_NAME && AllBytes(keys) && Spellable(keys)
    requires Accepted(s, RereadAll(KeyGrammar(name, keys)))
    ensures name in s.ids && forall w :: InTable(s.rules, s.ids[name], w) <==> KeyAndSpace(keys, w)
  {
    var rules := KeyGrammar(name, keys);
    KeyGrammarWritten(name, keys);
    KeyGrammarSettled(name, keys);
    KeyGrammarOf(name, keys);
    var g := GrammarOf(rules);
    assert name in g && g[name] == Meant(NotStrings(keys)) && HasChars(g) && g[SPACE_NAME] == Meant(SPACE_SYNTAX);
    WrittenLanguages(s, rules, name, []);
    forall w
      ensures InTable(s.rules, s.ids[name], w) <==> KeyAndSpace(keys, w)
    {
      WrittenLanguages(s, rules, name, w);
      KeyLanguage(g, name, keys, w);
    }
  }
}
