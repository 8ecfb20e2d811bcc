/** Written grammars: what is read back means what is meant, and so does the table it is compiled to. */
module GbnfWriting {
  import opened Wrappers
  import opened Gbnf
  import opened GrammarTable
  import opened Lowering
  import opened Repetition
  import opened Separated
  import opened GbnfReader
  import opened GbnfSyntax
  import opened ParseSteps
  import opened UndefinedNames
  import opened GbnfParser

  // ---------------------------------------------------------------------------------------------
  // Expressions that describe the same

  /** The two describe the same texts when names are unfolded at most `k` levels deep. */
  ghost predicate Alike(g: Grammar, k: nat, e: Expr, e': Expr) {
    forall w :: Match(g, k, e, w) <==> Match(g, k, e', w)
  }

  lemma CatInto(g: Grammar, k: nat, a: Expr, a': Expr, b: Expr, b': Expr, w: Text)
    requires Alike(g, k, a, a') && Alike(g, k, b, b') && Match(g, k, Cat(a, b), w)
    ensures Match(g, k, Cat(a', b'), w)
  {
    var i := CatCut(g, k, a, b, w);
    CatJoin(g, k, a', b', w, i);
  }

  lemma AlikeCat(g: Grammar, k: nat, a: Expr, a': Expr, b: Expr, b': Expr)
    requires Alike(g, k, a, a') && Alike(g, k, b, b')
    ensures Alike(g, k, Cat(a, b), Cat(a', b'))
  {
    forall w
      ensures Match(g, k, Cat(a, b), w) <==> Match(g, k, Cat(a', b'), w)
    {
      if Match(g, k, Cat(a, b), w) {
        CatInto(g, k, a, a', b, b', w);
      }
      if Match(g, k, Cat(a', b'), w) {
        CatInto(g, k, a', a, b', b, w);
      }
    }
  }

  lemma AlikeAlt(g: Grammar, k: nat, a: Expr, a': Expr, b: Expr, b': Expr)
    requires Alike(g, k, a, a') && Alike(g, k, b, b')
    ensures Alike(g, k, Alt(a, b), Alt(a', b'))
  {
  }

  lemma AlikeGroup(g: Grammar, k: nat, a: Expr, a': Expr)
    requires Alike(g, k, a, a')
    ensures Alike(g, k, Group(a), Group(a'))
  {
  }

  lemma AlikeRep(g: Grammar, k: nat, a: Expr, a': Expr, min: nat, max: Option<nat>)
    requires Alike(g, k, a, a')
    ensures Alike(g, k, Rep(a, min, max), Rep(a', min, max))
  {
    forall w
      ensures Match(g, k, Rep(a, min, max), w) <==> Match(g, k, Rep(a', min, max), w)
    {
      if Match(g, k, Rep(a, min, max), w) {
        RepInto(g, k, a, a', min, max, w);
      }
      if Match(g, k, Rep(a', min, max), w) {
        RepInto(g, k, a', a, min, max, w);
      }
    }
  }

  lemma RepInto(g: Grammar, k: nat, a: Expr, a': Expr, min: nat, max: Option<nat>, w: Text)
    requires Alike(g, k, a, a') && Match(g, k, Rep(a, min, max), w)
    ensures Match(g, k, Rep(a', min, max), w)
  {
    var c := RepCount(g, k, a, min, max, w);
    PowerCopies(g, k, a, c, w);
    PowerCopies(g, k, a', c, w);
    SameCopies(Of(g, k, a), Of(g, k, a'), c, w);
    RepJoin(g, k, a', min, max, c, w);
  }

  lemma CatOfEmpty(g: Grammar, k: nat, e: Expr)
    ensures Alike(g, k, Cat(Empty, e), e) && Alike(g, k, Cat(e, Empty), e)
  {
    forall w
      ensures Match(g, k, Cat(Empty, e), w) <==> Match(g, k, e, w)
      ensures Match(g, k, Cat(e, Empty), w) <==> Match(g, k, e, w)
    {
      assert w[..0] == [] && w[0..] == w && w[|w|..] == [] && w[..|w|] == w;
      if Match(g, k, Cat(Empty, e), w) {
        var i := CatCut(g, k, Empty, e, w);
        assert w[..i] == [] && w[i..] == w;
      }
      if Match(g, k, Cat(e, Empty), w) {
        var i := CatCut(g, k, e, Empty, w);
        assert w[i..] == [] && w[..i] == w;
      }
      if Match(g, k, e, w) {
        CatJoin(g, k, Empty, e, w, 0);
        CatJoin(g, k, e, Empty, w, |w|);
      }
    }
  }

  lemma CatLeft(g: Grammar, k: nat, a: Expr, b: Expr, c: Expr, w: Text)
    requires Match(g, k, Cat(a, Cat(b, c)), w)
    ensures Match(g, k, Cat(Cat(a, b), c), w)
  {
    var i := CatCut(g, k, a, Cat(b, c), w);
    var j := CatCut(g, k, b, c, w[i..]);
    CatAcross(g, k, a, b, c, w, i, j);
  }

  lemma CatAcross(g: Grammar, k: nat, a: Expr, b: Expr, c: Expr, w: Text, i: nat, j: nat)
    requires i + j <= |w| && Match(g, k, a, w[..i]) && Match(g, k, b, w[i..][..j]) && Match(g, k, c, w[i..][j..])
    ensures Match(g, k, Cat(Cat(a, b), c), w)
  {
    var front, last := w[..i + j], w[i + j..];
    assert front[..i] == w[..i] && front[i..] == w[i..][..j];
    assert last == w[i..][j..];
    CatJoin(g, k, a, b, front, i);
    CatJoin(g, k, Cat(a, b), c, w, i + j);
  }

  lemma CatRight(g: Grammar, k: nat, a: Expr, b: Expr, c: Expr, w: Text)
    requires Match(g, k, Cat(Cat(a, b), c), w)
    ensures Match(g, k, Cat(a, Cat(b, c)), w)
  {
    var j := CatCut(g, k, Cat(a, b), c, w);
    var i := CatCut(g, k, a, b, w[..j]);
    var rest := w[i..];
    assert rest[..j - i] == w[..j][i..] && rest[j - i..] == w[j..] && w[..j][..i] == w[..i];
    CatJoin(g, k, b, c, rest, j - i);
    CatJoin(g, k, a, Cat(b, c), w, i);
  }

  lemma CatAssociative(g: Grammar, k: nat, a: Expr, b: Expr, c: Expr)
    ensures Alike(g, k, Cat(Cat(a, b), c), Cat(a, Cat(b, c)))
  {
    forall w
      ensures Match(g, k, Cat(Cat(a, b), c), w) <==> Match(g, k, Cat(a, Cat(b, c)), w)
    {
      if Match(g, k, Cat(Cat(a, b), c), w) {
        CatRight(g, k, a, b, c, w);
      }
      if Match(g, k, Cat(a, Cat(b, c)), w) {
        CatLeft(g, k, a, b, c, w);
      }
    }
  }

  // ---------------------------------------------------------------------------------------------
  // What is read and what is meant

  lemma {:induction false} ItemAlike(g: Grammar, k: nat, x: Syntax)
    requires IsItem(x)
    ensures Alike(g, k, ItemExpr(x), Meant(x))
    decreases x, 0
  {
    match x
    case Paren(_, body) =>
      if !body.Nothing? {
        AlternatesAlike(g, k, body);
      }
      AlikeGroup(g, k, AlternatesExpr(body), Meant(body));
    case Marked(item, bounds, _) =>
      ItemAlike(g, k, item);
      AlikeRep(g, k, ItemExpr(item), Meant(item), bounds.min, bounds.max);
    case _ =>
  }

  lemma {:induction false} SequenceAlike(g: Grammar, k: nat, acc: Expr, x: Syntax)
    requires IsSequence(x)
    ensures Alike(g, k, SequenceExpr(acc, x), Cat(acc, Meant(x)))
    decreases x, 1
  {
    if x.Seq? {
      var acc', m, n := SequenceExpr(acc, x.left), Meant(x.left), Meant(x.right);
      SequenceAlike(g, k, acc, x.left);
      SequenceAlike(g, k, acc', x.right);
      AlikeCat(g, k, acc', Cat(acc, m), n, n);
      CatAssociative(g, k, acc, m, n);
    } else {
      ItemAlike(g, k, x);
      AlikeCat(g, k, acc, acc, ItemExpr(x), Meant(x));
    }
  }

  lemma {:induction false} WholeSequenceAlike(g: Grammar, k: nat, x: Syntax)
    requires IsSequence(x)
    ensures Alike(g, k, SequenceExpr(Empty, x), Meant(x))
    decreases x, 2
  {
    SequenceAlike(g, k, Empty, x);
    CatOfEmpty(g, k, Meant(x));
  }

  /** What is read back from a text describes what is meant, at every depth of unfolding. */
  lemma {:induction false} AlternatesAlike(g: Grammar, k: nat, x: Syntax)
    requires IsAlternates(x)
    ensures Alike(g, k, AlternatesExpr(x), Meant(x))
    decreases x, 3
  {
    if x.Or? {
      AlternatesAlike(g, k, x.left);
      WholeSequenceAlike(g, k, x.right);
      AlikeAlt(g, k, AlternatesExpr(x.left), Meant(x.left), SequenceExpr(Empty, x.right), Meant(x.right));
    } else if x.Bar? {
      WholeSequenceAlike(g, k, x.other);
      AlikeAlt(g, k, Empty, Empty, SequenceExpr(Empty, x.other), Meant(x.other));
    } else {
      WholeSequenceAlike(g, k, x);
    }
  }

  lemma {:induction false} ItemSame(x: Syntax)
    requires IsItem(x)
    ensures (Sensible(ItemExpr(x)) <==> Sensible(Meant(x))) && Names(ItemExpr(x)) == Names(Meant(x))
    decreases x, 0
  {
    match x
    case Paren(_, body) =>
      if !body.Nothing? {
        ReadSame(body);
      }
    case Marked(item, _, _) => ItemSame(item);
    case _ =>
  }

  lemma {:induction false} SequenceSame(acc: Expr, x: Syntax)
    requires IsSequence(x)
    ensures Sensible(SequenceExpr(acc, x)) <==> Sensible(acc) && Sensible(Meant(x))
    ensures Names(SequenceExpr(acc, x)) == Names(acc) + Names(Meant(x))
    decreases x, 1
  {
    if x.Seq? {
      SequenceSame(acc, x.left);
      SequenceSame(SequenceExpr(acc, x.left), x.right);
    } else {
      ItemSame(x);
    }
  }

  /** It refers to the same names, and is as sensible. */
  lemma {:induction false} ReadSame(x: Syntax)
    requires IsAlternates(x)
    ensures (Sensible(AlternatesExpr(x)) <==> Sensible(Meant(x))) && Names(AlternatesExpr(x)) == Names(Meant(x))
    decreases x, 2
  {
    if x.Or? {
      ReadSame(x.left);
      SequenceSame(Empty, x.right);
    } else if x.Bar? {
      SequenceSame(Empty, x.other);
    } else {
      SequenceSame(Empty, x);
    }
  }

  // ---------------------------------------------------------------------------------------------
  // Rules

  datatype Written = Written(name: Name, body: Syntax)

  ghost predicate WellWritten(rule: Written) {
    IsWord(rule.name) && IsAlternates(rule.body)
  }

  ghost predicate AllWritten(rules: seq<Written>) {
    forall i: nat {:trigger WrittenAt(rules, i)} :: WrittenAt(rules, i)
  }

  ghost predicate WrittenAt(rules: seq<Written>, i: nat) {
    i < |rules| ==> WellWritten(rules[i])
  }

  lemma RestWritten(rules: seq<Written>)
    requires AllWritten(rules) && rules != []
    ensures WellWritten(rules[0]) && AllWritten(rules[1..])
  {
    assert WrittenAt(rules, 0);
    forall i: nat
      ensures WrittenAt(rules[1..], i)
    {
      assert WrittenAt(rules, i + 1);
    }
  }

  lemma FrontWritten(rules: seq<Written>)
    requires AllWritten(rules) && rules != []
    ensures WellWritten(rules[|rules| - 1]) && AllWritten(rules[..|rules| - 1])
  {
    var n := |rules| - 1;
    var front := rules[..n];
    assert WrittenAt(rules, n);
    forall i: nat
      ensures WrittenAt(front, i)
    {
      assert WrittenAt(rules, i);
    }
  }

  function RuleText(rule: Written): string {
    rule.name + (" ::= " + (TextOf(rule.body) + "\n"))
  }

  /** Rule by rule, each on a line of its own. */
  function TextOfRules(rules: seq<Written>): string {
    if rules == [] then "" else RuleText(rules[0]) + TextOfRules(rules[1..])
  }

  function Reread(rule: Written): Definition {
    Definition(rule.name, AlternatesExpr(rule.body))
  }

  function RereadAll(rules: seq<Written>): seq<Definition> {
    seq(|rules|, i requires 0 <= i < |rules| => Reread(rules[i]))
  }

  lemma RulePlaces(src: string, pos: nat, name: string, body: string)
    requires TextAt(src, pos, name + (" ::= " + (body + "\n")))
    ensures TextAt(src, pos, name) && TextAt(src, pos + |name|, " ::= ")
    ensures TextAt(src, pos + |name| + 5, body) && At(src, pos + |name| + 5 + |body|) == '\n'
  {
    var p := pos + |name|;
    TextParts(src, pos, name + (" ::= " + (body + "\n")), name, " ::= " + (body + "\n"));
    TextParts(src, p, " ::= " + (body + "\n"), " ::= ", body + "\n");
    TextParts(src, p + 5, body + "\n", body, "\n");
    TextChar(src, p + 5 + |body|, "\n", 0);
  }

  /** Where the parts of a rule are. */
  lemma InsideRule(src: string, pos: nat, rule: Written) returns (start: nat, end: nat)
    requires IsWord(rule.name) && TextOf(rule.body) != "" && Solid(TextOf(rule.body)[0])
    requires TextAt(src, pos, RuleText(rule))
    ensures end + 1 == pos + |RuleText(rule)| && end == start + |TextOf(rule.body)|
    ensures TextAt(src, start, TextOf(rule.body))
    ensures At(src, end) == '\n'
    ensures NameEnd(src, pos) == pos + |rule.name| && IsWordChar(At(src, pos))
    ensures src[pos..pos + |rule.name|] == rule.name
    ensures ReadSign(src, pos + |rule.name|) == Success(start)
  {
    var name, body := rule.name, TextOf(rule.body);
    var p := pos + |name|;
    start := p + 5;
    end := start + |body|;
    RulePlaces(src, pos, name, body);
    TextChar(src, start, body, 0);
    SignAt(src, p);
    NameAt(src, pos, name);
    assert Here(pos);
  }

  lemma SignAt(src: string, pos: nat)
    requires TextAt(src, pos, " ::= ") && Solid(At(src, pos + 5))
    ensures !IsWordChar(At(src, pos)) && ReadSign(src, pos) == Success(pos + 5)
  {
    TextChar(src, pos, " ::= ", 0);
    TextChar(src, pos, " ::= ", 1);
    TextChar(src, pos, " ::= ", 2);
    TextChar(src, pos, " ::= ", 3);
    TextChar(src, pos, " ::= ", 4);
    OneSpace(src, pos, false);
    NoSpace(src, pos + 1, false);
    OneSpace(src, pos + 4, true);
    NoSpace(src, pos + 5, true);
  }

  lemma BodyReads(src: string, start: nat, end: nat, x: Syntax)
    requires IsAlternates(x) && TextAt(src, start, TextOf(x)) && end == start + |TextOf(x)| && At(src, end) == '\n'
    ensures ReadAlternates(src, start, false) == Success((AlternatesExpr(x), end))
  {
    assert SpaceEnd(src, end, false) == end;
    ReadsAlternates(src, start, false, x);
    assert Here(start);
  }

  lemma ReadsRule(src: string, pos: nat, rule: Written)
    requires WellWritten(rule) && TextAt(src, pos, RuleText(rule)) && Solid(At(src, pos + |RuleText(rule)|))
    ensures ReadRule(src, pos) == Success((Reread(rule), pos + |RuleText(rule)|))
  {
    FirstOfAlternates(rule.body);
    var start, end := InsideRule(src, pos, rule);
    BodyReads(src, start, end, rule.body);
    NoSpace(src, end + 1, true);
  }

  lemma FirstOfRules(src: string, pos: nat, rules: seq<Written>)
    requires AllWritten(rules)
    requires TextAt(src, pos, TextOfRules(rules)) && pos + |TextOfRules(rules)| == |src|
    ensures Solid(At(src, pos)) && (At(src, pos) == NUL <==> rules == [])
  {
    if rules != [] {
      var rule := rules[0];
      assert WrittenAt(rules, 0);
      assert IsWordChar(rule.name[0]);
      TextChar(src, pos, TextOfRules(rules), 0);
      assert RuleText(rule)[0] == rule.name[0];
      assert TextOfRules(rules)[0] == rule.name[0];
    }
  }

  lemma RereadMore(defs: seq<Definition>, rules: seq<Written>)
    requires rules != []
    ensures defs + [Reread(rules[0])] + RereadAll(rules[1..]) == defs + RereadAll(rules)
  {
  }

  ghost predicate RuleGiven(src: string, pos: nat, d: Definition, next: nat) {
    forall p: nat {:trigger Here(p)} :: Here(p) && p == pos ==> ReadRule(src, p) == Success((d, next))
  }

  lemma RulesStep(src: string, pos: nat, defs: seq<Definition>, d: Definition, next: nat)
    requires At(src, pos) != NUL && RuleGiven(src, pos, d, next)
    ensures ReadRules(src, pos, defs) == ReadRules(src, next, defs + [d])
  {
    assert Here(pos);
  }

  lemma FirstRuleRead(src: string, pos: nat, rules: seq<Written>) returns (next: nat)
    requires rules != [] && AllWritten(rules)
    requires TextAt(src, pos, TextOfRules(rules)) && pos + |TextOfRules(rules)| == |src|
    ensures RuleGiven(src, pos, Reread(rules[0]), next)
    ensures TextAt(src, next, TextOfRules(rules[1..])) && next + |TextOfRules(rules[1..])| == |src|
  {
    var rule, others := rules[0], rules[1..];
    RestWritten(rules);
    next := pos + |RuleText(rule)|;
    TextParts(src, pos, TextOfRules(rules), RuleText(rule), TextOfRules(others));
    FirstOfRules(src, next, others);
    ReadsRule(src, pos, rule);
  }

  /** The rules are read one by one. */
  lemma {:induction false} ReadsRules(src: string, pos: nat, rules: seq<Written>, defs: seq<Definition>)
    requires AllWritten(rules)
    requires TextAt(src, pos, TextOfRules(rules)) && pos + |TextOfRules(rules)| == |src|
    ensures ReadRules(src, pos, defs) == Success(defs + RereadAll(rules))
    decreases |rules|
  {
    FirstOfRules(src, pos, rules);
    if rules == [] {
      assert defs + RereadAll(rules) == defs;
    } else {
      var rule, others := rules[0], rules[1..];
      RestWritten(rules);
      var next := FirstRuleRead(src, pos, rules);
      RulesStep(src, pos, defs, Reread(rule), next);
      ReadsRules(src, next, others, defs + [Reread(rule)]);
      RereadMore(defs, rules);
    }
  }

  /** A written grammar reads as its rules. */
  lemma GrammarReadBack(rules: seq<Written>)
    requires AllWritten(rules)
    ensures ReadDefinitions(TextOfRules(rules)) == Success(RereadAll(rules))
  {
    var src := TextOfRules(rules);
    assert TextAt(src, 0, src) by {
      assert src[0..0 + |src|] == src;
    }
    FirstOfRules(src, 0, rules);
    NoSpace(src, 0, true);
    ReadsRules(src, 0, rules, []);
    assert [] + RereadAll(rules) == RereadAll(rules);
  }

  // ---------------------------------------------------------------------------------------------
  // Their meaning

  function MeantAll(rules: seq<Written>): seq<Definition> {
    seq(|rules|, i requires 0 <= i < |rules| => Definition(rules[i].name, Meant(rules[i].body)))
  }

  /** The grammar that is meant. */
  function GrammarOf(rules: seq<Written>): Grammar {
    LastDefinitions(MeantAll(rules))
  }

  /** The two grammars have the same names, and for each of them expressions that describe the same. */
  ghost predicate AlikeGrammars(g: Grammar, h: Grammar) {
    g.Keys == h.Keys && forall n {:trigger AlikeRules(g, h, n)} :: n in g ==> AlikeRules(g, h, n)
  }

  ghost predicate AlikeRules(g: Grammar, h: Grammar, n: Name)
    requires n in g && n in h
  {
    forall f: Grammar, k: nat :: Alike(f, k, g[n], h[n])
  }

  lemma {:induction false} AlikeMatch(g: Grammar, h: Grammar, k: nat, e: Expr, w: Text)
    requires AlikeGrammars(g, h) && Match(g, k, e, w)
    ensures Match(h, k, e, w)
    decreases k, e, 0
  {
    match e
    case Ref(name) =>
      AlikeMatch(g, h, k - 1, g[name], w);
      assert AlikeRules(g, h, name);
      assert Alike(h, k - 1, g[name], h[name]);
    case Group(body) => AlikeMatch(g, h, k, body, w);
    case Cat(left, right) =>
      var i := CatCut(g, k, left, right, w);
      AlikeMatch(g, h, k, left, w[..i]);
      AlikeMatch(g, h, k, right, w[i..]);
    case Alt(left, right) =>
      if Match(g, k, left, w) {
        AlikeMatch(g, h, k, left, w);
      } else {
        AlikeMatch(g, h, k, right, w);
      }
    case Rep(item, min, max) =>
      var c := RepCount(g, k, item, min, max, w);
      AlikePower(g, h, k, item, c, w);
      RepJoin(h, k, item, min, max, c, w);
    case _ =>
  }

  lemma {:induction false} AlikePower(g: Grammar, h: Grammar, k: nat, e: Expr, c: nat, w: Text)
    requires AlikeGrammars(g, h) && Power(g, k, e, c, w)
    ensures Power(h, k, e, c, w)
    decreases k, e, c + 1
  {
    if c > 0 {
      var i := PowerFirst(g, k, e, c, w);
      AlikeMatch(g, h, k, e, w[..i]);
      AlikePower(g, h, k, e, c - 1, w[i..]);
    }
  }

  lemma AlikeBack(g: Grammar, h: Grammar)
    requires AlikeGrammars(g, h)
    ensures AlikeGrammars(h, g)
  {
    forall n | n in h
      ensures AlikeRules(h, g, n)
    {
      assert AlikeRules(g, h, n);
      forall f: Grammar, k: nat
        ensures Alike(f, k, h[n], g[n])
      {
        assert Alike(f, k, g[n], h[n]);
      }
    }
  }

  lemma AlikeLanguages(g: Grammar, h: Grammar, name: Name, w: Text)
    requires AlikeGrammars(g, h)
    ensures InLanguage(g, name, w) <==> InLanguage(h, name, w)
  {
    AlikeBack(g, h);
    if k: nat :| Match(g, k, Ref(name), w) {
      AlikeMatch(g, h, k, Ref(name), w);
    }
    if k: nat :| Match(h, k, Ref(name), w) {
      AlikeMatch(h, g, k, Ref(name), w);
    }
  }

  lemma RuleAlike(rule: Written)
    requires WellWritten(rule)
    ensures forall f: Grammar, k: nat :: Alike(f, k, Meant(rule.body), AlternatesExpr(rule.body))
  {
    forall f: Grammar, k: nat
      ensures Alike(f, k, Meant(rule.body), AlternatesExpr(rule.body))
    {
      AlternatesAlike(f, k, rule.body);
    }
  }

  lemma {:induction false} RulesAlike(rules: seq<Written>)
    requires AllWritten(rules)
    ensures AlikeGrammars(GrammarOf(rules), LastDefinitions(RereadAll(rules)))
    decreases |rules|
  {
    if rules != [] {
      var n := |rules| - 1;
      var front, last := rules[..n], rules[n];
      FrontWritten(rules);
      RulesAlike(front);
      RuleAlike(last);
      assert MeantAll(rules)[..n] == MeantAll(front) && RereadAll(rules)[..n] == RereadAll(front);
      AlikeMore(GrammarOf(front), LastDefinitions(RereadAll(front)), last.name, Meant(last.body),
        AlternatesExpr(last.body));
    }
  }

  lemma AlikeMore(g: Grammar, h: Grammar, name: Name, e: Expr, e': Expr)
    requires AlikeGrammars(g, h) && forall f: Grammar, k: nat :: Alike(f, k, e, e')
    ensures AlikeGrammars(g[name := e], h[name := e'])
  {
    var g', h' := g[name := e], h[name := e'];
    forall n | n in g'
      ensures AlikeRules(g', h', n)
    {
      if n != name {
        assert AlikeRules(g, h, n);
      }
    }
  }

  predicate SensibleRules(rules: seq<Written>) {
    forall i :: 0 <= i < |rules| ==> Sensible(Meant(rules[i].body))
  }

  lemma {:induction false} RereadSensible(rules: seq<Written>)
    requires AllWritten(rules) && SensibleRules(rules)
    ensures AllSensible(LastDefinitions(RereadAll(rules)))
    decreases |rules|
  {
    if rules != [] {
      var n := |rules| - 1;
      var front, last := rules[..n], rules[n];
      FrontWritten(rules);
      RereadSensible(front);
      ReadSame(last.body);
      assert RereadAll(rules)[..n] == RereadAll(front);
      var h := LastDefinitions(RereadAll(rules));
      assert h == LastDefinitions(RereadAll(front))[last.name := AlternatesExpr(last.body)];
      forall n | n in h
        ensures Sensible(h[n])
      {
        assert n == last.name || h[n] == LastDefinitions(RereadAll(front))[n];
      }
    }
  }

  /** A table that is accepted for a written grammar denotes, name by name, the languages that are meant. */
  lemma WrittenLanguages(s: Store, rules: seq<Written>, name: Name, w: Text)
    requires AllWritten(rules) && SensibleRules(rules)
    requires Accepted(s, RereadAll(rules)) && name in GrammarOf(rules)
    ensures name in s.ids && (InTable(s.rules, s.ids[name], w) <==> InLanguage(GrammarOf(rules), name, w))
  {
    var h := LastDefinitions(RereadAll(rules));
    RulesAlike(rules);
    RereadSensible(rules);
    SensibleGrammar(h);
    assert name in h && CompiledGrammar(h) == h;
    assert InTable(s.rules, s.ids[name], w) <==> InLanguage(CompiledGrammar(h), name, w);
    AlikeLanguages(GrammarOf(rules), h, name, w);
  }

  // ---------------------------------------------------------------------------------------------
  // From rules to a table

  /** Each rule on a line of its own. */
  method FormatGrammar(rules: seq<Written>) returns (text: string)
    ensures text == TextOfRules(rules)
  {
    text := "";
    var i := 0;
    assert rules[0..] == rules;
    while i < |rules|
      invariant i <= |rules| && text + TextOfRules(rules[i..]) == TextOfRules(rules)
    {
      var rule := rules[i];
      assert rules[i..][1..] == rules[i + 1..];
      assert text + RuleText(rule) + TextOfRules(rules[i + 1..]) == text + TextOfRules(rules[i..]);
      text := text + RuleText(rule);
      i := i + 1;
    }
  }

  lemma StillClosed(rules: seq<Written>)
    requires AllWritten(rules) && Closed(MeantAll(rules))
    ensures Closed(RereadAll(rules))
  {
    RulesAlike(rules);
    forall n | n in ReferredNames(RereadAll(rules))
      ensures n in ReferredNames(MeantAll(rules))
    {
      var i :| 0 <= i < |rules| && n in Names(RereadAll(rules)[i].body);
      assert WrittenAt(rules, i);
      ReadSame(rules[i].body);
      assert n in Names(MeantAll(rules)[i].body);
    }
  }

  /** A written grammar in which every name is defined is compiled to a table of what is meant. */
  method CompileRules(rules: seq<Written>) returns (state: ParseState)
    requires AllWritten(rules) && Closed(MeantAll(rules))
    ensures fresh(state) && Accepted(state.View(), RereadAll(rules))
  {
    var text := FormatGrammar(rules);
    GrammarReadBack(rules);
    StillClosed(rules);
    ClosedAcceptable(RereadAll(rules));
    state := Parse(text);
  }
}
