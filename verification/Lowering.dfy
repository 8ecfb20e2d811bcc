/**
  When a rule table represents a grammar, and why such a table denotes the grammar's languages.
 */
module Lowering {
  import opened Wrappers
  import opened Gbnf
  import opened GrammarTable

  /**
    A rule table with its symbols: `ids` numbers the rule names, and `synth` holds the numbers of
    the rules synthesized for groups and repetitions.
   */
  datatype Store = Store(rules: Table, ids: map<Name, nat>, synth: set<nat>)

  // ---------------------------------------------------------------------------------------------
  // Elements an expression is compiled to

  function LitElems(text: Text): (es: seq<Elem>)
    ensures |es| == |text| && forall i :: 0 <= i < |es| ==> es[i] == Char(text[i])
  {
    seq(|text|, i requires 0 <= i < |text| => Char(text[i]))
  }

  function RangeElems(lead: Elem, r: CharRange): seq<Elem> {
    match r
    case One(_) => [lead]
    case Span(_, hi) => [lead, RngUpper(hi)]
  }

  function First(r: CharRange): Code {
    match r
    case One(c) => c
    case Span(lo, _) => lo
  }

  function ClassElems(negated: bool, ranges: seq<CharRange>): seq<Elem> {
    if ranges == [] then []
    else
      var c := First(ranges[0]);
      RangeElems(if negated then CharNot(c) else Char(c), ranges[0]) + AltElems(ranges[1..])
  }

  function AltElems(ranges: seq<CharRange>): seq<Elem> {
    if ranges == [] then []
    else RangeElems(CharAlt(First(ranges[0])), ranges[0]) + AltElems(ranges[1..])
  }

  function Repeat(es: seq<Elem>, n: nat): seq<Elem> {
    if n == 0 then [] else es + Repeat(es, n - 1)
  }

  /** A rule: its body followed by the closing mark, which occurs nowhere else. */
  predicate IsRule(rule: Rule) {
    rule != [] && rule[|rule| - 1].End? && NoEnd(rule[..|rule| - 1])
  }

  function Body(rule: Rule): seq<Elem>
    requires rule != []
  {
    rule[..|rule| - 1]
  }

  /** Rule `r` repeats `prev` any number of times. */
  predicate Star(s: Store, prev: seq<Elem>, r: nat) {
    r in s.synth && Slot(s.rules, r) == prev + [RuleRef(r), AltMark, End]
  }

  /** Rule `r` repeats `prev` at most `x` times, through a chain of `x` rules. */
  predicate Chain(s: Store, prev: seq<Elem>, r: nat, x: nat)
    decreases x
  {
    var rule := Slot(s.rules, r);
    && r in s.synth
    && x > 0
    && if x == 1 then rule == prev + [AltMark, End]
       else
         && |rule| == |prev| + 3
         && rule[|prev|].RuleRef?
         && rule == prev + [rule[|prev|], AltMark, End]
         && Chain(s, prev, rule[|prev|].id, x - 1)
  }

  /** `es` repeats `prev` at least `min` times, and at most `max` times unless `max` is smaller still. */
  predicate Repeats(s: Store, prev: seq<Elem>, min: nat, max: Option<nat>, es: seq<Elem>) {
    if max.Some? && max.value <= min then es == Repeat(prev, min)
    else
      && es != []
      && var last := es[|es| - 1];
      && last.RuleRef?
      && es == Repeat(prev, min) + [last]
      && if max.Some? then Chain(s, prev, last.id, max.value - min) else Star(s, prev, last.id)
  }

  /** `es` represents `e` in the table of `s`. */
  ghost predicate Lowered(s: Store, e: Expr, es: seq<Elem>)
    decreases e
  {
    match e
    case Empty => es == []
    case Lit(text) => es == LitElems(text)
    case Class(negated, ranges) => es == ClassElems(negated, ranges)
    case AnyChar => es == [CharAny]
    case Ref(name) => name in s.ids && s.ids[name] !in s.synth && es == [RuleRef(s.ids[name])]
    case Group(body) =>
      && |es| == 1
      && es[0].RuleRef?
      && es[0].id in s.synth
      && var rule := Slot(s.rules, es[0].id);
      && IsRule(rule)
      && Lowered(s, body, Body(rule))
    case Cat(left, right) =>
      && Flat(es)
      && exists i :: 0 <= i <= |es| && Lowered(s, left, es[..i]) && Lowered(s, right, es[i..])
    case Alt(left, right) =>
      exists i :: 0 <= i < |es| && es[i].AltMark?
        && Lowered(s, left, es[..i]) && Lowered(s, right, es[i + 1..])
    case Rep(item, min, max) =>
      exists prev :: prev != [] && Flat(prev) && Lowered(s, item, prev) && Repeats(s, prev, min, max, es)
  }

  /** Every named rule of the table is a definition of `g`, and represents it. */
  ghost predicate Implements(s: Store, g: Grammar) {
    && (forall n :: n in s.ids && s.ids[n] !in s.synth && s.ids[n] < |s.rules| ==> n in g)
    && (forall n :: n in g ==> Defines(s, n, g[n]))
  }

  ghost predicate Defines(s: Store, n: Name, e: Expr) {
    && n in s.ids
    && s.ids[n] !in s.synth
    && var rule := Slot(s.rules, s.ids[n]);
    && IsRule(rule)
    && Lowered(s, e, Body(rule))
  }

  /**
    The expression the compiler treats `e` as: an empty character set is dropped, and an upper bound
    below the lower one is raised to it.
   */
  function AsCompiled(e: Expr): Expr {
    match e
    case Class(_, ranges) => if ranges == [] then Empty else e
    case Group(body) => Group(AsCompiled(body))
    case Cat(left, right) => Cat(AsCompiled(left), AsCompiled(right))
    case Alt(left, right) => Alt(AsCompiled(left), AsCompiled(right))
    case Rep(item, min, max) =>
      Rep(AsCompiled(item), min, if max.Some? && max.value < min then Some(min) else max)
    case _ => e
  }

  function CompiledGrammar(g: Grammar): Grammar {
    map n | n in g :: AsCompiled(g[n])
  }

  /** No character set is empty and no repetition has its bounds the wrong way round. */
  predicate Sensible(e: Expr) {
    match e
    case Class(_, ranges) => ranges != []
    case Group(body) => Sensible(body)
    case Cat(left, right) => Sensible(left) && Sensible(right)
    case Alt(left, right) => Sensible(left) && Sensible(right)
    case Rep(item, min, max) => Sensible(item) && (max.Some? ==> min <= max.value)
    case _ => true
  }

  // ---------------------------------------------------------------------------------------------
  // Shape of compiled elements

  lemma {:induction false} RepeatShape(es: seq<Elem>, n: nat)
    requires Flat(es) && Unbroken(es) && es != []
    ensures Flat(Repeat(es, n)) && Unbroken(Repeat(es, n))
    ensures Repeat(es, n) == [] <==> n == 0
  {
    if n > 0 {
      RepeatShape(es, n - 1);
    }
  }

  lemma {:induction false} RepeatAppend(es: seq<Elem>, n: nat)
    ensures Repeat(es, n + 1) == Repeat(es, n) + es
  {
    if n > 0 {
      RepeatAppend(es, n - 1);
      calc {
        Repeat(es, n + 1);
        es + (Repeat(es, n - 1) + es);
        Repeat(es, n) + es;
      }
    }
  }

  lemma {:induction false} AltElemsShape(ranges: seq<CharRange>)
    ensures Flat(AltElems(ranges))
    ensures ranges != [] ==> AltElems(ranges) != [] && AltElems(ranges)[0].CharAlt?
    ensures AltElems(ranges) == [] || AltElems(ranges)[0].CharAlt?
  {
    if ranges != [] {
      AltElemsShape(ranges[1..]);
    }
  }

  lemma ClassElemsShape(negated: bool, ranges: seq<CharRange>)
    ensures Flat(ClassElems(negated, ranges)) && Unbroken(ClassElems(negated, ranges))
    ensures ClassElems(negated, ranges) == [] <==> ranges == []
  {
    if ranges != [] {
      AltElemsShape(ranges[1..]);
    }
  }

  lemma RepeatsShape(s: Store, prev: seq<Elem>, min: nat, max: Option<nat>, es: seq<Elem>)
    requires prev != [] && Flat(prev) && Unbroken(prev)
    requires Repeats(s, prev, min, max, es)
    ensures Flat(es) && Unbroken(es)
  {
    RepeatShape(prev, min);
  }

  lemma JoinedShape(es: seq<Elem>, i: nat)
    requires i < |es| && es[i].AltMark?
    requires Unbroken(es[..i]) && NoEnd(es[..i]) && NoEnd(es[i + 1..])
    ensures Unbroken(es) && NoEnd(es)
  {
    assert es == es[..i] + [es[i]] + es[i + 1..];
    assert i > 0 ==> es[0] == es[..i][0];
  }

  /** Compiled elements never start inside a character set and never contain the closing mark. */
  lemma {:induction false} LoweredShape(s: Store, e: Expr, es: seq<Elem>)
    requires Lowered(s, e, es)
    ensures Unbroken(es) && NoEnd(es)
    decreases e
  {
    match e
    case Class(negated, ranges) => ClassElemsShape(negated, ranges);
    case Cat(left, right) =>
      var i :| 0 <= i <= |es| && Lowered(s, left, es[..i]) && Lowered(s, right, es[i..]);
      LoweredShape(s, left, es[..i]);
      LoweredShape(s, right, es[i..]);
      assert es != [] ==> es[0] == if i > 0 then es[..i][0] else es[i..][0];
      assert es == es[..i] + es[i..];
    case Alt(left, right) =>
      var i :| 0 <= i < |es| && es[i].AltMark?
        && Lowered(s, left, es[..i]) && Lowered(s, right, es[i + 1..]);
      LoweredShape(s, left, es[..i]);
      LoweredShape(s, right, es[i + 1..]);
      JoinedShape(es, i);
    case Rep(item, min, max) =>
      var prev :| prev != [] && Flat(prev) && Lowered(s, item, prev) && Repeats(s, prev, min, max, es);
      LoweredShape(s, item, prev);
      RepeatsShape(s, prev, min, max, es);
    case _ =>
  }

  // ---------------------------------------------------------------------------------------------
  // Character sets

  lemma {:induction false} AltElemsFinds(lead: Elem, r: CharRange, ranges: seq<CharRange>, c: Code)
    requires lead.Char? || lead.CharNot? || lead.CharAlt?
    requires lead.c == First(r)
    ensures var es := RangeElems(lead, r) + AltElems(ranges);
            ClassLen(es) == |es| && (ClassFinds(es, c) <==> InRange(c, r) || InRanges(c, ranges))
    decreases |ranges|
  {
    var es := RangeElems(lead, r) + AltElems(ranges);
    if ranges != [] {
      AltElemsShape(ranges);
      AltElemsFinds(CharAlt(First(ranges[0])), ranges[0], ranges[1..], c);
      assert ranges == [ranges[0]] + ranges[1..];
      assert InRanges(c, ranges) <==> InRange(c, ranges[0]) || InRanges(c, ranges[1..]);
      assert es[|RangeElems(lead, r)|..] == AltElems(ranges);
    }
  }

  lemma ClassFindsRanges(negated: bool, ranges: seq<CharRange>, c: Code)
    requires ranges != []
    ensures var es := ClassElems(negated, ranges);
            es != [] && ClassLen(es) == |es| && (ClassFinds(es, c) <==> InRanges(c, ranges))
  {
    var d := First(ranges[0]);
    AltElemsFinds(if negated then CharNot(d) else Char(d), ranges[0], ranges[1..], c);
    assert ranges == [ranges[0]] + ranges[1..];
    assert InRanges(c, ranges) <==> InRange(c, ranges[0]) || InRanges(c, ranges[1..]);
  }

  lemma ClassMatches(t: Table, k: nat, negated: bool, ranges: seq<CharRange>, w: Text)
    requires ranges != []
    ensures MatchElems(t, k, ClassElems(negated, ranges), w) <==> |w| == 1 && InRanges(w[0], ranges) != negated
  {
    var es := ClassElems(negated, ranges);
    ClassFindsRanges(negated, ranges, 0);
    if w != [] {
      ClassFindsRanges(negated, ranges, w[0]);
      assert es[|es|..] == [];
      assert es[0] == if negated then CharNot(First(ranges[0])) else Char(First(ranges[0]));
      assert MatchElems(t, k, [], w[1..]) <==> w[1..] == [];
    }
  }

  lemma {:induction false} LitMatches(t: Table, k: nat, text: Text, w: Text)
    ensures MatchElems(t, k, LitElems(text), w) <==> w == text
    decreases |text|
  {
    var es := LitElems(text);
    if text != [] {
      assert es[1..] == LitElems(text[1..]);
      if w != [] {
        LitMatches(t, k, text[1..], w[1..]);
        assert w == [w[0]] + w[1..] && text == [text[0]] + text[1..];
      }
    }
  }

  // ---------------------------------------------------------------------------------------------
  // Repetition rules

  lemma RuleBody(t: Table, k: nat, a: seq<Elem>, r: nat, w: Text)
    requires NoEnd(a) && Slot(t, r) == a + [AltMark, End]
    ensures MatchRule(t, k + 1, r, w) <==> MatchBody(t, k, a, w) || w == []
  {
    var rule := Slot(t, r);
    assert rule == (a + [AltMark] + []) + [End];
    EndedBody(t, k, a + [AltMark] + [], w);
    BarredBody(t, k, a, [], w);
    FlatBody(t, k, [], w);
  }

  lemma SingleRef(t: Table, k: nat, r: nat, w: Text)
    ensures MatchElems(t, k, [RuleRef(r)], w) <==> MatchRule(t, k, r, w)
  {
    var es := [RuleRef(r)];
    assert es[1..] == [];
    assert w[..|w|] == w && w[|w|..] == [];
    if MatchRule(t, k, r, w) {
      assert MatchElems(t, k, es[1..], w[|w|..]);
    }
    if MatchElems(t, k, es, w) {
      var i :| 0 <= i <= |w| && MatchRule(t, k, r, w[..i]) && MatchElems(t, k, es[1..], w[i..]);
      assert i == |w|;
    }
  }

  lemma RuleThen(t: Table, k: nat, prev: seq<Elem>, q: nat, w: Text)
    requires Flat(prev)
    ensures MatchBody(t, k, prev + [RuleRef(q)], w) <==>
      exists i :: 0 <= i <= |w| && MatchElems(t, k, prev, w[..i]) && MatchRule(t, k, q, w[i..])
  {
    FlatBody(t, k, prev + [RuleRef(q)], w);
    AppendElems(t, k, prev, [RuleRef(q)], w);
    forall i | 0 <= i <= |w|
      ensures MatchElems(t, k, [RuleRef(q)], w[i..]) <==> MatchRule(t, k, q, w[i..])
    {
      SingleRef(t, k, q, w[i..]);
    }
  }

  /** A link of a repetition: nothing, or `prev` and then rule `q`. */
  lemma Link(t: Table, k: nat, prev: seq<Elem>, q: nat, r: nat, w: Text)
    requires Flat(prev) && Slot(t, r) == prev + [RuleRef(q), AltMark, End]
    ensures MatchRule(t, k + 1, r, w) <==>
      (w == [] || exists i :: 0 <= i <= |w| && MatchElems(t, k, prev, w[..i]) && MatchRule(t, k, q, w[i..]))
  {
    assert Slot(t, r) == (prev + [RuleRef(q)]) + [AltMark, End];
    RuleBody(t, k, prev + [RuleRef(q)], r, w);
    RuleThen(t, k, prev, q, w);
  }

  /** The last link of a bounded repetition: nothing, or `prev`. */
  lemma LastLink(t: Table, k: nat, prev: seq<Elem>, r: nat, w: Text)
    requires Flat(prev) && Slot(t, r) == prev + [AltMark, End]
    ensures MatchRule(t, k + 1, r, w) <==> w == [] || MatchElems(t, k, prev, w)
  {
    RuleBody(t, k, prev, r, w);
    FlatBody(t, k, prev, w);
  }

  /** One more copy in front. */
  lemma RepeatMore(t: Table, k: nat, prev: seq<Elem>, c: nat, w: Text, i: nat)
    requires Flat(prev) && Unbroken(prev) && prev != [] && i <= |w|
    requires MatchElems(t, k, prev, w[..i]) && MatchElems(t, k, Repeat(prev, c), w[i..])
    ensures MatchElems(t, k, Repeat(prev, c + 1), w)
  {
    RepeatShape(prev, c);
    AppendElems(t, k, prev, Repeat(prev, c), w);
  }

  lemma {:induction false} ChainSound(s: Store, prev: seq<Elem>, r: nat, x: nat, k: nat, w: Text) returns (c: nat)
    requires Flat(prev) && Unbroken(prev) && prev != []
    requires Chain(s, prev, r, x) && MatchRule(s.rules, k, r, w)
    ensures c <= x && MatchElems(s.rules, k, Repeat(prev, c), w)
    decreases x
  {
    if w == [] {
      c := 0;
    } else if x == 1 {
      LastLink(s.rules, k - 1, prev, r, w);
      ElemsMono(s.rules, k - 1, k, prev, w);
      assert Repeat(prev, 1) == prev + Repeat(prev, 0) == prev;
      c := 1;
    } else {
      var q := Slot(s.rules, r)[|prev|].id;
      Link(s.rules, k - 1, prev, q, r, w);
      var i :| 0 <= i <= |w| && MatchElems(s.rules, k - 1, prev, w[..i]) && MatchRule(s.rules, k - 1, q, w[i..]);
      c := ChainSound(s, prev, q, x - 1, k - 1, w[i..]);
      RepeatLater(s.rules, k - 1, k, prev, c, w, i);
      c := c + 1;
    }
  }

  lemma RepeatLater(t: Table, k: nat, k': nat, prev: seq<Elem>, c: nat, w: Text, i: nat)
    requires Flat(prev) && Unbroken(prev) && prev != [] && i <= |w| && k <= k'
    requires MatchElems(t, k, prev, w[..i]) && MatchElems(t, k, Repeat(prev, c), w[i..])
    ensures MatchElems(t, k', Repeat(prev, c + 1), w)
  {
    RepeatMore(t, k, prev, c, w, i);
    ElemsMono(t, k, k', Repeat(prev, c + 1), w);
  }

  lemma {:induction false} StarSound(s: Store, prev: seq<Elem>, r: nat, k: nat, w: Text) returns (c: nat)
    requires Flat(prev) && Unbroken(prev) && prev != []
    requires Star(s, prev, r) && MatchRule(s.rules, k, r, w)
    ensures MatchElems(s.rules, k, Repeat(prev, c), w)
    decreases k
  {
    if w == [] {
      c := 0;
    } else {
      Link(s.rules, k - 1, prev, r, r, w);
      var i :| 0 <= i <= |w| && MatchElems(s.rules, k - 1, prev, w[..i]) && MatchRule(s.rules, k - 1, r, w[i..]);
      c := StarSound(s, prev, r, k - 1, w[i..]);
      RepeatLater(s.rules, k - 1, k, prev, c, w, i);
      c := c + 1;
    }
  }

  /** The first copy of a repetition, and the others. */
  lemma RepeatFirst(t: Table, k: nat, prev: seq<Elem>, c: nat, w: Text) returns (i: nat)
    requires Flat(prev) && Unbroken(prev) && prev != [] && c > 0
    requires MatchElems(t, k, Repeat(prev, c), w)
    ensures i <= |w| && MatchElems(t, k, prev, w[..i]) && MatchElems(t, k, Repeat(prev, c - 1), w[i..])
  {
    RepeatShape(prev, c - 1);
    i := SplitElems(t, k, prev, Repeat(prev, c - 1), w);
  }

  lemma {:induction false} ChainComplete(s: Store, prev: seq<Elem>, r: nat, x: nat, k: nat, c: nat, w: Text)
    requires Flat(prev) && Unbroken(prev) && prev != []
    requires Chain(s, prev, r, x) && c <= x && MatchElems(s.rules, k, Repeat(prev, c), w)
    ensures MatchRule(s.rules, k + x, r, w)
    decreases x
  {
    if x == 1 {
      LastLink(s.rules, k, prev, r, w);
      assert Repeat(prev, 1) == prev + Repeat(prev, 0) == prev;
    } else {
      var q := Slot(s.rules, r)[|prev|].id;
      Link(s.rules, k + x - 1, prev, q, r, w);
      if c > 0 {
        var i := RepeatFirst(s.rules, k, prev, c, w);
        ChainComplete(s, prev, q, x - 1, k, c - 1, w[i..]);
        ElemsMono(s.rules, k, k + x - 1, prev, w[..i]);
      }
    }
  }

  lemma {:induction false} StarComplete(s: Store, prev: seq<Elem>, r: nat, k: nat, c: nat, w: Text)
    requires Flat(prev) && Unbroken(prev) && prev != []
    requires Star(s, prev, r) && MatchElems(s.rules, k, Repeat(prev, c), w)
    ensures MatchRule(s.rules, k + c + 1, r, w)
    decreases c
  {
    Link(s.rules, k + c, prev, r, r, w);
    if c > 0 {
      var i := RepeatFirst(s.rules, k, prev, c, w);
      StarComplete(s, prev, r, k, c - 1, w[i..]);
      ElemsMono(s.rules, k, k + c, prev, w[..i]);
    }
  }

  // ---------------------------------------------------------------------------------------------
  // The table denotes the grammar

  lemma SplitLast(t: Table, k: nat, es: seq<Elem>, r: nat, w: Text) returns (i: nat)
    requires MatchElems(t, k, es + [RuleRef(r)], w)
    ensures i <= |w| && MatchElems(t, k, es, w[..i]) && MatchRule(t, k, r, w[i..])
  {
    i := SplitElems(t, k, es, [RuleRef(r)], w);
    SingleRef(t, k, r, w[i..]);
  }

  lemma JoinLast(t: Table, k: nat, es: seq<Elem>, r: nat, w: Text, i: nat)
    requires i <= |w| && MatchElems(t, k, es, w[..i]) && MatchRule(t, k, r, w[i..])
    ensures MatchElems(t, k, es + [RuleRef(r)], w)
  {
    SingleRef(t, k, r, w[i..]);
    JoinElems(t, k, es, [RuleRef(r)], w, i);
  }

  lemma JoinRepeats(t: Table, k: nat, prev: seq<Elem>, a: nat, b: nat, w: Text, i: nat)
    requires prev != [] && Flat(prev) && Unbroken(prev)
    requires i <= |w| && MatchElems(t, k, Repeat(prev, a), w[..i]) && MatchElems(t, k, Repeat(prev, b), w[i..])
    ensures MatchElems(t, k, Repeat(prev, a + b), w)
  {
    RepeatShape(prev, b);
    RepeatSum(prev, a, b);
    JoinElems(t, k, Repeat(prev, a), Repeat(prev, b), w, i);
  }

  lemma SplitRepeats(t: Table, k: nat, prev: seq<Elem>, a: nat, b: nat, w: Text) returns (i: nat)
    requires prev != [] && Flat(prev) && Unbroken(prev)
    requires MatchElems(t, k, Repeat(prev, a + b), w)
    ensures i <= |w| && MatchElems(t, k, Repeat(prev, a), w[..i]) && MatchElems(t, k, Repeat(prev, b), w[i..])
  {
    RepeatShape(prev, b);
    RepeatSum(prev, a, b);
    i := SplitElems(t, k, Repeat(prev, a), Repeat(prev, b), w);
  }

  /** A compiled repetition derives some permitted number of copies. */
  lemma RepeatsFold(s: Store, prev: seq<Elem>, min: nat, max: Option<nat>, es: seq<Elem>, k: nat, w: Text)
    returns (c: nat)
    requires prev != [] && Flat(prev) && Unbroken(prev)
    requires Repeats(s, prev, min, max, es) && MatchElems(s.rules, k, es, w)
    ensures min <= c && (max.Some? ==> c <= max.value || c == min)
    ensures MatchElems(s.rules, k, Repeat(prev, c), w)
  {
    c := min;
    if max.None? || min < max.value {
      var r := es[|es| - 1].id;
      var i := SplitLast(s.rules, k, Repeat(prev, min), r, w);
      if max.Some? {
        c := ChainSound(s, prev, r, max.value - min, k, w[i..]);
      } else {
        c := StarSound(s, prev, r, k, w[i..]);
      }
      JoinRepeats(s.rules, k, prev, min, c, w, i);
      c := min + c;
    }
  }

  lemma TailComplete(s: Store, prev: seq<Elem>, limit: Option<nat>, r: nat, k: nat, c: nat, w: Text) returns (k': nat)
    requires prev != [] && Flat(prev) && Unbroken(prev)
    requires if limit.Some? then c <= limit.value && Chain(s, prev, r, limit.value) else Star(s, prev, r)
    requires MatchElems(s.rules, k, Repeat(prev, c), w)
    ensures k <= k' && MatchRule(s.rules, k', r, w)
  {
    if limit.Some? {
      ChainComplete(s, prev, r, limit.value, k, c, w);
      k' := k + limit.value;
    } else {
      StarComplete(s, prev, r, k, c, w);
      k' := k + c + 1;
    }
  }

  /** Any permitted number of copies is derived by a compiled repetition. */
  lemma RepeatsUnfold(s: Store, prev: seq<Elem>, min: nat, max: Option<nat>, es: seq<Elem>, k: nat, c: nat, w: Text)
    returns (k': nat)
    requires prev != [] && Flat(prev) && Unbroken(prev)
    requires Repeats(s, prev, min, max, es)
    requires min <= c && (max.Some? ==> c <= max.value || c == min)
    requires MatchElems(s.rules, k, Repeat(prev, c), w)
    ensures MatchElems(s.rules, k', es, w)
  {
    k' := k;
    if max.None? || min < max.value {
      var r := es[|es| - 1].id;
      var i := SplitRepeats(s.rules, k, prev, min, c - min, w);
      var limit := if max.Some? then Some(max.value - min) else None;
      k' := TailComplete(s, prev, limit, r, k, c - min, w[i..]);
      ElemsMono(s.rules, k, k', Repeat(prev, min), w[..i]);
      JoinLast(s.rules, k', Repeat(prev, min), r, w, i);
    }
  }

  lemma {:induction false} RepeatSum(es: seq<Elem>, a: nat, b: nat)
    ensures Repeat(es, a + b) == Repeat(es, a) + Repeat(es, b)
  {
    if a > 0 {
      RepeatSum(es, a - 1, b);
    }
  }

  lemma RefBody(t: Table, k: nat, r: nat, w: Text)
    ensures MatchBody(t, k, [RuleRef(r)], w) <==> MatchRule(t, k, r, w)
  {
    FlatBody(t, k, [RuleRef(r)], w);
    SingleRef(t, k, r, w);
  }

  /** Leaves match what they are compiled to, at every depth. */
  lemma LeafMatches(s: Store, g: Grammar, k: nat, k': nat, e: Expr, es: seq<Elem>, w: Text)
    requires Lowered(s, e, es)
    requires e.Empty? || e.Lit? || e.Class? || e.AnyChar?
    ensures MatchBody(s.rules, k, es, w) <==> Match(g, k', AsCompiled(e), w)
  {
    match e
    case Empty =>
      FlatBody(s.rules, k, es, w);
    case Lit(text) =>
      FlatBody(s.rules, k, es, w);
      LitMatches(s.rules, k, text, w);
    case Class(negated, ranges) =>
      ClassElemsShape(negated, ranges);
      FlatBody(s.rules, k, es, w);
      if ranges != [] {
        ClassMatches(s.rules, k, negated, ranges, w);
      }
    case AnyChar =>
      FlatBody(s.rules, k, es, w);
      assert es[1..] == [];
      if |w| == 1 {
        assert MatchElems(s.rules, k, es[1..], w[1..]);
      }
  }

  /** Whatever a compiled body derives, the expression describes. */
  lemma {:induction false} Sound(s: Store, g: Grammar, k: nat, e: Expr, es: seq<Elem>, w: Text)
    requires Implements(s, g) && Lowered(s, e, es) && MatchBody(s.rules, k, es, w)
    ensures Match(CompiledGrammar(g), k, AsCompiled(e), w)
    decreases k, e, 2
  {
    match e
    case Ref(name) =>
      RefBody(s.rules, k, s.ids[name], w);
      RuleSound(s, g, k - 1, g[name], s.ids[name], w);
    case Group(body) => GroupSound(s, g, k, e, es, w);
    case Cat(left, right) => CatSound(s, g, k, e, es, w);
    case Alt(left, right) => AltSound(s, g, k, e, es, w);
    case Rep(item, min, max) => RepSound(s, g, k, e, es, w);
    case _ => LeafMatches(s, CompiledGrammar(g), k, k, e, es, w);
  }

  lemma {:induction false} RuleSound(s: Store, g: Grammar, k: nat, e: Expr, r: nat, w: Text)
    requires Implements(s, g) && MatchRule(s.rules, k + 1, r, w)
    requires IsRule(Slot(s.rules, r)) && Lowered(s, e, Body(Slot(s.rules, r)))
    ensures Match(CompiledGrammar(g), k, AsCompiled(e), w)
    decreases k, e, 3
  {
    var body := Body(Slot(s.rules, r));
    assert Slot(s.rules, r) == body + [End];
    EndedBody(s.rules, k, body, w);
    Sound(s, g, k, e, body, w);
  }

  lemma {:induction false} GroupSound(s: Store, g: Grammar, k: nat, e: Expr, es: seq<Elem>, w: Text)
    requires Implements(s, g) && e.Group? && Lowered(s, e, es) && MatchBody(s.rules, k, es, w)
    ensures Match(CompiledGrammar(g), k, AsCompiled(e), w)
    decreases k, e, 1
  {
    assert es == [RuleRef(es[0].id)];
    RefBody(s.rules, k, es[0].id, w);
    RuleSound(s, g, k - 1, e.body, es[0].id, w);
    MatchMono(CompiledGrammar(g), k - 1, k, AsCompiled(e.body), w);
  }

  lemma {:induction false} CatSound(s: Store, g: Grammar, k: nat, e: Expr, es: seq<Elem>, w: Text)
    requires Implements(s, g) && e.Cat? && Lowered(s, e, es) && MatchBody(s.rules, k, es, w)
    ensures Match(CompiledGrammar(g), k, AsCompiled(e), w)
    decreases k, e, 1
  {
    var i :| 0 <= i <= |es| && Lowered(s, e.left, es[..i]) && Lowered(s, e.right, es[i..]);
    LoweredShape(s, e.right, es[i..]);
    var j := SplitAt(s.rules, k, es, i, w);
    Sound(s, g, k, e.left, es[..i], w[..j]);
    Sound(s, g, k, e.right, es[i..], w[j..]);
  }

  lemma {:induction false} AltSound(s: Store, g: Grammar, k: nat, e: Expr, es: seq<Elem>, w: Text)
    requires Implements(s, g) && e.Alt? && Lowered(s, e, es) && MatchBody(s.rules, k, es, w)
    ensures Match(CompiledGrammar(g), k, AsCompiled(e), w)
    decreases k, e, 1
  {
    var i :| 0 <= i < |es| && es[i].AltMark? && Lowered(s, e.left, es[..i]) && Lowered(s, e.right, es[i + 1..]);
    LoweredShape(s, e.left, es[..i]);
    BarredAt(s.rules, k, es, i, w);
    if MatchBody(s.rules, k, es[..i], w) {
      Sound(s, g, k, e.left, es[..i], w);
    } else {
      Sound(s, g, k, e.right, es[i + 1..], w);
    }
  }

  lemma {:induction false} RepSound(s: Store, g: Grammar, k: nat, e: Expr, es: seq<Elem>, w: Text)
    requires Implements(s, g) && e.Rep? && Lowered(s, e, es) && MatchBody(s.rules, k, es, w)
    ensures Match(CompiledGrammar(g), k, AsCompiled(e), w)
    decreases k, e, 1
  {
    var prev :| prev != [] && Flat(prev) && Lowered(s, e.item, prev) && Repeats(s, prev, e.min, e.max, es);
    LoweredShape(s, e.item, prev);
    RepeatsShape(s, prev, e.min, e.max, es);
    FlatBody(s.rules, k, es, w);
    var c := RepeatsFold(s, prev, e.min, e.max, es, k, w);
    PowerSound(s, g, k, e.item, prev, c, w);
  }

  lemma {:induction false} PowerSound(s: Store, g: Grammar, k: nat, e: Expr, prev: seq<Elem>, c: nat, w: Text)
    requires Implements(s, g) && Lowered(s, e, prev) && prev != [] && Flat(prev)
    requires MatchElems(s.rules, k, Repeat(prev, c), w)
    ensures Power(CompiledGrammar(g), k, AsCompiled(e), c, w)
    decreases k, e, c + 3
  {
    if c > 0 {
      LoweredShape(s, e, prev);
      var i := RepeatFirst(s.rules, k, prev, c, w);
      FlatBody(s.rules, k, prev, w[..i]);
      Sound(s, g, k, e, prev, w[..i]);
      PowerSound(s, g, k, e, prev, c - 1, w[i..]);
      PowerMore(CompiledGrammar(g), k, AsCompiled(e), c - 1, w, i);
    }
  }

  /** Whatever an expression describes, its compiled body derives. */
  lemma {:induction false} Complete(s: Store, g: Grammar, k: nat, e: Expr, es: seq<Elem>, w: Text) returns (k': nat)
    requires Implements(s, g) && Lowered(s, e, es) && Match(CompiledGrammar(g), k, AsCompiled(e), w)
    ensures MatchBody(s.rules, k', es, w)
    decreases k, e, 2
  {
    match e
    case Ref(name) =>
      k' := RuleComplete(s, g, k - 1, g[name], s.ids[name], w);
      RefBody(s.rules, k', s.ids[name], w);
    case Group(body) =>
      assert es == [RuleRef(es[0].id)];
      k' := RuleComplete(s, g, k, body, es[0].id, w);
      RefBody(s.rules, k', es[0].id, w);
    case Cat(left, right) => k' := CatComplete(s, g, k, e, es, w);
    case Alt(left, right) => k' := AltComplete(s, g, k, e, es, w);
    case Rep(item, min, max) => k' := RepComplete(s, g, k, e, es, w);
    case _ =>
      k' := 0;
      LeafMatches(s, CompiledGrammar(g), k', k, e, es, w);
  }

  lemma {:induction false} RuleComplete(s: Store, g: Grammar, k: nat, e: Expr, r: nat, w: Text) returns (k': nat)
    requires Implements(s, g) && Match(CompiledGrammar(g), k, AsCompiled(e), w)
    requires IsRule(Slot(s.rules, r)) && Lowered(s, e, Body(Slot(s.rules, r)))
    ensures MatchRule(s.rules, k', r, w)
    decreases k, e, 3
  {
    var body := Body(Slot(s.rules, r));
    assert Slot(s.rules, r) == body + [End];
    var b := Complete(s, g, k, e, body, w);
    EndedBody(s.rules, b, body, w);
    k' := b + 1;
  }

  lemma {:induction false} CatComplete(s: Store, g: Grammar, k: nat, e: Expr, es: seq<Elem>, w: Text) returns (k': nat)
    requires Implements(s, g) && e.Cat? && Lowered(s, e, es) && Match(CompiledGrammar(g), k, AsCompiled(e), w)
    ensures MatchBody(s.rules, k', es, w)
    decreases k, e, 1
  {
    var i :| 0 <= i <= |es| && Lowered(s, e.left, es[..i]) && Lowered(s, e.right, es[i..]);
    var g' := CompiledGrammar(g);
    var j :| 0 <= j <= |w| && Match(g', k, AsCompiled(e.left), w[..j]) && Match(g', k, AsCompiled(e.right), w[j..]);
    var ka := Complete(s, g, k, e.left, es[..i], w[..j]);
    var kb := Complete(s, g, k, e.right, es[i..], w[j..]);
    LoweredShape(s, e.right, es[i..]);
    k' := JoinAt(s.rules, ka, kb, es, i, w, j);
  }

  lemma {:induction false} AltComplete(s: Store, g: Grammar, k: nat, e: Expr, es: seq<Elem>, w: Text) returns (k': nat)
    requires Implements(s, g) && e.Alt? && Lowered(s, e, es) && Match(CompiledGrammar(g), k, AsCompiled(e), w)
    ensures MatchBody(s.rules, k', es, w)
    decreases k, e, 1
  {
    var i :| 0 <= i < |es| && es[i].AltMark? && Lowered(s, e.left, es[..i]) && Lowered(s, e.right, es[i + 1..]);
    if Match(CompiledGrammar(g), k, AsCompiled(e.left), w) {
      k' := Complete(s, g, k, e.left, es[..i], w);
    } else {
      k' := Complete(s, g, k, e.right, es[i + 1..], w);
    }
    LoweredShape(s, e.left, es[..i]);
    BarredAt(s.rules, k', es, i, w);
  }

  lemma {:induction false} RepComplete(s: Store, g: Grammar, k: nat, e: Expr, es: seq<Elem>, w: Text) returns (k': nat)
    requires Implements(s, g) && e.Rep? && Lowered(s, e, es) && Match(CompiledGrammar(g), k, AsCompiled(e), w)
    ensures MatchBody(s.rules, k', es, w)
    decreases k, e, 1
  {
    var prev :| prev != [] && Flat(prev) && Lowered(s, e.item, prev) && Repeats(s, prev, e.min, e.max, es);
    var g', top := CompiledGrammar(g), AsCompiled(e).max;
    var c: nat :| e.min <= c && (top.Some? ==> c <= top.value) && Power(g', k, AsCompiled(e.item), c, w);
    var a := PowerComplete(s, g, k, e.item, prev, c, w);
    LoweredShape(s, e.item, prev);
    k' := RepeatsUnfold(s, prev, e.min, e.max, es, a, c, w);
    RepeatsShape(s, prev, e.min, e.max, es);
    FlatBody(s.rules, k', es, w);
  }

  lemma {:induction false} PowerComplete(s: Store, g: Grammar, k: nat, e: Expr, prev: seq<Elem>, c: nat, w: Text)
    returns (k': nat)
    requires Implements(s, g) && Lowered(s, e, prev) && prev != [] && Flat(prev)
    requires Power(CompiledGrammar(g), k, AsCompiled(e), c, w)
    ensures MatchElems(s.rules, k', Repeat(prev, c), w)
    decreases k, e, c + 3
  {
    k' := 0;
    if c > 0 {
      var g' := CompiledGrammar(g);
      var i := PowerFirst(g', k, AsCompiled(e), c, w);
      var a := Complete(s, g, k, e, prev, w[..i]);
      var b := PowerComplete(s, g, k, e, prev, c - 1, w[i..]);
      LoweredShape(s, e, prev);
      k' := RepeatMoreBody(s.rules, a, b, prev, c - 1, w, i);
    }
  }

  lemma RepeatMoreBody(t: Table, ka: nat, kb: nat, prev: seq<Elem>, c: nat, w: Text, i: nat) returns (k: nat)
    requires Flat(prev) && Unbroken(prev) && prev != [] && i <= |w|
    requires MatchBody(t, ka, prev, w[..i]) && MatchElems(t, kb, Repeat(prev, c), w[i..])
    ensures MatchElems(t, k, Repeat(prev, c + 1), w)
  {
    k := if ka < kb then kb else ka;
    FlatBody(t, ka, prev, w[..i]);
    ElemsMono(t, ka, k, prev, w[..i]);
    ElemsMono(t, kb, k, Repeat(prev, c), w[i..]);
    RepeatMore(t, k, prev, c, w, i);
  }

  /** A table that represents a grammar denotes, for each of its names, the language of that name. */
  lemma SameLanguages(s: Store, g: Grammar, name: Name, w: Text)
    requires Implements(s, g) && name in g
    ensures InTable(s.rules, s.ids[name], w) <==> InLanguage(CompiledGrammar(g), name, w)
  {
    var g' := CompiledGrammar(g);
    if k: nat :| MatchRule(s.rules, k, s.ids[name], w) {
      RuleSound(s, g, k - 1, g[name], s.ids[name], w);
      assert Match(g', k, Ref(name), w);
    }
    if k: nat :| Match(g', k, Ref(name), w) {
      var k' := RuleComplete(s, g, k - 1, g[name], s.ids[name], w);
      assert MatchRule(s.rules, k', s.ids[name], w);
    }
  }

  lemma {:induction false} SensibleAsWritten(e: Expr)
    ensures Sensible(e) <==> AsCompiled(e) == e
  {
    match e
    case Group(body) => SensibleAsWritten(body);
    case Cat(left, right) => SensibleAsWritten(left); SensibleAsWritten(right);
    case Alt(left, right) => SensibleAsWritten(left); SensibleAsWritten(right);
    case Rep(item, min, max) => SensibleAsWritten(item);
    case _ =>
  }
}
