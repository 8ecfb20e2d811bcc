/** How faithful the rewriting of repetitions is, and how many ways it derives a number of copies. */
module Repetition {
  import opened Wrappers
  import opened Gbnf
  import opened GrammarTable
  import opened Lowering

  // ---------------------------------------------------------------------------------------------
  // Where the compiled meaning departs from the documented one

  lemma {:induction false} PowerExists(g: Grammar, k: nat, e: Expr, c: nat, v: Text) returns (w: Text)
    requires Match(g, k, e, v)
    ensures Power(g, k, e, c, w)
  {
    if c == 0 {
      w := [];
    } else {
      var w' := PowerExists(g, k, e, c - 1, v);
      w := v + w';
      assert w[..|v|] == v && w[|v|..] == w';
    }
  }

  /** For an item that describes something, the compiled bounds mean what is documented unless they are inverted. */
  lemma BoundsFaithful(g: Grammar, k: nat, item: Expr, min: nat, max: nat, v: Text)
    requires Sensible(item) && Match(g, k, item, v)
    ensures var e := Rep(item, min, Some(max));
            (forall w :: Match(g, k, e, w) <==> Match(g, k, AsCompiled(e), w)) <==> min <= max
  {
    var e, raised := Rep(item, min, Some(max)), Rep(item, min, Some(min));
    SensibleAsWritten(item);
    assert AsCompiled(item) == item;
    if max < min {
      assert AsCompiled(e) == raised;
      var w := PowerExists(g, k, item, min, v);
      assert Match(g, k, raised, w);
      assert !Match(g, k, e, w);
    } else {
      assert AsCompiled(e) == e;
    }
  }

  /** A character set means what is documented unless it is empty. */
  lemma ClassFaithful(g: Grammar, k: nat, negated: bool, ranges: seq<CharRange>)
    ensures var e := Class(negated, ranges);
            (forall w :: Match(g, k, e, w) <==> Match(g, k, AsCompiled(e), w)) <==> ranges != []
  {
    var e := Class(negated, ranges);
    if ranges == [] {
      assert Match(g, k, AsCompiled(e), []) && !Match(g, k, e, []);
    }
  }

  predicate AllSensible(g: Grammar) {
    forall n :: n in g ==> Sensible(g[n])
  }

  /** A grammar without inverted bounds and empty character sets is compiled as it is written. */
  lemma SensibleGrammar(g: Grammar)
    ensures AllSensible(g) <==> CompiledGrammar(g) == g
  {
    forall n | n in g
      ensures Sensible(g[n]) <==> CompiledGrammar(g)[n] == g[n]
    {
      SensibleAsWritten(g[n]);
    }
  }

  // ---------------------------------------------------------------------------------------------
  // Derivations of the synthesized rules

  /**
    Starting from rule `r`, taking the first alternative at each `true` of `choices` and the second at
    each `false`, ends after exactly `c` copies of `prev`, which is treated as a symbol.
   */
  ghost predicate Derives(t: Table, prev: seq<Elem>, r: nat, choices: seq<bool>, c: nat)
    decreases |choices|
  {
    && choices != []
    && var rule := Slot(t, r);
    && var j := AlternativeEnd(rule);
    && var more := choices[1..];
    if choices[0] then
      && c > 0
      && if rule[..j] == prev then more == [] && c == 1
         else
           && j == |prev| + 1
           && rule[..|prev|] == prev
           && rule[|prev|].RuleRef?
           && Derives(t, prev, rule[|prev|].id, more, c - 1)
    else
      && j < |rule|
      && rule[j].AltMark?
      && AlternativeEnd(rule[j + 1..]) == 0
      && more == []
      && c == 0
  }

  function FirstChoices(c: nat): seq<bool> {
    seq(c, _ => true)
  }

  lemma LinkShape(t: Table, prev: seq<Elem>, q: nat, r: nat)
    requires Flat(prev) && Slot(t, r) == prev + [RuleRef(q), AltMark, End]
    ensures AlternativeEnd(Slot(t, r)) == |prev| + 1
    ensures AlternativeEnd(Slot(t, r)[|prev| + 2..]) == 0
  {
    var rule := Slot(t, r);
    assert rule == (prev + [RuleRef(q)]) + [AltMark] + [End];
    AlternativeEndAt(prev + [RuleRef(q)], AltMark, [End]);
    assert rule[|prev| + 2..] == [End];
  }

  /** A bounded repetition derives each number of copies up to its bound in exactly one way. */
  lemma {:induction false} ChainUnambiguous(s: Store, prev: seq<Elem>, r: nat, x: nat, choices: seq<bool>, c: nat)
    requires Flat(prev) && Chain(s, prev, r, x)
    ensures Derives(s.rules, prev, r, choices, c) <==>
            (c <= x && choices == FirstChoices(c) + if c < x then [false] else [])
    decreases x
  {
    var rule := Slot(s.rules, r);
    if choices != [] {
      assert choices == [choices[0]] + choices[1..];
      if x == 1 {
        assert rule == prev + [AltMark] + [End];
        AlternativeEndAt(prev, AltMark, [End]);
        assert rule[|prev| + 1..] == [End];
      } else {
        var q := rule[|prev|].id;
        LinkShape(s.rules, prev, q, r);
        if choices[0] && c > 0 {
          ChainUnambiguous(s, prev, q, x - 1, choices[1..], c - 1);
          assert FirstChoices(c) == [true] + FirstChoices(c - 1);
        }
      }
    }
  }

  /** An unbounded repetition derives every number of copies in exactly one way. */
  lemma {:induction false} StarUnambiguous(s: Store, prev: seq<Elem>, r: nat, choices: seq<bool>, c: nat)
    requires Flat(prev) && Star(s, prev, r)
    ensures Derives(s.rules, prev, r, choices, c) <==> choices == FirstChoices(c) + [false]
    decreases |choices|
  {
    if choices != [] {
      assert choices == [choices[0]] + choices[1..];
      LinkShape(s.rules, prev, r, r);
      if choices[0] && c > 0 {
        StarUnambiguous(s, prev, r, choices[1..], c - 1);
        assert FirstChoices(c) == [true] + FirstChoices(c - 1);
      }
    }
  }
}
