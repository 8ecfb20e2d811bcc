/** What each step of the parser keeps: the elements emitted so far represent the expression read so far. */
module ParseSteps {
  import opened Wrappers
  import opened Gbnf
  import opened GrammarTable
  import opened Lowering
  import opened GbnfReader
  import opened ParseStore
  import opened GbnfTerminals

  /** Where the parser stands inside a sequence whose elements begin at `start` of `out`. */
  ghost predicate InSequence(s: Store, start: nat, last: nat, out: seq<Elem>, acc: Expr) {
    && start <= last <= |out|
    && Flat(out[start..])
    && WellFormed(out, |s.ids|)
    && if acc.Empty? then last == |out| == start
       else
         && acc.Cat?
         && Lowered(s, acc.left, out[start..last])
         && Lowered(s, acc.right, out[last..])
         && (Emits(acc.right) <==> last < |out|)
  }

  lemma SequenceDone(s: Store, start: nat, last: nat, out: seq<Elem>, acc: Expr)
    requires InSequence(s, start, last, out, acc)
    ensures Lowered(s, acc, out[start..])
  {
    if acc.Cat? {
      assert out[start..][..last - start] == out[start..last];
      assert out[start..][last - start..] == out[last..];
    }
  }

  /** A further item. */
  lemma ItemAdded(s: Store, s': Store, start: nat, last: nat, out: seq<Elem>, acc: Expr, item: Expr, es: seq<Elem>)
    requires InSequence(s, start, last, out, acc)
    requires Keeps(s, s') && |s.ids| <= |s'.ids|
    requires Lowered(s', item, es) && !item.Empty? && !item.Cat? && !item.Alt?
    requires Flat(es) && WellFormed(es, |s'.ids|)
    ensures InSequence(s', start, |out|, out + es, Cat(acc, item))
  {
    SequenceDone(s, start, last, out, acc);
    LoweredKept(s, s', acc, out[start..]);
    EmitsElems(s', item, es);
    WellFormedGrows(out, |s.ids|, |s'.ids|);
    WellFormedJoin(out, es, |s'.ids|);
    Cuts(out, start, es);
  }

  lemma Cuts(out: seq<Elem>, start: nat, es: seq<Elem>)
    requires start <= |out| && Flat(out[start..]) && Flat(es)
    ensures (out + es)[start..|out|] == out[start..]
    ensures (out + es)[|out|..] == es
    ensures Flat((out + es)[start..])
  {
    assert (out + es)[start..] == out[start..] + es;
  }

  lemma FlatParts(es: seq<Elem>, start: nat, last: nat)
    requires start <= last <= |es| && Flat(es[start..])
    ensures Flat(es[start..last]) && Flat(es[last..])
  {
    assert forall i :: 0 <= i < last - start ==> es[start..last][i] == es[start..][i];
    assert forall i :: 0 <= i < |es| - last ==> es[last..][i] == es[start..][last - start + i];
  }

  /** The last item repeated. */
  lemma ItemRepeated(s: Store, s': Store, start: nat, last: nat, out: seq<Elem>, acc: Expr, min: nat, max: Option<nat>,
                     es: seq<Elem>)
    requires InSequence(s, start, last, out, acc) && last < |out|
    requires Keeps(s, s') && |s.ids| <= |s'.ids|
    requires Repeats(s', out[last..], min, max, es) && Flat(es) && WellFormed(es, |s'.ids|)
    ensures InSequence(s', start, last, out[..last] + es, Cat(acc.left, Rep(acc.right, min, max)))
  {
    var front := out[..last];
    LoweredKept(s, s', acc.left, out[start..last]);
    FlatParts(out, start, last);
    RepLowered(s, s', acc.right, out[last..], min, max, es);
    EmitsElems(s', Rep(acc.right, min, max), es);
    WellFormedPrefix(out, last, |s.ids|);
    WellFormedGrows(front, |s.ids|, |s'.ids|);
    WellFormedJoin(front, es, |s'.ids|);
    Spliced(out, start, last, es);
    ItemPlaced(s', start, last, front + es, acc.left, Rep(acc.right, min, max));
  }

  lemma Spliced(out: seq<Elem>, start: nat, last: nat, es: seq<Elem>)
    requires start <= last <= |out|
    ensures (out[..last] + es)[start..last] == out[start..last] && (out[..last] + es)[last..] == es
  {
  }

  lemma ItemPlaced(s: Store, start: nat, last: nat, out: seq<Elem>, left: Expr, right: Expr)
    requires start <= last <= |out| && Flat(out[start..last]) && Flat(out[last..]) && WellFormed(out, |s.ids|)
    requires Lowered(s, left, out[start..last]) && Lowered(s, right, out[last..])
    requires Emits(right) <==> last < |out|
    ensures InSequence(s, start, last, out, Cat(left, right))
  {
    assert out[start..] == out[start..last] + out[last..];
  }

  lemma RepLowered(s: Store, s': Store, item: Expr, prev: seq<Elem>, min: nat, max: Option<nat>, es: seq<Elem>)
    requires Keeps(s, s') && Lowered(s, item, prev) && prev != [] && Flat(prev)
    requires Repeats(s', prev, min, max, es)
    ensures Lowered(s', Rep(item, min, max), es)
  {
    LoweredKept(s, s', item, prev);
  }

  /** `out'` is `out` followed by elements that represent `e`. */
  ghost predicate Appended(s: Store, out: seq<Elem>, out': seq<Elem>, e: Expr) {
    && |out| <= |out'|
    && out'[..|out|] == out
    && Lowered(s, e, out'[|out|..])
  }

  /** The same, for the elements of a single item. */
  ghost predicate ItemAppended(s: Store, out: seq<Elem>, out': seq<Elem>, item: Expr) {
    && Appended(s, out, out', item)
    && Flat(out'[|out|..])
    && WellFormed(out'[|out|..], |s.ids|)
  }

  lemma TerminalAppended(s: Store, out: seq<Elem>, item: Expr)
    requires item.Lit? || item.Class? || item.AnyChar?
    ensures ItemAppended(s, out, out + TerminalElems(item), item)
  {
    var es := TerminalElems(item);
    assert (out + es)[..|out|] == out && (out + es)[|out|..] == es;
    if item.Class? {
      ClassElemsShape(item.negated, item.ranges);
      ClassElemsWellFormed(item.negated, item.ranges, |s.ids|);
    }
  }

  /** Rule `r` represents `e`. */
  ghost predicate Holds(s: Store, r: nat, e: Expr) {
    IsRule(Slot(s.rules, r)) && Lowered(s, e, Body(Slot(s.rules, r)))
  }

  lemma BarAdded(es: seq<Elem>, n: nat)
    requires WellFormed(es, n)
    ensures WellFormed(es + [AltMark], n)
  {
    assert WellFormed([AltMark], n);
    WellFormedJoin(es, [AltMark], n);
  }

  lemma BodyTidy(s: Store, e: Expr, es: seq<Elem>)
    requires Lowered(s, e, es) && WellFormed(es, |s.ids|)
    ensures IsRule(es + [End]) && Body(es + [End]) == es && Tidy(es + [End], |s.ids|)
  {
    LoweredShape(s, e, es);
    assert WellFormed([End], |s.ids|);
    WellFormedJoin(es, [End], |s.ids|);
    assert (es + [End])[..|es|] == es;
  }

  /** Rule `r` derives any number of copies of `prev`, or up to `x` copies. */
  predicate Optional(s: Store, prev: seq<Elem>, r: nat, x: nat, unbounded: bool) {
    if unbounded then Star(s, prev, r) else Chain(s, prev, r, x)
  }

  /** `es` is a well-formed repetition of `prev`. */
  predicate RepeatsWell(s: Store, prev: seq<Elem>, min: nat, max: Option<nat>, es: seq<Elem>) {
    Repeats(s, prev, min, max, es) && Flat(es) && WellFormed(es, |s.ids|)
  }

  lemma RepetitionAdded(s: Store, n: nat, prev: seq<Elem>, min: nat, max: Option<nat>, r: nat, es: seq<Elem>)
    requires prev != [] && Flat(prev) && Unbroken(prev) && WellFormed(prev, n) && n <= |s.ids|
    requires if max.Some? && max.value <= min then es == Repeat(prev, min)
             else
               && r < |s.ids|
               && es == Repeat(prev, min) + [RuleRef(r)]
               && Optional(s, prev, r, if max.Some? then max.value - min else 1, max.None?)
    ensures RepeatsWell(s, prev, min, max, es)
  {
    var copies, ref := Repeat(prev, min), [RuleRef(r)];
    RepeatShape(prev, min);
    WellFormedRepeat(prev, min, n);
    WellFormedGrows(copies, n, |s.ids|);
    if max.None? || min < max.value {
      assert WellFormed(ref, |s.ids|);
      WellFormedJoin(copies, ref, |s.ids|);
    }
  }

  lemma OptionalAdded(s: Store, s': Store, prev: seq<Elem>, i: nat, unbounded: bool, next: nat, rule: Rule)
    requires Numbered(s) && Advanced(s, s', {}) && |s.ids| in s'.synth && Slot(s'.rules, |s.ids|) == rule
    requires unbounded ==> i == 0
    requires i > 0 ==> Optional(s, prev, next, i, false)
    requires rule == if i > 0 || unbounded
                     then prev + [RuleRef(if unbounded then |s.ids| else next)] + [AltMark] + [End]
                     else prev + [AltMark] + [End]
    ensures Optional(s', prev, |s.ids|, i + 1, unbounded)
  {
    GrownKeeps(s, s');
    if i > 0 {
      ChainKept(s, s', prev, next, i);
      assert rule == prev + [RuleRef(next), AltMark, End];
    } else if unbounded {
      assert rule == prev + [RuleRef(|s.ids|), AltMark, End];
    } else {
      assert rule == prev + [AltMark, End];
    }
  }

  lemma GroupAppended(s: Store, out: seq<Elem>, out': seq<Elem>, id: nat, body: Expr)
    requires id in s.synth && id < |s.ids| && Holds(s, id, body) && out' == out + [RuleRef(id)]
    ensures ItemAppended(s, out, out', Group(body))
  {
    assert out'[|out|..] == [RuleRef(id)] && out'[..|out|] == out;
  }

  /** `out'` is `out` followed by the elements of the sequence `acc`, its last item's from `last` on. */
  ghost predicate Continues(s: Store, out: seq<Elem>, last: nat, out': seq<Elem>, acc: Expr) {
    && |out| <= |out'|
    && out'[..|out|] == out
    && InSequence(s, |out|, last, out', acc)
  }

  /** A mark can be applied exactly when the last item left something behind. */
  lemma SequenceTail(s: Store, out: seq<Elem>, last: nat, out': seq<Elem>, acc: Expr, bounds: Bounds)
    requires Continues(s, out, last, out', acc)
    ensures last <= |out'| && (last < |out'| <==> Repeated(acc, bounds).Success?)
    ensures WellFormed(out', |s.ids|) && Flat(out'[last..]) && Unbroken(out'[last..])
  {
    FlatParts(out', |out|, last);
    if acc.Cat? {
      LoweredShape(s, acc.right, out'[last..]);
    }
  }

  lemma SequenceExtended(s0: Store, s: Store, s': Store, out: seq<Elem>, last: nat, before: seq<Elem>, after: seq<Elem>,
                         acc: Expr, item: Expr)
    requires Advanced(s0, s, Names(acc)) && Advanced(s, s', Names(item)) && Continues(s, out, last, before, acc)
    requires ItemAppended(s', before, after, item) && !item.Empty? && !item.Cat? && !item.Alt?
    ensures Advanced(s0, s', Names(Cat(acc, item)))
    ensures Continues(s', out, |before|, after, Cat(acc, item))
  {
    AdvancedTwice(s0, s, s', Names(acc), Names(item), Names(Cat(acc, item)));
    var es := after[|before|..];
    GrownKeeps(s, s');
    ItemAdded(s, s', |out|, last, before, acc, item, es);
    assert after == before + es;
  }

  lemma SequenceRepeated(s0: Store, s: Store, s': Store, out: seq<Elem>, last: nat, before: seq<Elem>, after: seq<Elem>,
                         acc: Expr, bounds: Bounds)
    requires Advanced(s0, s, Names(acc)) && Advanced(s, s', {})
    requires Continues(s, out, last, before, acc) && last < |before| && Repeated(acc, bounds).Success?
    requires last <= |after| && after[..last] == before[..last]
    requires RepeatsWell(s', before[last..], bounds.min, bounds.max, after[last..])
    ensures Advanced(s0, s', Names(Repeated(acc, bounds).value))
    ensures Continues(s', out, last, after, Repeated(acc, bounds).value)
  {
    GrownKeeps(s, s');
    assert Names(Rep(acc.right, bounds.min, bounds.max)) == Names(acc.right);
    AdvancedTwice(s0, s, s', Names(acc), {}, Names(Repeated(acc, bounds).value));
    ItemRepeated(s, s', |out|, last, before, acc, bounds.min, bounds.max, after[last..]);
    assert after == before[..last] + after[last..];
    assert after[..|out|] == after[..last][..|out|] == before[..last][..|out|] == before[..|out|];
  }

  lemma AlternativeAdded(s0: Store, s: Store, s': Store, before: seq<Elem>, after: seq<Elem>, acc: Expr, next: Expr)
    requires Advanced(s0, s, Names(acc)) && Advanced(s, s', Names(next))
    requires Lowered(s, acc, before)
    requires Appended(s', before + [AltMark], after, next)
    ensures Advanced(s0, s', Names(Alt(acc, next)))
    ensures Lowered(s', Alt(acc, next), after)
  {
    AdvancedTwice(s0, s, s', Names(acc), Names(next), Names(Alt(acc, next)));
    GrownKeeps(s, s');
    LoweredKept(s, s', acc, before);
    var tail := after[|before| + 1..];
    assert after == before + [AltMark] + tail;
    AltLowered(s', before, tail, acc, next);
  }

  lemma AltLowered(s: Store, a: seq<Elem>, b: seq<Elem>, left: Expr, right: Expr)
    requires Lowered(s, left, a) && Lowered(s, right, b)
    ensures Lowered(s, Alt(left, right), a + [AltMark] + b)
  {
    var es, i := a + [AltMark] + b, |a|;
    assert es[..i] == a && es[i + 1..] == b && es[i].AltMark?;
  }

  lemma RuleAdded(s0: Store, s: Store, s': Store, ruleId: nat, e: Expr, rule: Rule)
    requires Numbered(s0) && Advanced(s0, s, Names(e)) && AdvancedBut(s, s', {}, ruleId)
    requires ruleId < |s0.ids| && (ruleId in s0.synth ==> Slot(s0.rules, ruleId) == [])
    requires IsRule(rule) && Lowered(s, e, Body(rule)) && Slot(s'.rules, ruleId) == rule
    ensures Holds(s', ruleId, e)
  {
    assert SameKind(s0, s, ruleId) && SameSlot(s0, s, ruleId);
    GrownButKeeps(s, s', ruleId);
    LoweredKept(s, s', e, Body(rule));
  }

  lemma OptionalTidy(previous: seq<Elem>, rule: Rule, n: nat, n': nat)
    requires Flat(previous) && WellFormed(previous, n) && n <= n'
    requires || rule == previous + [AltMark] + [End]
             || (|rule| == |previous| + 3 && rule[|previous|].RuleRef? && rule[|previous|].id < n'
                 && rule == previous + [rule[|previous|]] + [AltMark] + [End])
    ensures Tidy(rule, n')
  {
    forall i | 0 <= i < |rule|
      ensures WellPlaced(rule, i, n')
    {
      assert i < |previous| ==> WellPlaced(previous, i, n);
    }
    assert rule[..|rule| - 1] == previous + rule[|previous|..|rule| - 1];
  }

  lemma SymbolAdded(s: Store, s': Store, name: Name)
    requires Numbered(s) && name !in s.ids && s'.ids == s.ids[name := |s.ids|] && s'.rules == s.rules
    requires if '_' in name then s'.synth == s.synth + {|s.ids|} && IsGenerated(name, |s.ids|) else s'.synth == s.synth
    ensures Numbered(s') && Grown(s, s')
  {
    AllNumbers(s, s', name);
    forall n
      ensures GoodSymbol(s', n)
    {
      assert GoodSymbol(s, n);
    }
    forall m, n
      ensures Distinct(s', m, n)
    {
      assert Distinct(s, m, n) && GoodSymbol(s, m) && GoodSymbol(s, n);
    }
    forall r: nat
      ensures GoodRule(s', r)
    {
      assert GoodRule(s, r);
      if r < |s.rules| {
        TidyGrows(s.rules[r], |s.ids|, |s'.ids|);
      }
    }
  }

  lemma NameIntroduced(s: Store, s': Store, name: Name)
    requires s'.rules == s.rules && s'.synth == s.synth && |s.rules| <= |s.ids|
    requires s'.ids == s.ids || s'.ids == s.ids[name := |s.ids|]
    ensures Introduces(s, s', {name})
  {
  }

  lemma TidyGrows(rule: Rule, n: nat, n': nat)
    requires n <= n' && Tidy(rule, n)
    ensures Tidy(rule, n')
  {
    if rule != [] {
      WellFormedGrows(rule, n, n');
    }
  }

  lemma AllNumbers(s: Store, s': Store, name: Name)
    requires name !in s.ids && s'.ids == s.ids[name := |s.ids|]
    requires forall r :: 0 <= r < |s.ids| ==> IsNumber(s, r)
    ensures forall r :: 0 <= r < |s'.ids| ==> IsNumber(s', r)
  {
    forall r | 0 <= r < |s'.ids|
      ensures IsNumber(s', r)
    {
      if r < |s.ids| {
        assert IsNumber(s, r);
        var n :| n in s.ids && s.ids[n] == r;
        assert s'.ids[n] == r;
      } else {
        assert s'.ids[name] == r;
      }
    }
  }

  lemma RuleSet(s: Store, s': Store, id: nat, rule: Rule)
    requires Numbered(s) && id < |s.ids| && Tidy(rule, |s.ids|)
    requires s'.ids == s.ids && s'.synth == s.synth
    requires |s'.rules| == if |s.rules| <= id then id + 1 else |s.rules|
    requires forall r :: 0 <= r < |s'.rules| ==> s'.rules[r] == if r == id then rule else Slot(s.rules, r)
    ensures AdvancedBut(s, s', {}, id) && Slot(s'.rules, id) == rule
  {
    SameNumbers(s, s');
    forall n
      ensures GoodSymbol(s', n)
    {
      assert GoodSymbol(s, n);
    }
    forall m, n
      ensures Distinct(s', m, n)
    {
      assert Distinct(s, m, n);
    }
    forall r: nat
      ensures GoodRule(s', r)
    {
      assert GoodRule(s, r);
    }
  }

  lemma SameNumbers(s: Store, s': Store)
    requires s.ids == s'.ids && forall r :: 0 <= r < |s.ids| ==> IsNumber(s, r)
    ensures forall r :: 0 <= r < |s'.ids| ==> IsNumber(s', r)
  {
    forall r | 0 <= r < |s'.ids|
      ensures IsNumber(s', r)
    {
      assert IsNumber(s, r);
      var n :| n in s.ids && s.ids[n] == r;
      assert s'.ids[n] == r;
    }
  }

  // ---------------------------------------------------------------------------------------------
  // Whole grammars

  /** The store after the definitions `defs`: the last definition of each name is represented. */
  ghost predicate Represents(s: Store, defs: seq<Definition>) {
    && Numbered(s)
    && (forall n {:trigger DefinitionHeld(s, defs, n)} :: DefinitionHeld(s, defs, n))
    && (forall n {:trigger NameExplained(s, defs, n)} :: NameExplained(s, defs, n))
    && (forall r {:trigger r in s.synth} :: r in s.synth ==> Slot(s.rules, r) != [])
  }

  ghost predicate DefinitionHeld(s: Store, defs: seq<Definition>, n: Name) {
    var g := LastDefinitions(defs);
    n in g ==> Defines(s, n, g[n])
  }

  /** A name is synthesized, or defined, or only referred to and without a rule. */
  predicate NameExplained(s: Store, defs: seq<Definition>, n: Name) {
    n in s.ids ==>
      || '_' in n
      || n in LastDefinitions(defs)
      || (n in ReferredNames(defs) && Slot(s.rules, s.ids[n]) == [])
  }

  /** Every rule of the table is present, and so is every rule one of them refers to. */
  predicate AllDefined(t: Table) {
    forall r :: 0 <= r < |t| ==> t[r] != [] && RefsDefined(t, t[r])
  }

  predicate RefsDefined(t: Table, rule: Rule) {
    forall i :: 0 <= i < |rule| ==> RefDefined(t, rule[i])
  }

  predicate RefDefined(t: Table, e: Elem) {
    e.RuleRef? ==> Slot(t, e.id) != []
  }

  /** Every name the definitions refer to is defined. */
  predicate Closed(defs: seq<Definition>) {
    ReferredNames(defs) <= LastDefinitions(defs).Keys
  }

  lemma MoreDefinitions(defs: seq<Definition>, d: Definition)
    ensures LastDefinitions(defs + [d]) == LastDefinitions(defs)[d.name := d.body]
    ensures ReferredNames(defs + [d]) == ReferredNames(defs) + Names(d.body)
  {
    var all := defs + [d];
    assert all[..|all| - 1] == defs;
    forall n
      ensures n in ReferredNames(all) <==> n in ReferredNames(defs) + Names(d.body)
    {
      if n in ReferredNames(defs) {
        var i :| 0 <= i < |defs| && n in Names(defs[i].body);
        assert all[i] == defs[i];
      }
      if n in Names(d.body) {
        assert all[|defs|] == d;
      }
    }
  }

  /** One more definition has been parsed: its name was numbered in `s1`, and its rule is in `s2`. */
  lemma RuleParsed(s: Store, s1: Store, s2: Store, defs: seq<Definition>, d: Definition, id: nat)
    requires Represents(s, defs) && '_' !in d.name
    requires Advanced(s, s1, {d.name}) && AdvancedBut(s1, s2, Names(d.body), id)
    requires d.name in s1.ids && s1.ids[d.name] == id && Holds(s2, id, d.body)
    ensures Represents(s2, defs + [d])
  {
    var all := defs + [d];
    assert GoodSymbol(s1, d.name) && SameSymbol(s1, s2, d.name) && GoodSymbol(s2, d.name);
    forall n
      ensures DefinitionHeld(s2, all, n)
    {
      DefinitionStaysHeld(s, s1, s2, defs, d, id, n);
    }
    forall n
      ensures NameExplained(s2, all, n)
    {
      NameStaysExplained(s, s1, s2, defs, d, id, n);
    }
    forall r | r in s2.synth
      ensures Slot(s2.rules, r) != []
    {
      SynthSlot(s, s1, s2, r, id, {d.name}, Names(d.body));
    }
  }

  lemma DefinitionStaysHeld(s: Store, s1: Store, s2: Store, defs: seq<Definition>, d: Definition, id: nat, n: Name)
    requires Represents(s, defs) && '_' !in d.name
    requires Advanced(s, s1, {d.name}) && AdvancedBut(s1, s2, Names(d.body), id)
    requires d.name in s1.ids && s1.ids[d.name] == id && Holds(s2, id, d.body)
    ensures DefinitionHeld(s2, defs + [d], n)
  {
    MoreDefinitions(defs, d);
    assert GoodSymbol(s1, d.name);
    if n == d.name {
      assert SameSymbol(s1, s2, n) && GoodSymbol(s2, n);
    } else if n in LastDefinitions(defs) {
      assert DefinitionHeld(s, defs, n);
      GrownKeeps(s, s1);
      GrownButKeeps(s1, s2, id);
      StillDefined(s, s1, s2, n, LastDefinitions(defs)[n], id, d.name);
    }
  }

  lemma NameStaysExplained(s: Store, s1: Store, s2: Store, defs: seq<Definition>, d: Definition, id: nat, n: Name)
    requires Represents(s, defs) && '_' !in d.name
    requires Advanced(s, s1, {d.name}) && AdvancedBut(s1, s2, Names(d.body), id)
    requires d.name in s1.ids && s1.ids[d.name] == id
    ensures NameExplained(s2, defs + [d], n)
  {
    MoreDefinitions(defs, d);
    if n != d.name && n in s2.ids && '_' !in n {
      assert NameExplained(s, defs, n);
      StillExplained(s, s1, s2, n, d.name, id, {d.name}, Names(d.body));
    }
  }

  lemma StillDefined(s: Store, s1: Store, s2: Store, n: Name, e: Expr, id: nat, other: Name)
    requires Numbered(s) && Numbered(s1) && Grown(s, s1) && GrownBut(s1, s2, id) && Keeps(s, s1) && Keeps(s1, s2)
    requires Defines(s, n, e) && n != other
    requires other in s1.ids && s1.ids[other] == id
    ensures Defines(s2, n, e)
  {
    var r := s.ids[n];
    assert GoodSymbol(s, n) && SameSymbol(s, s1, n) && SameKind(s, s1, r) && SameSlot(s, s1, r);
    assert Distinct(s1, n, other) && GoodSymbol(s1, n);
    assert SameSymbol(s1, s2, n) && SameKind(s1, s2, r) && SameSlot(s1, s2, r);
    LoweredKept(s, s1, e, Body(Slot(s.rules, r)));
    LoweredKept(s1, s2, e, Body(Slot(s.rules, r)));
  }

  /** Another name is as it was, or is new, referred to and without a rule. */
  lemma StillExplained(s: Store, s1: Store, s2: Store, n: Name, name: Name, id: nat, names: set<Name>,
                       others: set<Name>)
    requires Numbered(s) && Advanced(s, s1, names) && AdvancedBut(s1, s2, others, id)
    requires name in s1.ids && s1.ids[name] == id && n != name && names == {name}
    requires n in s2.ids && '_' !in n
    ensures if n in s.ids then s2.ids[n] == s.ids[n] && Slot(s2.rules, s.ids[n]) == Slot(s.rules, s.ids[n])
            else n in others && Slot(s2.rules, s2.ids[n]) == []
  {
    assert GoodSymbol(s2, n) && Introduced(s1, s2, others, n) && Introduced(s, s1, names, n);
    assert SameSymbol(s1, s2, n) && GoodSymbol(s1, n) && Distinct(s1, n, name) && SameSlot(s1, s2, s2.ids[n]);
    assert SameSymbol(s, s1, n) && GoodSymbol(s, n);
    if n in s.ids {
      assert SameSlot(s, s1, s.ids[n]);
    }
  }

  lemma SynthSlot(s: Store, s1: Store, s2: Store, r: nat, id: nat, names: set<Name>, others: set<Name>)
    requires Numbered(s) && Advanced(s, s1, names) && AdvancedBut(s1, s2, others, id)
    requires forall q :: q in s.synth ==> Slot(s.rules, q) != []
    requires Slot(s2.rules, id) != [] && r in s2.synth
    ensures Slot(s2.rules, r) != []
  {
    assert Filled(s1, s2, r) && Filled(s, s1, r);
    if r in s1.synth && r != id {
      assert SameSlot(s1, s2, r) && SameSlot(s, s1, r);
    }
  }

  /** When nothing is left undefined, the table implements the grammar read. */
  lemma Implemented(s: Store, defs: seq<Definition>)
    requires Represents(s, defs) && AllDefined(s.rules)
    ensures Implements(s, LastDefinitions(defs))
  {
    forall n | n in s.ids && s.ids[n] !in s.synth && s.ids[n] < |s.rules|
      ensures n in LastDefinitions(defs)
    {
      assert s.rules[s.ids[n]] != [];
      assert GoodSymbol(s, n) && NameExplained(s, defs, n);
    }
    assert forall n :: n in LastDefinitions(defs) ==> DefinitionHeld(s, defs, n);
  }
}
