/** The invariants of the parser's symbol table and rules, and how both may grow. */
module ParseStore {
  import opened Gbnf
  import opened GrammarTable
  import opened Lowering
  import opened GbnfReader
  import Numerals

  /** A synthesized name: a rule name, an underscore, and the number of the symbol. */
  predicate Generated(name: Name, base: Name, id: nat) {
    '_' !in base && name == base + "_" + Numerals.ToString(id)
  }

  predicate IsCharElement(e: Elem) {
    StartsClass(e) || ExtendsClass(e)
  }

  /** Character sets are only extended where one has begun, and references are to known symbols. */
  predicate WellFormed(es: seq<Elem>, n: nat) {
    forall i :: 0 <= i < |es| ==> WellPlaced(es, i, n)
  }

  predicate WellPlaced(es: seq<Elem>, i: nat, n: nat)
    requires i < |es|
  {
    && (es[i].RuleRef? ==> es[i].id < n)
    && (ExtendsClass(es[i]) ==> i > 0 && IsCharElement(es[i - 1]))
  }

  predicate Tidy(rule: Rule, n: nat) {
    rule != [] ==> IsRule(rule) && WellFormed(rule, n)
  }

  ghost predicate IsNumber(s: Store, r: nat) {
    exists n :: n in s.ids && s.ids[n] == r
  }

  ghost predicate IsGenerated(name: Name, id: nat) {
    exists base :: Generated(name, base, id)
  }

  ghost predicate GoodSymbol(s: Store, n: Name) {
    n in s.ids ==>
      && s.ids[n] < |s.ids|
      && (s.ids[n] in s.synth <==> '_' in n)
      && ('_' in n ==> IsGenerated(n, s.ids[n]))
  }

  predicate Distinct(s: Store, m: Name, n: Name) {
    m in s.ids && n in s.ids && s.ids[m] == s.ids[n] ==> m == n
  }

  predicate GoodRule(s: Store, r: nat) {
    r < |s.rules| ==> Tidy(s.rules[r], |s.ids|)
  }

  /**
    The symbols are numbered from zero on without gaps or repetition, the synthesized ones are those
    with an underscore in their names, and every rule present is well formed.
   */
  ghost predicate Numbered(s: Store) {
    && (forall n {:trigger GoodSymbol(s, n)} :: GoodSymbol(s, n))
    && (forall m, n {:trigger Distinct(s, m, n)} :: Distinct(s, m, n))
    && (forall r {:trigger IsNumber(s, r)} :: 0 <= r < |s.ids| ==> IsNumber(s, r))
    && (forall r {:trigger r in s.synth} :: r in s.synth ==> r < |s.ids|)
    && |s.rules| <= |s.ids|
    && (forall r: nat {:trigger GoodRule(s, r)} :: GoodRule(s, r))
  }

  predicate SameSymbol(s: Store, s': Store, n: Name) {
    n in s.ids ==> n in s'.ids && s'.ids[n] == s.ids[n]
  }

  predicate SameKind(s: Store, s': Store, r: nat) {
    r < |s.ids| ==> (r in s.synth <==> r in s'.synth)
  }

  predicate SameSlot(s: Store, s': Store, r: nat) {
    r < |s.ids| ==> Slot(s'.rules, r) == Slot(s.rules, r)
  }

  /** Symbols are only added, and no rule a symbol of `s` already had is changed. */
  ghost predicate Grown(s: Store, s': Store) {
    && (forall n {:trigger SameSymbol(s, s', n)} :: SameSymbol(s, s', n))
    && (forall r: nat {:trigger SameKind(s, s', r)} :: SameKind(s, s', r))
    && (forall r: nat {:trigger SameSlot(s, s', r)} :: SameSlot(s, s', r))
  }

  /** The same, but for rule `except`. */
  ghost predicate GrownBut(s: Store, s': Store, except: nat) {
    && (forall n {:trigger SameSymbol(s, s', n)} :: SameSymbol(s, s', n))
    && (forall r: nat {:trigger SameKind(s, s', r)} :: SameKind(s, s', r))
    && (forall r: nat {:trigger SameSlot(s, s', r)} :: r != except ==> SameSlot(s, s', r))
  }

  predicate Introduced(s: Store, s': Store, names: set<Name>, n: Name) {
    n in s'.ids && n !in s.ids ==>
      && s'.ids[n] >= |s.ids|
      && ('_' in n || (n in names && Slot(s'.rules, s'.ids[n]) == []))
  }

  predicate Filled(s: Store, s': Store, r: nat) {
    r in s'.synth ==> r in s.synth || Slot(s'.rules, r) != []
  }

  /** The new symbols are synthesized and have their rules, or are among `names` and have none yet. */
  ghost predicate Introduces(s: Store, s': Store, names: set<Name>) {
    && (forall n {:trigger Introduced(s, s', names, n)} :: Introduced(s, s', names, n))
    && (forall r: nat {:trigger Filled(s, s', r)} :: Filled(s, s', r))
  }

  /** What parsing an expression that refers to `names` does to the store. */
  ghost predicate Advanced(s: Store, s': Store, names: set<Name>) {
    Numbered(s') && Grown(s, s') && |s.ids| <= |s'.ids| && Introduces(s, s', names)
  }

  /** The same, for an expression that defines rule `except`. */
  ghost predicate AdvancedBut(s: Store, s': Store, names: set<Name>, except: nat) {
    Numbered(s') && GrownBut(s, s', except) && |s.ids| <= |s'.ids| && Introduces(s, s', names)
  }

  lemma AdvancedNot(s: Store)
    requires Numbered(s)
    ensures Advanced(s, s, {})
  {
  }

  lemma GrownTwice(a: Store, b: Store, c: Store, except: nat)
    requires Grown(a, b) && GrownBut(b, c, except) && |a.ids| <= |b.ids|
    ensures GrownBut(a, c, except)
  {
    forall n
      ensures SameSymbol(a, c, n)
    {
      assert SameSymbol(a, b, n) && SameSymbol(b, c, n);
    }
    forall r: nat
      ensures SameKind(a, c, r) && (r != except ==> SameSlot(a, c, r))
    {
      assert SameKind(a, b, r) && SameKind(b, c, r) && SameSlot(a, b, r) && (r != except ==> SameSlot(b, c, r));
    }
  }

  lemma IntroducesTwice(a: Store, b: Store, c: Store, names: set<Name>, others: set<Name>, all: set<Name>)
    requires Introduces(a, b, names) && Introduces(b, c, others) && all == names + others
    requires Numbered(b) && |a.ids| <= |b.ids|
    requires forall n :: SameSymbol(b, c, n)
    requires forall r: nat :: |a.ids| <= r ==> SameSlot(b, c, r)
    requires forall r :: r in b.synth && Slot(b.rules, r) != [] ==> Slot(c.rules, r) != []
    ensures Introduces(a, c, all)
  {
    forall n
      ensures Introduced(a, c, all, n)
    {
      assert Introduced(a, b, names, n) && Introduced(b, c, others, n) && SameSymbol(b, c, n) && GoodSymbol(b, n);
      assert n in b.ids && n !in a.ids ==> SameSlot(b, c, b.ids[n]);
    }
    forall r: nat
      ensures Filled(a, c, r)
    {
      assert Filled(a, b, r) && Filled(b, c, r);
    }
  }

  lemma AdvancedTwice(a: Store, b: Store, c: Store, names: set<Name>, others: set<Name>, all: set<Name>)
    requires Advanced(a, b, names) && Advanced(b, c, others) && all == names + others
    ensures Advanced(a, c, all)
  {
    GrownTwice(a, b, c, |c.ids|);
    forall r: nat
      ensures SameSlot(a, c, r)
    {
      assert SameSlot(a, b, r) && SameSlot(b, c, r);
    }
    assert forall r :: r in b.synth ==> SameSlot(b, c, r);
    IntroducesTwice(a, b, c, names, others, all);
  }

  /** `s'` is `s` with one more symbol, synthesized, whose rule is still to come. */
  ghost predicate Pending(s: Store, s': Store) {
    && Grown(s, s')
    && |s'.ids| == |s.ids| + 1
    && s'.synth == s.synth + {|s.ids|}
    && Slot(s'.rules, |s.ids|) == []
    && (exists name :: '_' in name && s'.ids == s.ids[name := |s.ids|])
  }

  /** The rule of a pending symbol has been added. */
  lemma PendingFilled(s: Store, s': Store, s'': Store, names: set<Name>)
    requires Pending(s, s') && AdvancedBut(s', s'', names, |s.ids|) && Slot(s''.rules, |s.ids|) != []
    ensures Advanced(s, s'', names)
    ensures |s.ids| in s''.synth && |s.ids| < |s''.ids|
  {
    GrownTwice(s, s', s'', |s.ids|);
    assert SameKind(s', s'', |s.ids|);
    forall r: nat
      ensures SameSlot(s, s'', r)
    {
      assert r != |s.ids| ==> SameSlot(s, s', r) && SameSlot(s', s'', r);
    }
    forall n
      ensures Introduced(s, s'', names, n)
    {
      assert Introduced(s', s'', names, n) && SameSymbol(s', s'', n);
    }
    forall r: nat
      ensures Filled(s, s'', r)
    {
      assert Filled(s', s'', r);
    }
  }

  /** A rule has been added to a store that has advanced. */
  lemma AdvancedThenBut(a: Store, b: Store, c: Store, names: set<Name>, except: nat)
    requires Numbered(a) && Advanced(a, b, names) && AdvancedBut(b, c, {}, except) && except < |a.ids|
    requires Slot(c.rules, except) != []
    ensures AdvancedBut(a, c, names, except)
  {
    GrownTwice(a, b, c, except);
    assert forall r :: r in b.synth && r != except ==> SameSlot(b, c, r);
    IntroducesTwice(a, b, c, names, {}, names);
  }

  /** What compiled elements rely on: names keep their numbers, and finished synthesized rules stay. */
  ghost predicate Keeps(s: Store, s': Store) {
    && s.ids.Keys <= s'.ids.Keys
    && (forall n :: n in s.ids ==> s'.ids[n] == s.ids[n] && (s.ids[n] in s.synth <==> s.ids[n] in s'.synth))
    && (forall r :: r in s.synth ==>
      r in s'.synth && (Slot(s.rules, r) != [] ==> Slot(s'.rules, r) == Slot(s.rules, r)))
  }

  lemma GrownKeeps(s: Store, s': Store)
    requires Numbered(s) && Grown(s, s')
    ensures Keeps(s, s')
  {
    assert forall n :: n in s.ids ==> GoodSymbol(s, n) && SameSymbol(s, s', n) && SameKind(s, s', s.ids[n]);
    assert forall r :: r in s.synth ==> SameKind(s, s', r) && SameSlot(s, s', r);
  }

  lemma GrownButKeeps(s: Store, s': Store, except: nat)
    requires Numbered(s) && GrownBut(s, s', except)
    requires except !in s.synth || Slot(s.rules, except) == []
    ensures Keeps(s, s')
  {
    assert forall n :: n in s.ids ==> GoodSymbol(s, n) && SameSymbol(s, s', n) && SameKind(s, s', s.ids[n]);
    assert forall r :: r in s.synth ==> SameKind(s, s', r) && (r != except ==> SameSlot(s, s', r));
  }

  lemma {:induction false} ChainKept(s: Store, s': Store, prev: seq<Elem>, r: nat, x: nat)
    requires Keeps(s, s') && Chain(s, prev, r, x)
    ensures Chain(s', prev, r, x)
    decreases x
  {
    if x > 1 {
      ChainKept(s, s', prev, Slot(s.rules, r)[|prev|].id, x - 1);
    }
  }

  /** Compiled elements keep representing their expression while the table grows. */
  lemma {:induction false} LoweredKept(s: Store, s': Store, e: Expr, es: seq<Elem>)
    requires Keeps(s, s') && Lowered(s, e, es)
    ensures Lowered(s', e, es)
    decreases e
  {
    match e
    case Group(body) =>
      LoweredKept(s, s', body, Body(Slot(s.rules, es[0].id)));
    case Cat(left, right) =>
      var i :| 0 <= i <= |es| && Lowered(s, left, es[..i]) && Lowered(s, right, es[i..]);
      LoweredKept(s, s', left, es[..i]);
      LoweredKept(s, s', right, es[i..]);
    case Alt(left, right) =>
      var i :| 0 <= i < |es| && es[i].AltMark? && Lowered(s, left, es[..i]) && Lowered(s, right, es[i + 1..]);
      LoweredKept(s, s', left, es[..i]);
      LoweredKept(s, s', right, es[i + 1..]);
    case Rep(item, min, max) =>
      var prev :| prev != [] && Flat(prev) && Lowered(s, item, prev) && Repeats(s, prev, min, max, es);
      LoweredKept(s, s', item, prev);
      if max.Some? && min < max.value {
        ChainKept(s, s', prev, es[|es| - 1].id, max.value - min);
      }
      assert Repeats(s', prev, min, max, es);
    case _ =>
  }

  /** An item is compiled to nothing exactly when no repetition mark may follow it. */
  lemma EmitsElems(s: Store, item: Expr, es: seq<Elem>)
    requires Lowered(s, item, es) && !item.Empty? && !item.Cat? && !item.Alt?
    ensures es != [] <==> Emits(item)
  {
    match item
    case Class(negated, ranges) => ClassElemsShape(negated, ranges);
    case Rep(body, min, max) =>
      var prev :| prev != [] && Flat(prev) && Lowered(s, body, prev) && Repeats(s, prev, min, max, es);
      LoweredShape(s, body, prev);
      RepeatShape(prev, min);
    case _ =>
  }

  lemma WellFormedJoin(a: seq<Elem>, b: seq<Elem>, n: nat)
    requires WellFormed(a, n) && WellFormed(b, n)
    ensures WellFormed(a + b, n)
  {
    forall i | 0 <= i < |a + b|
      ensures WellPlaced(a + b, i, n)
    {
      if i < |a| {
        assert WellPlaced(a, i, n);
      } else {
        assert WellPlaced(b, i - |a|, n);
      }
    }
  }

  lemma WellFormedPrefix(es: seq<Elem>, i: nat, n: nat)
    requires WellFormed(es, n) && i <= |es|
    ensures WellFormed(es[..i], n)
  {
    forall j | 0 <= j < i
      ensures WellPlaced(es[..i], j, n)
    {
      assert WellPlaced(es, j, n);
    }
  }

  lemma WellFormedSuffix(es: seq<Elem>, i: nat, n: nat)
    requires WellFormed(es, n) && i <= |es| && Unbroken(es[i..])
    ensures WellFormed(es[i..], n)
  {
    forall j | 0 <= j < |es| - i
      ensures WellPlaced(es[i..], j, n)
    {
      assert WellPlaced(es, i + j, n);
    }
  }

  lemma WellFormedGrows(es: seq<Elem>, n: nat, n': nat)
    requires WellFormed(es, n) && n <= n'
    ensures WellFormed(es, n')
  {
    forall i | 0 <= i < |es|
      ensures WellPlaced(es, i, n')
    {
      assert WellPlaced(es, i, n);
    }
  }

  lemma {:induction false} WellFormedRepeat(es: seq<Elem>, k: nat, n: nat)
    requires WellFormed(es, n)
    ensures WellFormed(Repeat(es, k), n)
  {
    if k > 0 {
      WellFormedRepeat(es, k - 1, n);
      WellFormedJoin(es, Repeat(es, k - 1), n);
    }
  }

  lemma RangeElemsWellFormed(lead: seq<Elem>, r: CharRange, n: nat)
    requires WellFormed(lead, n) && lead != [] && IsCharElement(lead[|lead| - 1])
    ensures var es := lead + RangeElems(CharAlt(First(r)), r);
            WellFormed(es, n) && IsCharElement(es[|es| - 1])
  {
    var es := lead + RangeElems(CharAlt(First(r)), r);
    forall i | 0 <= i < |es|
      ensures WellPlaced(es, i, n)
    {
      assert i < |lead| ==> WellPlaced(lead, i, n);
    }
  }

  lemma {:induction false} AltElemsWellFormed(lead: seq<Elem>, ranges: seq<CharRange>, n: nat)
    requires WellFormed(lead, n) && lead != [] && IsCharElement(lead[|lead| - 1])
    ensures WellFormed(lead + AltElems(ranges), n)
    decreases |ranges|
  {
    if ranges == [] {
      assert lead + AltElems(ranges) == lead;
    } else {
      var next := RangeElems(CharAlt(First(ranges[0])), ranges[0]);
      RangeElemsWellFormed(lead, ranges[0], n);
      AltElemsWellFormed(lead + next, ranges[1..], n);
      assert lead + AltElems(ranges) == (lead + next) + AltElems(ranges[1..]);
    }
  }

  lemma ClassElemsWellFormed(negated: bool, ranges: seq<CharRange>, n: nat)
    ensures WellFormed(ClassElems(negated, ranges), n)
  {
    if ranges != [] {
      var c := First(ranges[0]);
      AltElemsWellFormed(RangeElems(if negated then CharNot(c) else Char(c), ranges[0]), ranges[1..], n);
    }
  }

  lemma {:induction false} AltElemsAppend(ranges: seq<CharRange>, r: CharRange)
    ensures AltElems(ranges + [r]) == AltElems(ranges) + RangeElems(CharAlt(First(r)), r)
  {
    var all := ranges + [r];
    if ranges == [] {
      assert all[1..] == [];
    } else {
      assert all[1..] == ranges[1..] + [r];
      AltElemsAppend(ranges[1..], r);
    }
  }

  lemma ClassElemsAppend(negated: bool, ranges: seq<CharRange>, r: CharRange)
    ensures ClassElems(negated, ranges + [r]) == ClassElems(negated, ranges) +
      RangeElems(if ranges != [] then CharAlt(First(r)) else if negated then CharNot(First(r)) else Char(First(r)), r)
  {
    var all := ranges + [r];
    if ranges == [] {
      assert all[1..] == [];
    } else {
      assert all[1..] == ranges[1..] + [r];
      AltElemsAppend(ranges[1..], r);
    }
  }

  /** No generated name is in use before its number is. */
  lemma FreshName(s: Store, base: Name)
    requires Numbered(s) && '_' !in base
    ensures base + "_" + Numerals.ToString(|s.ids|) !in s.ids
  {
    var name := base + "_" + Numerals.ToString(|s.ids|);
    if name in s.ids {
      assert GoodSymbol(s, name);
      assert name[|base|] == '_' && '_' in name;
      var other :| Generated(name, other, s.ids[name]);
      SameGenerated(base, |s.ids|, other, s.ids[name]);
    }
  }

  lemma SameGenerated(a: Name, m: nat, b: Name, n: nat)
    requires '_' !in a && '_' !in b
    requires a + "_" + Numerals.ToString(m) == b + "_" + Numerals.ToString(n)
    ensures a == b && m == n
  {
    var x, y := Numerals.ToString(m), Numerals.ToString(n);
    var name := a + "_" + x;
    assert name == b + "_" + y;
    assert name[|a|] == '_' && name[|b|] == '_';
    assert forall i :: 0 <= i < |a| ==> name[i] == a[i];
    assert forall i :: 0 <= i < |b| ==> name[i] == b[i];
    assert |a| == |b|;
    assert a == name[..|a|] == b;
    assert x == name[|a| + 1..] == y;
    Numerals.ToStringInjective(m, n);
  }
}
