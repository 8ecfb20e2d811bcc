/** In what order symbols are numbered, and which names rules refer to: what decides whether a source is accepted. */
module ParseTrace {
  import opened Wrappers
  import opened Gbnf
  import opened GrammarTable
  import opened Lowering
  import opened GbnfReader
  import opened ParseStore
  import opened ParseSteps

  // ---------------------------------------------------------------------------------------------
  // What a source does to the symbols

  /** A name is looked up, or a symbol is made for a synthesized rule. */
  datatype Event = Sees(name: Name) | Makes

  /** How many rules a repetition is given. */
  function Optionals(min: nat, max: Option<nat>): nat {
    match max
    case None => 1
    case Some(m) => if m > min then m - min else 0
  }

  function MakesTimes(n: nat): seq<Event> {
    seq(n, _ => Makes)
  }

  /** What happens while an expression is parsed, in order. */
  function Events(e: Expr): seq<Event> {
    match e
    case Ref(name) => [Sees(name)]
    case Group(body) => [Makes] + Events(body)
    case Cat(left, right) => Events(left) + Events(right)
    case Alt(left, right) => Events(left) + Events(right)
    case Rep(item, min, max) => Events(item) + MakesTimes(Optionals(min, max))
    case _ => []
  }

  /** The names that the elements of an expression refer to themselves. */
  function Direct(e: Expr): set<Name> {
    match e
    case Ref(name) => {name}
    case Cat(left, right) => Direct(left) + Direct(right)
    case Alt(left, right) => Direct(left) + Direct(right)
    case Rep(item, min, max) => if min > 0 then Direct(item) else {}
    case _ => {}
  }

  /** The names that the rules synthesized for an expression refer to. */
  function Inner(e: Expr): set<Name> {
    match e
    case Group(body) => Inner(body) + Direct(body)
    case Cat(left, right) => Inner(left) + Inner(right)
    case Alt(left, right) => Inner(left) + Inner(right)
    case Rep(item, min, max) => Inner(item) + if Optionals(min, max) > 0 then Direct(item) else {}
    case _ => {}
  }

  /** What has happened so far, and the names that synthesized rules refer to by now. */
  datatype Trace = Trace(log: seq<Event>, inner: set<Name>) {
    /** After a symbol has been made. */
    function ThenMakes(): Trace {
      Trace(log + [Makes], inner)
    }

    /** After a rule that refers to `names`. */
    function Refers(names: set<Name>): Trace {
      Trace(log, inner + names)
    }

    /** After the expression `e`. */
    function Then(e: Expr): Trace {
      Trace(log + Events(e), inner + Inner(e))
    }

    /** After the body `e` of a rule, which may be synthesized. */
    function ThenRule(e: Expr, synthesized: bool): Trace {
      Trace(log + Events(e), inner + Inner(e) + if synthesized then Direct(e) else {})
    }

    /** After the rules for the optional copies of elements that refer to `names`. */
    function ThenCopies(n: nat, names: set<Name>): Trace {
      Trace(log + MakesTimes(n), inner + if n > 0 then names else {})
    }
  }

  function TraceOf(defs: seq<Definition>): Trace {
    if defs == [] then Trace([], {})
    else
      var n := |defs| - 1;
      TraceOf(defs[..n]).Then(Ref(defs[n].name)).Then(defs[n].body)
  }

  lemma TraceMore(defs: seq<Definition>, d: Definition)
    ensures TraceOf(defs + [d]) == TraceOf(defs).Then(Ref(d.name)).ThenRule(d.body, false)
  {
    assert (defs + [d])[..|defs|] == defs;
  }

  lemma ThenCat(t: Trace, a: Expr, b: Expr)
    ensures t.Then(a).Then(b) == t.Then(Cat(a, b)) == t.Then(Alt(a, b))
  {
  }

  lemma ThenRep(t: Trace, item: Expr, min: nat, max: Option<nat>)
    ensures t.Then(item).ThenCopies(Optionals(min, max), Direct(item)) == t.Then(Rep(item, min, max))
  {
  }

  // ---------------------------------------------------------------------------------------------
  // The numbers of the symbols

  /** The events at which a new symbol is numbered, in order. */
  function Firsts(log: seq<Event>): seq<Event> {
    if log == [] then []
    else
      var n := |log| - 1;
      var before := Firsts(log[..n]);
      if log[n].Makes? || log[n] !in before then before + [log[n]] else before
  }

  lemma FirstsMore(log: seq<Event>, e: Event)
    ensures Firsts(log + [e]) == if e.Makes? || e !in Firsts(log) then Firsts(log) + [e] else Firsts(log)
  {
    assert (log + [e])[..|log|] == log;
  }

  ghost predicate NumberedAs(s: Store, f: seq<Event>, i: nat) {
    i < |f| ==> match f[i]
      case Makes => i in s.synth
      case Sees(n) => i !in s.synth && n in s.ids && s.ids[n] == i
  }

  /** The symbols are numbered in the order of the events. */
  ghost predicate Follows(s: Store, log: seq<Event>) {
    var f := Firsts(log);
    |f| == |s.ids| && forall i: nat {:trigger NumberedAs(s, f, i)} :: NumberedAs(s, f, i)
  }

  // ---------------------------------------------------------------------------------------------
  // The names that rules refer to

  /** The names of the elements that are references to named rules. */
  ghost function NamesIn(s: Store, es: seq<Elem>): set<Name> {
    set n | n in s.ids && s.ids[n] !in s.synth && RuleRef(s.ids[n]) in es
  }

  /** Rule `r` is synthesized and refers to name `n`. */
  ghost predicate SynthRefers(s: Store, r: nat, n: Name) {
    r in s.synth && n in NamesIn(s, Slot(s.rules, r))
  }

  /** The names that synthesized rules refer to. */
  ghost predicate InnerExact(s: Store, inner: set<Name>) {
    && (forall r, n {:trigger SynthRefers(s, r, n)} :: SynthRefers(s, r, n) ==> n in inner)
    && (forall n {:trigger InnerFound(s, n)} :: n in inner ==> InnerFound(s, n))
  }

  ghost predicate InnerFound(s: Store, n: Name) {
    exists r :: SynthRefers(s, r, n)
  }

  /** The last rule of the table is present. */
  predicate LastFilled(t: Table) {
    t == [] || t[|t| - 1] != []
  }

  ghost predicate Tracks(s: Store, t: Trace) {
    Follows(s, t.log) && InnerExact(s, t.inner) && LastFilled(s.rules)
  }

  lemma NoNames(s: Store, es: seq<Elem>)
    requires forall e :: e in es ==> !e.RuleRef?
    ensures NamesIn(s, es) == {}
  {
  }

  lemma NamesJoin(s: Store, a: seq<Elem>, b: seq<Elem>)
    ensures NamesIn(s, a + b) == NamesIn(s, a) + NamesIn(s, b)
  {
  }

  lemma {:induction false} NamesRepeat(s: Store, es: seq<Elem>, k: nat)
    ensures NamesIn(s, Repeat(es, k)) == if k > 0 then NamesIn(s, es) else {}
    decreases k
  {
    if k == 0 {
      NoNames(s, []);
    } else {
      NamesRepeat(s, es, k - 1);
      NamesJoin(s, es, Repeat(es, k - 1));
    }
  }

  lemma NamesOfRef(s: Store, id: nat)
    requires id in s.synth
    ensures NamesIn(s, [RuleRef(id)]) == {}
  {
  }

  /** Elements that represent an expression refer to the names it refers to directly. */
  lemma {:induction false} DirectNames(s: Store, e: Expr, es: seq<Elem>)
    requires Numbered(s) && Lowered(s, e, es)
    ensures NamesIn(s, es) == Direct(e)
    decreases e
  {
    match e
    case Lit(text) => NoNames(s, es);
    case Class(negated, ranges) => ClassNames(s, negated, ranges);
    case Ref(name) => RefNames(s, name, es);
    case Group(body) => assert es == [RuleRef(es[0].id)];
    case Cat(left, right) =>
      var i :| 0 <= i <= |es| && Lowered(s, left, es[..i]) && Lowered(s, right, es[i..]);
      DirectNames(s, left, es[..i]);
      DirectNames(s, right, es[i..]);
      CatNames(s, es, i);
    case Alt(left, right) =>
      var i :| 0 <= i < |es| && es[i].AltMark? && Lowered(s, left, es[..i]) && Lowered(s, right, es[i + 1..]);
      DirectNames(s, left, es[..i]);
      DirectNames(s, right, es[i + 1..]);
      AltNames(s, es, i);
    case Rep(item, min, max) =>
      var prev :| prev != [] && Flat(prev) && Lowered(s, item, prev) && Repeats(s, prev, min, max, es);
      DirectNames(s, item, prev);
      RepNames(s, prev, min, max, es);
    case _ =>
  }

  lemma CatNames(s: Store, es: seq<Elem>, i: nat)
    requires i <= |es|
    ensures NamesIn(s, es) == NamesIn(s, es[..i]) + NamesIn(s, es[i..])
  {
    NamesJoin(s, es[..i], es[i..]);
    assert es == es[..i] + es[i..];
  }

  lemma AltNames(s: Store, es: seq<Elem>, i: nat)
    requires i < |es| && es[i].AltMark?
    ensures NamesIn(s, es) == NamesIn(s, es[..i]) + NamesIn(s, es[i + 1..])
  {
    NamesJoin(s, es[..i], [es[i]] + es[i + 1..]);
    NamesJoin(s, [es[i]], es[i + 1..]);
    NoNames(s, [es[i]]);
    assert es == es[..i] + ([es[i]] + es[i + 1..]);
  }

  lemma RefNames(s: Store, name: Name, es: seq<Elem>)
    requires Numbered(s) && name in s.ids && s.ids[name] !in s.synth && es == [RuleRef(s.ids[name])]
    ensures NamesIn(s, es) == {name}
  {
    forall n | n in NamesIn(s, es)
      ensures n == name
    {
      assert Distinct(s, n, name);
    }
  }

  lemma ClassNames(s: Store, negated: bool, ranges: seq<CharRange>)
    ensures NamesIn(s, ClassElems(negated, ranges)) == {}
  {
    if ranges != [] {
      AltNoRefs(ranges[1..]);
    }
    NoNames(s, ClassElems(negated, ranges));
  }

  lemma {:induction false} AltNoRefs(ranges: seq<CharRange>)
    ensures forall e :: e in AltElems(ranges) ==> !e.RuleRef?
    decreases |ranges|
  {
    if ranges != [] {
      AltNoRefs(ranges[1..]);
    }
  }

  lemma RepNames(s: Store, prev: seq<Elem>, min: nat, max: Option<nat>, es: seq<Elem>)
    requires Repeats(s, prev, min, max, es)
    ensures NamesIn(s, es) == if min > 0 then NamesIn(s, prev) else {}
  {
    NamesRepeat(s, prev, min);
    if max.None? || max.value > min {
      var last := es[|es| - 1];
      NamesJoin(s, Repeat(prev, min), [last]);
      assert last.id in s.synth;
      NamesOfRef(s, last.id);
      assert last == RuleRef(last.id);
    }
  }

  // ---------------------------------------------------------------------------------------------
  // The steps of the parser

  /** Elements refer to the same names when symbols are added. */
  lemma NamesKept(s: Store, s': Store, es: seq<Elem>)
    requires Numbered(s) && Numbered(s') && Grown(s, s') && WellFormed(es, |s.ids|)
    ensures NamesIn(s', es) == NamesIn(s, es)
  {
    forall n
      ensures n in NamesIn(s', es) <==> n in NamesIn(s, es)
    {
      assert SameSymbol(s, s', n) && GoodSymbol(s, n);
      if n in s.ids {
        assert SameKind(s, s', s.ids[n]);
      } else if n in NamesIn(s', es) {
        NewUnused(s, s', es, n);
      }
    }
  }

  /** A new symbol is not referred to by what was there before. */
  lemma NewUnused(s: Store, s': Store, es: seq<Elem>, n: Name)
    requires Numbered(s) && Numbered(s') && Grown(s, s') && WellFormed(es, |s.ids|)
    requires n !in s.ids && n in s'.ids
    ensures RuleRef(s'.ids[n]) !in es
  {
    if i :| 0 <= i < |es| && es[i] == RuleRef(s'.ids[n]) {
      assert WellPlaced(es, i, |s.ids|);
      assert IsNumber(s, s'.ids[n]);
      var m :| m in s.ids && s.ids[m] == s'.ids[n];
      assert SameSymbol(s, s', m) && Distinct(s', m, n);
    }
  }

  lemma SlotNamesKept(s: Store, s': Store, r: nat)
    requires Numbered(s) && Numbered(s') && Grown(s, s') && r < |s.ids|
    ensures NamesIn(s', Slot(s'.rules, r)) == NamesIn(s, Slot(s.rules, r))
  {
    assert SameSlot(s, s', r) && GoodRule(s, r);
    if Slot(s.rules, r) != [] {
      NamesKept(s, s', Slot(s.rules, r));
    } else {
      NoNames(s, []);
      NoNames(s', []);
    }
  }

  /** While no rule of a synthesized symbol is added, the names they refer to stay. */
  lemma InnerKept(s: Store, s': Store, inner: set<Name>)
    requires Numbered(s) && Numbered(s') && Grown(s, s') && |s.ids| <= |s'.ids| && InnerExact(s, inner)
    requires forall r :: r in s'.synth && r !in s.synth ==> Slot(s'.rules, r) == []
    ensures InnerExact(s', inner)
  {
    forall r, n | SynthRefers(s', r, n)
      ensures n in inner
    {
      assert r in s.synth;
      SlotNamesKept(s, s', r);
      assert SynthRefers(s, r, n);
    }
    forall n | n in inner
      ensures InnerFound(s', n)
    {
      assert InnerFound(s, n);
      var r :| SynthRefers(s, r, n);
      assert SameKind(s, s', r);
      SlotNamesKept(s, s', r);
      assert SynthRefers(s', r, n);
    }
  }

  lemma SeenBefore(s: Store, log: seq<Event>, name: Name)
    requires Numbered(s) && Follows(s, log) && '_' !in name
    ensures name in s.ids <==> Sees(name) in Firsts(log)
  {
    var f := Firsts(log);
    if name in s.ids {
      var i := s.ids[name];
      assert GoodSymbol(s, name) && NumberedAs(s, f, i);
      if f[i].Sees? {
        assert Distinct(s, f[i].name, name);
      }
    }
    if Sees(name) in f {
      var i: nat :| i < |f| && f[i] == Sees(name);
      assert NumberedAs(s, f, i);
    }
  }

  /** One more symbol has been numbered. */
  lemma NumberAdded(s: Store, s': Store, f: seq<Event>, e: Event, i: nat, name: Name)
    requires Numbered(s) && |f| == |s.ids| && NumberedAs(s, f, i)
    requires name !in s.ids && s'.ids == s.ids[name := |f|]
    requires s'.synth == if e.Makes? then s.synth + {|f|} else s.synth
    requires e.Sees? ==> e.name == name
    ensures NumberedAs(s', f + [e], i)
  {
    if i < |f| {
      assert (f + [e])[i] == f[i];
    } else if i == |f| {
      assert (f + [e])[i] == e;
    }
  }

  /** A name has been looked up. */
  lemma NameFollows(s: Store, s': Store, log: seq<Event>, name: Name)
    requires Numbered(s) && Follows(s, log) && '_' !in name && s'.synth == s.synth
    requires s'.ids == if name in s.ids then s.ids else s.ids[name := |s.ids|]
    ensures Follows(s', log + [Sees(name)])
  {
    var f := Firsts(log);
    SeenBefore(s, log, name);
    FirstsMore(log, Sees(name));
    forall i: nat
      ensures NumberedAs(s', Firsts(log + [Sees(name)]), i)
    {
      assert NumberedAs(s, f, i);
      if name !in s.ids {
        NumberAdded(s, s', f, Sees(name), i, name);
      }
    }
  }

  lemma NameTracked(s: Store, s': Store, t: Trace, name: Name)
    requires Numbered(s) && Numbered(s') && Grown(s, s') && Tracks(s, t) && '_' !in name
    requires s'.rules == s.rules && s'.synth == s.synth
    requires s'.ids == if name in s.ids then s.ids else s.ids[name := |s.ids|]
    ensures Tracks(s', t.Then(Ref(name)))
  {
    NameFollows(s, s', t.log, name);
    InnerKept(s, s', t.inner);
    assert t.Then(Ref(name)) == Trace(t.log + [Sees(name)], t.inner);
  }

  /** A symbol has been made for a synthesized rule. */
  lemma MakeFollows(s: Store, s': Store, log: seq<Event>, name: Name)
    requires Numbered(s) && Follows(s, log) && name !in s.ids
    requires s'.synth == s.synth + {|s.ids|} && s'.ids == s.ids[name := |s.ids|]
    ensures Follows(s', log + [Makes])
  {
    var f := Firsts(log);
    FirstsMore(log, Makes);
    forall i: nat
      ensures NumberedAs(s', f + [Makes], i)
    {
      assert NumberedAs(s, f, i);
      NumberAdded(s, s', f, Makes, i, name);
    }
  }

  lemma MakeTracked(s: Store, s': Store, t: Trace, name: Name)
    requires Numbered(s) && Numbered(s') && Grown(s, s') && Tracks(s, t) && name !in s.ids
    requires s'.rules == s.rules && s'.synth == s.synth + {|s.ids|} && s'.ids == s.ids[name := |s.ids|]
    ensures Tracks(s', t.ThenMakes())
  {
    MakeFollows(s, s', t.log, name);
    InnerKept(s, s', t.inner);
  }

  /** A rule has been added. */
  lemma RuleTracked(s: Store, s': Store, t: Trace, id: nat, rule: Rule)
    requires Numbered(s) && Tracks(s, t) && id < |s.ids| && rule != [] && s'.ids == s.ids && s'.synth == s.synth
    requires id in s.synth ==> Slot(s.rules, id) == []
    requires |s'.rules| == if |s.rules| <= id then id + 1 else |s.rules|
    requires forall r :: 0 <= r < |s'.rules| ==> s'.rules[r] == if r == id then rule else Slot(s.rules, r)
    ensures Tracks(s', t.Refers(if id in s.synth then NamesIn(s, rule) else {}))
  {
    var inner := t.inner + if id in s.synth then NamesIn(s, rule) else {};
    forall i: nat
      ensures NumberedAs(s', Firsts(t.log), i)
    {
      assert NumberedAs(s, Firsts(t.log), i);
    }
    forall r, n | SynthRefers(s', r, n)
      ensures n in inner
    {
      assert r != id ==> SynthRefers(s, r, n);
    }
    forall n | n in inner
      ensures InnerFound(s', n)
    {
      if n in t.inner {
        assert InnerFound(s, n);
        var r :| SynthRefers(s, r, n);
        assert r != id;
        assert SynthRefers(s', r, n);
      } else {
        assert SynthRefers(s', id, n);
      }
    }
  }

  lemma NothingTracked(s: Store)
    requires s.ids == map[] && s.rules == [] && s.synth == {}
    ensures Tracks(s, TraceOf([]))
  {
    assert forall i: nat :: NumberedAs(s, Firsts([]), i);
  }

  lemma ThenTerminal(t: Trace, e: Expr)
    requires Events(e) == [] && Inner(e) == {}
    ensures t.Then(e) == t
  {
  }

  lemma ThenGroup(t: Trace, body: Expr)
    ensures t.ThenMakes().ThenRule(body, true) == t.Then(Group(body))
  {
  }

  lemma ThenFinished(t: Trace, body: Expr)
    ensures t.Then(body).Refers(Direct(body)) == t.ThenRule(body, true)
    ensures t.Then(body).Refers({}) == t.ThenRule(body, false)
  {
  }

  lemma ThenRepeated(t: Trace, acc: Expr, bounds: Bounds)
    requires Repeated(acc, bounds).Success?
    ensures t.Then(acc).ThenCopies(Optionals(bounds.min, bounds.max), Direct(acc.right)) ==
            t.Then(Repeated(acc, bounds).value)
  {
    var item := acc.right;
    ThenCat(t, acc.left, item);
    ThenRep(t.Then(acc.left), item, bounds.min, bounds.max);
    ThenCat(t, acc.left, Rep(item, bounds.min, bounds.max));
  }

  lemma ThenCopiesMore(t: Trace, n: nat, names: set<Name>)
    ensures t.ThenCopies(n, names).ThenCopies(1, names) == t.ThenCopies(n + 1, names)
  {
    assert MakesTimes(n) + MakesTimes(1) == MakesTimes(n + 1);
  }

  lemma NoCopies(t: Trace, names: set<Name>)
    ensures t.ThenCopies(0, names) == t
  {
  }

  lemma CopyAdded(t: Trace, names: set<Name>)
    ensures t.ThenMakes().Refers(names) == t.ThenCopies(1, names)
  {
    assert MakesTimes(1) == [Makes];
  }

  /** The rule for optional copies refers to the names that the copies refer to. */
  lemma OptionalNames(s: Store, s': Store, previous: seq<Elem>, rule: Rule, id: nat)
    requires Numbered(s) && Numbered(s') && Grown(s, s') && WellFormed(previous, |s.ids|) && id in s'.synth
    requires || rule == previous + [AltMark] + [End]
             || rule == previous + [RuleRef(id)] + [AltMark] + [End]
    ensures NamesIn(s', rule) == NamesIn(s, previous)
  {
    NamesKept(s, s', previous);
    NoNames(s', [AltMark]);
    NoNames(s', [End]);
    NamesOfRef(s', id);
    NamesJoin(s', previous, [AltMark]);
    NamesJoin(s', previous + [AltMark], [End]);
    NamesJoin(s', previous, [RuleRef(id)]);
    NamesJoin(s', previous + [RuleRef(id)], [AltMark]);
    NamesJoin(s', previous + [RuleRef(id)] + [AltMark], [End]);
  }

  lemma BodyNames(s: Store, e: Expr, es: seq<Elem>)
    requires Numbered(s) && Lowered(s, e, es)
    ensures NamesIn(s, es + [End]) == Direct(e)
  {
    DirectNames(s, e, es);
    NoNames(s, [End]);
    NamesJoin(s, es, [End]);
  }

  lemma LastItemNames(s: Store, out: seq<Elem>, last: nat, out': seq<Elem>, acc: Expr, bounds: Bounds)
    requires Numbered(s) && ParseSteps.Continues(s, out, last, out', acc) && Repeated(acc, bounds).Success?
    ensures last <= |out'| && NamesIn(s, out'[last..]) == Direct(acc.right)
  {
    DirectNames(s, acc.right, out'[last..]);
  }
}
