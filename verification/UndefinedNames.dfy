/** Which sources are accepted: where a name that is not defined is noticed, and where it is not. */
module UndefinedNames {
  import opened Wrappers
  import opened Gbnf
  import opened GrammarTable
  import opened Lowering
  import opened GbnfReader
  import opened ParseStore
  import opened ParseSteps
  import opened ParseTrace

  /** Whether a symbol has a rule in the end: it is synthesized, or its name is defined. */
  predicate HasRule(g: Grammar, e: Event) {
    e.Makes? || e.name in g
  }

  /** Every name is defined that a synthesized rule or the last definition of a name refers to. */
  predicate NoneMissing(defs: seq<Definition>) {
    var g := LastDefinitions(defs);
    TraceOf(defs).inner <= g.Keys && forall n :: n in g ==> Direct(g[n]) <= g.Keys
  }

  /** No symbol that has a rule is numbered after one that has none. */
  predicate NoneSkipped(defs: seq<Definition>) {
    var f := Firsts(TraceOf(defs).log);
    forall i, j :: 0 <= i < j < |f| && HasRule(LastDefinitions(defs), f[j]) ==> HasRule(LastDefinitions(defs), f[i])
  }

  predicate Acceptable(defs: seq<Definition>) {
    NoneMissing(defs) && NoneSkipped(defs)
  }

  ghost predicate Parsed(s: Store, defs: seq<Definition>) {
    Represents(s, defs) && Tracks(s, TraceOf(defs))
  }

  lemma NameDefined(s: Store, defs: seq<Definition>, n: Name)
    requires Parsed(s, defs) && n in s.ids && s.ids[n] !in s.synth
    ensures Slot(s.rules, s.ids[n]) != [] <==> n in LastDefinitions(defs)
  {
    assert GoodSymbol(s, n) && DefinitionHeld(s, defs, n) && NameExplained(s, defs, n);
  }

  lemma RuleThere(s: Store, defs: seq<Definition>, i: nat)
    requires Parsed(s, defs) && i < |s.ids|
    ensures var f := Firsts(TraceOf(defs).log);
            |f| == |s.ids| && (Slot(s.rules, i) != [] <==> HasRule(LastDefinitions(defs), f[i]))
  {
    var f := Firsts(TraceOf(defs).log);
    assert NumberedAs(s, f, i);
    if f[i].Sees? {
      NameDefined(s, defs, f[i].name);
    }
  }

  /** What the rule of a defined name refers to. */
  lemma DefinitionNames(s: Store, defs: seq<Definition>, n: Name)
    requires Parsed(s, defs) && n in LastDefinitions(defs)
    ensures n in s.ids && Slot(s.rules, s.ids[n]) != [] && s.ids[n] !in s.synth
    ensures NamesIn(s, Slot(s.rules, s.ids[n])) == Direct(LastDefinitions(defs)[n])
  {
    assert DefinitionHeld(s, defs, n);
    var rule := Slot(s.rules, s.ids[n]);
    BodyNames(s, LastDefinitions(defs)[n], Body(rule));
    assert rule == Body(rule) + [End];
  }

  lemma ReferredDefined(s: Store, defs: seq<Definition>, r: nat, n: Name)
    requires Parsed(s, defs) && AllDefined(s.rules) && n in NamesIn(s, Slot(s.rules, r))
    ensures n in LastDefinitions(defs)
  {
    var i :| 0 <= i < |Slot(s.rules, r)| && Slot(s.rules, r)[i] == RuleRef(s.ids[n]);
    assert RefDefined(s.rules, s.rules[r][i]);
    NameDefined(s, defs, n);
  }

  lemma DefinedAcceptable(s: Store, defs: seq<Definition>)
    requires Parsed(s, defs) && AllDefined(s.rules)
    ensures Acceptable(defs)
  {
    var g, f := LastDefinitions(defs), Firsts(TraceOf(defs).log);
    forall n | n in TraceOf(defs).inner
      ensures n in g
    {
      assert InnerFound(s, n);
      var r :| SynthRefers(s, r, n);
      ReferredDefined(s, defs, r, n);
    }
    forall m, n | m in g && n in Direct(g[m])
      ensures n in g
    {
      DefinitionNames(s, defs, m);
      ReferredDefined(s, defs, s.ids[m], n);
    }
    forall i, j | 0 <= i < j < |f| && HasRule(g, f[j])
      ensures HasRule(g, f[i])
    {
      RuleThere(s, defs, i);
      RuleThere(s, defs, j);
    }
  }

  lemma NamesDefined(s: Store, defs: seq<Definition>, r: nat)
    requires Parsed(s, defs) && NoneMissing(defs) && r < |s.ids|
    ensures NamesIn(s, Slot(s.rules, r)) <= LastDefinitions(defs).Keys
  {
    if Slot(s.rules, r) == [] {
      NoNames(s, []);
    } else if r in s.synth {
      forall n | n in NamesIn(s, Slot(s.rules, r))
        ensures n in LastDefinitions(defs)
      {
        assert SynthRefers(s, r, n);
      }
    } else {
      assert IsNumber(s, r);
      var m :| m in s.ids && s.ids[m] == r;
      NameDefined(s, defs, m);
      DefinitionNames(s, defs, m);
    }
  }

  lemma ReferencesDefined(s: Store, defs: seq<Definition>, r: nat)
    requires Parsed(s, defs) && NoneMissing(defs) && r < |s.rules| && s.rules[r] != []
    ensures RefsDefined(s.rules, s.rules[r])
  {
    NamesDefined(s, defs, r);
    assert GoodRule(s, r);
    forall i | 0 <= i < |s.rules[r]|
      ensures RefDefined(s.rules, s.rules[r][i])
    {
      var e := s.rules[r][i];
      assert WellPlaced(s.rules[r], i, |s.ids|);
      if e.RuleRef? && e.id !in s.synth {
        assert IsNumber(s, e.id);
        var n :| n in s.ids && s.ids[n] == e.id;
        assert n in NamesIn(s, Slot(s.rules, r));
        NameDefined(s, defs, n);
      }
    }
  }

  /** The table leaves nothing undefined exactly if the definitions are acceptable. */
  lemma DefinedExactly(s: Store, defs: seq<Definition>)
    requires Parsed(s, defs)
    ensures AllDefined(s.rules) <==> Acceptable(defs)
  {
    if AllDefined(s.rules) {
      DefinedAcceptable(s, defs);
    }
    if Acceptable(defs) {
      forall r | 0 <= r < |s.rules|
        ensures s.rules[r] != [] && RefsDefined(s.rules, s.rules[r])
      {
        RuleThere(s, defs, r);
        RuleThere(s, defs, |s.rules| - 1);
        ReferencesDefined(s, defs, r);
      }
    }
  }

  // ---------------------------------------------------------------------------------------------
  // Closed grammars

  lemma {:induction false} AmongNames(e: Expr)
    ensures Direct(e) <= Names(e) && Inner(e) <= Names(e)
    ensures forall n :: Sees(n) in Events(e) ==> n in Names(e)
    decreases e
  {
    match e
    case Group(body) => AmongNames(body);
    case Cat(left, right) =>
      AmongNames(left);
      AmongNames(right);
    case Alt(left, right) =>
      AmongNames(left);
      AmongNames(right);
    case Rep(item, min, max) =>
      AmongNames(item);
    case _ =>
  }

  lemma {:induction false} AmongReferred(defs: seq<Definition>)
    ensures TraceOf(defs).inner <= ReferredNames(defs)
    ensures forall n :: Sees(n) in TraceOf(defs).log ==> n in ReferredNames(defs) || n in LastDefinitions(defs)
    ensures forall n :: n in LastDefinitions(defs) ==> Names(LastDefinitions(defs)[n]) <= ReferredNames(defs)
    decreases |defs|
  {
    if defs != [] {
      var n := |defs| - 1;
      AmongReferred(defs[..n]);
      AmongNames(defs[n].body);
      assert defs == defs[..n] + [defs[n]];
      MoreDefinitions(defs[..n], defs[n]);
    }
  }

  lemma {:induction false} FirstsAmong(log: seq<Event>)
    ensures forall e :: e in Firsts(log) ==> e in log
    decreases |log|
  {
    if log != [] {
      FirstsAmong(log[..|log| - 1]);
    }
  }

  /** A grammar in which every name is defined is accepted. */
  lemma ClosedAcceptable(defs: seq<Definition>)
    requires Closed(defs)
    ensures Acceptable(defs)
  {
    var g := LastDefinitions(defs);
    AmongReferred(defs);
    FirstsAmong(TraceOf(defs).log);
    forall n | n in g
      ensures Direct(g[n]) <= g.Keys
    {
      AmongNames(g[n]);
    }
  }

  // ---------------------------------------------------------------------------------------------
  // A name that is not noticed, and where it is

  /** The definition of `name` as `n` repeated zero times, and then `rest`. */
  function Unused(name: Name, n: Name, rest: Expr): seq<Definition> {
    [Definition(name, Cat(Rep(Ref(n), 0, Some(0)), rest))]
  }

  lemma UnusedTrace(name: Name, n: Name, rest: Expr)
    requires n != name
    ensures var defs := Unused(name, n, rest);
            && TraceOf(defs).log == [Sees(name), Sees(n)] + Events(rest)
            && TraceOf(defs).inner == Inner(rest)
            && LastDefinitions(defs) == map[name := defs[0].body]
            && n in ReferredNames(defs)
  {
    var defs, item := Unused(name, n, rest), Rep(Ref(n), 0, Some(0));
    assert MakesTimes(0) == [];
    assert Events(item) == [Sees(n)] && Inner(item) == {} && Names(item) == {n};
    assert Events(defs[0].body) == [Sees(n)] + Events(rest);
    TraceMore([], defs[0]);
    MoreDefinitions([], defs[0]);
    assert defs == [] + [defs[0]];
  }

  /** An undefined name that is repeated zero times goes unnoticed, unless a symbol with a rule comes after it. */
  lemma UnusedName(name: Name, n: Name, text: Text)
    requires n != name
    ensures Acceptable(Unused(name, n, Lit(text))) && !Closed(Unused(name, n, Lit(text)))
    ensures !Acceptable(Unused(name, n, Group(Lit(text))))
  {
    UnusedTrace(name, n, Lit(text));
    UnusedTrace(name, n, Group(Lit(text)));
    UnusedFirsts(name, n);
    UnusedNoticed(name, n, text);
  }

  lemma UnusedFirsts(name: Name, n: Name)
    requires n != name
    ensures Firsts([Sees(name), Sees(n)] + []) == [Sees(name), Sees(n)]
    ensures Firsts([Sees(name), Sees(n)] + [Makes]) == [Sees(name), Sees(n), Makes]
  {
    FirstsMore([], Sees(name));
    FirstsMore([Sees(name)], Sees(n));
    FirstsMore([Sees(name), Sees(n)], Makes);
    assert [] + [Sees(name)] == [Sees(name)] && [Sees(name)] + [Sees(n)] == [Sees(name), Sees(n)];
    assert [Sees(name), Sees(n)] + [] == [Sees(name), Sees(n)];
  }

  lemma UnusedNoticed(name: Name, n: Name, text: Text)
    requires n != name
    ensures !NoneSkipped(Unused(name, n, Group(Lit(text))))
  {
    var defs := Unused(name, n, Group(Lit(text)));
    UnusedTrace(name, n, Group(Lit(text)));
    UnusedFirsts(name, n);
    assert Events(Group(Lit(text))) == [Makes] + [] == [Makes];
    var f := Firsts(TraceOf(defs).log);
    assert f[2] == Makes && f[1] == Sees(n);
    assert HasRule(LastDefinitions(defs), f[2]) && !HasRule(LastDefinitions(defs), f[1]);
  }
}
