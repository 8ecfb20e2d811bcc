/** The GBNF parser: one pass over the source that fills a symbol table and a flat rule table. */
module GbnfParser {
  import opened Wrappers
  import opened Gbnf
  import opened GrammarTable
  import opened Lowering
  import opened GbnfReader
  import opened GbnfScanner
  import opened GbnfTerminals
  import opened ParseStore
  import opened ParseSteps
  import opened ParseTrace
  import opened UndefinedNames
  import Numerals

  method ParseRuleEnd(src: string, start: nat) returns (r: Result<nat, SyntaxError>)
    ensures r == ReadRuleEnd(src, start)
  {
    var pos := start;
    if At(src, pos) == '\r' {
      pos := pos + if At(src, pos + 1) == '\n' then 2 else 1;
    } else if At(src, pos) == '\n' {
      pos := pos + 1;
    } else if At(src, pos) != NUL {
      return Failure(ExpectingNewline);
    }
    pos := ParseSpace(src, pos, true);
    r := Success(pos);
  }

  class ParseState {
    var symbolIds: map<Name, nat>
    var rules: Table
    /** The numbers of the synthesized symbols. */
    ghost var synth: set<nat>
    /** What has been done to the symbols. */
    ghost var trace: Trace

    ghost function View(): Store
      reads this
    {
      Store(rules, symbolIds, synth)
    }

    ghost predicate Tracked()
      reads this
    {
      Tracks(View(), trace)
    }

    constructor ()
      ensures symbolIds == map[] && rules == [] && synth == {}
      ensures Numbered(View()) && Tracked() && trace == TraceOf([])
    {
      symbolIds, rules, synth, trace := map[], [], {}, TraceOf([]);
      new;
      NothingTracked(View());
    }

    method GetSymbolId(name: Name) returns (id: nat)
      requires Numbered(View()) && Tracked() && '_' !in name
      modifies this`symbolIds, this`trace
      ensures Advanced(old(View()), View(), {name}) && Tracked() && trace == old(trace).Then(Ref(name))
      ensures symbolIds == if name in old(symbolIds) then old(symbolIds) else old(symbolIds)[name := |old(symbolIds)|]
      ensures id == symbolIds[name] && id !in synth
    {
      if name !in symbolIds {
        ghost var s := View();
        symbolIds := symbolIds[name := |symbolIds|];
        SymbolAdded(s, View(), name);
      }
      NameIntroduced(old(View()), View(), name);
      trace := trace.Then(Ref(name));
      NameTracked(old(View()), View(), old(trace), name);
      id := symbolIds[name];
      assert GoodSymbol(View(), name);
    }

    method GenerateSymbolId(base: Name) returns (id: nat)
      requires Numbered(View()) && Tracked() && '_' !in base
      modifies this`symbolIds, this`synth, this`trace
      ensures Numbered(View()) && Pending(old(View()), View())
      ensures symbolIds == old(symbolIds)[base + "_" + Numerals.ToString(|old(symbolIds)|) := |old(symbolIds)|]
      ensures Tracked() && trace == old(trace).ThenMakes()
      ensures id == |old(symbolIds)|
    {
      id := |symbolIds|;
      var name := base + "_" + Numerals.ToString(id);
      ghost var s := View();
      FreshName(s, base);
      symbolIds := symbolIds[name := id];
      synth := synth + {id};
      assert Generated(name, base, id) && name[|base|] == '_';
      SymbolAdded(s, View(), name);
      MakeTracked(s, View(), trace, name);
      trace := trace.ThenMakes();
    }

    method AddRule(id: nat, rule: Rule)
      requires Numbered(View()) && Tracked() && id < |symbolIds| && Tidy(rule, |symbolIds|)
      requires rule != [] && (id in synth ==> Slot(rules, id) == [])
      modifies this`rules, this`trace
      ensures AdvancedBut(old(View()), View(), {}, id)
      ensures Tracked() && trace == old(trace).Refers(if id in synth then NamesIn(old(View()), rule) else {})
      ensures Slot(rules, id) == rule && symbolIds == old(symbolIds)
    {
      ghost var s := View();
      if |rules| <= id {
        rules := rules + seq(id + 1 - |rules|, _ => []);
      }
      rules := rules[id := rule];
      RuleSet(s, View(), id, rule);
      RuleTracked(s, View(), trace, id, rule);
      trace := trace.Refers(if id in synth then NamesIn(s, rule) else {});
    }

    /**
      Replaces the elements of `out` from `last` on by a repetition of them; a negative `maxTimes`
      stands for no bound.
     */
    method HandleRepetitions(ruleName: Name, out: seq<Elem>, last: nat, minTimes: nat, maxTimes: int)
      returns (out': seq<Elem>)
      requires Numbered(View()) && Tracked() && '_' !in ruleName
      requires last < |out| && WellFormed(out, |symbolIds|) && Flat(out[last..]) && Unbroken(out[last..])
      modifies this
      ensures Advanced(old(View()), View(), {})
      ensures last <= |out'| && out'[..last] == out[..last]
      ensures RepeatsWell(View(), out[last..], minTimes, if maxTimes < 0 then None else Some(maxTimes), out'[last..])
      ensures Tracked()
      ensures trace == old(trace).ThenCopies(Optionals(minTimes, if maxTimes < 0 then None else Some(maxTimes)),
                                             NamesIn(old(View()), out[last..]))
    {
      var previous := out[last..];
      ghost var n := |symbolIds|;
      WellFormedSuffix(out, last, n);
      out' := RepeatPrevious(out, last, minTimes);
      var nOpt := if maxTimes < 0 then 1 else maxTimes - minTimes;
      var lastRecRuleId := AddOptionals(ruleName, previous, nOpt, maxTimes < 0);
      ghost var copies := Repeat(previous, minTimes);
      if nOpt > 0 {
        out' := out' + [RuleRef(lastRecRuleId)];
      }
      assert out'[last..] == if nOpt > 0 then copies + [RuleRef(lastRecRuleId)] else copies;
      RepetitionAdded(View(), n, previous, minTimes, if maxTimes < 0 then None else Some(maxTimes), lastRecRuleId,
        out'[last..]);
    }

    /** The rules for the optional copies of a repetition, the last of which is returned. */
    method AddOptionals(ruleName: Name, previous: seq<Elem>, nOpt: int, unbounded: bool) returns (lastRecRuleId: nat)
      requires Numbered(View()) && Tracked() && '_' !in ruleName
      requires previous != [] && Flat(previous) && WellFormed(previous, |symbolIds|)
      requires unbounded ==> nOpt == 1
      modifies this
      ensures Advanced(old(View()), View(), {})
      ensures Tracked() && trace == old(trace).ThenCopies(if nOpt > 0 then nOpt else 0, NamesIn(old(View()), previous))
      ensures nOpt > 0 ==> lastRecRuleId < |symbolIds| && Optional(View(), previous, lastRecRuleId, nOpt, unbounded)
    {
      lastRecRuleId := 0;
      var i := 0;
      AdvancedNot(View());
      ghost var names := NamesIn(View(), previous);
      NoCopies(trace, names);
      while i < nOpt
        invariant 0 <= i <= if nOpt > 0 then nOpt else 0
        invariant Advanced(old(View()), View(), {})
        invariant Tracked() && trace == old(trace).ThenCopies(i, names) && NamesIn(View(), previous) == names
        invariant i > 0 ==> lastRecRuleId < |symbolIds| && Optional(View(), previous, lastRecRuleId, i, unbounded)
      {
        ghost var s := View();
        WellFormedGrows(previous, |old(symbolIds)|, |symbolIds|);
        lastRecRuleId := AddOptional(ruleName, previous, i, unbounded, lastRecRuleId);
        AdvancedTwice(old(View()), s, View(), {}, {}, {});
        NamesKept(old(View()), View(), previous);
        ThenCopiesMore(old(trace), i, names);
        i := i + 1;
      }
    }

    /** One of these rules: `previous` and what may follow it, or nothing. */
    method AddOptional(ruleName: Name, previous: seq<Elem>, i: nat, unbounded: bool, lastRecRuleId: nat)
      returns (recRuleId: nat)
      requires Numbered(View()) && Tracked() && '_' !in ruleName
      requires previous != [] && Flat(previous) && WellFormed(previous, |symbolIds|)
      requires unbounded ==> i == 0
      requires i > 0 ==> lastRecRuleId < |symbolIds| && Optional(View(), previous, lastRecRuleId, i, false)
      modifies this
      ensures Advanced(old(View()), View(), {})
      ensures recRuleId < |symbolIds| && Optional(View(), previous, recRuleId, i + 1, unbounded)
      ensures Tracked() && trace == old(trace).ThenCopies(1, NamesIn(old(View()), previous))
    {
      ghost var s := View();
      var recRule := previous;
      recRuleId := GenerateSymbolId(ruleName);
      ghost var s' := View();
      if i > 0 || unbounded {
        recRule := recRule + [RuleRef(if unbounded then recRuleId else lastRecRuleId)];
      }
      recRule := recRule + [AltMark];
      recRule := recRule + [End];
      OptionalTidy(previous, recRule, |s.ids|, |s'.ids|);
      OptionalNames(s, s', previous, recRule, if i > 0 then lastRecRuleId else recRuleId);
      CopyAdded(trace, NamesIn(s, previous));
      AddRule(recRuleId, recRule);
      PendingFilled(s, s', View(), {});
      OptionalAdded(s, View(), previous, i, unbounded, lastRecRuleId, recRule);
    }

    method ParseItem(src: string, start: nat, ruleName: Name, out: seq<Elem>, nested: bool)
      returns (r: Result<nat, SyntaxError>, out': seq<Elem>)
      requires Numbered(View()) && Tracked() && '_' !in ruleName && StartsItem(At(src, start))
      modifies this
      ensures match ReadItem(src, start, nested)
        case Failure(e) => r == Failure(e)
        case Success(read) =>
          && r == Success(read.1)
          && Advanced(old(View()), View(), Names(read.0))
          && ItemAppended(View(), out, out', read.0)
          && Tracked()
          && trace == old(trace).Then(read.0)
      decreases |src| - start, 0
    {
      if At(src, start) == '(' {
        r, out' := ParseGroup(src, start, ruleName, out, nested);
      } else if IsWordChar(At(src, start)) {
        r, out' := ParseReference(src, start, out, nested);
      } else {
        r, out' := ParseTerminal(src, start, out, nested);
        ghost var read := ReadItem(src, start, nested);
        if read.Success? {
          TerminalAppended(View(), out, read.value.0);
          ThenTerminal(trace, read.value.0);
          AdvancedNot(View());
        }
      }
    }

    method ParseReference(src: string, start: nat, out: seq<Elem>, nested: bool)
      returns (r: Result<nat, SyntaxError>, out': seq<Elem>)
      requires Numbered(View()) && Tracked() && IsWordChar(At(src, start))
      modifies this`symbolIds, this`trace
      ensures var end := NameEnd(src, start);
        && r == Success(SpaceEnd(src, end, nested))
        && Advanced(old(View()), View(), {src[start..end]})
        && ItemAppended(View(), out, out', Ref(src[start..end]))
        && Tracked()
        && trace == old(trace).Then(Ref(src[start..end]))
    {
      r := ParseName(src, start);
      var name := src[start..r.value];
      var refRuleId := GetSymbolId(name);
      var pos := ParseSpace(src, r.value, nested);
      out' := out + [RuleRef(refRuleId)];
      assert GoodSymbol(View(), name);
      assert out'[|out|..] == [RuleRef(refRuleId)];
      r := Success(pos);
    }

    /** A group, whose body becomes a synthesized rule. */
    method ParseGroup(src: string, start: nat, ruleName: Name, out: seq<Elem>, nested: bool)
      returns (r: Result<nat, SyntaxError>, out': seq<Elem>)
      requires Numbered(View()) && Tracked() && '_' !in ruleName && At(src, start) == '('
      modifies this
      ensures match ReadItem(src, start, nested)
        case Failure(e) => r == Failure(e)
        case Success(read) =>
          && r == Success(read.1)
          && Advanced(old(View()), View(), Names(read.0))
          && ItemAppended(View(), out, out', read.0)
          && Tracked()
          && trace == old(trace).Then(read.0)
      decreases |src| - start, 0, 0
    {
      var pos := ParseSpace(src, start + 1, true);
      var subRuleId;
      r, subRuleId := ParseGroupBody(src, pos, ruleName);
      out' := out + [RuleRef(subRuleId)];
      if r.Failure? {
        return;
      }
      GroupAppended(View(), out, out', subRuleId, ReadAlternates(src, pos, true).value.0);
      r := ParseClose(src, r.value, nested);
    }

    /** The body of a group, as a synthesized rule. */
    method ParseGroupBody(src: string, start: nat, ruleName: Name) returns (r: Result<nat, SyntaxError>, subRuleId: nat)
      requires Numbered(View()) && Tracked() && '_' !in ruleName
      modifies this
      ensures match ReadAlternates(src, start, true)
        case Failure(e) => r == Failure(e)
        case Success(read) =>
          && r == Success(read.1)
          && Advanced(old(View()), View(), Names(read.0))
          && subRuleId in synth
          && subRuleId < |symbolIds|
          && Holds(View(), subRuleId, read.0)
          && Tracked()
          && trace == old(trace).Then(Group(read.0))
      decreases |src| - start, 6
    {
      ghost var s := View();
      subRuleId := GenerateSymbolId(ruleName);
      ghost var s' := View();
      r := ParseAlternates(src, start, ruleName, subRuleId, true);
      if r.Success? {
        PendingFilled(s, s', View(), Names(ReadAlternates(src, start, true).value.0));
        ThenGroup(old(trace), ReadAlternates(src, start, true).value.0);
      }
    }

    method ParseSequence(src: string, start: nat, ruleName: Name, out: seq<Elem>, nested: bool)
      returns (r: Result<nat, SyntaxError>, out': seq<Elem>)
      requires Numbered(View()) && Tracked() && '_' !in ruleName && WellFormed(out, |symbolIds|)
      modifies this
      ensures match ReadSequence(src, start, nested, Empty)
        case Failure(e) => r == Failure(e)
        case Success(read) =>
          && r == Success(read.1)
          && Advanced(old(View()), View(), Names(read.0))
          && Appended(View(), out, out', read.0)
          && WellFormed(out', |symbolIds|)
          && Tracked()
          && trace == old(trace).Then(read.0)
      decreases |src| - start, 2
    {
      var pos: nat, last: nat := start, |out|;
      out' := out;
      ghost var s0, t0, acc := View(), trace, Empty;
      AdvancedNot(s0);
      ThenTerminal(t0, Empty);
      while StartsItem(At(src, pos)) || IsMark(At(src, pos))
        invariant start <= pos
        invariant ReadSequence(src, start, nested, Empty) == ReadSequence(src, pos, nested, acc)
        invariant Advanced(s0, View(), Names(acc)) && Continues(View(), out, last, out', acc)
        invariant Tracked() && trace == t0.Then(acc)
        decreases |src| - pos
      {
        if StartsItem(At(src, pos)) {
          var symStart := |out'|;
          r, out' := ParseNextItem(src, pos, ruleName, out', last, nested, s0, t0, out, acc);
          if r.Failure? {
            return;
          }
          last := symStart;
          acc := Cat(acc, ReadItem(src, pos, nested).value.0);
        } else {
          r, out' := ParseRepetition(src, pos, ruleName, out', last, nested, s0, t0, out, acc);
          if r.Failure? {
            return;
          }
          acc := Repeated(acc, ReadMark(src, pos, nested).value.0).value;
        }
        pos := r.value;
      }
      SequenceDone(View(), |out|, last, out', acc);
      r := Success(pos);
    }

    /** An item after those of `acc`, in a sequence after `out` whose parsing began in `s0`. */
    method ParseNextItem(src: string, start: nat, ruleName: Name, elems: seq<Elem>, ghost last: nat, nested: bool,
                         ghost s0: Store, ghost t0: Trace, ghost out: seq<Elem>, ghost acc: Expr)
      returns (r: Result<nat, SyntaxError>, out': seq<Elem>)
      requires '_' !in ruleName && StartsItem(At(src, start))
      requires Advanced(s0, View(), Names(acc)) && Continues(View(), out, last, elems, acc)
      requires Tracked() && trace == t0.Then(acc)
      modifies this
      ensures match ReadItem(src, start, nested)
        case Failure(e) => r == Failure(e)
        case Success(read) =>
          && r == Success(read.1)
          && Advanced(s0, View(), Names(Cat(acc, read.0)))
          && Continues(View(), out, |elems|, out', Cat(acc, read.0))
          && Tracked()
          && trace == t0.Then(Cat(acc, read.0))
      decreases |src| - start, 1
    {
      ghost var s := View();
      r, out' := ParseItem(src, start, ruleName, elems, nested);
      if r.Success? {
        ghost var item := ReadItem(src, start, nested).value.0;
        SequenceExtended(s0, s, View(), out, last, elems, out', acc, item);
        ThenCat(t0, acc, item);
      }
    }

    /** A repetition mark, applied to the last item of such a sequence. */
    method ParseRepetition(src: string, start: nat, ruleName: Name, elems: seq<Elem>, last: nat, nested: bool,
                           ghost s0: Store, ghost t0: Trace, ghost out: seq<Elem>, ghost acc: Expr)
      returns (r: Result<nat, SyntaxError>, out': seq<Elem>)
      requires '_' !in ruleName && IsMark(At(src, start))
      requires Advanced(s0, View(), Names(acc)) && Continues(View(), out, last, elems, acc)
      requires Tracked() && trace == t0.Then(acc)
      modifies this
      ensures match ReadMark(src, start, nested)
        case Failure(e) => r == Failure(e)
        case Success(read) =>
          if Repeated(acc, read.0).Failure? then r == Failure(ExpectingItem)
          else
            && r == Success(read.1)
            && Advanced(s0, View(), Names(Repeated(acc, read.0).value))
            && Continues(View(), out, last, out', Repeated(acc, read.0).value)
            && Tracked()
            && trace == t0.Then(Repeated(acc, read.0).value)
    {
      ghost var s, read := View(), ReadMark(src, start, nested);
      out' := elems;
      var bounds := ParseMark(src, start, nested);
      if bounds.Failure? {
        return Failure(bounds.error), out';
      }
      SequenceTail(s, out, last, elems, acc, read.value.0);
      if last == |elems| {
        return Failure(ExpectingItem), out';
      }
      out' := HandleRepetitions(ruleName, elems, last, bounds.value.0, bounds.value.1);
      SequenceRepeated(s0, s, View(), out, last, elems, out', acc, read.value.0);
      LastItemNames(s, out, last, elems, acc, read.value.0);
      ThenRepeated(t0, acc, read.value.0);
      r := Success(bounds.value.2);
    }

    method ParseAlternates(src: string, start: nat, ruleName: Name, ruleId: nat, nested: bool)
      returns (r: Result<nat, SyntaxError>)
      requires Numbered(View()) && Tracked() && '_' !in ruleName && ruleId < |symbolIds|
      requires ruleId in synth ==> Slot(rules, ruleId) == []
      modifies this
      ensures match ReadAlternates(src, start, nested)
        case Failure(e) => r == Failure(e)
        case Success(read) =>
          && r == Success(read.1)
          && AdvancedBut(old(View()), View(), Names(read.0), ruleId)
          && Holds(View(), ruleId, read.0)
          && Tracked()
          && trace == old(trace).ThenRule(read.0, ruleId in old(synth))
      decreases |src| - start, 5
    {
      ghost var s0, t0 := View(), trace;
      var rule;
      r, rule := ParseSequence(src, start, ruleName, [], nested);
      if r.Success? {
        assert rule[0..] == rule;
        ghost var first := ReadSequence(src, start, nested, Empty).value;
        r, rule := ParseOthers(src, r.value, ruleName, rule, nested, s0, t0, first.0);
        if r.Success? {
          FinishRule(ruleId, rule, s0, t0, ReadOthers(src, first.1, nested, first.0).value.0);
        }
      }
    }

    /** Closes and stores a rule whose parsing began in `s0`. */
    method FinishRule(ruleId: nat, elems: seq<Elem>, ghost s0: Store, ghost t0: Trace, ghost body: Expr)
      requires Tracked() && trace == t0.Then(body)
      requires Numbered(s0) && Advanced(s0, View(), Names(body))
      requires ruleId < |s0.ids| && (ruleId in s0.synth ==> Slot(s0.rules, ruleId) == [])
      requires WellFormed(elems, |symbolIds|) && Lowered(View(), body, elems)
      modifies this`rules, this`trace
      ensures AdvancedBut(s0, View(), Names(body), ruleId) && Holds(View(), ruleId, body)
      ensures Tracked() && trace == t0.ThenRule(body, ruleId in s0.synth)
    {
      ghost var s := View();
      BodyTidy(s, body, elems);
      BodyNames(s, body, elems);
      assert SameKind(s0, s, ruleId) && SameSlot(s0, s, ruleId);
      ThenFinished(t0, body);
      AddRule(ruleId, elems + [End]);
      AdvancedThenBut(s0, s, View(), Names(body), ruleId);
      RuleAdded(s0, s, View(), ruleId, body, elems + [End]);
    }

    /** The alternatives that follow the first, in a body whose parsing began in `s0`. */
    method ParseOthers(src: string, start: nat, ruleName: Name, elems: seq<Elem>, nested: bool, ghost s0: Store,
                       ghost t0: Trace, ghost first: Expr)
      returns (r: Result<nat, SyntaxError>, rule: seq<Elem>)
      requires Tracked() && trace == t0.Then(first)
      requires Advanced(s0, View(), Names(first)) && '_' !in ruleName
      requires WellFormed(elems, |symbolIds|) && Lowered(View(), first, elems)
      modifies this
      ensures match ReadOthers(src, start, nested, first)
        case Failure(e) => r == Failure(e)
        case Success(read) =>
          && r == Success(read.1)
          && Advanced(s0, View(), Names(read.0))
          && WellFormed(rule, |symbolIds|) && Lowered(View(), read.0, rule)
          && Tracked()
          && trace == t0.Then(read.0)
      decreases |src| - start, 4
    {
      var pos: nat := start;
      rule := elems;
      ghost var acc := first;
      while At(src, pos) == '|'
        invariant start <= pos
        invariant ReadOthers(src, start, nested, first) == ReadOthers(src, pos, nested, acc)
        invariant Advanced(s0, View(), Names(acc))
        invariant WellFormed(rule, |symbolIds|) && Lowered(View(), acc, rule)
        invariant Tracked() && trace == t0.Then(acc)
        decreases |src| - pos
      {
        r, rule, acc := ParseNextAlternative(src, pos, ruleName, rule, nested, s0, t0, acc);
        if r.Failure? {
          return;
        }
        pos := r.value;
      }
      r := Success(pos);
    }

    /** A bar and one more alternative. */
    method ParseNextAlternative(src: string, start: nat, ruleName: Name, elems: seq<Elem>, nested: bool,
                                ghost s0: Store, ghost t0: Trace, ghost acc: Expr)
      returns (r: Result<nat, SyntaxError>, rule: seq<Elem>, ghost acc': Expr)
      requires Tracked() && trace == t0.Then(acc)
      requires Advanced(s0, View(), Names(acc)) && '_' !in ruleName && At(src, start) == '|'
      requires WellFormed(elems, |symbolIds|) && Lowered(View(), acc, elems)
      modifies this
      ensures match r
        case Failure(e) => ReadOthers(src, start, nested, acc) == Failure(e)
        case Success(pos) =>
          && start < pos
          && (start <= |src| ==> pos <= |src|)
          && ReadOthers(src, start, nested, acc) == ReadOthers(src, pos, nested, acc')
          && Advanced(s0, View(), Names(acc'))
          && WellFormed(rule, |symbolIds|) && Lowered(View(), acc', rule)
          && Tracked()
          && trace == t0.Then(acc')
      decreases |src| - start, 3
    {
      var pos := ParseSpace(src, start + 1, true);
      r, rule := ParseAnother(src, pos, ruleName, elems, nested, s0, t0, acc);
      acc' := acc;
      if r.Success? {
        acc' := Alt(acc, ReadSequence(src, pos, nested, Empty).value.0);
      }
    }

    /** One more alternative. */
    method ParseAnother(src: string, start: nat, ruleName: Name, elems: seq<Elem>, nested: bool, ghost s0: Store,
                        ghost t0: Trace, ghost acc: Expr)
      returns (r: Result<nat, SyntaxError>, rule: seq<Elem>)
      requires Tracked() && trace == t0.Then(acc)
      requires Advanced(s0, View(), Names(acc)) && '_' !in ruleName
      requires WellFormed(elems, |symbolIds|) && Lowered(View(), acc, elems)
      modifies this
      ensures match ReadSequence(src, start, nested, Empty)
        case Failure(e) => r == Failure(e)
        case Success(read) =>
          && r == Success(read.1)
          && Advanced(s0, View(), Names(Alt(acc, read.0)))
          && WellFormed(rule, |symbolIds|) && Lowered(View(), Alt(acc, read.0), rule)
          && Tracked()
          && trace == t0.Then(Alt(acc, read.0))
      decreases |src| - start, 3
    {
      ghost var s := View();
      BarAdded(elems, |symbolIds|);
      r, rule := ParseSequence(src, start, ruleName, elems + [AltMark], nested);
      if r.Success? {
        ghost var next := ReadSequence(src, start, nested, Empty).value.0;
        AlternativeAdded(s0, s, View(), elems, rule, acc, next);
        ThenCat(t0, acc, next);
      }
    }

    /** One definition, up to the next. */
    method ParseRule(src: string, start: nat, ghost defs: seq<Definition>) returns (r: Result<nat, SyntaxError>)
      requires Represents(View(), defs) && Tracked() && trace == TraceOf(defs)
      modifies this
      ensures match ReadRule(src, start)
        case Failure(e) => r == Failure(e)
        case Success(read) =>
          && r == Success(read.1)
          && Represents(View(), defs + [read.0])
          && Tracked()
          && trace == TraceOf(defs + [read.0])
    {
      var nameEnd :- ParseName(src, start);
      var pos :- ParseSign(src, nameEnd);
      pos :- ParseDefinition(src, pos, src[start..nameEnd], defs);
      r := ParseRuleEnd(src, pos);
    }

    /** The body of a definition. */
    method ParseDefinition(src: string, start: nat, name: Name, ghost defs: seq<Definition>)
      returns (r: Result<nat, SyntaxError>)
      requires Represents(View(), defs) && Tracked() && trace == TraceOf(defs) && '_' !in name
      modifies this
      ensures match ReadAlternates(src, start, false)
        case Failure(e) => r == Failure(e)
        case Success(read) =>
          && r == Success(read.1)
          && Represents(View(), defs + [Definition(name, read.0)])
          && Tracked()
          && trace == TraceOf(defs + [Definition(name, read.0)])
    {
      ghost var s := View();
      var ruleId := GetSymbolId(name);
      ghost var s1 := View();
      assert GoodSymbol(s1, name);
      r := ParseAlternates(src, start, name, ruleId, false);
      if r.Success? {
        TraceMore(defs, Definition(name, ReadAlternates(src, start, false).value.0));
        RuleParsed(s, s1, View(), defs, Definition(name, ReadAlternates(src, start, false).value.0), ruleId);
      }
    }

    method ParseRules(src: string) returns (r: Result<(), SyntaxError>)
      requires Represents(View(), []) && Tracked() && trace == TraceOf([])
      modifies this
      ensures match ReadDefinitions(src)
        case Failure(e) => r == Failure(e)
        case Success(defs) => r.Success? && Represents(View(), defs) && Tracked() && trace == TraceOf(defs)
    {
      var pos := ParseSpace(src, 0, true);
      ghost var defs: seq<Definition> := [];
      while At(src, pos) != NUL
        invariant ReadDefinitions(src) == ReadRules(src, pos, defs)
        invariant Represents(View(), defs) && Tracked() && trace == TraceOf(defs)
        decreases |src| - pos
      {
        ghost var read := ReadRule(src, pos);
        pos :- ParseRule(src, pos, defs);
        defs := defs + [read.value.0];
      }
      r := Success(());
    }

    /** Whether every rule is defined that exists or is referred to. */
    method Validate() returns (ok: bool)
      requires Numbered(View())
      ensures ok <==> AllDefined(rules)
    {
      for i := 0 to |rules|
        invariant forall r :: 0 <= r < i ==> rules[r] != [] && RefsDefined(rules, rules[r])
      {
        var rule := rules[i];
        if rule == [] {
          return false;
        }
        for j := 0 to |rule|
          invariant forall k :: 0 <= k < j ==> RefDefined(rules, rule[k])
        {
          if rule[j].RuleRef? && (rule[j].id >= |rules| || rules[rule[j].id] == []) {
            assert !RefDefined(rules, rule[j]);
            var named := exists name :: name in symbolIds && symbolIds[name] == rule[j].id;
            assert named by {
              assert GoodRule(View(), i) && WellPlaced(rule, j, |symbolIds|) && IsNumber(View(), rule[j].id);
            }
            if named {
              return false;
            }
          }
        }
      }
      ok := true;
    }
  }

  /** A store in which the definitions are all represented and nothing is left undefined. */
  ghost predicate Accepted(s: Store, defs: seq<Definition>) {
    var g := LastDefinitions(defs);
    && Numbered(s)
    && AllDefined(s.rules)
    && (forall name :: name in g ==> name in s.ids)
    && (forall name, w :: name in g ==> (InTable(s.rules, s.ids[name], w) <==> InLanguage(CompiledGrammar(g), name, w)))
  }

  ghost predicate Blank(s: Store) {
    s.ids == map[] && s.rules == []
  }

  /**
    Parses a GBNF source. The result denotes, name by name, what the last definition of each name
    describes; it is blank exactly if there is an error, or an undefined name that is noticed.
   */
  method Parse(src: string) returns (state: ParseState)
    ensures fresh(state)
    ensures match ReadDefinitions(src)
      case Failure(_) => Blank(state.View())
      case Success(defs) => if Acceptable(defs) then Accepted(state.View(), defs) else Blank(state.View())
  {
    state := new ParseState();
    var r := state.ParseRules(src);
    if r.Success? {
      var ok := state.Validate();
      ghost var defs := ReadDefinitions(src).value;
      DefinedExactly(state.View(), defs);
      if ok {
        DefinitionsAccepted(state.View(), defs);
        return;
      }
    }
    state := new ParseState();
  }

  lemma DefinitionsAccepted(s: Store, defs: seq<Definition>)
    requires Represents(s, defs) && AllDefined(s.rules)
    ensures Accepted(s, defs)
  {
    var g := LastDefinitions(defs);
    Implemented(s, defs);
    forall name, w | name in g
      ensures InTable(s.rules, s.ids[name], w) <==> InLanguage(CompiledGrammar(g), name, w)
    {
      SameLanguages(s, g, name, w);
    }
  }
}
