/** The printer of parsed grammars, as the consumer that insists on well-formed rules. */
module GbnfPrinter {
  import opened Wrappers
  import opened Gbnf
  import opened GrammarTable
  import opened Lowering
  import opened ParseStore
  import opened ParseSteps
  import opened GbnfParser

  datatype PrintError = NoEnd(id: nat) | EarlyEnd(id: nat, at: nat) | NoChar(id: nat, at: nat) | UnknownSymbol(id: nat)

  /** What the printer writes, without the encoding of characters. */
  datatype Token = Text(text: string) | Symbol(name: Name) | Character(c: Code)

  /** The rule prints: its closing mark is last and only there, and what it refers to has a name. */
  predicate Printable(id: nat, rule: Rule, names: map<nat, Name>) {
    IsRule(rule) && id in names && forall i :: 0 <= i < |rule| ==> ElemPrintable(rule, i, names)
  }

  predicate ElemPrintable(rule: Rule, i: nat, names: map<nat, Name>)
    requires i < |rule|
  {
    && (rule[i].RuleRef? ==> rule[i].id in names)
    && (ExtendsClass(rule[i]) ==> i > 0 && IsCharElement(rule[i - 1]))
  }

  /** What is written for an element; the last one of a set, or of any characters after it, closes a bracket. */
  function ElemText(rule: Rule, i: nat, names: map<nat, Name>): (ts: seq<Token>)
    requires i + 1 < |rule| && (rule[i].RuleRef? ==> rule[i].id in names)
    ensures rule[i].RuleRef? ==> ts == [Symbol(names[rule[i].id]), Text(" ")]
    ensures rule[i].AltMark? ==> ts == [Text("| ")]
  {
    (match rule[i]
     case End => []
     case AltMark => [Text("| ")]
     case RuleRef(q) => [Symbol(names[q]), Text(" ")]
     case Char(c) => [Text("["), Character(c)]
     case CharNot(c) => [Text("[^"), Character(c)]
     case RngUpper(c) => [Text("-"), Character(c)]
     case CharAlt(c) => [Character(c)]
     case CharAny => [Text(".")])
    + (if IsCharElement(rule[i]) && !ExtendsClass(rule[i + 1]) && !rule[i + 1].CharAny? then [Text("] ")] else [])
  }

  /** What is written for the first `n` elements. */
  function Written(rule: Rule, n: nat, names: map<nat, Name>): seq<Token>
    requires n < |rule| && forall i :: 0 <= i < n ==> ElemPrintable(rule, i, names)
  {
    if n == 0 then []
    else
      assert ElemPrintable(rule, n - 1, names);
      Written(rule, n - 1, names) + ElemText(rule, n - 1, names)
  }

  method PrintRule(id: nat, rule: Rule, names: map<nat, Name>) returns (r: Result<seq<Token>, PrintError>)
    ensures r.Success? <==> Printable(id, rule, names)
    ensures r.Success? ==>
            r.value == [Symbol(names[id]), Text(" ::= ")] + Written(rule, |rule| - 1, names) + [Text("\n")]
  {
    if rule == [] || !rule[|rule| - 1].End? {
      return Failure(NoEnd(id));
    }
    if id !in names {
      return Failure(UnknownSymbol(id));
    }
    var out := [];
    for i := 0 to |rule| - 1
      invariant forall j :: 0 <= j < i ==> !rule[j].End? && ElemPrintable(rule, j, names)
      invariant out == Written(rule, i, names)
    {
      var text :- PrintElem(id, rule, i, names);
      out := out + text;
    }
    r := Success([Symbol(names[id]), Text(" ::= ")] + out + [Text("\n")]);
  }

  method PrintElem(id: nat, rule: Rule, i: nat, names: map<nat, Name>) returns (r: Result<seq<Token>, PrintError>)
    requires i + 1 < |rule|
    ensures r.Success? <==> !rule[i].End? && ElemPrintable(rule, i, names)
    ensures r.Success? ==> r.value == ElemText(rule, i, names)
  {
    var elem, out := rule[i], [];
    match elem {
      case End =>
        return Failure(EarlyEnd(id, i));
      case AltMark =>
        out := [Text("| ")];
      case RuleRef(q) =>
        if q !in names {
          return Failure(UnknownSymbol(q));
        }
        out := [Symbol(names[q]), Text(" ")];
      case Char(c) =>
        out := [Text("["), Character(c)];
      case CharNot(c) =>
        out := [Text("[^"), Character(c)];
      case RngUpper(c) =>
        if i == 0 || !IsCharElement(rule[i - 1]) {
          return Failure(NoChar(id, i));
        }
        out := [Text("-"), Character(c)];
      case CharAlt(c) =>
        if i == 0 || !IsCharElement(rule[i - 1]) {
          return Failure(NoChar(id, i));
        }
        out := [Character(c)];
      case CharAny =>
        out := [Text(".")];
    }
    if IsCharElement(elem) && !ExtendsClass(rule[i + 1]) && !rule[i + 1].CharAny? {
      out := out + [Text("] ")];
    }
    r := Success(out);
  }

  // ---------------------------------------------------------------------------------------------
  // Brackets

  /** Whether a bracket is open after a token; nothing if two are opened, or one is closed that is not open. */
  function OpenNext(open: Option<bool>, t: Token): Option<bool> {
    if open.None? then None
    else if t == Text("[") || t == Text("[^") then if open.value then None else Some(true)
    else if t == Text("] ") then if open.value then Some(false) else None
    else open
  }

  function OpenAfter(open: Option<bool>, ts: seq<Token>): Option<bool>
    decreases |ts|
  {
    if ts == [] then open else OpenAfter(OpenNext(open, ts[0]), ts[1..])
  }

  lemma {:induction false} OpenJoined(open: Option<bool>, a: seq<Token>, b: seq<Token>)
    ensures OpenAfter(open, a + b) == OpenAfter(OpenAfter(open, a), b)
    decreases |a|
  {
    if a == [] {
      assert a + b == b;
    } else {
      assert (a + b)[1..] == a[1..] + b;
      OpenJoined(OpenNext(open, a[0]), a[1..], b);
    }
  }

  /** The set, or what is taken for one, goes on with element `n`. */
  predicate GoesOn(rule: Rule, n: nat)
    requires n < |rule|
  {
    n > 0 && IsCharElement(rule[n - 1]) && (ExtendsClass(rule[n]) || rule[n].CharAny?)
  }

  /** The element stands for any character, and does not come after a set or another such element. */
  predicate LoneDot(rule: Rule, i: nat)
    requires i < |rule|
  {
    rule[i].CharAny? && (i == 0 || !IsCharElement(rule[i - 1]))
  }

  /** Element `n` goes on with what began with such an element. */
  predicate AfterDot(rule: Rule, n: nat)
    requires n < |rule|
  {
    GoesOn(rule, n) && (LoneDot(rule, n - 1) || AfterDot(rule, n - 1))
  }

  /** Something that began with such an element has ended before element `n`. */
  predicate DotEnded(rule: Rule, n: nat)
    requires n < |rule|
  {
    exists i :: 0 <= i < n && LoneDot(rule, i) && exists m :: i < m <= n && !GoesOn(rule, m)
  }

  /** The brackets after the first `n` elements. */
  function Brackets(rule: Rule, n: nat): Option<bool>
    requires n < |rule|
  {
    if DotEnded(rule, n) then None else Some(GoesOn(rule, n) && !AfterDot(rule, n))
  }

  lemma ElemBrackets(rule: Rule, i: nat, names: map<nat, Name>, open: bool)
    requires i + 1 < |rule| && !rule[i].End? && ElemPrintable(rule, i, names)
    requires open ==> GoesOn(rule, i)
    ensures OpenAfter(Some(open), ElemText(rule, i, names)) ==
            if !IsCharElement(rule[i]) then Some(open)
            else
              var now := (StartsClass(rule[i]) && !rule[i].CharAny?) || open;
              if GoesOn(rule, i + 1) then Some(now) else if now then Some(false) else None
  {
    var text := ElemText(rule, i, names);
    TokensApart();
    match rule[i]
    case End =>
    case AltMark => OneToken(Some(open), Text("| "));
    case RuleRef(q) => TwoTokens(Some(open), Symbol(names[q]), Text(" "));
    case Char(c) => Closing(Some(open), [Text("["), Character(c)], text);
    case CharNot(c) => Closing(Some(open), [Text("[^"), Character(c)], text);
    case RngUpper(c) => Closing(Some(open), [Text("-"), Character(c)], text);
    case CharAlt(c) => Closing(Some(open), [Character(c)], text);
    case CharAny => Closing(Some(open), [Text(".")], text);
  }

  lemma TokensApart()
    ensures Text("[") != Text("] ") && Text("[^") != Text("] ") && Text("-") != Text("] ") && Text("-") != Text("[^")
    ensures Text(".") != Text("[") && Text("-") != Text("[") && Text("| ") != Text("[^") && Text("| ") != Text("] ")
    ensures Text(" ") != Text("[")
  {
    assert "[^"[0] != "] "[0] && "| "[0] != "[^"[0] && "| "[0] != "] "[0];
    assert "."[0] != "["[0] && "-"[0] != "["[0] && " "[0] != "["[0];
  }

  lemma OneToken(open: Option<bool>, t: Token)
    ensures OpenAfter(open, [t]) == OpenNext(open, t)
  {
    assert [t][1..] == [];
  }

  lemma TwoTokens(open: Option<bool>, t: Token, u: Token)
    ensures OpenAfter(open, [t, u]) == OpenNext(OpenNext(open, t), u)
  {
    assert [t, u][1..] == [u];
    OneToken(OpenNext(open, t), u);
  }

  lemma Closing(open: Option<bool>, ts: seq<Token>, text: seq<Token>)
    requires |ts| == 1 || |ts| == 2
    requires text == ts || text == ts + [Text("] ")]
    ensures var now := if |ts| == 1 then OpenNext(open, ts[0]) else OpenNext(OpenNext(open, ts[0]), ts[1]);
            OpenAfter(open, text) == if text == ts then now else OpenNext(now, Text("] "))
  {
    if |ts| == 1 {
      OneToken(open, ts[0]);
      assert ts == [ts[0]];
    } else {
      TwoTokens(open, ts[0], ts[1]);
      assert ts == [ts[0], ts[1]];
    }
    OpenJoined(open, ts, [Text("] ")]);
    OneToken(OpenAfter(open, ts), Text("] "));
  }

  lemma {:induction false} NoneStays(ts: seq<Token>)
    ensures OpenAfter(None, ts) == None
    decreases |ts|
  {
    if ts != [] {
      NoneStays(ts[1..]);
    }
  }
  lemma DotStep(rule: Rule, i: nat)
    requires i + 1 < |rule|
    ensures DotEnded(rule, i + 1) <==>
            || DotEnded(rule, i)
            || ((LoneDot(rule, i) || AfterDot(rule, i)) && !GoesOn(rule, i + 1))
  {
    if DotEnded(rule, i) {
      var d, m :| 0 <= d < i && LoneDot(rule, d) && d < m <= i && !GoesOn(rule, m);
      assert d < i + 1 && m <= i + 1;
    }
    if AfterDot(rule, i) && !GoesOn(rule, i + 1) {
      var d := DotBefore(rule, i);
      assert d < i + 1 <= i + 1;
    }
    if DotEnded(rule, i + 1) && !DotEnded(rule, i) {
      var d, m :| 0 <= d < i + 1 && LoneDot(rule, d) && d < m <= i + 1 && !GoesOn(rule, m);
      if d < i {
        assert m == i + 1;
        DotReaches(rule, d, i);
      }
    }
  }

  lemma {:induction false} DotBefore(rule: Rule, n: nat) returns (d: nat)
    requires n < |rule| && AfterDot(rule, n)
    ensures d < n && LoneDot(rule, d)
    decreases n
  {
    if LoneDot(rule, n - 1) {
      d := n - 1;
    } else {
      d := DotBefore(rule, n - 1);
    }
  }

  lemma {:induction false} DotReaches(rule: Rule, d: nat, n: nat)
    requires d < n < |rule| && LoneDot(rule, d) && forall m :: d < m <= n ==> GoesOn(rule, m)
    ensures AfterDot(rule, n)
    decreases n
  {
    if d < n - 1 {
      DotReaches(rule, d, n - 1);
    }
  }

  lemma {:induction false} BracketsUpTo(rule: Rule, n: nat, names: map<nat, Name>)
    requires n < |rule| && forall i :: 0 <= i < n ==> !rule[i].End? && ElemPrintable(rule, i, names)
    ensures OpenAfter(Some(false), Written(rule, n, names)) == Brackets(rule, n)
    decreases n
  {
    if n > 0 {
      var i := n - 1;
      BracketsUpTo(rule, i, names);
      assert ElemPrintable(rule, i, names);
      OpenJoined(Some(false), Written(rule, i, names), ElemText(rule, i, names));
      DotStep(rule, i);
      if DotEnded(rule, i) {
        NoneStays(ElemText(rule, i, names));
      } else {
        ElemBrackets(rule, i, names, Brackets(rule, i).value);
        assert AfterDot(rule, n) <==> GoesOn(rule, n) && (LoneDot(rule, i) || AfterDot(rule, i));
        assert IsCharElement(rule[i]) ==> GoesOn(rule, i) || rule[i].Char? || rule[i].CharNot? || LoneDot(rule, i);
        if !IsCharElement(rule[i]) {
          assert !GoesOn(rule, n);
          assert Brackets(rule, n) == Some(false);
        } else if rule[i].Char? || rule[i].CharNot? {
          assert Brackets(rule, n) == Some(GoesOn(rule, n));
        } else if LoneDot(rule, i) {
          assert !GoesOn(rule, i);
          assert !Brackets(rule, i).value;
        } else {
          assert GoesOn(rule, i);
        }
      }
    }
  }

  /** In what is printed every bracket is closed, and none that is not open, just when no dot stands by itself. */
  lemma BracketsClosed(id: nat, rule: Rule, names: map<nat, Name>)
    requires Printable(id, rule, names)
    ensures OpenAfter(Some(false), Written(rule, |rule| - 1, names)) == Some(false) <==>
            forall i :: 0 <= i < |rule| ==> !LoneDot(rule, i)
  {
    var n := |rule| - 1;
    assert forall i :: 0 <= i < n ==> rule[..n][i] == rule[i];
    BracketsUpTo(rule, n, names);
    assert !GoesOn(rule, n);
  }

  /** The names of the symbols by number. */
  ghost predicate NamesOf(ids: map<Name, nat>, names: map<nat, Name>) {
    (forall n :: n in ids ==> ids[n] in names) && (forall r :: r in names ==> names[r] in ids && ids[names[r]] == r)
  }

  /** Whatever the parser leaves in its tables can be printed. */
  lemma ParsedPrintable(s: Store, names: map<nat, Name>, r: nat)
    requires Numbered(s) && AllDefined(s.rules) && NamesOf(s.ids, names) && r < |s.rules|
    ensures Printable(r, s.rules[r], names)
  {
    var rule := s.rules[r];
    assert GoodRule(s, r);
    AllNamed(s, names, r);
    forall i | 0 <= i < |rule|
      ensures ElemPrintable(rule, i, names)
    {
      assert WellPlaced(rule, i, |s.ids|);
      if rule[i].RuleRef? {
        AllNamed(s, names, rule[i].id);
      }
    }
  }

  lemma AllNamed(s: Store, names: map<nat, Name>, r: nat)
    requires Numbered(s) && NamesOf(s.ids, names) && r < |s.ids|
    ensures r in names
  {
    assert IsNumber(s, r);
  }

  method InvertIds(ids: map<Name, nat>) returns (names: map<nat, Name>)
    requires forall m, n :: m in ids && n in ids && ids[m] == ids[n] ==> m == n
    ensures NamesOf(ids, names)
  {
    names := map[];
    var rest := ids.Keys;
    while rest != {}
      invariant rest <= ids.Keys
      invariant forall n :: n in ids && n !in rest ==> ids[n] in names
      invariant forall r :: r in names ==> names[r] in ids && ids[names[r]] == r
    {
      var n :| n in rest;
      names := names[ids[n] := n];
      rest := rest - {n};
    }
  }

  /** Prints a grammar the parser accepted; no rule of it can fail. */
  method PrintGrammar(state: ParseState) returns (r: Result<seq<Token>, PrintError>)
    requires Numbered(state.View()) && AllDefined(state.rules)
    ensures r.Success? && exists names :: NamesOf(state.symbolIds, names) && PrintsAll(state.rules, names, r.value)
  {
    forall m, n | m in state.symbolIds && n in state.symbolIds && state.symbolIds[m] == state.symbolIds[n]
      ensures m == n
    {
      assert Distinct(state.View(), m, n);
    }
    var names := InvertIds(state.symbolIds);
    var out := [];
    ghost var texts: seq<seq<Token>> := [];
    for i := 0 to |state.rules|
      invariant |texts| == i && out == Joined(texts)
      invariant forall j :: 0 <= j < i ==> Prints(j, state.rules[j], names, texts[j])
    {
      var printed := PrintRule(i, state.rules[i], names);
      ParsedPrintable(state.View(), names, i);
      assert (texts + [printed.value])[..i] == texts;
      out, texts := out + printed.value, texts + [printed.value];
    }
    assert PrintsAll(state.rules, names, out);
    r := Success(out);
  }

  function Joined(texts: seq<seq<Token>>): seq<Token> {
    if texts == [] then [] else Joined(texts[..|texts| - 1]) + texts[|texts| - 1]
  }

  /** The line of a rule: its name, the sign, and its elements. */
  ghost predicate Prints(id: nat, rule: Rule, names: map<nat, Name>, text: seq<Token>) {
    && Printable(id, rule, names)
    && text == [Symbol(names[id]), Text(" ::= ")] + Written(rule, |rule| - 1, names) + [Text("\n")]
  }

  /** The lines of all rules in order. */
  ghost predicate PrintsAll(rules: Table, names: map<nat, Name>, out: seq<Token>) {
    exists texts :: |texts| == |rules| && out == Joined(texts) &&
      forall i :: 0 <= i < |rules| ==> Prints(i, rules[i], names, texts[i])
  }
}
