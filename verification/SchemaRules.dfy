/** The rules a schema is converted to, and how they get their names. */
module SchemaRules {
  import opened Gbnf
  import opened GbnfReader
  import opened Numerals
  import opened Meaning

  /** The length of the run of characters from `pos` on that rule names cannot have. */
  function InvalidEnd(name: Name, pos: nat): (end: nat)
    requires pos <= |name|
    ensures pos <= end <= |name|
    ensures forall i :: pos <= i < end ==> !IsWordChar(name[i])
    ensures end < |name| ==> IsWordChar(name[end])
    decreases |name| - pos
  {
    if pos < |name| && !IsWordChar(name[pos]) then InvalidEnd(name, pos + 1) else pos
  }

  /** The name with each run of characters that rule names cannot have replaced by a dash. */
  function Escaped(name: Name): (r: Name)
    ensures forall i :: 0 <= i < |r| ==> IsWordChar(r[i])
    ensures r == [] <==> name == []
    ensures (forall i :: 0 <= i < |name| ==> IsWordChar(name[i])) ==> r == name
    decreases |name|
  {
    if name == [] then []
    else if IsWordChar(name[0]) then
      assert name == [name[0]] + name[1..];
      [name[0]] + Escaped(name[1..])
    else ['-'] + Escaped(name[InvalidEnd(name, 0)..])
  }

  predicate AreWordChars(a: Name) {
    forall i :: 0 <= i < |a| ==> IsWordChar(a[i])
  }

  /** Each longest run of characters that rule names cannot have becomes one dash. */
  lemma EscapedRun(a: Name, run: Name, b: Name)
    requires AreWordChars(a) && (forall i :: 0 <= i < |run| ==> !IsWordChar(run[i]))
    requires run != [] && (b == [] || IsWordChar(b[0]))
    ensures Escaped(a + (run + b)) == a + ("-" + Escaped(b))
  {
    RunFirst(run, b);
    WordsFirst(a, run + b);
  }

  lemma {:induction false} WordsFirst(a: Name, rest: Name)
    requires AreWordChars(a)
    ensures Escaped(a + rest) == a + Escaped(rest)
    decreases |a|
  {
    if a == [] {
      assert a + rest == rest;
    } else {
      var c, others := a[0], a[1..];
      WordsFirst(others, rest);
      WordFirst(c, others + rest);
      assert a == [c] + others;
      Regrouped(c, others, rest);
      Regrouped(c, others, Escaped(rest));
    }
  }

  lemma Regrouped(c: char, a: Name, b: Name)
    ensures ([c] + a) + b == [c] + (a + b)
  {
  }

  lemma WordFirst(c: char, rest: Name)
    requires IsWordChar(c)
    ensures Escaped([c] + rest) == [c] + Escaped(rest)
  {
    assert ([c] + rest)[1..] == rest;
  }

  lemma RunFirst(run: Name, b: Name)
    requires forall i :: 0 <= i < |run| ==> !IsWordChar(run[i])
    requires run != [] && (b == [] || IsWordChar(b[0]))
    ensures Escaped(run + b) == "-" + Escaped(b)
  {
    var name := run + b;
    assert forall i :: 0 <= i < |run| ==> name[i] == run[i];
    assert b != [] ==> name[|run|] == b[0];
    assert InvalidEnd(name, 0) == |run|;
    assert name[|run|..] == b;
  }

  /** The name is in use for another rule. */
  predicate Taken(rules: Grammar, name: Name, rule: Expr) {
    name in rules && rules[name] != rule
  }

  function Variant(base: Name, i: nat): Name {
    base + ToString(i)
  }

  /** `key` is the first of the names tried for a rule that is not taken. */
  ghost predicate FirstFree(rules: Grammar, base: Name, rule: Expr, key: Name) {
    if !Taken(rules, base, rule) then key == base
    else exists i: nat :: key == Variant(base, i) && FreeAfter(rules, base, rule, i)
  }

  predicate FreeAfter(rules: Grammar, base: Name, rule: Expr, i: nat) {
    !Taken(rules, Variant(base, i), rule) && forall j: nat :: j < i ==> Taken(rules, Variant(base, j), rule)
  }

  lemma VariantInjective(base: Name, i: nat, j: nat)
    requires Variant(base, i) == Variant(base, j)
    ensures i == j
  {
    assert Variant(base, i)[|base|..] == ToString(i) && Variant(base, j)[|base|..] == ToString(j);
    ToStringInjective(i, j);
  }

  /** Only as many variants can be taken as there are rules. */
  lemma {:induction false} FewTaken(rules: Grammar, base: Name, n: nat)
    requires forall j: nat :: j < n ==> Variant(base, j) in rules
    ensures n <= |rules|
    decreases n
  {
    if n > 0 {
      var last := Variant(base, n - 1);
      var fewer := rules - {last};
      forall j: nat | j < n - 1
        ensures Variant(base, j) in fewer
      {
        if Variant(base, j) == last {
          VariantInjective(base, j, n - 1);
        }
      }
      FewTaken(fewer, base, n - 1);
      assert fewer.Keys == rules.Keys - {last};
      assert |rules.Keys| == |rules| && |fewer.Keys| == |fewer|;
    }
  }

  class SchemaConverter {
    var rules: Grammar

    constructor (initial: Grammar)
      ensures rules == initial
    {
      rules := initial;
    }

    /** Binds a rule to the first of the names tried that is not bound to a different one. */
    method AddRule(name: Name, rule: Expr) returns (key: Name)
      modifies this
      ensures rules == old(rules)[key := rule] && FirstFree(old(rules), Escaped(name), rule, key)
      ensures Extends(old(rules), rules) && key in rules && rules[key] == rule
    {
      var escName := Escaped(name);
      if escName !in rules || rules[escName] == rule {
        key := escName;
      } else {
        var i: nat := 0;
        FewTaken(rules, escName, i);
        while Variant(escName, i) in rules && rules[Variant(escName, i)] != rule
          invariant forall j: nat :: j < i ==> Taken(rules, Variant(escName, j), rule)
          invariant i <= |rules|
          decreases |rules| - i
          modifies {}
        {
          FewTaken(rules, escName, i + 1);
          i := i + 1;
        }
        assert FreeAfter(rules, escName, rule, i);
        key := Variant(escName, i);
      }
      rules := rules[key := rule];
    }
  }

  /** A rule gets its own name, or that with the first number that no other rule has it with. */
  lemma NameTried(rules: Grammar, base: Name, rule: Expr, key: Name) returns (i: nat)
    requires FirstFree(rules, base, rule, key)
    ensures if base in rules && rules[base] != rule then
              && key == base + ToString(i)
              && (forall j: nat :: j < i ==> base + ToString(j) in rules && rules[base + ToString(j)] != rule)
            else key == base
    ensures key in rules ==> rules[key] == rule
  {
    i := 0;
    if Taken(rules, base, rule) {
      i :| key == Variant(base, i) && FreeAfter(rules, base, rule, i);
      forall j: nat | j < i
        ensures base + ToString(j) in rules && rules[base + ToString(j)] != rule
      {
        assert Taken(rules, Variant(base, j), rule);
      }
    }
  }

  /** The names rules get can be read as names. */
  lemma NamesReadable(rules: Grammar, name: Name, rule: Expr, key: Name)
    requires FirstFree(rules, Escaped(name), rule, key)
    ensures forall i :: 0 <= i < |key| ==> IsWordChar(key[i])
    ensures name != [] ==> key != []
  {
    if Taken(rules, Escaped(name), rule) {
      var i: nat :| key == Variant(Escaped(name), i) && FreeAfter(rules, Escaped(name), rule, i);
      DigitsOnly(i);
    }
  }

  lemma DigitsOnly(n: nat)
    ensures forall i :: 0 <= i < |ToString(n)| ==> IsDigitChar(ToString(n)[i])
  {
    var w := Numeral(n);
    forall i | 0 <= i < |ToString(n)|
      ensures IsDigitChar(ToString(n)[i])
    {
      assert ToString(n)[i] == w[i] as char && IsDigit(w[i]);
    }
  }

  /** A rule bound under whatever name leaves what was there as it was. */
  lemma EarlierKeepMeaning(rules: Grammar, name: Name, rule: Expr, key: Name, e: Expr, w: Text)
    requires FirstFree(rules, Escaped(name), rule, key)
    requires Complete(rules) && Defined(rules, e)
    ensures Means(rules, e, w) <==> Means(rules[key := rule], e, w)
  {
    assert Extends(rules, rules[key := rule]) by {
      if Taken(rules, Escaped(name), rule) {
        var i: nat :| key == Variant(Escaped(name), i) && FreeAfter(rules, Escaped(name), rule, i);
      }
    }
    if Means(rules, e, w) {
      var k := Depth(rules, e, w);
      SameInLarger(rules, rules[key := rule], k, e, w);
    }
    if Means(rules[key := rule], e, w) {
      var k := Depth(rules[key := rule], e, w);
      SameInLarger(rules, rules[key := rule], k, e, w);
    }
  }
}
