/** The repetitions generated for array items and strings, with and without a separator. */
module Separated {
  import opened Wrappers
  import opened Gbnf
  import opened Lowering
  import opened GbnfReader
  import opened GbnfSyntax
  import opened GbnfSpelling

  /** A set of texts. */
  type Language = Text -> bool

  /** What an expression describes when names are unfolded at most `k` levels deep. */
  ghost function Of(g: Grammar, k: nat, e: Expr): Language {
    w => Match(g, k, e, w)
  }

  /** `w` consists of exactly `c` items with a separator between neighbours. */
  ghost predicate Listed(item: Language, sep: Language, c: nat, w: Text)
    decreases c, 0
  {
    if c == 0 then w == []
    else exists i :: 0 <= i <= |w| && item(w[..i]) && Continued(item, sep, c - 1, w[i..])
  }

  /** `w` consists of exactly `c` items, each of them after a separator. */
  ghost predicate Continued(item: Language, sep: Language, c: nat, w: Text)
    decreases c, 1
  {
    if c == 0 then w == []
    else exists i :: 0 <= i <= |w| && sep(w[..i]) && Listed(item, sep, c, w[i..])
  }

  ghost predicate ListedWithin(item: Language, sep: Language, min: nat, max: Option<nat>, w: Text) {
    exists c: nat :: min <= c && (max.Some? ==> c <= max.value) && Listed(item, sep, c, w)
  }

  function LessOne(max: Option<nat>): Option<nat>
    requires max.Some? ==> max.value > 0
  {
    if max.Some? then Some(max.value - 1) else None
  }

  /** The mark for between `min` and `max` times. */
  function MarkText(min: nat, max: Option<nat>): string {
    if min == 0 && max == Some(1) then "?"
    else if min == 1 && max.None? then "+"
    else if min == 0 && max.None? then "*"
    else BoundsText(min, max)
  }

  /** The mark that is written for a maximum of zero, less one. */
  function MinusOneText(min: nat): string {
    "{" + (Decimal(min) + ("," + ("-1" + "}")))
  }

  /**
    Between `min` and `max` items. Without a separator they follow one another. The generator does not
    look at a maximum of zero with a separator: it then writes an upper bound of minus one, which the
    reader refuses.
   */
  function BuildRepetition(item: Syntax, min: nat, max: Option<nat>, sep: Option<Syntax>): Syntax
    decreases sep.Some?
  {
    if sep.None? || (min == 0 && max == Some(1)) then Marked(item, Bounds(min, max), MarkText(min, max))
    else
      var pair, others := Paren(false, Seq(sep.value, item)), if min == 0 then 0 else min - 1;
      var rest := if max == Some(0) then Marked(pair, Bounds(others, Some(0)), MinusOneText(others))
                  else BuildRepetition(pair, others, LessOne(max), None);
      if min == 0 then Marked(Paren(false, Seq(item, rest)), Bounds(0, Some(1)), "?") else Seq(item, rest)
  }

  /** It is well written if the item and the separator are, and the item can be repeated. */
  lemma RepetitionWritten(item: Syntax, min: nat, max: Option<nat>, sep: Syntax)
    requires IsItem(item) && Emits(ItemExpr(item)) && IsSequence(sep) && (max.Some? ==> max.value >= 1)
    ensures IsSequence(BuildRepetition(item, min, max, Some(sep)))
  {
    GoodSigns();
    if min == 0 && max == Some(1) {
      assert IsItem(Marked(item, Bounds(0, Some(1)), "?"));
    } else {
      var pair, others := Paren(false, Seq(sep, item)), if min == 0 then 0 else min - 1;
      assert !item.Seq?;
      assert IsSequence(item);
      SequenceIsAlternates(Seq(sep, item));
      GoodBounds(others, LessOne(max));
      var rest := Marked(pair, Bounds(others, LessOne(max)), MarkText(others, LessOne(max)));
      assert IsItem(pair);
      assert IsItem(rest);
      assert IsSequence(rest);
      var result := Seq(item, rest);
      SequenceIsAlternates(result);
      assert IsItem(Paren(false, result));
    }
  }

  // ---------------------------------------------------------------------------------------------
  // Exactness

  lemma ListedFirst(item: Language, sep: Language, c: nat, w: Text) returns (i: nat)
    requires c > 0 && Listed(item, sep, c, w)
    ensures i <= |w| && item(w[..i]) && Continued(item, sep, c - 1, w[i..])
  {
    i :| 0 <= i <= |w| && item(w[..i]) && Continued(item, sep, c - 1, w[i..]);
  }

  lemma ContinuedFirst(item: Language, sep: Language, c: nat, w: Text) returns (i: nat)
    requires c > 0 && Continued(item, sep, c, w)
    ensures i <= |w| && sep(w[..i]) && Listed(item, sep, c, w[i..])
  {
    i :| 0 <= i <= |w| && sep(w[..i]) && Listed(item, sep, c, w[i..]);
  }

  /** The concatenations of a text of one language and a text of another. */
  ghost function Pairs(left: Language, right: Language): Language {
    w => exists i :: 0 <= i <= |w| && left(w[..i]) && right(w[i..])
  }

  /** The concatenations of exactly `c` texts of a language. */
  ghost predicate Copies(l: Language, c: nat, w: Text)
    decreases c
  {
    if c == 0 then w == []
    else exists i :: 0 <= i <= |w| && l(w[..i]) && Copies(l, c - 1, w[i..])
  }

  lemma CopiesFirst(l: Language, c: nat, w: Text) returns (i: nat)
    requires c > 0 && Copies(l, c, w)
    ensures i <= |w| && l(w[..i]) && Copies(l, c - 1, w[i..])
  {
    i :| 0 <= i <= |w| && l(w[..i]) && Copies(l, c - 1, w[i..]);
  }

  lemma {:induction false} PowerCopies(g: Grammar, k: nat, e: Expr, c: nat, w: Text)
    ensures Power(g, k, e, c, w) <==> Copies(Of(g, k, e), c, w)
    decreases c
  {
    if c > 0 {
      forall i | 0 <= i <= |w|
        ensures Power(g, k, e, c - 1, w[i..]) <==> Copies(Of(g, k, e), c - 1, w[i..])
      {
        PowerCopies(g, k, e, c - 1, w[i..]);
      }
    }
  }

  lemma {:induction false} SameCopies(l: Language, l': Language, c: nat, w: Text)
    requires forall v :: l(v) <==> l'(v)
    ensures Copies(l, c, w) <==> Copies(l', c, w)
    decreases c
  {
    if c > 0 {
      forall i | 0 <= i <= |w|
        ensures Copies(l, c - 1, w[i..]) <==> Copies(l', c - 1, w[i..])
      {
        SameCopies(l, l', c - 1, w[i..]);
      }
    }
  }

  lemma PairMore(item: Language, sep: Language, c: nat, w: Text, i: nat, j: nat)
    requires i + j <= |w| && sep(w[..i]) && item(w[i..][..j]) && Copies(Pairs(sep, item), c, w[i..][j..])
    ensures Copies(Pairs(sep, item), c + 1, w)
  {
    var v := w[..i + j];
    assert v[..i] == w[..i] && v[i..] == w[i..][..j];
    assert Pairs(sep, item)(v);
    assert w[i + j..] == w[i..][j..];
  }

  lemma ContinuedMore(item: Language, sep: Language, c: nat, w: Text, i: nat, j: nat)
    requires i + j <= |w| && sep(w[..i]) && item(w[i..][..j]) && Continued(item, sep, c, w[i..][j..])
    ensures Continued(item, sep, c + 1, w)
  {
    assert Listed(item, sep, c + 1, w[i..]);
  }

  /** After the first item of a list there are pairs of a separator and an item. */
  lemma {:induction false} ContinuedPairs(item: Language, sep: Language, c: nat, w: Text)
    requires Continued(item, sep, c, w)
    ensures Copies(Pairs(sep, item), c, w)
    decreases c
  {
    if c > 0 {
      var i := ContinuedFirst(item, sep, c, w);
      var j := ListedFirst(item, sep, c, w[i..]);
      ContinuedPairs(item, sep, c - 1, w[i..][j..]);
      PairMore(item, sep, c - 1, w, i, j);
    }
  }

  lemma {:induction false} PairsContinued(item: Language, sep: Language, c: nat, w: Text)
    requires Copies(Pairs(sep, item), c, w)
    ensures Continued(item, sep, c, w)
    decreases c
  {
    if c > 0 {
      var n := CopiesFirst(Pairs(sep, item), c, w);
      PairsContinued(item, sep, c - 1, w[n..]);
      PairContinued(item, sep, c - 1, w, n);
    }
  }

  lemma PairContinued(item: Language, sep: Language, c: nat, w: Text, n: nat)
    requires n <= |w| && Pairs(sep, item)(w[..n]) && Continued(item, sep, c, w[n..])
    ensures Continued(item, sep, c + 1, w)
  {
    var v := w[..n];
    var i :| 0 <= i <= |v| && sep(v[..i]) && item(v[i..]);
    assert v[..i] == w[..i] && v[i..] == w[i..][..n - i] && w[n..] == w[i..][n - i..];
    ContinuedMore(item, sep, c, w, i, n - i);
  }

  lemma PairsPower(g: Grammar, k: nat, item: Expr, sep: Expr, c: nat, w: Text)
    ensures Power(g, k, Group(Cat(sep, item)), c, w) <==> Continued(Of(g, k, item), Of(g, k, sep), c, w)
  {
    var pair := Group(Cat(sep, item));
    var l, s := Of(g, k, item), Of(g, k, sep);
    PowerCopies(g, k, pair, c, w);
    forall v
      ensures Of(g, k, pair)(v) <==> Pairs(s, l)(v)
    {
      assert Match(g, k, pair, v) <==> Match(g, k, Cat(sep, item), v);
    }
    SameCopies(Of(g, k, pair), Pairs(s, l), c, w);
    if Continued(l, s, c, w) {
      ContinuedPairs(l, s, c, w);
    }
    if Copies(Pairs(s, l), c, w) {
      PairsContinued(l, s, c, w);
    }
  }

  lemma PairsListed(g: Grammar, k: nat, item: Expr, sep: Expr, c: nat, w: Text, i: nat)
    requires i <= |w| && Match(g, k, item, w[..i]) && Power(g, k, Group(Cat(sep, item)), c, w[i..])
    ensures Listed(Of(g, k, item), Of(g, k, sep), c + 1, w)
  {
    var l, s := Of(g, k, item), Of(g, k, sep);
    PairsPower(g, k, item, sep, c, w[i..]);
    assert l(w[..i]);
  }

  lemma ListedPairs(g: Grammar, k: nat, item: Expr, sep: Expr, c: nat, w: Text) returns (i: nat)
    requires c > 0 && Listed(Of(g, k, item), Of(g, k, sep), c, w)
    ensures i <= |w| && Match(g, k, item, w[..i]) && Power(g, k, Group(Cat(sep, item)), c - 1, w[i..])
  {
    i := ListedFirst(Of(g, k, item), Of(g, k, sep), c, w);
    PairsPower(g, k, item, sep, c - 1, w[i..]);
  }

  lemma CatJoin(g: Grammar, k: nat, left: Expr, right: Expr, w: Text, i: nat)
    requires i <= |w| && Match(g, k, left, w[..i]) && Match(g, k, right, w[i..])
    ensures Match(g, k, Cat(left, right), w)
  {
  }

  lemma RepJoin(g: Grammar, k: nat, item: Expr, min: nat, max: Option<nat>, c: nat, w: Text)
    requires min <= c && (max.Some? ==> c <= max.value) && Power(g, k, item, c, w)
    ensures Match(g, k, Rep(item, min, max), w)
  {
  }

  /** An item and then between `min` and `max` pairs are a list of one item more. */
  lemma FirstThenPairs(g: Grammar, k: nat, item: Expr, sep: Expr, min: nat, max: Option<nat>, w: Text)
    ensures Match(g, k, Cat(item, Rep(Group(Cat(sep, item)), min, max)), w) <==>
            ListedWithin(Of(g, k, item), Of(g, k, sep), min + 1, if max.Some? then Some(max.value + 1) else None, w)
  {
    var more := if max.Some? then Some(max.value + 1) else None;
    if Match(g, k, Cat(item, Rep(Group(Cat(sep, item)), min, max)), w) {
      PairsToList(g, k, item, sep, min, max, w);
    }
    if ListedWithin(Of(g, k, item), Of(g, k, sep), min + 1, more, w) {
      ListToPairs(g, k, item, sep, min, max, w);
    }
  }

  lemma PairsToList(g: Grammar, k: nat, item: Expr, sep: Expr, min: nat, max: Option<nat>, w: Text)
    requires Match(g, k, Cat(item, Rep(Group(Cat(sep, item)), min, max)), w)
    ensures ListedWithin(Of(g, k, item), Of(g, k, sep), min + 1, if max.Some? then Some(max.value + 1) else None, w)
  {
    var i := CatCut(g, k, item, Rep(Group(Cat(sep, item)), min, max), w);
    var c := RepCount(g, k, Group(Cat(sep, item)), min, max, w[i..]);
    PairsListed(g, k, item, sep, c, w, i);
  }

  lemma ListToPairs(g: Grammar, k: nat, item: Expr, sep: Expr, min: nat, max: Option<nat>, w: Text)
    requires ListedWithin(Of(g, k, item), Of(g, k, sep), min + 1, if max.Some? then Some(max.value + 1) else None, w)
    ensures Match(g, k, Cat(item, Rep(Group(Cat(sep, item)), min, max)), w)
  {
    var c := ListCount(Of(g, k, item), Of(g, k, sep), min + 1, if max.Some? then Some(max.value + 1) else None, w);
    var i := ListedPairs(g, k, item, sep, c, w);
    RepJoin(g, k, Group(Cat(sep, item)), min, max, c - 1, w[i..]);
    CatJoin(g, k, item, Rep(Group(Cat(sep, item)), min, max), w, i);
  }

  lemma ListCount(item: Language, sep: Language, min: nat, max: Option<nat>, w: Text) returns (c: nat)
    requires ListedWithin(item, sep, min, max, w)
    ensures min <= c && (max.Some? ==> c <= max.value) && Listed(item, sep, c, w)
  {
    c :| min <= c && (max.Some? ==> c <= max.value) && Listed(item, sep, c, w);
  }

  lemma AtMostOne(g: Grammar, k: nat, e: Expr, w: Text)
    ensures Match(g, k, Rep(e, 0, Some(1)), w) <==> w == [] || Match(g, k, e, w)
  {
    assert w[..|w|] == w && w[|w|..] == [];
    if w == [] {
      assert Power(g, k, e, 0, w);
    }
    if Match(g, k, e, w) {
      assert Power(g, k, e, 0, w[|w|..]);
      PowerMore(g, k, e, 0, w, |w|);
    }
    if Match(g, k, Rep(e, 0, Some(1)), w) {
      var c := RepCount(g, k, e, 0, Some(1), w);
      if c == 1 {
        var i := PowerFirst(g, k, e, c, w);
        assert i == |w|;
      }
    }
  }

  /** A list of at least no items is empty or one of at least one item. */
  lemma ListedFromZero(item: Language, sep: Language, max: Option<nat>, w: Text)
    requires max.Some? ==> max.value >= 1
    ensures ListedWithin(item, sep, 0, max, w) <==> w == [] || ListedWithin(item, sep, 1, max, w)
  {
    if w == [] {
      assert Listed(item, sep, 0, w);
    }
    if ListedWithin(item, sep, 0, max, w) {
      var c := ListCount(item, sep, 0, max, w);
      assert c > 0 ==> ListedWithin(item, sep, 1, max, w);
    }
  }

  lemma ListedOnce(item: Language, sep: Language, w: Text)
    ensures ListedWithin(item, sep, 1, Some(1), w) <==> item(w)
  {
    assert w[..|w|] == w && w[|w|..] == [];
    if item(w) {
      assert Continued(item, sep, 0, w[|w|..]);
      assert Listed(item, sep, 1, w);
    }
    if ListedWithin(item, sep, 1, Some(1), w) {
      var i := ListedFirst(item, sep, 1, w);
      assert i == |w|;
    }
  }

  lemma RepetitionMeant(item: Syntax, min: nat, max: Option<nat>, sep: Syntax)
    requires max.Some? ==> max.value >= 1
    ensures Meant(BuildRepetition(item, min, max, Some(sep))) == SeparatedExpr(Meant(item), min, max, Meant(sep))
  {
    var others := BuildRepetition(Paren(false, Seq(sep, item)), if min == 0 then 0 else min - 1, LessOne(max), None);
    assert Meant(Seq(sep, item)) == Cat(Meant(sep), Meant(item));
    assert Meant(others) == Rep(Group(Cat(Meant(sep), Meant(item))), if min == 0 then 0 else min - 1, LessOne(max));
    assert Meant(Seq(item, others)) == Cat(Meant(item), Meant(others));
    assert Meant(Paren(false, Seq(item, others))) == Group(Cat(Meant(item), Meant(others)));
  }

  /** The expression that is meant by a separated repetition. */
  function SeparatedExpr(item: Expr, min: nat, max: Option<nat>, sep: Expr): Expr
    requires max.Some? ==> max.value >= 1
  {
    var result := Cat(item, Rep(Group(Cat(sep, item)), if min == 0 then 0 else min - 1, LessOne(max)));
    if min == 0 && max == Some(1) then Rep(item, 0, Some(1))
    else if min == 0 then Rep(Group(result), 0, Some(1))
    else result
  }

  lemma ExprExact(g: Grammar, k: nat, item: Expr, min: nat, max: Option<nat>, sep: Expr, w: Text)
    requires max.Some? ==> max.value >= 1
    ensures Match(g, k, SeparatedExpr(item, min, max, sep), w) <==>
            ListedWithin(Of(g, k, item), Of(g, k, sep), min, max, w)
  {
    var l, s := Of(g, k, item), Of(g, k, sep);
    if min == 0 && max == Some(1) {
      AtMostOne(g, k, item, w);
      ListedFromZero(l, s, max, w);
      ListedOnce(l, s, w);
    } else {
      var others := if min == 0 then 0 else min - 1;
      FirstThenPairs(g, k, item, sep, others, LessOne(max), w);
      assert max == if LessOne(max).Some? then Some(LessOne(max).value + 1) else None;
      if min == 0 {
        AtMostOne(g, k, Group(Cat(item, Rep(Group(Cat(sep, item)), others, LessOne(max)))), w);
        ListedFromZero(l, s, max, w);
      }
    }
  }

  /** What is generated describes exactly the lists of between `min` and `max` items. */
  lemma SeparatedExact(g: Grammar, k: nat, item: Syntax, min: nat, max: Option<nat>, sep: Syntax, w: Text)
    requires max.Some? ==> max.value >= 1
    ensures Match(g, k, Meant(BuildRepetition(item, min, max, Some(sep))), w) <==>
            ListedWithin(Of(g, k, Meant(item)), Of(g, k, Meant(sep)), min, max, w)
  {
    RepetitionMeant(item, min, max, sep);
    ExprExact(g, k, Meant(item), min, max, Meant(sep), w);
  }

  /** The reader finds the bounds of what is generated the right way round exactly when they were. */
  lemma SensibleRepetition(item: Syntax, min: nat, max: Option<nat>, sep: Syntax)
    requires max.Some? ==> max.value >= 1
    requires Sensible(Meant(item)) && Sensible(Meant(sep))
    ensures Sensible(Meant(BuildRepetition(item, min, max, Some(sep)))) <==> (max.Some? ==> min <= max.value)
  {
    var pair := Group(Cat(Meant(sep), Meant(item)));
    RepetitionMeant(item, min, max, sep);
    assert Sensible(pair);
    if min != 0 || max != Some(1) {
      var others := Rep(pair, if min == 0 then 0 else min - 1, LessOne(max));
      assert Sensible(others) <==> (max.Some? ==> min <= max.value);
      assert Sensible(Cat(Meant(item), others)) <==> Sensible(others);
      assert Sensible(Group(Cat(Meant(item), others))) <==> Sensible(others);
    }
  }

  /** `w` is a list of between `min` and `max` items when names are unfolded deep enough. */
  ghost predicate IsList(g: Grammar, item: Expr, sep: Expr, min: nat, max: Option<nat>, w: Text) {
    exists k: nat :: ListedWithin(Of(g, k, item), Of(g, k, sep), min, max, w)
  }

  /** A rule for a separated list describes exactly the lists of between `min` and `max` items. */
  lemma ListRule(g: Grammar, name: Name, item: Syntax, min: nat, max: Option<nat>, sep: Syntax, w: Text)
    requires name in g && (max.Some? ==> max.value >= 1)
    requires g[name] == Meant(BuildRepetition(item, min, max, Some(sep)))
    ensures InLanguage(g, name, w) <==> IsList(g, Meant(item), Meant(sep), min, max, w)
  {
    if InLanguage(g, name, w) {
      var k: nat :| Match(g, k, Ref(name), w);
      assert Match(g, k - 1, g[name], w);
      SeparatedExact(g, k - 1, item, min, max, sep, w);
    }
    if IsList(g, Meant(item), Meant(sep), min, max, w) {
      var k: nat :| ListedWithin(Of(g, k, Meant(item)), Of(g, k, Meant(sep)), min, max, w);
      SeparatedExact(g, k, item, min, max, sep, w);
      assert Match(g, k, g[name], w);
      assert Match(g, k + 1, Ref(name), w);
    }
  }

  // ---------------------------------------------------------------------------------------------
  // The bound that is refused

  /** An upper bound of minus one, after the digits of a lower bound, is a syntax error. */
  lemma MinusRefused(src: string, pos: nat, end: nat, nested: bool)
    requires pos < end && end + 1 < |src| && (forall i :: pos <= i < end ==> IsDigitChar(src[i]))
    requires src[end] == ',' && src[end + 1] == '-'
    ensures ReadBounds(src, pos, nested) == Failure(ExpectingBrace)
  {
    IntEndAt(src, pos, end);
    assert SpaceEnd(src, end, nested) == end;
    assert SpaceEnd(src, end + 1, nested) == end + 1;
  }
}
