/** The expressions generated for integers within bounds. */
module IntegerBounds {
  import opened Wrappers
  import opened Gbnf
  import opened Lowering
  import opened Numerals

  // ---------------------------------------------------------------------------------------------
  // Expressions without references

  predicate IsAscii(c: Code) {
    c < 0x80
  }

  predicate AsciiRange(r: CharRange) {
    match r
    case One(c) => IsAscii(c)
    case Span(lo, hi) => IsAscii(lo) && IsAscii(hi)
  }

  /** It refers to no rules, and all its characters are ASCII. */
  predicate Standalone(e: Expr) {
    match e
    case Lit(text) => forall i :: 0 <= i < |text| ==> IsAscii(text[i])
    case Class(_, ranges) => forall i :: 0 <= i < |ranges| ==> AsciiRange(ranges[i])
    case Ref(_) => false
    case Group(body) => Standalone(body)
    case Cat(left, right) => Standalone(left) && Standalone(right)
    case Alt(left, right) => Standalone(left) && Standalone(right)
    case Rep(item, _, _) => Standalone(item)
    case _ => true
  }

  ghost predicate Accepts(e: Expr, w: Text) {
    Match(map[], 0, e, w)
  }

  /** An expression without references means the same in every grammar. */
  lemma {:induction false} SameEverywhere(g: Grammar, k: nat, e: Expr, w: Text)
    requires Standalone(e)
    ensures Match(g, k, e, w) <==> Accepts(e, w)
    decreases e, 0
  {
    match e
    case Group(body) => SameEverywhere(g, k, body, w);
    case Cat(left, right) =>
      forall i | 0 <= i <= |w|
        ensures Match(g, k, left, w[..i]) <==> Accepts(left, w[..i])
        ensures Match(g, k, right, w[i..]) <==> Accepts(right, w[i..])
      {
        SameEverywhere(g, k, left, w[..i]);
        SameEverywhere(g, k, right, w[i..]);
      }
    case Alt(left, right) =>
      SameEverywhere(g, k, left, w);
      SameEverywhere(g, k, right, w);
    case Rep(item, min, max) =>
      if Match(g, k, e, w) {
        var c := RepCount(g, k, item, min, max, w);
        SamePower(g, k, item, c, w);
      }
      if Accepts(e, w) {
        var c := RepCount(map[], 0, item, min, max, w);
        SamePower(g, k, item, c, w);
      }
    case _ =>
  }

  lemma {:induction false} SamePower(g: Grammar, k: nat, e: Expr, c: nat, w: Text)
    requires Standalone(e)
    ensures Power(g, k, e, c, w) <==> Power(map[], 0, e, c, w)
    decreases e, c + 1
  {
    if c > 0 {
      forall i | 0 <= i <= |w|
        ensures Match(g, k, e, w[..i]) <==> Accepts(e, w[..i])
        ensures Power(g, k, e, c - 1, w[i..]) <==> Power(map[], 0, e, c - 1, w[i..])
      {
        SameEverywhere(g, k, e, w[..i]);
        SamePower(g, k, e, c - 1, w[i..]);
      }
    }
  }

  // ---------------------------------------------------------------------------------------------
  // Building blocks

  function DigitRange(from: Code, to: Code): Expr {
    Class(false, [if from == to then One(from) else Span(from, to)])
  }

  const ANY_DIGIT := DigitRange(ZERO, NINE)

  function MoreDigits(min: nat, max: nat): (e: Expr)
    ensures Standalone(e) && (min <= max ==> Sensible(e))
  {
    assert Standalone(ANY_DIGIT) && Sensible(ANY_DIGIT);
    if min == max == 1 then ANY_DIGIT else Rep(ANY_DIGIT, min, Some(max))
  }

  lemma RangeAccepts(from: Code, to: Code, w: Text)
    ensures Accepts(DigitRange(from, to), w) <==> |w| == 1 && from <= w[0] <= to
  {
    var r := if from == to then One(from) else Span(from, to);
    if |w| == 1 {
      assert InRanges(w[0], [r]) <==> InRange(w[0], [r][0]);
    }
  }

  /** A digit of a range and then whatever `e` accepts. */
  lemma RangeThen(from: Code, to: Code, e: Expr, w: Text)
    ensures Accepts(Cat(DigitRange(from, to), e), w) <==> w != [] && from <= w[0] <= to && Accepts(e, w[1..])
  {
    forall i | 0 <= i <= |w|
      ensures Accepts(DigitRange(from, to), w[..i]) <==> i == 1 && from <= w[0] <= to
    {
      RangeAccepts(from, to, w[..i]);
    }
    if w != [] && from <= w[0] <= to && Accepts(e, w[1..]) {
      assert Accepts(DigitRange(from, to), w[..1]);
    }
  }

  /** A fixed text and then whatever `e` accepts. */
  lemma LiteralThen(text: Text, e: Expr, w: Text)
    ensures Accepts(Cat(Lit(text), e), w) <==> text <= w && Accepts(e, w[|text|..])
  {
    if text <= w && Accepts(e, w[|text|..]) {
      assert w[..|text|] == text && Accepts(Lit(text), w[..|text|]);
    }
    if Accepts(Cat(Lit(text), e), w) {
      var i := CatCut(map[], 0, Lit(text), e, w);
      assert w[..i] == text;
    }
  }

  lemma {:induction false} DigitsPower(c: nat, w: Text)
    ensures Power(map[], 0, ANY_DIGIT, c, w) <==> |w| == c && IsNumeral(w)
    decreases c
  {
    if c > 0 {
      forall i | 0 <= i <= |w|
        ensures Accepts(ANY_DIGIT, w[..i]) <==> i == 1 && IsDigit(w[0])
      {
        RangeAccepts(ZERO, NINE, w[..i]);
      }
      if w != [] {
        DigitsPower(c - 1, w[1..]);
        assert Accepts(ANY_DIGIT, w[..1]) <==> IsDigit(w[0]);
        assert w == [w[0]] + w[1..];
      }
    }
  }

  lemma MoreDigitsAccepts(min: nat, max: nat, w: Text)
    ensures Accepts(MoreDigits(min, max), w) <==> min <= |w| <= max && IsNumeral(w)
  {
    var e := MoreDigits(min, max);
    RangeAccepts(ZERO, NINE, w);
    DigitsPower(|w|, w);
    if e.Rep? && Accepts(e, w) {
      var c := RepCount(map[], 0, ANY_DIGIT, min, Some(max), w);
      DigitsPower(c, w);
    }
  }

  // ---------------------------------------------------------------------------------------------
  // Numerals of one length

  predicate Between(from: Text, to: Text, w: Text)
    requires |from| == |to|
  {
    |w| == |from| && IsNumeral(w) && AtMost(from, w) && AtMost(w, to)
  }

  lemma {:induction false} AtMostExtremes(w: Text)
    requires IsNumeral(w)
    ensures AtMost(Repeated(ZERO, |w|), w) && AtMost(w, Repeated(NINE, |w|))
    decreases |w|
  {
    if w != [] {
      AtMostExtremes(w[1..]);
      assert Repeated(ZERO, |w|)[1..] == Repeated(ZERO, |w| - 1) && Repeated(NINE, |w|)[1..] == Repeated(NINE, |w| - 1);
    }
  }

  lemma {:induction false} BetweenPrefix(prefix: Text, from: Text, to: Text, w: Text)
    requires IsNumeral(prefix) && |from| == |to|
    ensures Between(prefix + from, prefix + to, w) <==> prefix <= w && Between(from, to, w[|prefix|..])
    decreases |prefix|
  {
    if prefix == [] {
      assert prefix + from == from && prefix + to == to && w[0..] == w;
    } else {
      var a, b := prefix + from, prefix + to;
      assert a[1..] == prefix[1..] + from && b[1..] == prefix[1..] + to;
      if w != [] {
        BetweenPrefix(prefix[1..], from, to, w[1..]);
        assert w == [w[0]] + w[1..];
        assert prefix == [prefix[0]] + prefix[1..];
        assert prefix <= w <==> prefix[0] == w[0] && prefix[1..] <= w[1..];
        if prefix <= w {
          assert w[|prefix|..] == w[1..][|prefix| - 1..];
        }
      }
    }
  }

  /** Bounds that differ in their first digit, split by the first digit of the numeral. */
  lemma BetweenSplit(from: Text, to: Text, w: Text)
    requires IsNumeral(from) && IsNumeral(to) && |from| == |to| > 0 && from[0] < to[0]
    ensures Between(from, to, w) <==>
            (&& |w| == |from|
             && IsNumeral(w)
             && (|| (w[0] == from[0] && AtMost(from[1..], w[1..]))
                 || from[0] < w[0] < to[0]
                 || (w[0] == to[0] && AtMost(w[1..], to[1..]))))
  {
  }

  /** A first digit of a range and any other digits. */
  lemma RangeThenDigits(from: Code, to: Code, n: nat, w: Text)
    requires ZERO <= from && to <= NINE
    ensures Accepts(Cat(DigitRange(from, to), MoreDigits(n, n)), w) <==>
            |w| == n + 1 && IsNumeral(w) && from <= w[0] <= to
  {
    RangeThen(from, to, MoreDigits(n, n), w);
    if w != [] {
      MoreDigitsAccepts(n, n, w[1..]);
      assert w == [w[0]] + w[1..];
    }
  }

  /** A first digit and other digits within bounds. */
  lemma DigitThen(d: Code, from: Text, to: Text, e: Expr, w: Text)
    requires IsDigit(d) && |from| == |to| && (forall v :: Accepts(e, v) <==> Between(from, to, v))
    ensures Accepts(Cat(DigitRange(d, d), e), w) <==>
            |w| == |from| + 1 && IsNumeral(w) && w[0] == d && AtMost(from, w[1..]) && AtMost(w[1..], to)
  {
    RangeThen(d, d, e, w);
    if w != [] {
      assert w == [w[0]] + w[1..];
    }
  }

  /** What is written for an upper bound: digits, or a minus sign and digits. */
  predicate IsUpper(w: Text) {
    IsNumeral(w) || (|w| > 1 && w[0] == MINUS && IsNumeral(w[1..]))
  }

  predicate InOrder(from: Text, to: Text) {
    IsNumeral(to) && |from| == |to| && AtMost(from, to)
  }

  /** The bounds differ in their last digits only, and these are exchanged. */
  predicate LastExchanged(from: Text, to: Text) {
    && |from| == |to| > 0
    && from[..|from| - 1] == to[..|from| - 1]
    && from[|from| - 1] > to[|from| - 1]
  }

  ghost predicate AcceptsSome(e: Expr) {
    exists w :: Accepts(e, w)
  }

  /** Exactly the numerals between bounds in order; otherwise nothing, just when the last digits are exchanged. */
  ghost predicate Ranges(e: Expr, from: Text, to: Text) {
    && Standalone(e)
    && Sensible(e)
    && if InOrder(from, to) then forall w :: Accepts(e, w) <==> Between(from, to, w)
       else AcceptsSome(e) <==> !LastExchanged(from, to)
  }

  /** The digits from the first difference of the bounds on. */
  method DifferingRange(from: Text, to: Text) returns (e: Expr)
    requires IsNumeral(from) && IsUpper(to) && 0 < |to| <= |from| && from[0] != to[0]
    ensures Ranges(e, from, to)
    decreases |from|, 2
  {
    var f, t, subLen := from[0], to[0], |from| - 1;
    if subLen == 0 {
      e := DigitRange(f, t);
      OneDigit(from, to);
      return;
    }
    var toSub, zeros := to[1..], Repeated(ZERO, subLen);
    var toReached;
    e, toReached := BeforeLast(from, to);
    if !toReached {
      ghost var before := e;
      var inner := UniformRange(zeros, toSub);
      var last := Cat(DigitRange(t, t), inner);
      assert Standalone(last) && Sensible(last);
      e := Alt(e, last);
      WithLast(from, to, before, inner, e);
    } else {
      forall w
        ensures Accepts(e, w) <==> Between(from, to, w)
      {
        ReachedSplit(from, to, w);
      }
    }
    e := Group(e);
    assert Standalone(e) && Sensible(e);
    GroupRanges(e.body, from, to);
  }

  lemma GroupRanges(e: Expr, from: Text, to: Text)
    requires Ranges(e, from, to)
    ensures Ranges(Group(e), from, to)
  {
    assert forall w :: Accepts(Group(e), w) <==> Accepts(e, w);
    if AcceptsSome(e) {
      var w :| Accepts(e, w);
      assert Accepts(Group(e), w);
    }
  }

  lemma OneDigit(from: Text, to: Text)
    requires IsNumeral(from) && IsUpper(to) && |to| == |from| == 1 && from[0] != to[0]
    ensures Ranges(DigitRange(from[0], to[0]), from, to)
  {
    var f, t := from[0], to[0];
    var e := DigitRange(f, t);
    assert from[1..] == to[1..] == [] && from[..0] == to[..0];
    forall w
      ensures Accepts(e, w) <==> |w| == 1 && f <= w[0] <= t
    {
      RangeAccepts(f, t, w);
    }
    forall w: Text | |w| == 1
      ensures (AtMost(from, w) <==> f <= w[0]) && (AtMost(w, to) <==> w[0] <= t)
    {
      assert w[1..] == [];
    }
  }

  /** With the alternative for the last first digit. */
  lemma WithLast(from: Text, to: Text, before: Expr, inner: Expr, e: Expr)
    requires IsNumeral(from) && IsUpper(to) && 0 < |to| <= |from| && |from| > 1 && from[0] != to[0]
    requires e == Alt(before, Cat(DigitRange(to[0], to[0]), inner)) && Standalone(e) && Sensible(e)
    requires InOrder(from, to) ==> forall w :: Accepts(before, w) <==> UpToLast(from, to, false, w)
    requires Ranges(inner, Repeated(ZERO, |from| - 1), to[1..])
    ensures Ranges(e, from, to)
  {
    var zeros, toSub := Repeated(ZERO, |from| - 1), to[1..];
    if InOrder(from, to) {
      AtMostExtremes(toSub);
      forall w
        ensures Accepts(e, w) <==> Between(from, to, w)
      {
        DigitThen(to[0], zeros, toSub, inner, w);
        LastSplit(from, to, w);
      }
    } else {
      FromZeros(zeros, toSub, inner);
      var v :| Accepts(inner, v);
      var w := [to[0]] + v;
      assert w[1..] == v;
      RangeThen(to[0], to[0], inner, w);
      assert Accepts(e, w);
      NotLast(from, to);
    }
  }

  lemma NotLast(from: Text, to: Text)
    requires |from| > 1 && 0 < |to| <= |from| && from[0] != to[0]
    ensures !LastExchanged(from, to)
  {
    if |from| == |to| {
      assert from[..|from| - 1][0] == from[0] && to[..|from| - 1][0] == to[0];
    }
  }

  /** From zeros on, something is accepted whatever comes last. */
  lemma FromZeros(zeros: Text, to: Text, e: Expr)
    requires zeros == Repeated(ZERO, |zeros|) && IsNumeral(to) && |to| <= |zeros| && Ranges(e, zeros, to)
    ensures AcceptsSome(e)
  {
    if |to| == |zeros| {
      AtMostExtremes(to);
      AtMostReflexive(to);
      assert Between(zeros, to, to);
    }
  }

  /** The part before the last first digit; `reached` tells that it is the whole. */
  method BeforeLast(from: Text, to: Text) returns (e: Expr, reached: bool)
    requires IsNumeral(from) && IsUpper(to) && 0 < |to| <= |from| && |from| > 1 && from[0] != to[0]
    ensures Standalone(e) && Sensible(e)
    ensures reached ==> InOrder(from, to) && to[1..] == Repeated(NINE, |from| - 1)
    ensures InOrder(from, to) ==> forall w :: Accepts(e, w) <==> UpToLast(from, to, reached, w)
    decreases |from|, 1
  {
    var f, t, subLen := from[0], to[0], |from| - 1;
    reached := false;
    if from[1..] == Repeated(ZERO, subLen) {
      e := Cat(DigitRange(f, t - 1), MoreDigits(subLen, subLen));
      assert Standalone(DigitRange(f, t - 1));
      if InOrder(from, to) {
        forall w
          ensures Accepts(e, w) <==> UpToLast(from, to, false, w)
        {
          RangeThenDigits(f, t - 1, subLen, w);
          UpToLastSplit(from, to, false, w);
        }
      }
    } else {
      e, reached := SplitFirst(from, to);
    }
  }

  /**
    The part before the last first digit when the lower bound does not end in zeros; `reached` tells
    that it is the whole.
   */
  method SplitFirst(from: Text, to: Text) returns (e: Expr, reached: bool)
    requires IsNumeral(from) && IsUpper(to) && 0 < |to| <= |from| && |from| > 1 && from[0] != to[0]
    ensures Standalone(e) && Sensible(e)
    ensures reached ==> InOrder(from, to) && to[1..] == Repeated(NINE, |from| - 1)
    ensures InOrder(from, to) ==> forall w :: Accepts(e, w) <==> UpToLast(from, to, reached, w)
    decreases |from|, 0
  {
    var f, t, subLen := from[0], to[0], |from| - 1;
    var nines := Repeated(NINE, subLen);
    AtMostExtremes(from[1..]);
    var inner := UniformRange(from[1..], nines);
    e := Cat(DigitRange(f, f), Group(inner));
    assert Standalone(Group(inner)) && Sensible(Group(inner));
    reached := false;
    if f < t - 1 {
      reached := to[1..] == nines;
      e := Alt(e, Cat(DigitRange(f + 1, if reached then t else t - 1), MoreDigits(subLen, subLen)));
    }
    if InOrder(from, to) {
      forall w
        ensures Accepts(e, w) <==> UpToLast(from, to, reached, w)
      {
        DigitThen(f, from[1..], nines, Group(inner), w);
        RangeThenDigits(f + 1, if reached then t else t - 1, subLen, w);
        UpToLastSplit(from, to, reached, w);
      }
    }
  }

  /**
    The numerals between the bounds that begin with less than the last first digit, or with that too if
    all of those count.
   */
  predicate UpToLast(from: Text, to: Text, all: bool, w: Text)
    requires |from| == |to| > 0
  {
    && |w| == |from|
    && IsNumeral(w)
    && ((w[0] == from[0] && AtMost(from[1..], w[1..])) || from[0] < w[0] < to[0] || (all && w[0] == to[0]))
  }

  lemma UpToLastSplit(from: Text, to: Text, all: bool, w: Text)
    requires IsNumeral(from) && IsNumeral(to) && |from| == |to| > 0 && from[0] < to[0]
    ensures var zeros := Repeated(ZERO, |from| - 1);
            from[1..] == zeros && !all ==>
              (UpToLast(from, to, all, w) <==> |w| == |from| && IsNumeral(w) && from[0] <= w[0] < to[0])
    ensures |w| == |from| && IsNumeral(w) ==> AtMost(w[1..], Repeated(NINE, |from| - 1))
  {
    if |w| == |from| && IsNumeral(w) {
      AtMostExtremes(w[1..]);
    }
  }

  lemma LastSplit(from: Text, to: Text, w: Text)
    requires IsNumeral(from) && IsNumeral(to) && |from| == |to| > 0 && from[0] < to[0]
    ensures Between(from, to, w) <==>
            (UpToLast(from, to, false, w) ||
             (|w| == |from| && IsNumeral(w) && w[0] == to[0] && AtMost(Repeated(ZERO, |from| - 1), w[1..]) &&
               AtMost(w[1..], to[1..])))
  {
    BetweenSplit(from, to, w);
    if |w| == |from| && IsNumeral(w) {
      AtMostExtremes(w[1..]);
    }
  }

  lemma ReachedSplit(from: Text, to: Text, w: Text)
    requires IsNumeral(from) && IsNumeral(to) && |from| == |to| > 0 && from[0] < to[0]
    requires to[1..] == Repeated(NINE, |from| - 1)
    ensures Between(from, to, w) <==> UpToLast(from, to, true, w)
  {
    BetweenSplit(from, to, w);
    if |w| == |from| && IsNumeral(w) {
      AtMostExtremes(w[1..]);
    }
  }

  /** The digits the bounds have in common, and then what is between them. */
  method UniformRange(from: Text, to: Text) returns (e: Expr)
    requires IsNumeral(from) && IsUpper(to) && |to| <= |from|
    ensures Ranges(e, from, to)
    decreases |from|, 3
  {
    var i := 0;
    while i < |from| && i < |to| && from[i] == to[i]
      invariant i <= |to| && from[..i] == to[..i]
    {
      i := i + 1;
    }
    var prefix, rest := from[..i], Empty;
    CommonPrefix(from, to, i);
    if i < |to| {
      rest := DifferingRange(from[i..], to[i..]);
    } else {
      NothingMore(from[i..]);
    }
    e := if i == 0 then rest else if i == |to| then Lit(prefix) else Cat(Lit(prefix), rest);
    assert Standalone(rest) && Sensible(rest);
    PrefixRanges(from, to, i, rest, e);
  }

  lemma NothingMore(from: Text)
    requires IsNumeral(from)
    ensures Ranges(Empty, from, [])
  {
    assert Accepts(Empty, []);
  }

  lemma CommonPrefix(from: Text, to: Text, i: nat)
    requires IsNumeral(from) && IsUpper(to) && i <= |to| <= |from| && from[..i] == to[..i]
    ensures IsNumeral(from[..i]) && IsNumeral(from[i..]) && IsUpper(to[i..])
    ensures InOrder(from, to) <==> InOrder(from[i..], to[i..])
    ensures LastExchanged(from, to) <==> LastExchanged(from[i..], to[i..])
    decreases i
  {
    if i > 0 {
      assert from[0] == from[..i][0] == to[..i][0] == to[0];
      var f, t := from[1..], to[1..];
      assert f[..i - 1] == from[..i][1..] && t[..i - 1] == to[..i][1..];
      assert IsNumeral(t);
      assert forall k :: 0 < k < |to| ==> to[k] == t[k - 1];
      CommonPrefix(f, t, i - 1);
      assert f[i - 1..] == from[i..] && t[i - 1..] == to[i..];
      FirstSame(from, to);
    } else {
      assert from[0..] == from && to[0..] == to;
    }
  }

  lemma FirstSame(from: Text, to: Text)
    requires IsNumeral(from) && from != [] && to != [] && from[0] == to[0] && |to| <= |from|
    ensures InOrder(from, to) <==> InOrder(from[1..], to[1..])
    ensures LastExchanged(from, to) <==> LastExchanged(from[1..], to[1..])
  {
    var f, t := from[1..], to[1..];
    assert from == [from[0]] + f && to == [to[0]] + t;
    if |from| == |to| > 1 {
      var n := |from| - 1;
      assert from[..n] == [from[0]] + f[..n - 1] && to[..n] == [to[0]] + t[..n - 1];
      assert from[..n] == to[..n] <==> f[..n - 1] == t[..n - 1] by {
        assert from[..n][1..] == f[..n - 1] && to[..n][1..] == t[..n - 1];
      }
    }
  }

  lemma PrefixRanges(from: Text, to: Text, i: nat, rest: Expr, e: Expr)
    requires IsNumeral(from) && IsUpper(to) && i <= |to| <= |from| && from[..i] == to[..i]
    requires Ranges(rest, from[i..], to[i..]) && (i == |to| ==> rest == Empty)
    requires e == if i == 0 then rest else if i == |to| then Lit(from[..i]) else Cat(Lit(from[..i]), rest)
    ensures Ranges(e, from, to)
  {
    var prefix := from[..i];
    CommonPrefix(from, to, i);
    assert from == prefix + from[i..] && to == prefix + to[i..];
    forall w
      ensures Accepts(e, w) <==> prefix <= w && Accepts(rest, w[i..])
    {
      LiteralThen(prefix, rest, w);
      assert i == 0 ==> w[i..] == w;
      assert i == |to| ==> (prefix <= w && w[i..] == [] <==> w == prefix);
    }
    if InOrder(from, to) {
      forall w
        ensures Accepts(e, w) <==> Between(from, to, w)
      {
        BetweenPrefix(prefix, from[i..], to[i..], w);
      }
    } else {
      if AcceptsSome(rest) {
        var v :| Accepts(rest, v);
        assert (prefix + v)[i..] == v;
        assert Accepts(e, prefix + v);
      }
      if AcceptsSome(e) {
        var w :| Accepts(e, w);
        assert Accepts(rest, w[i..]);
      }
    }
  }

  lemma {:induction false} AtMostReflexive(w: Text)
    ensures AtMost(w, w)
    decreases |w|
  {
    if w != [] {
      AtMostReflexive(w[1..]);
    }
  }

  // ---------------------------------------------------------------------------------------------
  // Two bounds

  /** `w` is the numeral, with its sign, of an integer within the bounds; negative zero is one when it can be. */
  predicate SignedBetween(min: int, max: int, w: Text) {
    || (Canonical(w) && min <= Value(w) <= max)
    || (min < 0 && w != [] && w[0] == MINUS && Canonical(w[1..]) && -max <= Value(w[1..]) <= -min)
  }

  /** The numerals of the length of `start` from `start` on are those of numbers from `min` on. */
  ghost predicate Starts(min: nat, start: Text) {
    && IsNumeral(start)
    && |Numeral(min)| <= |start|
    && forall w :: |w| == |start| && IsNumeral(w) ==> (AtMost(start, w) <==> Canonical(w) && min <= Value(w))
  }

  /** The numerals of the length of `end` up to `end` are those of numbers up to `max`. */
  ghost predicate Ends(max: nat, end: Text) {
    && IsNumeral(end)
    && forall w :: |w| == |end| && IsNumeral(w) ==> (AtMost(w, end) <==> Value(w) <= max)
  }

  lemma FirstStart(min: nat)
    ensures Starts(min, Numeral(min))
  {
    var start := Numeral(min);
    forall w | |w| == |start| && IsNumeral(w)
      ensures AtMost(start, w) <==> Canonical(w) && min <= Value(w)
    {
      OrderByValue(start, w);
    }
  }

  lemma NextStart(min: nat, digits: nat)
    requires |Numeral(min)| <= digits
    ensures Starts(min, [ZERO + 1] + Repeated(ZERO, digits))
  {
    var start := [ZERO + 1] + Repeated(ZERO, digits);
    assert start[1..] == Repeated(ZERO, digits);
    forall w | |w| == |start| && IsNumeral(w)
      ensures AtMost(start, w) <==> Canonical(w) && min <= Value(w)
    {
      AtMostExtremes(w[1..]);
      if Canonical(w) {
        LongerIsGreater(Numeral(min), w);
      }
    }
  }

  /** What `out` accepts, if it is there, or a number from `min` to `max` whose numeral has the length of `start`. */
  ghost predicate Appends(out: Option<Expr>, e: Expr, min: nat, max: nat, length: nat) {
    && Standalone(e)
    && Sensible(e)
    && forall w :: Accepts(e, w) <==>
         ((out.Some? && Accepts(out.value, w)) || (|w| == length && Canonical(w) && min <= Value(w) <= max))
  }

  lemma Appended(min: nat, start: Text, end: Text, max: nat, out: Option<Expr>, part: Expr, e: Expr)
    requires Starts(min, start) && Ends(max, end) && |start| == |end| && AtMost(start, end)
    requires out.Some? ==> Standalone(out.value) && Sensible(out.value)
    requires Ranges(part, start, end) && e == if out.Some? then Alt(out.value, part) else part
    ensures Appends(out, e, min, max, |start|)
  {
    forall w
      ensures Accepts(e, w) <==>
        ((out.Some? && Accepts(out.value, w)) || (|w| == |start| && Canonical(w) && min <= Value(w) <= max))
    {
      assert Accepts(part, w) <==> Between(start, end, w);
    }
  }

  /** What `out` accepts, or a number from `min` on of fewer than `digits` digits. */
  ghost predicate Covers(out: Option<Expr>, acc: Option<Expr>, min: nat, digits: nat) {
    && (acc.Some? ==> Standalone(acc.value) && Sensible(acc.value))
    && forall w :: (acc.Some? && Accepts(acc.value, w)) <==>
         ((out.Some? && Accepts(out.value, w)) || (|w| < digits && Canonical(w) && min <= Value(w)))
  }

  lemma CoversNone(out: Option<Expr>, min: nat)
    requires out.Some? ==> Standalone(out.value) && Sensible(out.value)
    ensures Covers(out, out, min, |Numeral(min)|)
  {
    forall w | |w| < |Numeral(min)| && Canonical(w)
      ensures Value(w) < min
    {
      LongerIsGreater(w, Numeral(min));
    }
  }

  lemma CoversMore(out: Option<Expr>, acc: Option<Expr>, part: Expr, min: nat, digits: nat)
    requires Covers(out, acc, min, digits) && Appends(acc, part, min, Pow10(digits), digits)
    ensures Covers(out, Some(part), min, digits + 1)
  {
    forall w
      ensures Accepts(part, w) <==>
              ((out.Some? && Accepts(out.value, w)) || (|w| < digits + 1 && Canonical(w) && min <= Value(w)))
    {
      if IsNumeral(w) {
        ValueBelow(w);
      }
      assert (acc.Some? && Accepts(acc.value, w)) <==>
        ((out.Some? && Accepts(out.value, w)) || (|w| < digits && Canonical(w) && min <= Value(w)));
    }
  }

  /** All the numbers from `min` on whose numerals have `digits` digits, appended. */
  method AppendFullLength(min: nat, start: Text, digits: nat, ghost out: Option<Expr>, acc: Option<Expr>)
    returns (e: Expr)
    requires digits == |start| && Starts(min, start) && Covers(out, acc, min, digits)
    ensures Covers(out, Some(e), min, digits + 1)
  {
    var nines := Repeated(NINE, digits);
    NinesAtLeast(nines, start);
    var part := UniformRange(start, nines);
    e := if acc.Some? then Alt(acc.value, part) else part;
    Appended(min, start, nines, Pow10(digits), acc, part, e);
    CoversMore(out, acc, e, min, digits);
  }

  lemma CoversAll(out: Option<Expr>, acc: Option<Expr>, e: Expr, min: nat, max: nat, w: Text)
    requires Covers(out, acc, min, |Numeral(max)|) && Appends(acc, e, min, max, |Numeral(max)|)
    ensures Accepts(e, w) <==> ((out.Some? && Accepts(out.value, w)) || (Canonical(w) && min <= Value(w) <= max))
  {
    var end := Numeral(max);
    assert (acc.Some? && Accepts(acc.value, w)) <==>
      ((out.Some? && Accepts(out.value, w)) || (|w| < |end| && Canonical(w) && min <= Value(w)));
    if Canonical(w) && |w| < |end| {
      LongerIsGreater(w, end);
    } else if Canonical(w) && |end| < |w| {
      LongerIsGreater(end, w);
    }
  }

  /** The numeral of an integer, with its sign. */
  function SignedNumeral(n: int): Text {
    if n < 0 then [MINUS] + Numeral(-n) else Numeral(n)
  }

  /** The number that decimal digits say, as characters. */
  function DigitsSay(w: Text): int {
    if w == [] then 0 else 10 * DigitsSay(w[..|w| - 1]) + (w[|w| - 1] as int - 48)
  }

  /** A numeral is its digits, without leading zeros, and a minus sign in front of them if it is negative. */
  lemma NumeralIs(n: int)
    ensures var w := SignedNumeral(n);
            var digits := if n < 0 then w[1..] else w;
            && (n < 0 ==> w[0] == 45)
            && digits != []
            && (forall i :: 0 <= i < |digits| ==> 48 <= digits[i] <= 57)
            && (|digits| > 1 ==> digits[0] != 48)
            && DigitsSay(digits) == if n < 0 then -n else n
  {
    var m: nat := if n < 0 then -n else n;
    assert n < 0 ==> SignedNumeral(n)[1..] == Numeral(m);
    DigitsValue(Numeral(m));
  }

  lemma {:induction false} DigitsValue(w: Text)
    requires IsNumeral(w)
    ensures DigitsSay(w) == Value(w)
    decreases |w|
  {
    if w != [] {
      DigitsValue(w[..|w| - 1]);
    }
  }

  /** The bounds agree in sign and in all digits but the last. */
  predicate AgreeButLast(min: int, max: int) {
    (min < 0 <==> max < 0) && Magnitude(min) / 10 == Magnitude(max) / 10
  }

  function Magnitude(n: int): nat {
    if n < 0 then -n else n
  }

  /**
    The numbers from `min` to `max`, appended to `out`. With the bounds exchanged nothing is accepted just
    when they agree in sign and in all digits but the last.
   */
  method AppendNumbers(min: nat, max: int, out: Option<Expr>) returns (e: Expr)
    requires (min <= max || out.None?) && (out.Some? ==> Standalone(out.value) && Sensible(out.value))
    ensures Standalone(e) && Sensible(e)
    ensures min <= max ==> forall w :: Accepts(e, w) <==>
      ((out.Some? && Accepts(out.value, w)) || (Canonical(w) && min <= Value(w) <= max))
    ensures min > max ==> (AcceptsSome(e) <==> !AgreeButLast(min, max))
  {
    var maxS := SignedNumeral(max);
    UpperLength(min, max);
    var minS, acc := AppendShorter(min, |maxS|, out);
    var part := UniformRange(minS, maxS);
    e := if acc.Some? then Alt(acc.value, part) else part;
    if min <= max {
      InOrderAppended(min, max, minS, maxS, out, acc, part, e);
    } else {
      Exchanged(min, max, minS, maxS, acc, part, e);
    }
  }

  /** The numbers from `min` on of fewer than `length` digits, and where the others begin. */
  method AppendShorter(min: nat, length: nat, out: Option<Expr>) returns (minS: Text, acc: Option<Expr>)
    requires out.Some? ==> Standalone(out.value) && Sensible(out.value)
    ensures |minS| == if length <= |Numeral(min)| then |Numeral(min)| else length
    ensures length <= |Numeral(min)| ==> minS == Numeral(min) && acc == out
    ensures Starts(min, minS) && Covers(out, acc, min, |minS|)
  {
    minS, acc := Numeral(min), out;
    FirstStart(min);
    CoversNone(out, min);
    var digits := |minS|;
    while digits < length
      invariant |Numeral(min)| <= digits == |minS| && (digits > |Numeral(min)| ==> digits <= length)
      invariant digits == |Numeral(min)| ==> minS == Numeral(min) && acc == out
      invariant Starts(min, minS) && Covers(out, acc, min, digits)
    {
      var part := AppendFullLength(min, minS, digits, out, acc);
      minS := [ZERO + 1] + Repeated(ZERO, digits);
      NextStart(min, digits);
      digits := digits + 1;
      acc := Some(part);
    }
  }

  lemma InOrderAppended(min: nat, max: nat, start: Text, end: Text, out: Option<Expr>, acc: Option<Expr>, part: Expr,
                        e: Expr)
    requires min <= max && Starts(min, start) && end == Numeral(max) && |start| == |end| && Covers(out, acc, min, |end|)
    requires Ranges(part, start, end) && e == if acc.Some? then Alt(acc.value, part) else part
    ensures Standalone(e) && Sensible(e)
    ensures forall w :: Accepts(e, w) <==>
      ((out.Some? && Accepts(out.value, w)) || (Canonical(w) && min <= Value(w) <= max))
  {
    EndOrder(min, max, start, end);
    Appended(min, start, end, max, acc, part, e);
    AppendedAll(out, acc, e, min, max);
  }

  lemma UpperLength(min: nat, max: int)
    ensures IsUpper(SignedNumeral(max))
    ensures min <= max ==> |Numeral(min)| <= |Numeral(max)|
    ensures min > max >= 0 ==> |Numeral(max)| <= |Numeral(min)|
  {
    if max < 0 {
      assert SignedNumeral(max)[1..] == Numeral(-max);
    } else if min <= max {
      LengthOrder(min, max);
    } else {
      LengthOrder(max, min);
    }
  }

  lemma LengthOrder(m: nat, n: nat)
    requires m <= n
    ensures |Numeral(m)| <= |Numeral(n)|
  {
    if |Numeral(n)| < |Numeral(m)| {
      LongerIsGreater(Numeral(n), Numeral(m));
    }
  }

  lemma Exchanged(min: nat, max: int, start: Text, end: Text, acc: Option<Expr>, part: Expr, e: Expr)
    requires min > max && end == SignedNumeral(max) && IsNumeral(start) && |Numeral(min)| <= |start|
    requires |end| <= |start| && Ranges(part, start, end)
    requires |start| == |Numeral(min)| ==> start == Numeral(min) && acc.None?
    requires |start| > |Numeral(min)| ==> |start| == |end| && Covers(None, acc, min, |start|)
    requires acc.Some? ==> Standalone(acc.value) && Sensible(acc.value)
    requires e == if acc.Some? then Alt(acc.value, part) else part
    ensures AcceptsSome(e) <==> !AgreeButLast(min, max)
  {
    UpperLength(min, max);
    if |start| > |Numeral(min)| {
      assert Accepts(acc.value, Numeral(min));
      assert Accepts(e, Numeral(min));
    } else if max < 0 {
      MinusDiffers(start, end);
    } else {
      OrderExchanged(min, max);
      LastDigits(min, max);
    }
  }

  lemma MinusDiffers(from: Text, to: Text)
    requires IsNumeral(from) && |to| > 1 && to[0] == MINUS
    ensures !InOrder(from, to) && !LastExchanged(from, to)
  {
    assert !IsDigit(to[0]);
    if |from| == |to| {
      NotLast(from, to);
    }
  }

  lemma OrderExchanged(min: nat, max: nat)
    requires min > max
    ensures !InOrder(Numeral(min), Numeral(max))
  {
    if |Numeral(min)| == |Numeral(max)| {
      OrderByValue(Numeral(min), Numeral(max));
    }
  }

  /** The numerals differ in the last digit just when the numbers agree without it. */
  lemma LastDigits(min: nat, max: nat)
    requires min > max
    ensures LastExchanged(Numeral(min), Numeral(max)) <==> min / 10 == max / 10
  {
    SplitLast(min);
    SplitLast(max);
    if LastExchanged(Numeral(min), Numeral(max)) && min >= 10 {
      assert Value(Numeral(min / 10)) == Value(Numeral(max / 10));
    }
  }

  lemma SplitLast(n: nat)
    ensures var w := Numeral(n);
            w != [] && w[|w| - 1] == ZERO + n % 10 && w[..|w| - 1] == if n < 10 then [] else Numeral(n / 10)
  {
  }

  lemma AppendedAll(out: Option<Expr>, acc: Option<Expr>, e: Expr, min: nat, max: nat)
    requires Covers(out, acc, min, |Numeral(max)|) && Appends(acc, e, min, max, |Numeral(max)|)
    ensures forall w :: Accepts(e, w) <==>
      ((out.Some? && Accepts(out.value, w)) || (Canonical(w) && min <= Value(w) <= max))
  {
    forall w
      ensures Accepts(e, w) <==> ((out.Some? && Accepts(out.value, w)) || (Canonical(w) && min <= Value(w) <= max))
    {
      CoversAll(out, acc, e, min, max, w);
    }
  }

  lemma NinesAtLeast(nines: Text, start: Text)
    requires IsNumeral(start) && nines == Repeated(NINE, |start|)
    ensures Ends(Pow10(|nines|), nines) && AtMost(start, nines)
  {
    AtMostExtremes(start);
    forall w | |w| == |nines| && IsNumeral(w)
      ensures AtMost(w, nines) && Value(w) <= Pow10(|nines|)
    {
      AtMostExtremes(w);
      ValueBelow(w);
    }
  }

  lemma EndOrder(min: nat, max: nat, start: Text, end: Text)
    requires min <= max && Starts(min, start) && end == Numeral(max) && |start| == |end|
    ensures Ends(max, end) && AtMost(start, end)
  {
    assert AtMost(start, end) <==> Canonical(end) && min <= Value(end);
    forall w | |w| == |end| && IsNumeral(w)
      ensures AtMost(w, end) <==> Value(w) <= max
    {
      OrderByValue(w, end);
    }
  }

  /** A minus sign and a group. */
  lemma MinusThen(e: Expr, w: Text)
    ensures Accepts(Cat(Lit([MINUS]), Group(e)), w) <==> w != [] && w[0] == MINUS && Accepts(e, w[1..])
  {
    LiteralThen([MINUS], Group(e), w);
    assert [MINUS] <= w <==> w != [] && w[0] == MINUS;
  }

  predicate IsMinusZero(w: Text) {
    w == [MINUS, ZERO]
  }

  /** These texts are the numerals of the integers between the bounds, and negative zero for bounds around zero. */
  lemma SignedBetweenExact(min: int, max: int, w: Text)
    ensures SignedBetween(min, max, w) <==>
            ((exists n :: min <= n <= max && w == SignedNumeral(n)) || (min < 0 <= max && IsMinusZero(w)))
  {
    if Canonical(w) && min <= Value(w) <= max {
      CanonicalUnique(w);
      assert w == SignedNumeral(Value(w));
    }
    if min < 0 && w != [] && w[0] == MINUS && Canonical(w[1..]) && -max <= Value(w[1..]) <= -min {
      CanonicalUnique(w[1..]);
      assert w == [MINUS] + Numeral(Value(w[1..]));
      if Value(w[1..]) > 0 {
        assert w == SignedNumeral(-(Value(w[1..]) as int));
      } else {
        assert Numeral(0) == [ZERO];
      }
    }
    if n: int :| min <= n <= max && w == SignedNumeral(n) {
      if n < 0 {
        assert w[1..] == Numeral(-n);
      }
    }
    if IsMinusZero(w) {
      assert w[1..] == [ZERO] == Numeral(0);
    }
  }
}
