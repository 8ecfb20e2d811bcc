/** The generator of integers within bounds, either of which may be absent, with the marks for absent bounds it uses. */
module IntegerRules {
  import opened Wrappers
  import opened Gbnf
  import opened Lowering
  import opened Numerals
  import opened IntegerBounds
  import opened IntegerMinimum

  /** The least and the greatest C++ integer stand for an absent lower and upper bound, in inner calls too. */
  const INT_MIN: int := -0x8000_0000
  const INT_MAX: int := 0x7FFF_FFFF

  /** The most digits an integer with one bound is given. */
  const DECIMALS: nat := 16

  lemma TenDigits()
    ensures Pow10(10) == 10000000000
  {
    assert Pow10(5) == 100000;
  }

  /** The bounds are C++ integers, which have at most ten digits. */
  lemma IntLength(n: nat)
    requires n <= INT_MAX
    ensures Length(n) <= 10
  {
    var w := Numeral(n);
    if |w| > 10 {
      TenDigits();
      ValueFrom(w);
      Pow10Mono(10, |w| - 1);
    }
  }

  // ---------------------------------------------------------------------------------------------
  // What is promised

  /** A minus sign and the canonical numeral of a number from `low` on. */
  predicate Negative(w: Text, low: nat) {
    w != [] && w[0] == MINUS && Canonical(w[1..]) && low <= Value(w[1..])
  }

  /** Every accepted text is a minus sign and the numeral of a number from `m` on. */
  ghost predicate OnlyNegativeFrom(e: Expr, m: nat) {
    forall w :: Accepts(e, w) ==> Negative(w, m)
  }

  /** The negation of every number from `m` on that has at most `d` digits is accepted. */
  ghost predicate AllNegativeFrom(e: Expr, m: nat, d: nat) {
    forall n :: m <= n && Length(n) <= d ==> Accepts(e, [MINUS] + Numeral(n))
  }

  /** A minus sign and what `inner` accepts. */
  ghost predicate Negates(e: Expr, inner: Expr) {
    forall w :: Accepts(e, w) <==> w != [] && w[0] == MINUS && Accepts(inner, w[1..])
  }

  /** Just the numerals of the integers between the bounds, and negative zero when zero lies inside. */
  ghost predicate Exact(e: Expr, min: int, max: int) {
    forall w :: Accepts(e, w) <==> SignedBetween(min, max, w)
  }

  /** The bounds are kept; exchanged ones when they agree in sign and all digits but the last. */
  predicate KeepsBounds(min: int, max: int) {
    if min <= max then min != -INT_MAX else AgreeButLast(min, max)
  }

  /** The digits of `m` alone decide whether the negative numbers from `-m` down are exact. */
  ghost predicate NegativesBuilt(e: Expr, m: nat, topLevel: bool) {
    && (OnlyNegativeFrom(e, m) <==> NoneInside(Numeral(m), ZERO) && (topLevel || (m >= 10 && FirstDigit(m) == ONE)))
    && (AllNegativeFrom(e, m, 16) <==> NoneInside(Numeral(m), ONE))
  }

  /** With both bounds. Where the lower one is lost, its negation having become a mark, what is accepted instead. */
  ghost predicate TwoSidedBuilt(e: Expr, min: int, max: int) {
    && (Exact(e, min, max) <==> KeepsBounds(min, max))
    && (min == -INT_MAX && max >= 0 ==> forall w :: Accepts(e, w) <==>
          ((Negative(w, 0) && |w| - 1 <= 16) || (Canonical(w) && Value(w) <= max)))
    && (min == -INT_MAX && max < 0 ==> NegativesBuilt(e, -max, true))
  }

  /** With a lower bound alone. */
  ghost predicate MinimumBuilt(e: Expr, min: int, d: nat, topLevel: bool) {
    if min >= 0 then Guarantees(e, min, d, topLevel)
    else forall w :: Accepts(e, w) <==>
      ((Negative(w, 0) && Value(w[1..]) <= -min) || (Canonical(w) && |w| <= 16))
  }

  /** With an upper bound alone; below the top level just the numbers from zero on. */
  ghost predicate MaximumBuilt(e: Expr, max: int, topLevel: bool) {
    if max < 0 then NegativesBuilt(e, -max, false)
    else forall w :: Accepts(e, w) <==>
      ((topLevel && Negative(w, 1) && |w| - 1 <= 16) || (Canonical(w) && Value(w) <= max))
  }

  ghost predicate Built(e: Expr, min: int, max: int, d: nat, topLevel: bool) {
    && Standalone(e)
    && Sensible(e)
    && if max != INT_MAX then if min != INT_MIN then TwoSidedBuilt(e, min, max) else MaximumBuilt(e, max, topLevel)
       else min != INT_MIN && MinimumBuilt(e, min, d, topLevel)
  }

  // ---------------------------------------------------------------------------------------------
  // Negative numbers

  /** A minus sign and a group. */
  function Negated(inner: Expr): Expr {
    Cat(Lit([MINUS]), Group(inner))
  }

  lemma NegatedNegates(inner: Expr)
    requires Standalone(inner) && Sensible(inner)
    ensures Standalone(Negated(inner)) && Sensible(Negated(inner)) && Negates(Negated(inner), inner)
    ensures forall w: Text :: Accepts(Negated(inner), [MINUS] + w) <==> Accepts(inner, w)
  {
    var e := Negated(inner);
    assert Standalone(Group(inner)) && Sensible(Group(inner));
    forall w
      ensures Accepts(e, w) <==> w != [] && w[0] == MINUS && Accepts(inner, w[1..])
    {
      MinusThen(inner, w);
    }
    forall w: Text
      ensures Accepts(e, [MINUS] + w) <==> Accepts(inner, w)
    {
      assert ([MINUS] + w)[1..] == w;
    }
  }

  lemma NegativesFollow(inner: Expr, m: nat)
    requires Standalone(inner) && Sensible(inner)
    ensures OnlyNegativeFrom(Negated(inner), m) <==> OnlyFrom(inner, m)
    ensures AllNegativeFrom(Negated(inner), m, DECIMALS) <==> AllFrom(inner, m, DECIMALS)
  {
    NegatedNegates(inner);
    if OnlyNegativeFrom(Negated(inner), m) {
      forall w | Accepts(inner, w)
        ensures Canonical(w) && m <= Value(w)
      {
        NegatedNumeral(Negated(inner), m, w);
      }
    }
  }

  lemma NegatedNumeral(e: Expr, m: nat, w: Text)
    requires OnlyNegativeFrom(e, m) && Accepts(e, [MINUS] + w)
    ensures Canonical(w) && m <= Value(w)
  {
    var v := [MINUS] + w;
    assert v[1..] == w;
    assert Negative(v, m);
  }

  lemma NegativesFrom(inner: Expr, m: nat, topLevel: bool)
    requires 0 < m <= INT_MAX && Guarantees(inner, m, DECIMALS, topLevel)
    ensures NegativesBuilt(Negated(inner), m, topLevel)
  {
    IntLength(m);
    NegativesFollow(inner, m);
    Completeness(inner, m, DECIMALS, topLevel);
    if topLevel {
      TopLevelSound(inner, m, DECIMALS);
    } else {
      BelowTopLevelSound(inner, m, DECIMALS);
    }
  }

  lemma NegatedExact(inner: Expr, min: int, max: int)
    requires min < 0 && max < 0 && Standalone(inner) && Sensible(inner)
    ensures Exact(Negated(inner), min, max) <==> Exact(inner, -max, -min)
  {
    var e := Negated(inner);
    NegatedNegates(inner);
    forall v: Text
      ensures SignedBetween(min, max, [MINUS] + v) <==> SignedBetween(-max, -min, v)
    {
      var w := [MINUS] + v;
      assert w[1..] == v && !IsDigit(w[0]);
    }
    if Exact(inner, -max, -min) {
      forall w
        ensures Accepts(e, w) <==> SignedBetween(min, max, w)
      {
        assert w != [] && w[0] == MINUS ==> w == [MINUS] + w[1..];
      }
    }
  }

  // ---------------------------------------------------------------------------------------------
  // The lost lower bound

  lemma NinesAbove(n: nat)
    requires n >= 10
    ensures var w := Repeated(NINE, n); Canonical(w) && Value(w) > INT_MAX
  {
    var w := Repeated(NINE, n);
    NinesValue(10);
    assert Value(Repeated(NINE, 10)) > INT_MAX;
    if n > 10 {
      LongerIsGreater(Repeated(NINE, 10), w);
    }
  }

  lemma {:induction false} NinesValue(n: nat)
    ensures Value(Repeated(NINE, n)) == Pow10(n) - 1
    decreases n
  {
    if n > 0 {
      var w := Repeated(NINE, n);
      NinesValue(n - 1);
      assert w[..n - 1] == Repeated(NINE, n - 1);
    }
  }

  /** More nines than the bound has digits, after a minus sign, are accepted although they are below the bound. */
  lemma LostBound(e: Expr, min: int, max: int, n: nat)
    requires n >= 10 && min == -INT_MAX && Accepts(e, [MINUS] + Repeated(NINE, n))
    ensures !Exact(e, min, max)
  {
    var w := [MINUS] + Repeated(NINE, n);
    NinesAbove(n);
    assert w[1..] == Repeated(NINE, n) && !IsDigit(w[0]);
    assert !SignedBetween(min, max, w);
  }

  lemma LostBelow(inner: Expr, max: int)
    requires INT_MIN < max < 0 && Guarantees(inner, -max, DECIMALS, true)
    ensures TwoSidedBuilt(Negated(inner), -INT_MAX, max)
  {
    IntLength(-max);
    NegativesFrom(inner, -max, true);
    NegatedNegates(inner);
    assert Accepts(inner, Repeated(NINE, 11));
    LostBound(Negated(inner), -INT_MAX, max, 11);
  }

  /** A lower bound that is lost makes "-9999999999" acceptable, whatever the upper bound from zero on. */
  lemma LostAround(e: Expr, max: int)
    requires max >= 0
    requires forall w :: Accepts(e, w) <==>
      ((Negative(w, 0) && |w| - 1 <= DECIMALS) || (Canonical(w) && Value(w) <= max))
    ensures TwoSidedBuilt(e, -INT_MAX, max)
    ensures Accepts(e, [MINUS] + Repeated(NINE, 10)) && !SignedBetween(-INT_MAX, max, [MINUS] + Repeated(NINE, 10))
  {
    var w := [MINUS] + Repeated(NINE, 10);
    NinesAbove(10);
    assert w[1..] == Repeated(NINE, 10);
    assert Negative(w, 0);
    LostBound(e, -INT_MAX, max, 10);
    assert !IsDigit(w[0]);
  }

  /** Above -2147483647 and below 5 "-9999999999" is accepted; without the 5 there is no bound left at all. */
  lemma LeastBoundFails(e: Expr)
    requires TwoSidedBuilt(e, -0x7FFF_FFFF, 5)
    ensures Accepts(e, [MINUS] + Repeated(NINE, 10)) && !SignedBetween(-0x7FFF_FFFF, 5, [MINUS] + Repeated(NINE, 10))
    ensures Unbounded(-0x7FFF_FFFF, INT_MAX)
  {
    LostAround(e, 5);
  }

  // ---------------------------------------------------------------------------------------------
  // The generator

  datatype BoundsError = NoBound

  /** No bound is left: none is given, or a lower bound alone that becomes the mark when it is negated. */
  predicate Unbounded(min: int, max: int) {
    max == INT_MAX && (min == INT_MIN || min == -INT_MAX)
  }

  /** How far the inner calls are from the end. */
  function Phase(min: int, max: int): nat {
    if min == INT_MIN then if max == INT_MAX then 0 else 2
    else if min < 0 then 3
    else if max == INT_MAX then 1
    else 0
  }

  /** The digits left are those of the outermost call, or enough for the lower bound. */
  predicate EnoughDigits(min: int, max: int, d: nat) {
    if min >= 0 && max == INT_MAX then Length(min) < d else d == DECIMALS
  }

  /** The expression for an integer between bounds; the least and the greatest integer stand for absent ones. */
  method BuildMinMaxInt(min: int, max: int, decimalsLeft: nat, topLevel: bool) returns (r: Result<Expr, BoundsError>)
    requires INT_MIN <= min <= INT_MAX && INT_MIN < max <= INT_MAX && EnoughDigits(min, max, decimalsLeft)
    ensures r.Failure? <==> Unbounded(min, max)
    ensures r.Success? ==> Built(r.value, min, max, decimalsLeft, topLevel)
    decreases Phase(min, max), Magnitude(min), 1
  {
    if min != INT_MIN && max != INT_MAX {
      r := BuildTwoSided(min, max);
    } else if min != INT_MIN {
      r := BuildMinimum(min, decimalsLeft, topLevel);
    } else if max != INT_MAX {
      r := BuildMaximum(max, topLevel);
    } else {
      r := Failure(NoBound);
    }
  }

  method BuildTwoSided(min: int, max: int) returns (r: Result<Expr, BoundsError>)
    requires INT_MIN < min <= INT_MAX && INT_MIN < max < INT_MAX
    ensures r.Success? && Built(r.value, min, max, DECIMALS, true)
    decreases Phase(min, max), Magnitude(min), 0
  {
    if min < 0 && max < 0 {
      IntLength(-max);
      var inner := BuildMinMaxInt(-max, -min, DECIMALS, true);
      NegatedNegates(inner.value);
      if min == -INT_MAX {
        LostBelow(inner.value, max);
      } else {
        NegatedExact(inner.value, min, max);
      }
      return Success(Negated(inner.value));
    }
    var out := None;
    if min < 0 {
      var inner := BuildMinMaxInt(0, -min, DECIMALS, true);
      NegatedNegates(inner.value);
      FromZero(inner.value, -min);
      out := Some(Negated(inner.value));
    }
    var e := AppendNumbers(if min < 0 then 0 else min, max, out);
    AroundZero(e, out, min, max);
    r := Success(e);
  }

  /** From zero on, up to the bound unless it is the mark. */
  ghost predicate UpTo(e: Expr, max: int) {
    forall w :: Accepts(e, w) <==> Canonical(w) && if max == INT_MAX then |w| <= DECIMALS else Value(w) <= max
  }

  lemma FromZero(e: Expr, max: int)
    requires 0 < max <= INT_MAX && Built(e, 0, max, DECIMALS, true)
    ensures UpTo(e, max)
  {
    if max == INT_MAX {
      forall w
        ensures Accepts(e, w) <==> Canonical(w) && |w| <= DECIMALS
      {
        if Canonical(w) {
          ReachesValue(0, w);
        }
      }
    }
  }

  lemma MixedExact(e: Expr, negative: Expr, inner: Expr, min: int, max: int)
    requires -INT_MAX < min < 0 <= max && Negates(negative, inner) && UpTo(inner, -min)
    requires forall w :: Accepts(e, w) <==> (Accepts(negative, w) || (Canonical(w) && 0 <= Value(w) <= max))
    ensures Exact(e, min, max)
  {
    forall w
      ensures Accepts(e, w) <==> SignedBetween(min, max, w)
    {
      if w != [] && w[0] == MINUS {
        assert Accepts(negative, w) <==> Canonical(w[1..]) && Value(w[1..]) <= -min;
      }
    }
  }

  lemma AroundZero(e: Expr, out: Option<Expr>, min: int, max: int)
    requires INT_MIN < min <= INT_MAX && INT_MIN < max < INT_MAX && (min >= 0 || max >= 0)
    requires out.Some? <==> min < 0
    requires out.Some? ==> exists inner :: Negates(out.value, inner) && UpTo(inner, -min)
    requires var low := if min < 0 then 0 else min;
             && (low <= max ==> forall w :: Accepts(e, w) <==>
                   ((out.Some? && Accepts(out.value, w)) || (Canonical(w) && low <= Value(w) <= max)))
             && (low > max ==> (AcceptsSome(e) <==> !AgreeButLast(low, max)))
    ensures TwoSidedBuilt(e, min, max)
  {
    if min < 0 {
      var inner :| Negates(out.value, inner) && UpTo(inner, -min);
      if min == -INT_MAX {
        LostAround(e, max);
      } else {
        MixedExact(e, out.value, inner, min, max);
      }
    } else if min > max {
      if AcceptsSome(e) {
        var w :| Accepts(e, w);
        assert !SignedBetween(min, max, w);
      }
    }
  }

  method BuildMinimum(min: int, decimalsLeft: nat, topLevel: bool) returns (r: Result<Expr, BoundsError>)
    requires INT_MIN < min <= INT_MAX && EnoughDigits(min, INT_MAX, decimalsLeft)
    ensures r.Failure? <==> min == -INT_MAX
    ensures r.Success? ==> Built(r.value, min, INT_MAX, decimalsLeft, topLevel)
    decreases Phase(min, INT_MAX), Magnitude(min), 0
  {
    if min < 0 {
      var inner :- BuildMinMaxInt(INT_MIN, -min, DECIMALS, false);
      var zero := DigitRange(ZERO, ZERO);
      var more := LeadingDigits(ONE, NINE, 0, DECIMALS - 1);
      NegatedNegates(inner);
      var e := Either(Negated(inner), zero);
      e := Either(e, more);
      forall w
        ensures Accepts(e, w) <==> ((Negative(w, 0) && Value(w[1..]) <= -min) || (Canonical(w) && |w| <= DECIMALS))
      {
        RangeAccepts(ZERO, ZERO, w);
        CanonicalLeads(w);
      }
      r := Success(e);
    } else if min == 0 {
      var e := BuildFromZero(decimalsLeft, topLevel);
      r := Success(e);
    } else if min <= 9 {
      var e := BuildFromDigit(min, decimalsLeft, topLevel);
      r := Success(e);
    } else {
      RestLength(min);
      var inner := BuildMinMaxInt(Rest(min), INT_MAX, decimalsLeft - 1, false);
      var e := AroundFirstDigit(min, decimalsLeft, topLevel, inner.value);
      UnfoldsGuarantees(e, inner.value, min, decimalsLeft, topLevel);
      r := Success(e);
    }
  }

  lemma CanonicalLeads(w: Text)
    ensures Canonical(w) && |w| <= DECIMALS <==> (|w| == 1 && w[0] == ZERO) || Leads(ONE, NINE, 0, DECIMALS - 1, w)
  {
  }

  method BuildMaximum(max: int, topLevel: bool) returns (r: Result<Expr, BoundsError>)
    requires INT_MIN < max < INT_MAX
    ensures r.Success? && Built(r.value, INT_MIN, max, DECIMALS, topLevel)
    decreases Phase(INT_MIN, max), Magnitude(INT_MIN), 0
  {
    if max >= 0 {
      var inner := BuildMinMaxInt(0, max, DECIMALS, true);
      var e := inner.value;
      if topLevel {
        var more := LeadingDigits(ONE, NINE, 0, DECIMALS - 1);
        var negative := Cat(Lit([MINUS]), more);
        forall w
          ensures Accepts(negative, w) <==> Negative(w, 1) && |w| - 1 <= DECIMALS
        {
          MinusLeads(more, w);
        }
        e := Either(negative, inner.value);
      }
      r := Success(e);
    } else {
      IntLength(-max);
      var inner := BuildMinMaxInt(-max, INT_MAX, DECIMALS, false);
      NegatedNegates(inner.value);
      NegativesFrom(inner.value, -max, false);
      r := Success(Negated(inner.value));
    }
  }

  lemma MinusLeads(more: Expr, w: Text)
    requires forall v :: Accepts(more, v) <==> Leads(ONE, NINE, 0, DECIMALS - 1, v)
    ensures Accepts(Cat(Lit([MINUS]), more), w) <==> Negative(w, 1) && |w| - 1 <= DECIMALS
  {
    LiteralThen([MINUS], more, w);
    assert [MINUS] <= w <==> w != [] && w[0] == MINUS;
    if w != [] && Canonical(w[1..]) {
      OneOrMore(w[1..]);
    }
  }

  lemma OneOrMore(w: Text)
    requires Canonical(w)
    ensures 1 <= Value(w) <==> w[0] != ZERO
  {
    if w[0] == ZERO {
      assert w[..0] == [];
    } else {
      ValueFrom(w);
    }
  }

  /** The bounds of a schema. */
  method BuildInteger(min: int, max: int) returns (r: Result<Expr, BoundsError>)
    requires -0x8000_0000 <= min <= 0x7FFF_FFFF && -0x8000_0000 < max <= 0x7FFF_FFFF
    ensures r.Failure? <==> Unbounded(min, max)
    ensures r.Success? ==> Standalone(r.value) && Sensible(r.value)
    ensures min != -0x8000_0000 && max != 0x7FFF_FFFF ==> TwoSidedBuilt(r.value, min, max)
    ensures min == -0x8000_0000 && max != 0x7FFF_FFFF ==> MaximumBuilt(r.value, max, true)
    ensures min < 0 && max == 0x7FFF_FFFF && r.Success? ==> MinimumBuilt(r.value, min, 16, true)
    ensures min >= 0 && max == 0x7FFF_FFFF ==> (OnlyFrom(r.value, min) <==> NoneInside(Numeral(min), ZERO))
    ensures min >= 0 && max == 0x7FFF_FFFF ==> (AllFrom(r.value, min, 16) <==> NoneInside(Numeral(min), ONE))
  {
    if min >= 0 && max == INT_MAX {
      IntLength(min);
    }
    r := BuildMinMaxInt(min, max, DECIMALS, true);
    if min >= 0 && max == INT_MAX {
      TopLevelSound(r.value, min, DECIMALS);
      Completeness(r.value, min, DECIMALS, true);
    }
  }
}
