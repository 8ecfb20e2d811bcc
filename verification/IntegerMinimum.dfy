/** The expressions generated for integers with one bound, and when they are faithful. */
module IntegerMinimum {
  import opened Gbnf
  import opened Lowering
  import opened Numerals
  import opened IntegerBounds

  const ONE: Code := ZERO + 1

  /** What is left of a number when its first digit is dropped. */
  function Rest(m: nat): (n: nat)
    requires m >= 10
    ensures n < m
  {
    var w := Numeral(m);
    assert |w| > 1;
    ValueCons(w);
    ValueBelow(w[1..]);
    ValueFrom(w);
    Value(w[1..])
  }

  function FirstDigit(m: nat): (d: Code)
    ensures IsDigit(d)
  {
    Numeral(m)[0]
  }

  function Length(m: nat): (n: nat)
    ensures n >= 1
  {
    |Numeral(m)|
  }

  /** A numeral is that of its value, after some zeros. */
  lemma OneZeroMore(n: nat, w: Text)
    ensures Repeated(ZERO, n + 1) + w == [ZERO] + (Repeated(ZERO, n) + w)
  {
    assert Repeated(ZERO, n + 1) == [ZERO] + Repeated(ZERO, n);
  }

  lemma {:induction false} Stripped(w: Text)
    requires IsNumeral(w) && w != []
    ensures var n := Length(Value(w));
            n <= |w| && w == Repeated(ZERO, |w| - n) + Numeral(Value(w))
    decreases |w|
  {
    if |w| > 1 && w[0] == ZERO {
      ValueCons(w);
      assert 0 * Pow10(|w| - 1) == 0;
      Stripped(w[1..]);
      var n, rest := Length(Value(w)), w[1..];
      assert w == [ZERO] + rest && Value(rest) == Value(w);
      OneZeroMore(|w| - 1 - n, Numeral(Value(w)));
    } else {
      CanonicalUnique(w);
    }
  }

  lemma RestLength(m: nat)
    requires m >= 10
    ensures Length(m) >= 2 && Length(Rest(m)) <= Length(m) - 1
    ensures var w := Numeral(m);
            w == [FirstDigit(m)] + Repeated(ZERO, Length(m) - 1 - Length(Rest(m))) + Numeral(Rest(m))
  {
    var w := Numeral(m);
    assert |w| > 1;
    Stripped(w[1..]);
    assert w == [w[0]] + w[1..];
  }

  /** No digit is lost when the first digits are dropped one by one. */
  predicate Survives(m: nat) {
    m < 10 || (Length(Rest(m)) == Length(m) - 1 && Survives(Rest(m)))
  }

  /** The number, or what is left of it at some point, begins with a one and has further digits. */
  predicate HasOne(m: nat) {
    m >= 10 && (FirstDigit(m) == ONE || HasOne(Rest(m)))
  }

  /** No digit strictly between the first and the last is `d`. */
  predicate NoneInside(w: Text, d: Code) {
    forall i :: 0 < i < |w| - 1 ==> w[i] != d
  }

  lemma NoneInsideStep(w: Text, first: Code, z: nat, r: Text, d: Code)
    requires w == [first] + Repeated(ZERO, z) + r && r != []
    ensures NoneInside(w, d) <==> (z > 0 ==> d != ZERO) && (|r| > 1 ==> r[0] != d) && NoneInside(r, d)
  {
    assert forall i :: 0 <= i < |r| ==> w[z + 1 + i] == r[i];
    assert forall i :: 0 < i <= z ==> w[i] == ZERO;
    if NoneInside(w, d) {
      assert z > 0 ==> w[1] == ZERO;
      assert |r| > 1 ==> w[z + 1] == r[0];
      assert forall i :: 0 < i < |r| - 1 ==> r[i] == w[z + 1 + i];
    }
    if (z > 0 ==> d != ZERO) && (|r| > 1 ==> r[0] != d) && NoneInside(r, d) {
      forall i | 0 < i < |w| - 1
        ensures w[i] != d
      {
        if i > z {
          assert w[i] == r[i - z - 1];
        }
      }
    }
  }

  /** Digits survive exactly when none strictly between the first and the last is zero. */
  lemma {:induction false} SurvivesDigits(m: nat)
    ensures Survives(m) <==> NoneInside(Numeral(m), ZERO)
    decreases m
  {
    if m >= 10 {
      RestLength(m);
      SurvivesDigits(Rest(m));
      NoneInsideStep(Numeral(m), FirstDigit(m), Length(m) - 1 - Length(Rest(m)), Numeral(Rest(m)), ZERO);
    }
  }

  /** A one shows up behind the first digit exactly when one lies strictly between the first and the last digit. */
  lemma {:induction false} HasOneDigits(m: nat)
    ensures (m >= 10 && HasOne(Rest(m))) <==> !NoneInside(Numeral(m), ONE)
    decreases m
  {
    if m >= 10 {
      RestLength(m);
      HasOneDigits(Rest(m));
      NoneInsideStep(Numeral(m), FirstDigit(m), Length(m) - 1 - Length(Rest(m)), Numeral(Rest(m)), ONE);
    }
  }

  /** The digits that remain when zeros are lost. */
  function Shortest(m: nat): (w: Text)
    ensures w != [] && IsNumeral(w) && w[0] == FirstDigit(m)
  {
    if m < 10 then Numeral(m) else [FirstDigit(m)] + Shortest(Rest(m))
  }

  lemma {:induction false} ShortestLength(m: nat)
    ensures |Shortest(m)| <= Length(m)
    ensures |Shortest(m)| < Length(m) <==> !Survives(m)
    decreases m
  {
    if m >= 10 {
      RestLength(m);
      ShortestLength(Rest(m));
    }
  }

  /** A text of `n` digits that follows the digits of a number up to a one, and has zeros from there on. */
  function Skip(m: nat, n: nat): (w: Text)
    requires HasOne(m)
    ensures |w| == n && IsNumeral(w)
  {
    if FirstDigit(m) == ONE || n == 0 then Repeated(ZERO, n) else [FirstDigit(m)] + Skip(Rest(m), n - 1)
  }

  /** A numeral of a greater or equal number, as far as its length and its digits tell. */
  predicate Reaches(w: Text, r: Text) {
    |w| > |r| || (|w| == |r| && AtMost(r, w))
  }

  lemma ReachesValue(m: nat, w: Text)
    requires Canonical(w)
    ensures Reaches(w, Numeral(m)) <==> m <= Value(w)
  {
    var r := Numeral(m);
    if |w| > |r| {
      LongerIsGreater(r, w);
    } else if |w| < |r| {
      LongerIsGreater(w, r);
    } else {
      OrderByValue(r, w);
    }
  }

  /** Whether only canonical numerals are accepted. */
  predicate Strict(m: nat, topLevel: bool) {
    topLevel || (m >= 10 && FirstDigit(m) == ONE)
  }

  // What an expression `e` for numbers from `m` on, with at most `d` digits, guarantees.

  ghost predicate Bounded(e: Expr, m: nat, d: nat, topLevel: bool) {
    forall w :: Accepts(e, w) ==> IsNumeral(w) && 1 <= |w| <= d && (Strict(m, topLevel) ==> Canonical(w))
  }

  ghost predicate SoundFrom(e: Expr, m: nat) {
    && Accepts(e, Shortest(m))
    && (Survives(m) ==> forall w :: Accepts(e, w) ==> Reaches(w, Numeral(m)))
  }

  ghost predicate CompleteFrom(e: Expr, m: nat, d: nat, topLevel: bool) {
    !(m >= 10 && HasOne(Rest(m))) ==>
      forall w :: IsNumeral(w) && |w| <= d && Reaches(w, Numeral(m)) && (Strict(m, topLevel) ==> Canonical(w)) ==>
        Accepts(e, w)
  }

  ghost predicate Skipping(e: Expr, m: nat, topLevel: bool) {
    && (m >= 10 && HasOne(Rest(m)) ==> forall n: nat :: !Accepts(e, [FirstDigit(m)] + Skip(Rest(m), n)))
    && (!topLevel && HasOne(m) ==> forall n: nat :: !Accepts(e, Skip(m, n)))
  }

  /** Where leading zeros are let in, so are zeros alone. */
  ghost predicate LetsZerosIn(e: Expr, m: nat, topLevel: bool) {
    m > 0 && !Strict(m, topLevel) ==> Accepts(e, Repeated(ZERO, Length(m) + 1))
  }

  /** Any more digits than the minimum has are accepted when they are nines. */
  ghost predicate LetsNinesIn(e: Expr, m: nat, d: nat) {
    forall n :: Length(m) < n <= d ==> Accepts(e, Repeated(NINE, n))
  }

  ghost predicate Guarantees(e: Expr, m: nat, d: nat, topLevel: bool) {
    && Standalone(e)
    && Sensible(e)
    && Bounded(e, m, d, topLevel)
    && SoundFrom(e, m)
    && CompleteFrom(e, m, d, topLevel)
    && Skipping(e, m, topLevel)
    && LetsZerosIn(e, m, topLevel)
    && LetsNinesIn(e, m, d)
  }

  /** A first digit within a range and between `min` and `max` further digits. */
  predicate Leads(from: Code, to: Code, min: nat, max: nat, w: Text) {
    min + 1 <= |w| <= max + 1 && IsNumeral(w) && from <= w[0] <= to
  }

  lemma LeadsAccepts(from: Code, to: Code, min: nat, max: nat, w: Text)
    requires ZERO <= from && to <= NINE
    ensures Accepts(Cat(DigitRange(from, to), MoreDigits(min, max)), w) <==> Leads(from, to, min, max, w)
  {
    RangeThen(from, to, MoreDigits(min, max), w);
    if w != [] {
      MoreDigitsAccepts(min, max, w[1..]);
      assert w == [w[0]] + w[1..];
    }
  }

  // ---------------------------------------------------------------------------------------------
  // Numbers of one digit

  lemma ReachesDigit(w: Text, d: Code)
    requires IsDigit(d)
    ensures Reaches(w, [d]) <==> |w| > 1 || (|w| == 1 && d <= w[0])
  {
    var r: Text := [d];
    if |w| == 1 {
      assert r[1..] == [] && w[1..] == [];
      assert AtMost(r[1..], w[1..]);
      assert AtMost(r, w) <==> d <= w[0];
    }
  }

  /** Zero, at the top level or below. */
  method BuildFromZero(d: nat, topLevel: bool) returns (e: Expr)
    requires d >= 2
    ensures Guarantees(e, 0, d, topLevel)
  {
    if topLevel {
      var zero, more := DigitRange(ZERO, ZERO), Cat(DigitRange(ONE, NINE), MoreDigits(0, d - 1));
      e := Alt(zero, more);
      forall w
        ensures Accepts(e, w) <==> Canonical(w) && |w| <= d
      {
        RangeAccepts(ZERO, ZERO, w);
        LeadsAccepts(ONE, NINE, 0, d - 1, w);
      }
    } else {
      e := MoreDigits(1, d);
      forall w
        ensures Accepts(e, w) <==> IsNumeral(w) && 1 <= |w| <= d
      {
        MoreDigitsAccepts(1, d, w);
      }
    }
    forall w | IsNumeral(w) && w != []
      ensures Reaches(w, Numeral(0))
    {
      ReachesDigit(w, ZERO);
    }
  }

  /** A number from one to nine. */
  method BuildFromDigit(m: nat, d: nat, topLevel: bool) returns (e: Expr)
    requires 1 <= m <= 9 && d >= 2
    ensures Guarantees(e, m, d, topLevel)
  {
    var c := ZERO + m;
    var rangeStart := if topLevel then ONE else ZERO;
    e := Cat(DigitRange(c, NINE), MoreDigits(0, d - 1));
    if c > rangeStart {
      var below := Cat(DigitRange(rangeStart, c - 1), MoreDigits(1, d - 1));
      e := Alt(below, e);
    }
    forall w
      ensures Accepts(e, w) <==> Leads(rangeStart, c - 1, 1, d - 1, w) || Leads(c, NINE, 0, d - 1, w)
    {
      LeadsAccepts(rangeStart, c - 1, 1, d - 1, w);
      LeadsAccepts(c, NINE, 0, d - 1, w);
    }
    DigitGuarantees(e, m, d, topLevel);
  }

  lemma DigitGuarantees(e: Expr, m: nat, d: nat, topLevel: bool)
    requires 1 <= m <= 9 && d >= 2 && Standalone(e) && Sensible(e)
    requires forall w :: Accepts(e, w) <==>
      (Leads(if topLevel then ONE else ZERO, ZERO + m - 1, 1, d - 1, w) || Leads(ZERO + m, NINE, 0, d - 1, w))
    ensures Guarantees(e, m, d, topLevel)
  {
    var c := ZERO + m;
    forall w
      ensures Reaches(w, Numeral(m)) <==> |w| > 1 || (|w| == 1 && c <= w[0])
    {
      ReachesDigit(w, c);
    }
  }

  // ---------------------------------------------------------------------------------------------
  // Numbers of more digits

  /** What the expression for `m` accepts, in terms of the expression `inner` for the rest of its digits. */
  ghost predicate Unfolds(e: Expr, inner: Expr, m: nat, d: nat, topLevel: bool)
    requires d > 0
  {
    var c, n := FirstDigit(m), Length(m);
    forall w :: Accepts(e, w) <==>
      (|| (c > ONE && Leads(if topLevel then ONE else ZERO, c - 1, n, d - 1, w))
       || (w != [] && w[0] == c && Accepts(inner, w[1..]))
       || (c < NINE && Leads(c + 1, NINE, n - 1, d - 1, w)))
  }

  lemma UnfoldsBounded(e: Expr, inner: Expr, m: nat, d: nat, topLevel: bool)
    requires m >= 10 && d >= 2 && Unfolds(e, inner, m, d, topLevel) && Bounded(inner, Rest(m), d - 1, false)
    ensures Bounded(e, m, d, topLevel)
  {
    RestLength(m);
    ValueFrom(Numeral(m));
    forall w | Accepts(e, w)
      ensures IsNumeral(w) && 1 <= |w| <= d && (Strict(m, topLevel) ==> Canonical(w))
    {
      if w != [] && w[0] == FirstDigit(m) && Accepts(inner, w[1..]) {
        assert w == [w[0]] + w[1..];
      }
    }
  }

  lemma UnfoldsSound(e: Expr, inner: Expr, m: nat, d: nat, topLevel: bool)
    requires m >= 10 && d > 0 && Unfolds(e, inner, m, d, topLevel) && SoundFrom(inner, Rest(m))
    ensures SoundFrom(e, m)
  {
    RestLength(m);
    var r, r' := Numeral(m), Numeral(Rest(m));
    var short := Shortest(m);
    assert short[1..] == Shortest(Rest(m));
    if Survives(m) {
      assert r[1..] == r';
      forall w | Accepts(e, w)
        ensures Reaches(w, r)
      {
        if w != [] && w[0] == FirstDigit(m) && Accepts(inner, w[1..]) {
          assert Reaches(w[1..], r');
        }
      }
    }
  }

  lemma UnfoldsComplete(e: Expr, inner: Expr, m: nat, d: nat, topLevel: bool)
    requires m >= 10 && d > Length(m) && Unfolds(e, inner, m, d, topLevel) && CompleteFrom(inner, Rest(m), d - 1, false)
    ensures CompleteFrom(e, m, d, topLevel)
  {
    if !HasOne(Rest(m)) {
      forall w | IsNumeral(w) && |w| <= d && Reaches(w, Numeral(m)) && (Strict(m, topLevel) ==> Canonical(w))
        ensures Accepts(e, w)
      {
        ReachedLeads(m, d, topLevel, w);
        if w[0] == FirstDigit(m) {
          RestReached(m, w);
        }
      }
    }
  }

  /** A numeral that is reached but does not begin with the first digit begins with less and is longer, or with more. */
  lemma ReachedLeads(m: nat, d: nat, topLevel: bool, w: Text)
    requires m >= 10 && d > 0 && IsNumeral(w) && |w| <= d && Reaches(w, Numeral(m)) &&
             (Strict(m, topLevel) ==> Canonical(w))
    ensures w != []
    ensures var c, n := FirstDigit(m), Length(m);
            && (w[0] < c ==> c > ONE && Leads(if topLevel then ONE else ZERO, c - 1, n, d - 1, w))
            && (w[0] > c ==> Leads(c + 1, NINE, n - 1, d - 1, w))
  {
    RestLength(m);
  }

  lemma RestReached(m: nat, w: Text)
    requires m >= 10 && IsNumeral(w) && Reaches(w, Numeral(m)) && w != [] && w[0] == FirstDigit(m)
    ensures Reaches(w[1..], Numeral(Rest(m)))
  {
    RestLength(m);
    var r, r' := Numeral(m), Numeral(Rest(m));
    if |w| == |r| && |r'| == |r| - 1 {
      assert r[1..] == r';
    }
  }

  lemma UnfoldsSkipping(e: Expr, inner: Expr, m: nat, d: nat, topLevel: bool)
    requires m >= 10 && d > 0 && Unfolds(e, inner, m, d, topLevel) && Skipping(inner, Rest(m), false)
    ensures Skipping(e, m, topLevel)
  {
    if HasOne(Rest(m)) {
      forall n: nat
        ensures !Accepts(e, [FirstDigit(m)] + Skip(Rest(m), n))
      {
        var w := [FirstDigit(m)] + Skip(Rest(m), n);
        assert w[1..] == Skip(Rest(m), n);
      }
    }
    if !topLevel && HasOne(m) {
      forall n: nat
        ensures !Accepts(e, Skip(m, n))
      {
        var w := Skip(m, n);
        if FirstDigit(m) != ONE && n > 0 {
          assert w[1..] == Skip(Rest(m), n - 1);
        }
      }
    }
  }

  lemma UnfoldsZeros(e: Expr, inner: Expr, m: nat, d: nat, topLevel: bool)
    requires m >= 10 && d > Length(m) && Unfolds(e, inner, m, d, topLevel)
    ensures LetsZerosIn(e, m, topLevel)
  {
    var w := Repeated(ZERO, Length(m) + 1);
    if !Strict(m, topLevel) {
      ValueFrom(Numeral(m));
      assert Leads(ZERO, FirstDigit(m) - 1, Length(m), d - 1, w);
    }
  }

  lemma UnfoldsNines(e: Expr, inner: Expr, m: nat, d: nat, topLevel: bool)
    requires m >= 10 && d > Length(m) && Unfolds(e, inner, m, d, topLevel) && LetsNinesIn(inner, Rest(m), d - 1)
    ensures LetsNinesIn(e, m, d)
  {
    RestLength(m);
    forall n | Length(m) < n <= d
      ensures Accepts(e, Repeated(NINE, n))
    {
      var w := Repeated(NINE, n);
      assert w[1..] == Repeated(NINE, n - 1);
      if FirstDigit(m) < NINE {
        assert Leads(FirstDigit(m) + 1, NINE, Length(m) - 1, d - 1, w);
      }
    }
  }

  lemma UnfoldsGuarantees(e: Expr, inner: Expr, m: nat, d: nat, topLevel: bool)
    requires m >= 10 && d > Length(m) && Standalone(e) && Sensible(e)
    requires Unfolds(e, inner, m, d, topLevel) && Guarantees(inner, Rest(m), d - 1, false)
    ensures Guarantees(e, m, d, topLevel)
  {
    UnfoldsBounded(e, inner, m, d, topLevel);
    UnfoldsSound(e, inner, m, d, topLevel);
    UnfoldsComplete(e, inner, m, d, topLevel);
    UnfoldsSkipping(e, inner, m, d, topLevel);
    UnfoldsZeros(e, inner, m, d, topLevel);
    UnfoldsNines(e, inner, m, d, topLevel);
  }

  /** The alternatives for the first digit of `min`: less than it, it, and more than it. */
  method AroundFirstDigit(min: nat, decimalsLeft: nat, topLevel: bool, inner: Expr) returns (e: Expr)
    requires min >= 10 && Length(min) < decimalsLeft && Standalone(inner) && Sensible(inner)
    ensures Standalone(e) && Sensible(e) && Unfolds(e, inner, min, decimalsLeft, topLevel)
  {
    var minS, lessDecimals := Numeral(min), decimalsLeft - 1;
    var len, c := |minS|, minS[0];
    var middle := DigitAndGroup(c, inner);
    var upToDigit := OrLess(c, topLevel, len, lessDecimals, middle);
    e := OrMore(c, len, lessDecimals, upToDigit);
  }

  /** The numbers of more digits that begin with less than the first digit, added before `rest`. */
  method OrLess(c: Code, topLevel: bool, len: nat, lessDecimals: nat, rest: Expr) returns (e: Expr)
    requires IsDigit(c) && len <= lessDecimals && Standalone(rest) && Sensible(rest)
    ensures Standalone(e) && Sensible(e)
    ensures forall w :: Accepts(e, w) <==>
      (c > ONE && Leads(if topLevel then ONE else ZERO, c - 1, len, lessDecimals, w)) || Accepts(rest, w)
  {
    e := rest;
    if c > ONE {
      var below := LeadingDigits(if topLevel then ONE else ZERO, c - 1, len, lessDecimals);
      e := Either(below, rest);
    }
  }

  /** The numbers that begin with more than the first digit, added after `rest`. */
  method OrMore(c: Code, len: nat, lessDecimals: nat, rest: Expr) returns (e: Expr)
    requires IsDigit(c) && 1 <= len <= lessDecimals + 1 && Standalone(rest) && Sensible(rest)
    ensures Standalone(e) && Sensible(e)
    ensures forall w :: Accepts(e, w) <==>
            Accepts(rest, w) || (c < NINE && Leads(c + 1, NINE, len - 1, lessDecimals, w))
  {
    e := rest;
    if c < NINE {
      var above := LeadingDigits(c + 1, NINE, len - 1, lessDecimals);
      e := Either(rest, above);
    }
  }

  method Either(left: Expr, right: Expr) returns (e: Expr)
    requires Standalone(left) && Sensible(left) && Standalone(right) && Sensible(right)
    ensures Standalone(e) && Sensible(e)
    ensures forall w :: Accepts(e, w) <==> Accepts(left, w) || Accepts(right, w)
  {
    e := Alt(left, right);
  }

  method DigitAndGroup(c: Code, inner: Expr) returns (e: Expr)
    requires IsDigit(c) && Standalone(inner) && Sensible(inner)
    ensures Standalone(e) && Sensible(e)
    ensures forall w :: Accepts(e, w) <==> w != [] && w[0] == c && Accepts(inner, w[1..])
  {
    assert Standalone(Group(inner)) && Sensible(Group(inner));
    e := Cat(DigitRange(c, c), Group(inner));
    forall w
      ensures Accepts(e, w) <==> w != [] && w[0] == c && Accepts(inner, w[1..])
    {
      RangeThen(c, c, Group(inner), w);
    }
  }

  method LeadingDigits(from: Code, to: Code, min: nat, max: nat) returns (e: Expr)
    requires ZERO <= from <= to <= NINE && min <= max
    ensures Standalone(e) && Sensible(e)
    ensures forall w :: Accepts(e, w) <==> Leads(from, to, min, max, w)
  {
    e := Cat(DigitRange(from, to), MoreDigits(min, max));
    forall w
      ensures Accepts(e, w) <==> Leads(from, to, min, max, w)
    {
      LeadsAccepts(from, to, min, max, w);
    }
  }

  // ---------------------------------------------------------------------------------------------
  // When the expression is faithful

  /** Every accepted text is the numeral of a number from `m` on. */
  ghost predicate OnlyFrom(e: Expr, m: nat) {
    forall w :: Accepts(e, w) ==> Canonical(w) && m <= Value(w)
  }

  /** Every number from `m` on that has at most `d` digits is accepted. */
  ghost predicate AllFrom(e: Expr, m: nat, d: nat) {
    forall n :: m <= n && Length(n) <= d ==> Accepts(e, Numeral(n))
  }

  /** At the top level the minimum is respected exactly when no digit strictly inside it is zero. */
  lemma TopLevelSound(e: Expr, m: nat, d: nat)
    requires Guarantees(e, m, d, true)
    ensures OnlyFrom(e, m) <==> NoneInside(Numeral(m), ZERO)
  {
    SurvivesDigits(m);
    ShortestLength(m);
    if Survives(m) {
      forall w | Accepts(e, w)
        ensures Canonical(w) && m <= Value(w)
      {
        ReachesValue(m, w);
      }
    } else {
      var w := Shortest(m);
      assert Canonical(w);
      LongerIsGreater(w, Numeral(m));
      assert !OnlyFrom(e, m);
    }
  }

  lemma AllReached(e: Expr, m: nat, d: nat, topLevel: bool)
    requires Guarantees(e, m, d, topLevel) && !(m >= 10 && HasOne(Rest(m)))
    ensures AllFrom(e, m, d)
  {
    forall n | m <= n && Length(n) <= d
      ensures Accepts(e, Numeral(n))
    {
      ReachesValue(m, Numeral(n));
    }
  }

  /** No number from the minimum on is left out exactly when no digit strictly inside it is one. */
  lemma Completeness(e: Expr, m: nat, d: nat, topLevel: bool)
    requires Guarantees(e, m, d, topLevel) && Length(m) < d
    ensures AllFrom(e, m, d) <==> NoneInside(Numeral(m), ONE)
  {
    HasOneDigits(m);
    if m >= 10 && HasOne(Rest(m)) {
      var w := [FirstDigit(m)] + Skip(Rest(m), Length(m));
      ValueFrom(Numeral(m));
      assert Canonical(w);
      CanonicalUnique(w);
      LongerIsGreater(Numeral(m), w);
      assert !Accepts(e, Numeral(Value(w)));
    } else {
      AllReached(e, m, d, topLevel);
    }
  }

  /**
    Below the top level, as for the digits of a negative maximum, it is respected exactly when it also
    begins with a one that is not its only digit.
   */
  lemma BelowTopLevelSound(e: Expr, m: nat, d: nat)
    requires Guarantees(e, m, d, false) && m > 0
    ensures OnlyFrom(e, m) <==> m >= 10 && FirstDigit(m) == ONE && NoneInside(Numeral(m), ZERO)
  {
    SurvivesDigits(m);
    ShortestLength(m);
    if !Strict(m, false) {
      var w := Repeated(ZERO, Length(m) + 1);
      assert Accepts(e, w) && !Canonical(w);
    } else if Survives(m) {
      forall w | Accepts(e, w)
        ensures Canonical(w) && m <= Value(w)
      {
        ReachesValue(m, w);
      }
    } else {
      var w := Shortest(m);
      assert Canonical(w);
      LongerIsGreater(w, Numeral(m));
      assert !OnlyFrom(e, m);
    }
  }

  /** A zero inside is lost together with the digits that hold it up: 10c, with 105 for one, lets in 1c. */
  lemma RestAfterZero(m: nat, c: Code)
    requires ZERO < c <= NINE && m >= 10 && Numeral(m) == [ONE, ZERO, c]
    ensures Rest(m) == c - ZERO
  {
    var tail := [ZERO, c];
    ValueCons(tail);
    assert Numeral(m)[1..] == tail;
    assert Value([c]) == c - ZERO by {
      assert [c][..0] == [];
    }
    assert tail[1..] == [c];
    assert 0 * Pow10(1) == 0;
  }

  lemma AcceptsLess(e: Expr, m: nat, c: Code, d: nat)
    requires ZERO < c <= NINE && m >= 10 && Numeral(m) == [ONE, ZERO, c] && Guarantees(e, m, d, true)
    ensures Accepts(e, [ONE, c])
  {
    RestAfterZero(m, c);
    assert Shortest(c - ZERO) == [c];
    assert Shortest(m) == [ONE] + [c] == [ONE, c];
  }

  /** A one inside ends the alternatives that begin with less: with 21c as the minimum 2000 is not accepted. */
  lemma RejectsMore(e: Expr, m: nat, c: Code, d: nat)
    requires IsDigit(c) && m >= 10 && Numeral(m) == [ONE + 1, ONE, c] && Guarantees(e, m, d, true)
    ensures !Accepts(e, [ONE + 1, ZERO, ZERO, ZERO])
  {
    var tail := [ONE, c];
    assert Numeral(m)[1..] == tail && Rest(m) == Value(tail);
    CanonicalUnique(tail);
    assert FirstDigit(Rest(m)) == ONE;
    assert [FirstDigit(m)] + Skip(Rest(m), 3) == [ONE + 1, ZERO, ZERO, ZERO];
  }
}
