/** Decimal numerals as texts of digit characters, and their order. */
module Numerals {
  import opened Gbnf

  const ZERO: Code := 48
  const NINE: Code := 57
  const MINUS: Code := 45

  predicate IsDigit(c: Code) {
    ZERO <= c <= NINE
  }

  predicate IsNumeral(w: Text) {
    forall i :: 0 <= i < |w| ==> IsDigit(w[i])
  }

  /** A numeral without leading zeros. */
  predicate Canonical(w: Text) {
    IsNumeral(w) && w != [] && (|w| > 1 ==> w[0] != ZERO)
  }

  function Value(w: Text): nat
    requires IsNumeral(w)
  {
    if w == [] then 0 else 10 * Value(w[..|w| - 1]) + (w[|w| - 1] - ZERO)
  }

  /** The numeral of a number. */
  function Numeral(n: nat): (w: Text)
    ensures Canonical(w) && Value(w) == n
  {
    if n < 10 then [ZERO + n] else Numeral(n / 10) + [ZERO + n % 10]
  }

  function Pow10(n: nat): (p: nat)
    ensures p >= 1
  {
    if n == 0 then 1 else 10 * Pow10(n - 1)
  }

  function Repeated(c: Code, n: nat): (w: Text)
    ensures |w| == n && forall i :: 0 <= i < n ==> w[i] == c
  {
    seq(n, _ => c)
  }

  /** The order of numerals of equal length, by their first difference. */
  predicate AtMost(a: Text, b: Text)
    requires |a| == |b|
  {
    a == [] || a[0] < b[0] || (a[0] == b[0] && AtMost(a[1..], b[1..]))
  }

  lemma Scale(d: nat, p: nat)
    ensures 10 * (d * p) == d * (10 * p)
  {
  }

  lemma Dominates(x: nat, y: nat, p: nat, r: nat, s: nat)
    requires x < y && r < p
    ensures x * p + r < y * p + s
  {
    assert (y - x) * p == y * p - x * p;
    assert (y - x) * p >= p by {
      assert (y - x - 1) * p >= 0;
    }
  }

  lemma {:induction false} ValueCons(w: Text)
    requires IsNumeral(w) && w != []
    ensures Value(w) == (w[0] - ZERO) * Pow10(|w| - 1) + Value(w[1..])
    decreases |w|
  {
    var n := |w|;
    if n == 1 {
      assert w[..0] == [] && w[1..] == [];
    } else {
      var front, tail := w[..n - 1], w[1..];
      ValueCons(front);
      assert front[1..] == tail[..n - 2] && tail[n - 2] == w[n - 1];
      Scale(w[0] - ZERO, Pow10(n - 2));
    }
  }

  lemma {:induction false} ValueBelow(w: Text)
    requires IsNumeral(w)
    ensures Value(w) < Pow10(|w|)
    decreases |w|
  {
    if w != [] {
      ValueBelow(w[..|w| - 1]);
    }
  }

  /** For numerals of equal length the textual order is the numeric one. */
  lemma {:induction false} OrderByValue(a: Text, b: Text)
    requires IsNumeral(a) && IsNumeral(b) && |a| == |b|
    ensures AtMost(a, b) <==> Value(a) <= Value(b)
    decreases |a|
  {
    if a != [] {
      ValueCons(a);
      ValueCons(b);
      ValueBelow(a[1..]);
      ValueBelow(b[1..]);
      var p, x, y := Pow10(|a| - 1), a[0] - ZERO, b[0] - ZERO;
      if x < y {
        Dominates(x, y, p, Value(a[1..]), Value(b[1..]));
      } else if y < x {
        Dominates(y, x, p, Value(b[1..]), Value(a[1..]));
      } else {
        OrderByValue(a[1..], b[1..]);
      }
    }
  }

  /** A numeral that does not begin with zero is at least the smallest of its length. */
  lemma ValueFrom(w: Text)
    requires IsNumeral(w) && w != [] && w[0] != ZERO
    ensures Pow10(|w| - 1) <= Value(w)
  {
    ValueCons(w);
    var p := Pow10(|w| - 1);
    if w[0] - ZERO > 1 {
      Dominates(1, w[0] - ZERO, p, 0, 0);
    }
  }

  lemma {:induction false} Pow10Mono(m: nat, n: nat)
    requires m <= n
    ensures Pow10(m) <= Pow10(n)
  {
    if m < n {
      Pow10Mono(m, n - 1);
    }
  }

  /** Of two canonical numerals the longer is the greater. */
  lemma LongerIsGreater(a: Text, b: Text)
    requires Canonical(a) && Canonical(b) && |a| < |b|
    ensures Value(a) < Value(b)
  {
    ValueBelow(a);
    ValueFrom(b);
    Pow10Mono(|a|, |b| - 1);
  }

  /** A number has one canonical numeral. */
  lemma {:induction false} CanonicalUnique(w: Text)
    requires Canonical(w)
    ensures w == Numeral(Value(w))
    decreases |w|
  {
    if |w| > 1 {
      var front := w[..|w| - 1];
      assert Canonical(front);
      ValueFrom(w);
      Pow10Mono(1, |w| - 1);
      CanonicalUnique(front);
      assert w == front + [w[|w| - 1]];
      assert Value(w) / 10 == Value(front) && Value(w) % 10 == w[|w| - 1] - ZERO;
    } else {
      assert w[..0] == [];
      assert Value(w) == w[0] - ZERO;
    }
  }

  /** The numeral of a number as a string. */
  function ToString(n: nat): string {
    var w := Numeral(n);
    seq(|w|, i requires 0 <= i < |w| => w[i] as char)
  }

  lemma ToStringInjective(m: nat, n: nat)
    requires ToString(m) == ToString(n)
    ensures m == n
  {
    var v, w := Numeral(m), Numeral(n);
    assert |v| == |ToString(m)| == |w|;
    forall i | 0 <= i < |v|
      ensures v[i] == w[i]
    {
      assert ToString(m)[i] as int == v[i] && ToString(n)[i] as int == w[i];
    }
    assert v == w;
  }
}
