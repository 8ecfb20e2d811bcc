/** What an expression describes when names may be unfolded to any depth. */
module Meaning {
  import opened Wrappers
  import opened Gbnf
  import opened Separated

  ghost predicate Means(g: Grammar, e: Expr, w: Text) {
    exists k: nat :: Match(g, k, e, w)
  }

  lemma Depth(g: Grammar, e: Expr, w: Text) returns (k: nat)
    requires Means(g, e, w)
    ensures Match(g, k, e, w)
  {
    k :| Match(g, k, e, w);
  }

  lemma MeansRef(g: Grammar, name: Name, w: Text)
    requires name in g
    ensures Means(g, Ref(name), w) <==> Means(g, g[name], w)
  {
    if Means(g, Ref(name), w) {
      var k := Depth(g, Ref(name), w);
      assert Match(g, k - 1, g[name], w);
    }
    if Means(g, g[name], w) {
      var k := Depth(g, g[name], w);
      assert Match(g, k + 1, Ref(name), w);
    }
  }

  lemma MeansGroup(g: Grammar, e: Expr, w: Text)
    ensures Means(g, Group(e), w) <==> Means(g, e, w)
  {
    if Means(g, Group(e), w) {
      var k := Depth(g, Group(e), w);
      assert Match(g, k, e, w);
    }
    if Means(g, e, w) {
      var k := Depth(g, e, w);
      assert Match(g, k, Group(e), w);
    }
  }

  lemma MeansAlt(g: Grammar, left: Expr, right: Expr, w: Text)
    ensures Means(g, Alt(left, right), w) <==> Means(g, left, w) || Means(g, right, w)
  {
    if Means(g, Alt(left, right), w) {
      var k := Depth(g, Alt(left, right), w);
      assert Match(g, k, left, w) || Match(g, k, right, w);
    }
    if Means(g, left, w) {
      var k := Depth(g, left, w);
      assert Match(g, k, Alt(left, right), w);
    }
    if Means(g, right, w) {
      var k := Depth(g, right, w);
      assert Match(g, k, Alt(left, right), w);
    }
  }

  lemma SplitCat(g: Grammar, left: Expr, right: Expr, w: Text) returns (a: Text, b: Text)
    requires Means(g, Cat(left, right), w)
    ensures w == a + b && Means(g, left, a) && Means(g, right, b)
  {
    var k := Depth(g, Cat(left, right), w);
    a, b := SplitCatAt(g, k, left, right, w);
  }

  lemma SplitCatAt(g: Grammar, k: nat, left: Expr, right: Expr, w: Text) returns (a: Text, b: Text)
    requires Match(g, k, Cat(left, right), w)
    ensures w == a + b && Match(g, k, left, a) && Match(g, k, right, b)
  {
    var i := CatCut(g, k, left, right, w);
    a, b := w[..i], w[i..];
  }

  lemma JoinCat(g: Grammar, left: Expr, right: Expr, a: Text, b: Text)
    requires Means(g, left, a) && Means(g, right, b)
    ensures Means(g, Cat(left, right), a + b)
  {
    var m := Depth(g, left, a);
    var n := Depth(g, right, b);
    var k := if m < n then n else m;
    MatchMono(g, m, k, left, a);
    MatchMono(g, n, k, right, b);
    var w := a + b;
    assert w[..|a|] == a && w[|a|..] == b;
    CatJoin(g, k, left, right, w, |a|);
  }

  lemma MeansOptional(g: Grammar, e: Expr, w: Text)
    ensures Means(g, Rep(e, 0, Some(1)), w) <==> w == [] || Means(g, e, w)
  {
    AtMostOne(g, 0, e, w);
    if Means(g, Rep(e, 0, Some(1)), w) {
      var k := Depth(g, Rep(e, 0, Some(1)), w);
      AtMostOne(g, k, e, w);
    }
    if Means(g, e, w) {
      var k := Depth(g, e, w);
      AtMostOne(g, k, e, w);
    }
  }

  /** A concatenation of exactly `n` texts described by `e`. */
  ghost predicate Times(g: Grammar, e: Expr, n: nat, w: Text) {
    exists k: nat :: Power(g, k, e, n, w)
  }

  lemma TimesFirst(g: Grammar, e: Expr, n: nat, w: Text) returns (a: Text, b: Text)
    requires n > 0 && Times(g, e, n, w)
    ensures w == a + b && Means(g, e, a) && Times(g, e, n - 1, b)
  {
    var k: nat :| Power(g, k, e, n, w);
    var i := PowerFirst(g, k, e, n, w);
    a, b := w[..i], w[i..];
  }

  lemma TimesMore(g: Grammar, e: Expr, n: nat, a: Text, b: Text)
    requires Means(g, e, a) && Times(g, e, n, b)
    ensures Times(g, e, n + 1, a + b)
  {
    var i := Depth(g, e, a);
    var j: nat :| Power(g, j, e, n, b);
    var k := if i < j then j else i;
    MatchMono(g, i, k, e, a);
    PowerMono(g, j, k, e, n, b);
    var w := a + b;
    assert w[..|a|] == a && w[|a|..] == b;
    PowerMore(g, k, e, n, w, |a|);
  }

  lemma NoTimes(g: Grammar, e: Expr, w: Text)
    ensures Times(g, e, 0, w) <==> w == []
  {
    assert Power(g, 0, e, 0, w) <==> w == [];
  }

  lemma MeansRep(g: Grammar, e: Expr, min: nat, max: Option<nat>, w: Text) returns (n: nat)
    requires Means(g, Rep(e, min, max), w)
    ensures min <= n && (max.Some? ==> n <= max.value) && Times(g, e, n, w)
  {
    var k := Depth(g, Rep(e, min, max), w);
    n := RepCount(g, k, e, min, max, w);
  }

  lemma JoinRep(g: Grammar, e: Expr, min: nat, max: Option<nat>, n: nat, w: Text)
    requires min <= n && (max.Some? ==> n <= max.value) && Times(g, e, n, w)
    ensures Means(g, Rep(e, min, max), w)
  {
    var k: nat :| Power(g, k, e, n, w);
    RepJoin(g, k, e, min, max, n, w);
  }

  // ---------------------------------------------------------------------------------------------
  // Grammars that grow

  /** Every name the expression refers to is defined. */
  predicate Defined(g: Grammar, e: Expr) {
    match e
    case Ref(name) => name in g
    case Group(body) => Defined(g, body)
    case Cat(left, right) => Defined(g, left) && Defined(g, right)
    case Alt(left, right) => Defined(g, left) && Defined(g, right)
    case Rep(item, _, _) => Defined(g, item)
    case _ => true
  }

  predicate Complete(g: Grammar) {
    forall name :: name in g ==> Defined(g, g[name])
  }

  /** No name of `g` means something else in `h`. */
  predicate Extends(g: Grammar, h: Grammar) {
    forall name :: name in g ==> name in h && h[name] == g[name]
  }

  /** As no name is bound to something else, what refers to defined names keeps its meaning. */
  lemma {:induction false} SameInLarger(g: Grammar, h: Grammar, k: nat, e: Expr, w: Text)
    requires Extends(g, h) && Complete(g) && Defined(g, e)
    ensures Match(g, k, e, w) <==> Match(h, k, e, w)
    decreases k, e, 0
  {
    match e
    case Ref(name) =>
      if k > 0 {
        SameInLarger(g, h, k - 1, g[name], w);
      }
    case Group(body) => SameInLarger(g, h, k, body, w);
    case Cat(left, right) =>
      forall i | 0 <= i <= |w|
        ensures Match(g, k, left, w[..i]) <==> Match(h, k, left, w[..i])
        ensures Match(g, k, right, w[i..]) <==> Match(h, k, right, w[i..])
      {
        SameInLarger(g, h, k, left, w[..i]);
        SameInLarger(g, h, k, right, w[i..]);
      }
    case Alt(left, right) =>
      SameInLarger(g, h, k, left, w);
      SameInLarger(g, h, k, right, w);
    case Rep(item, min, max) =>
      if Match(g, k, e, w) {
        var c := RepCount(g, k, item, min, max, w);
        SamePower(g, h, k, item, c, w);
      }
      if Match(h, k, e, w) {
        var c := RepCount(h, k, item, min, max, w);
        SamePower(g, h, k, item, c, w);
      }
    case _ =>
  }

  lemma {:induction false} SamePower(g: Grammar, h: Grammar, k: nat, e: Expr, c: nat, w: Text)
    requires Extends(g, h) && Complete(g) && Defined(g, e)
    ensures Power(g, k, e, c, w) <==> Power(h, k, e, c, w)
    decreases k, e, c + 1
  {
    if c > 0 {
      forall i | 0 <= i <= |w|
        ensures Match(g, k, e, w[..i]) <==> Match(h, k, e, w[..i])
        ensures Power(g, k, e, c - 1, w[i..]) <==> Power(h, k, e, c - 1, w[i..])
      {
        SameInLarger(g, h, k, e, w[..i]);
        SamePower(g, h, k, e, c - 1, w[i..]);
      }
    }
  }

  lemma {:induction false} DefinedInLarger(g: Grammar, h: Grammar, e: Expr)
    requires Extends(g, h) && Defined(g, e)
    ensures Defined(h, e)
  {
    match e
    case Group(body) => DefinedInLarger(g, h, body);
    case Cat(left, right) => DefinedInLarger(g, h, left); DefinedInLarger(g, h, right);
    case Alt(left, right) => DefinedInLarger(g, h, left); DefinedInLarger(g, h, right);
    case Rep(item, _, _) => DefinedInLarger(g, h, item);
    case _ =>
  }
}
