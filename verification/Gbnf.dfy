/** The abstract syntax of GBNF expressions and the set of texts each one describes. */
module Gbnf {
  import opened Wrappers

  /** A Unicode code point, or any other 32-bit value an escape can spell. */
  type Code = nat
  type Text = seq<Code>
  type Name = string

  datatype CharRange = One(c: Code) | Span(lo: Code, hi: Code)

  predicate InRange(c: Code, r: CharRange) {
    match r
    case One(d) => c == d
    case Span(lo, hi) => lo <= c <= hi
  }

  predicate InRanges(c: Code, rs: seq<CharRange>) {
    exists i :: 0 <= i < |rs| && InRange(c, rs[i])
  }

  /** A parenthesized body is a `Group`; an absent upper bound of a repetition is `None`. */
  datatype Expr =
    | Empty
    | Lit(text: Text)
    | Class(negated: bool, ranges: seq<CharRange>)
    | AnyChar
    | Ref(name: Name)
    | Group(body: Expr)
    | Cat(left: Expr, right: Expr)
    | Alt(left: Expr, right: Expr)
    | Rep(item: Expr, min: nat, max: Option<nat>)

  type Grammar = map<Name, Expr>

  /**
    The documented meaning of an expression: `w` is described by `e` when the names of `g` are
    unfolded at most `k` levels deep.
   */
  ghost predicate Match(g: Grammar, k: nat, e: Expr, w: Text)
    decreases k, e, 0
  {
    match e
    case Empty => w == []
    case Lit(text) => w == text
    case Class(negated, ranges) => |w| == 1 && InRanges(w[0], ranges) != negated
    case AnyChar => |w| == 1
    case Ref(name) => k > 0 && name in g && Match(g, k - 1, g[name], w)
    case Group(body) => Match(g, k, body, w)
    case Cat(left, right) =>
      exists i :: 0 <= i <= |w| && Match(g, k, left, w[..i]) && Match(g, k, right, w[i..])
    case Alt(left, right) => Match(g, k, left, w) || Match(g, k, right, w)
    case Rep(item, min, max) =>
      exists c: nat :: min <= c && (max.Some? ==> c <= max.value) && Power(g, k, item, c, w)
  }

  /** `w` is a concatenation of exactly `c` texts described by `e`. */
  ghost predicate Power(g: Grammar, k: nat, e: Expr, c: nat, w: Text)
    decreases k, e, c + 1
  {
    if c == 0 then w == []
    else exists i :: 0 <= i <= |w| && Match(g, k, e, w[..i]) && Power(g, k, e, c - 1, w[i..])
  }

  /** The language of a rule. */
  ghost predicate InLanguage(g: Grammar, name: Name, w: Text) {
    exists k: nat :: Match(g, k, Ref(name), w)
  }

  lemma {:induction false} MatchMono(g: Grammar, k: nat, k': nat, e: Expr, w: Text)
    requires k <= k' && Match(g, k, e, w)
    ensures Match(g, k', e, w)
    decreases k, e, 0
  {
    match e
    case Ref(name) => MatchMono(g, k - 1, k' - 1, g[name], w);
    case Group(body) => MatchMono(g, k, k', body, w);
    case Cat(left, right) =>
      var i :| 0 <= i <= |w| && Match(g, k, left, w[..i]) && Match(g, k, right, w[i..]);
      MatchMono(g, k, k', left, w[..i]);
      MatchMono(g, k, k', right, w[i..]);
    case Alt(left, right) =>
      if Match(g, k, left, w) {
        MatchMono(g, k, k', left, w);
      } else {
        MatchMono(g, k, k', right, w);
      }
    case Rep(item, min, max) =>
      var c: nat :| min <= c && (max.Some? ==> c <= max.value) && Power(g, k, item, c, w);
      PowerMono(g, k, k', item, c, w);
    case _ =>
  }

  lemma {:induction false} PowerMono(g: Grammar, k: nat, k': nat, e: Expr, c: nat, w: Text)
    requires k <= k' && Power(g, k, e, c, w)
    ensures Power(g, k', e, c, w)
    decreases k, e, c + 1
  {
    if c > 0 {
      var i :| 0 <= i <= |w| && Match(g, k, e, w[..i]) && Power(g, k, e, c - 1, w[i..]);
      MatchMono(g, k, k', e, w[..i]);
      PowerMono(g, k, k', e, c - 1, w[i..]);
    }
  }

  lemma PowerMore(g: Grammar, k: nat, e: Expr, c: nat, w: Text, i: nat)
    requires i <= |w| && Match(g, k, e, w[..i]) && Power(g, k, e, c, w[i..])
    ensures Power(g, k, e, c + 1, w)
  {
  }

  lemma PowerFirst(g: Grammar, k: nat, e: Expr, c: nat, w: Text) returns (i: nat)
    requires c > 0 && Power(g, k, e, c, w)
    ensures i <= |w| && Match(g, k, e, w[..i]) && Power(g, k, e, c - 1, w[i..])
  {
    i :| 0 <= i <= |w| && Match(g, k, e, w[..i]) && Power(g, k, e, c - 1, w[i..]);
  }

  lemma RepCount(g: Grammar, k: nat, item: Expr, min: nat, max: Option<nat>, w: Text) returns (c: nat)
    requires Match(g, k, Rep(item, min, max), w)
    ensures min <= c && (max.Some? ==> c <= max.value) && Power(g, k, item, c, w)
  {
    c :| min <= c && (max.Some? ==> c <= max.value) && Power(g, k, item, c, w);
  }

  lemma CatCut(g: Grammar, k: nat, left: Expr, right: Expr, w: Text) returns (i: nat)
    requires Match(g, k, Cat(left, right), w)
    ensures i <= |w| && Match(g, k, left, w[..i]) && Match(g, k, right, w[i..])
  {
    i :| 0 <= i <= |w| && Match(g, k, left, w[..i]) && Match(g, k, right, w[i..]);
  }
}
