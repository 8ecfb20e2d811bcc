/** The flat rule table a grammar is compiled to, and the language each of its rules denotes. */
module GrammarTable {
  import opened Gbnf

  datatype Elem =
    | End
    | AltMark
    | RuleRef(id: nat)
    | Char(c: Code)
    | CharNot(c: Code)
    | RngUpper(c: Code)
    | CharAlt(c: Code)
    | CharAny

  type Rule = seq<Elem>
  type Table = seq<Rule>

  predicate EndsAlternative(e: Elem) {
    e.End? || e.AltMark?
  }

  /** Elements that only extend the character set begun by an earlier element. */
  predicate ExtendsClass(e: Elem) {
    e.CharAlt? || e.RngUpper?
  }

  predicate StartsClass(e: Elem) {
    e.Char? || e.CharNot? || e.CharAny?
  }

  /** No alternative ends inside `es`. */
  predicate Flat(es: seq<Elem>) {
    forall i :: 0 <= i < |es| ==> !EndsAlternative(es[i])
  }

  predicate NoEnd(es: seq<Elem>) {
    forall i :: 0 <= i < |es| ==> !es[i].End?
  }

  /** `es` does not begin in the middle of a character set. */
  predicate Unbroken(es: seq<Elem>) {
    es != [] ==> !ExtendsClass(es[0])
  }

  function Slot(t: Table, r: nat): Rule {
    if r < |t| then t[r] else []
  }

  /** How many elements the character set at the head of `es` occupies. */
  function ClassLen(es: seq<Elem>): (n: nat)
    requires es != []
    ensures 1 <= n <= |es|
  {
    if |es| > 1 && es[1].RngUpper? then
      if |es| > 2 && es[2].CharAlt? then 2 + ClassLen(es[2..]) else 2
    else if |es| > 1 && es[1].CharAlt? then 1 + ClassLen(es[1..])
    else 1
  }

  /** Whether some member of the character set at the head of `es` covers `c`. */
  predicate ClassFinds(es: seq<Elem>, c: Code)
    requires es != []
  {
    if |es| > 1 && es[1].RngUpper? then
      || (match es[0] case Char(lo) => lo <= c <= es[1].c
                      case CharNot(lo) => lo <= c <= es[1].c
                      case CharAlt(lo) => lo <= c <= es[1].c
                      case _ => c <= es[1].c)
      || (|es| > 2 && es[2].CharAlt? && ClassFinds(es[2..], c))
    else
      || (match es[0] case CharAny => true
                      case Char(d) => c == d
                      case CharNot(d) => c == d
                      case CharAlt(d) => c == d
                      case _ => false)
      || (|es| > 1 && es[1].CharAlt? && ClassFinds(es[1..], c))
  }

  /** `w` is derived from the sequence `es`, unfolding rule references at most `k` levels deep. */
  ghost predicate MatchElems(t: Table, k: nat, es: seq<Elem>, w: Text)
    decreases k, |es|, 0
  {
    if es == [] then w == []
    else if es[0].RuleRef? then
      exists i :: 0 <= i <= |w| && MatchRule(t, k, es[0].id, w[..i]) && MatchElems(t, k, es[1..], w[i..])
    else
      && StartsClass(es[0])
      && w != []
      && ClassFinds(es, w[0]) != es[0].CharNot?
      && MatchElems(t, k, es[ClassLen(es)..], w[1..])
  }

  /** `w` is derived from one of the alternatives of the rule body `es`. */
  ghost predicate MatchBody(t: Table, k: nat, es: seq<Elem>, w: Text)
    decreases k, |es|, 1
  {
    var j := AlternativeEnd(es);
    || MatchElems(t, k, es[..j], w)
    || (j < |es| && es[j].AltMark? && MatchBody(t, k, es[j + 1..], w))
  }

  ghost predicate MatchRule(t: Table, k: nat, r: nat, w: Text)
    decreases k, 0, 2
  {
    k > 0 && r < |t| && MatchBody(t, k - 1, t[r], w)
  }

  /** The language of a rule of the table. */
  ghost predicate InTable(t: Table, r: nat, w: Text) {
    exists k: nat :: MatchRule(t, k, r, w)
  }

  /** Where the first alternative of a rule body ends. */
  function AlternativeEnd(es: seq<Elem>): (j: nat)
    ensures j <= |es| && Flat(es[..j])
    ensures j < |es| ==> EndsAlternative(es[j])
  {
    if es == [] || EndsAlternative(es[0]) then 0
    else
      var j := 1 + AlternativeEnd(es[1..]);
      assert es[..j] == [es[0]] + es[1..][..j - 1];
      j
  }

  lemma {:induction false} ElemsMono(t: Table, k: nat, k': nat, es: seq<Elem>, w: Text)
    requires k <= k' && MatchElems(t, k, es, w)
    ensures MatchElems(t, k', es, w)
    decreases k, |es|, 0
  {
    if es != [] {
      if es[0].RuleRef? {
        var i :| 0 <= i <= |w| && MatchRule(t, k, es[0].id, w[..i]) && MatchElems(t, k, es[1..], w[i..]);
        RuleMono(t, k, k', es[0].id, w[..i]);
        ElemsMono(t, k, k', es[1..], w[i..]);
      } else {
        ElemsMono(t, k, k', es[ClassLen(es)..], w[1..]);
      }
    }
  }

  lemma {:induction false} BodyMono(t: Table, k: nat, k': nat, es: seq<Elem>, w: Text)
    requires k <= k' && MatchBody(t, k, es, w)
    ensures MatchBody(t, k', es, w)
    decreases k, |es|, 1
  {
    var j := AlternativeEnd(es);
    if MatchElems(t, k, es[..j], w) {
      ElemsMono(t, k, k', es[..j], w);
    } else {
      BodyMono(t, k, k', es[j + 1..], w);
    }
  }

  lemma {:induction false} RuleMono(t: Table, k: nat, k': nat, r: nat, w: Text)
    requires k <= k' && MatchRule(t, k, r, w)
    ensures MatchRule(t, k', r, w)
    decreases k, 0, 2
  {
    BodyMono(t, k - 1, k' - 1, t[r], w);
  }

  /** A body without alternatives matches as the sequence it is. */
  lemma FlatBody(t: Table, k: nat, es: seq<Elem>, w: Text)
    requires Flat(es)
    ensures MatchBody(t, k, es, w) <==> MatchElems(t, k, es, w)
  {
    assert AlternativeEnd(es) == |es|;
    assert es[..|es|] == es;
  }

  lemma AlternativeEndAt(a: seq<Elem>, m: Elem, b: seq<Elem>)
    requires Flat(a) && EndsAlternative(m)
    ensures AlternativeEnd(a + [m] + b) == |a|
  {
    var es := a + [m] + b;
    var j := AlternativeEnd(es);
    assert forall i :: 0 <= i < |a| ==> es[i] == a[i];
    assert es[|a|] == m;
    assert forall i :: 0 <= i < j ==> es[i] == es[..j][i];
  }

  /** A bar separates a body into two bodies, either of which may match. */
  lemma {:induction false} BarredBody(t: Table, k: nat, a: seq<Elem>, b: seq<Elem>, w: Text)
    requires NoEnd(a)
    ensures MatchBody(t, k, a + [AltMark] + b, w) <==> MatchBody(t, k, a, w) || MatchBody(t, k, b, w)
    decreases |a|
  {
    var es := a + [AltMark] + b;
    var j := AlternativeEnd(a);
    if j == |a| {
      assert a[..j] == a;
      AlternativeEndAt(a, AltMark, b);
      assert es[..|a|] == a && es[|a| + 1..] == b;
    } else {
      AlternativeEndAt(a[..j], a[j], a[j + 1..] + [AltMark] + b);
      assert a[..j] + [a[j]] + (a[j + 1..] + [AltMark] + b) == es;
      assert es[..j] == a[..j] && es[j + 1..] == a[j + 1..] + [AltMark] + b;
      BarredBody(t, k, a[j + 1..], b, w);
    }
  }

  /** The closing mark of a rule derives nothing of its own. */
  lemma {:induction false} EndedBody(t: Table, k: nat, a: seq<Elem>, w: Text)
    requires NoEnd(a)
    ensures MatchBody(t, k, a + [End], w) <==> MatchBody(t, k, a, w)
    decreases |a|
  {
    var es := a + [End];
    var j := AlternativeEnd(a);
    if j == |a| {
      assert a[..j] == a;
      AlternativeEndAt(a, End, []);
      assert es + [] == es && es[..|a|] == a;
    } else {
      AlternativeEndAt(a[..j], a[j], a[j + 1..] + [End]);
      assert a[..j] + [a[j]] + (a[j + 1..] + [End]) == es;
      assert es[..j] == a[..j] && es[j + 1..] == a[j + 1..] + [End];
      EndedBody(t, k, a[j + 1..], w);
    }
  }

  lemma {:induction false} ClassLenAppend(a: seq<Elem>, b: seq<Elem>, c: Code)
    requires a != [] && Unbroken(b)
    ensures ClassLen(a + b) == ClassLen(a)
    ensures ClassFinds(a + b, c) == ClassFinds(a, c)
    decreases |a|
  {
    var es := a + b;
    if |a| > 1 && a[1].RngUpper? {
      if |a| > 2 && a[2].CharAlt? {
        assert es[2..] == a[2..] + b;
        ClassLenAppend(a[2..], b, c);
      }
    } else if |a| > 1 && a[1].CharAlt? {
      assert es[1..] == a[1..] + b;
      ClassLenAppend(a[1..], b, c);
    }
  }

  /** Two sequences put one after the other derive the concatenations of what each derives. */
  lemma {:induction false} AppendElems(t: Table, k: nat, a: seq<Elem>, b: seq<Elem>, w: Text)
    requires Unbroken(b)
    ensures MatchElems(t, k, a + b, w) <==>
      exists i :: 0 <= i <= |w| && MatchElems(t, k, a, w[..i]) && MatchElems(t, k, b, w[i..])
    decreases |a|
  {
    if MatchElems(t, k, a + b, w) {
      var i := SplitElems(t, k, a, b, w);
    }
    forall i | 0 <= i <= |w| && MatchElems(t, k, a, w[..i]) && MatchElems(t, k, b, w[i..])
      ensures MatchElems(t, k, a + b, w)
    {
      JoinElems(t, k, a, b, w, i);
    }
  }

  lemma {:induction false} SplitElems(t: Table, k: nat, a: seq<Elem>, b: seq<Elem>, w: Text) returns (i: nat)
    requires Unbroken(b) && MatchElems(t, k, a + b, w)
    ensures i <= |w| && MatchElems(t, k, a, w[..i]) && MatchElems(t, k, b, w[i..])
    decreases |a|
  {
    if a == [] {
      i := 0;
      assert a + b == b && w[..0] == [] && w[0..] == w;
    } else {
      var tail := a[HeadLen(a)..];
      HeadAppend(t, k, a, b);
      var j := HeadCut(t, k, a + b, w);
      var rest := w[j..];
      var i' := SplitElems(t, k, tail, b, rest);
      i := j + i';
      CutTwice(w, j, i);
      HeadJoin(t, k, a, w[..i], j);
    }
  }

  lemma {:induction false} JoinElems(t: Table, k: nat, a: seq<Elem>, b: seq<Elem>, w: Text, i: nat)
    requires Unbroken(b) && i <= |w|
    requires MatchElems(t, k, a, w[..i]) && MatchElems(t, k, b, w[i..])
    ensures MatchElems(t, k, a + b, w)
    decreases |a|
  {
    if a == [] {
      assert a + b == b && w[i..] == w;
    } else {
      var tail := a[HeadLen(a)..];
      var j := HeadCut(t, k, a, w[..i]);
      var rest := w[j..];
      CutTwice(w, j, i);
      JoinElems(t, k, tail, b, rest, i - j);
      HeadAppend(t, k, a, b);
      HeadJoin(t, k, a + b, w, j);
    }
  }

  lemma CutTwice(w: Text, j: nat, i: nat)
    requires j <= i <= |w|
    ensures w[..i][..j] == w[..j] && w[..i][j..] == w[j..][..i - j] && w[j..][i - j..] == w[i..]
  {
  }

  /** How many elements the reference or character set at the head of `es` occupies. */
  function HeadLen(es: seq<Elem>): (n: nat)
    requires es != []
    ensures 1 <= n <= |es|
  {
    if es[0].RuleRef? then 1 else ClassLen(es)
  }

  /** `u` is derived from the reference or character set at the head of `es`. */
  ghost predicate HeadMatches(t: Table, k: nat, es: seq<Elem>, u: Text)
    requires es != []
  {
    if es[0].RuleRef? then MatchRule(t, k, es[0].id, u)
    else StartsClass(es[0]) && |u| == 1 && ClassFinds(es, u[0]) != es[0].CharNot?
  }

  lemma HeadCut(t: Table, k: nat, es: seq<Elem>, w: Text) returns (j: nat)
    requires es != [] && MatchElems(t, k, es, w)
    ensures j <= |w| && HeadMatches(t, k, es, w[..j]) && MatchElems(t, k, es[HeadLen(es)..], w[j..])
  {
    if es[0].RuleRef? {
      j :| 0 <= j <= |w| && MatchRule(t, k, es[0].id, w[..j]) && MatchElems(t, k, es[1..], w[j..]);
    } else {
      j := 1;
    }
  }

  lemma HeadJoin(t: Table, k: nat, es: seq<Elem>, w: Text, j: nat)
    requires es != [] && j <= |w| && HeadMatches(t, k, es, w[..j]) && MatchElems(t, k, es[HeadLen(es)..], w[j..])
    ensures MatchElems(t, k, es, w)
  {
  }

  lemma HeadAppend(t: Table, k: nat, a: seq<Elem>, b: seq<Elem>)
    requires a != [] && Unbroken(b)
    ensures HeadLen(a + b) == HeadLen(a)
    ensures (a + b)[HeadLen(a)..] == a[HeadLen(a)..] + b
    ensures forall u :: HeadMatches(t, k, a + b, u) <==> HeadMatches(t, k, a, u)
  {
    forall c: Code
      ensures ClassLen(a + b) == ClassLen(a) && ClassFinds(a + b, c) == ClassFinds(a, c)
    {
      ClassLenAppend(a, b, c);
    }
    ClassLenAppend(a, b, 0);
  }

  // The same facts about a sequence cut at one of its positions.

  lemma BarredAt(t: Table, k: nat, es: seq<Elem>, i: nat, w: Text)
    requires i < |es| && es[i].AltMark? && NoEnd(es[..i])
    ensures MatchBody(t, k, es, w) <==> MatchBody(t, k, es[..i], w) || MatchBody(t, k, es[i + 1..], w)
  {
    assert es == es[..i] + [AltMark] + es[i + 1..];
    BarredBody(t, k, es[..i], es[i + 1..], w);
  }

  lemma SplitAt(t: Table, k: nat, es: seq<Elem>, i: nat, w: Text) returns (j: nat)
    requires Flat(es) && i <= |es| && Unbroken(es[i..]) && MatchBody(t, k, es, w)
    ensures j <= |w| && MatchBody(t, k, es[..i], w[..j]) && MatchBody(t, k, es[i..], w[j..])
  {
    assert es == es[..i] + es[i..];
    FlatBody(t, k, es, w);
    j := SplitElems(t, k, es[..i], es[i..], w);
    FlatBody(t, k, es[..i], w[..j]);
    FlatBody(t, k, es[i..], w[j..]);
  }

  lemma JoinAt(t: Table, ka: nat, kb: nat, es: seq<Elem>, i: nat, w: Text, j: nat) returns (k: nat)
    requires Flat(es) && i <= |es| && Unbroken(es[i..]) && j <= |w|
    requires MatchBody(t, ka, es[..i], w[..j]) && MatchBody(t, kb, es[i..], w[j..])
    ensures MatchBody(t, k, es, w)
  {
    k := if ka < kb then kb else ka;
    assert es == es[..i] + es[i..];
    FlatBody(t, ka, es[..i], w[..j]);
    FlatBody(t, kb, es[i..], w[j..]);
    ElemsMono(t, ka, k, es[..i], w[..j]);
    ElemsMono(t, kb, k, es[i..], w[j..]);
    JoinElems(t, k, es[..i], es[i..], w, j);
    FlatBody(t, k, es, w);
  }
}
