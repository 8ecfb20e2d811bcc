/** The members of a JSON object: which of them a schema admits, in what order, and how they are written. */
module ObjectMembers {
  import opened Wrappers
  import opened Gbnf
  import opened Meaning
  import opened KeyExclusion

  const COMMA := Cat(Lit([44]), Ref(SPACE_NAME))
  const OPENING := Cat(Lit([123]), Ref(SPACE_NAME))
  const CLOSING := Cat(Lit([125]), Ref(SPACE_NAME))

  /** Stands for the properties that are not listed. */
  const ADDITIONAL: Name := "*"

  /** The rule for the key and the value of each property. */
  type Members = map<Name, Name>

  // ---------------------------------------------------------------------------------------------
  // Admitted members and their texts

  /** `sel` begins with `n` times `k`. */
  predicate BeginsWith(sel: seq<Name>, n: nat, k: Name) {
    n <= |sel| && forall i :: 0 <= i < n ==> sel[i] == k
  }

  /** `sel` is in the order of `ks`, with none of them more than once except the additional ones. */
  ghost predicate Selects(ks: seq<Name>, sel: seq<Name>)
    decreases |ks|, 1
  {
    if ks == [] then sel == [] else exists n: nat :: SelectsBy(ks, sel, n)
  }

  /** The first of `ks` is there `n` times, and then a selection from the others. */
  ghost predicate SelectsBy(ks: seq<Name>, sel: seq<Name>, n: nat)
    requires ks != []
    decreases |ks|, 0
  {
    (n > 1 ==> ks[0] == ADDITIONAL) && BeginsWith(sel, n, ks[0]) && Selects(ks[1..], sel[n..])
  }

  /** The same where the first of `ks` is there. */
  ghost predicate SelectsFirst(ks: seq<Name>, sel: seq<Name>) {
    ks != [] && exists n: nat :: n > 0 && SelectsBy(ks, sel, n)
  }

  lemma SelectsCount(ks: seq<Name>, sel: seq<Name>) returns (n: nat)
    requires ks != [] && Selects(ks, sel)
    ensures (n > 1 ==> ks[0] == ADDITIONAL) && BeginsWith(sel, n, ks[0]) && Selects(ks[1..], sel[n..])
  {
    n :| SelectsBy(ks, sel, n);
  }

  /** Every selection that is not empty has a first member. */
  lemma {:induction false} FirstSelected(ks: seq<Name>, sel: seq<Name>) returns (i: nat)
    requires Selects(ks, sel) && sel != []
    ensures i < |ks| && SelectsFirst(ks[i..], sel)
    decreases |ks|
  {
    var n := SelectsCount(ks, sel);
    if n > 0 {
      i := 0;
      assert ks[0..] == ks && SelectsBy(ks, sel, n);
    } else {
      assert sel[0..] == sel;
      var j := FirstSelected(ks[1..], sel);
      i := j + 1;
      assert ks[1..][j..] == ks[i..];
    }
  }

  lemma {:induction false} SelectedAnywhere(ks: seq<Name>, i: nat, sel: seq<Name>)
    requires i < |ks| && SelectsFirst(ks[i..], sel)
    ensures Selects(ks, sel) && sel != []
    decreases i
  {
    if i == 0 {
      assert ks[0..] == ks;
    } else {
      assert ks[1..][i - 1..] == ks[i..];
      SelectedAnywhere(ks[1..], i - 1, sel);
      assert sel[0..] == sel;
      assert SelectsBy(ks, sel, 0);
    }
  }

  ghost predicate Member(g: Grammar, kv: Members, k: Name, w: Text) {
    k in kv && Means(g, Ref(kv[k]), w)
  }

  /** The members `sel`, with a comma before each. */
  ghost predicate Tail(g: Grammar, kv: Members, sel: seq<Name>, w: Text)
    decreases |sel|, 1
  {
    if sel == [] then w == [] else exists c, m, r :: TailOf(g, kv, sel, w, c, m, r)
  }

  /** `w` is a comma, the first member, and the others. */
  ghost predicate TailOf(g: Grammar, kv: Members, sel: seq<Name>, w: Text, c: Text, m: Text, r: Text)
    requires sel != []
    decreases |sel|, 0
  {
    w == c + m + r && Means(g, COMMA, c) && Member(g, kv, sel[0], m) && Tail(g, kv, sel[1..], r)
  }

  /** The members `sel`, with one comma between neighbours. */
  ghost predicate Joined(g: Grammar, kv: Members, sel: seq<Name>, w: Text) {
    if sel == [] then w == [] else exists m, r :: JoinedOf(g, kv, sel, w, m, r)
  }

  /** `w` is the first member and the others. */
  ghost predicate JoinedOf(g: Grammar, kv: Members, sel: seq<Name>, w: Text, m: Text, r: Text)
    requires sel != []
  {
    w == m + r && Member(g, kv, sel[0], m) && Tail(g, kv, sel[1..], r)
  }

  /** The members `sel`, with one comma between neighbours, in braces. */
  ghost predicate ObjectText(g: Grammar, kv: Members, sel: seq<Name>, w: Text) {
    exists o, j, c :: ObjectOf(g, kv, sel, w, o, j, c)
  }

  ghost predicate ObjectOf(g: Grammar, kv: Members, sel: seq<Name>, w: Text, o: Text, j: Text, c: Text) {
    w == o + j + c && Means(g, OPENING, o) && Joined(g, kv, sel, j) && Means(g, CLOSING, c)
  }

  lemma TailFirst(g: Grammar, kv: Members, sel: seq<Name>, w: Text) returns (c: Text, m: Text, r: Text)
    requires sel != [] && Tail(g, kv, sel, w)
    ensures w == c + m + r && Means(g, COMMA, c) && Member(g, kv, sel[0], m) && Tail(g, kv, sel[1..], r)
  {
    c, m, r :| TailOf(g, kv, sel, w, c, m, r);
  }

  lemma JoinedFirst(g: Grammar, kv: Members, sel: seq<Name>, w: Text) returns (m: Text, r: Text)
    requires sel != [] && Joined(g, kv, sel, w)
    ensures w == m + r && Member(g, kv, sel[0], m) && Tail(g, kv, sel[1..], r)
  {
    m, r :| JoinedOf(g, kv, sel, w, m, r);
  }

  lemma TailMore(g: Grammar, kv: Members, sel: seq<Name>, w: Text, c: Text, m: Text, r: Text)
    requires sel != [] && w == c + m + r && Means(g, COMMA, c) && Member(g, kv, sel[0], m) && Tail(g, kv, sel[1..], r)
    ensures Tail(g, kv, sel, w)
  {
    assert TailOf(g, kv, sel, w, c, m, r);
  }

  lemma JoinedMore(g: Grammar, kv: Members, sel: seq<Name>, rest: seq<Name>, w: Text, m: Text, r: Text)
    requires sel != [] && rest == sel[1..] && w == m + r && Member(g, kv, sel[0], m) && Tail(g, kv, rest, r)
    ensures Joined(g, kv, sel, w)
  {
    assert JoinedOf(g, kv, sel, w, m, r);
  }

  lemma {:induction false} TailAppend(g: Grammar, kv: Members, sel: seq<Name>, sel': seq<Name>, w: Text, w': Text)
    requires Tail(g, kv, sel, w) && Tail(g, kv, sel', w')
    ensures Tail(g, kv, sel + sel', w + w')
    decreases |sel|
  {
    if sel == [] {
      assert sel + sel' == sel' && w + w' == w';
    } else {
      var c, m, r := TailFirst(g, kv, sel, w);
      TailAppend(g, kv, sel[1..], sel', r, w');
      assert (sel + sel')[1..] == sel[1..] + sel';
      TailMore(g, kv, sel + sel', w + w', c, m, r + w');
    }
  }

  lemma {:induction false} TailSplit(g: Grammar, kv: Members, sel: seq<Name>, n: nat, w: Text)
    returns (a: Text, b: Text)
    requires n <= |sel| && Tail(g, kv, sel, w)
    ensures w == a + b && Tail(g, kv, sel[..n], a) && Tail(g, kv, sel[n..], b)
    decreases n
  {
    if n == 0 {
      a, b := [], w;
      assert sel[0..] == sel;
    } else {
      var c, m, r := TailFirst(g, kv, sel, w);
      var a';
      a', b := TailSplit(g, kv, sel[1..], n - 1, r);
      a := c + m + a';
      assert sel[..n][1..] == sel[1..][..n - 1] && sel[1..][n - 1..] == sel[n..];
      TailMore(g, kv, sel[..n], a, c, m, a');
    }
  }

  lemma JoinedAppend(g: Grammar, kv: Members, sel: seq<Name>, sel': seq<Name>, w: Text, w': Text)
    requires sel != [] && Joined(g, kv, sel, w) && Tail(g, kv, sel', w')
    ensures Joined(g, kv, sel + sel', w + w')
  {
    var m, r := JoinedFirst(g, kv, sel, w);
    TailAppend(g, kv, sel[1..], sel', r, w');
    assert (sel + sel')[1..] == sel[1..] + sel';
    JoinedMore(g, kv, sel + sel', sel[1..] + sel', w + w', m, r + w');
  }

  lemma JoinedSplit(g: Grammar, kv: Members, sel: seq<Name>, sel': seq<Name>, w: Text) returns (a: Text, b: Text)
    requires sel != [] && Joined(g, kv, sel + sel', w)
    ensures w == a + b && Joined(g, kv, sel, a) && Tail(g, kv, sel', b)
  {
    var all := sel + sel';
    var m, r := JoinedFirst(g, kv, all, w);
    assert all[1..] == sel[1..] + sel';
    var a';
    a', b := TailSplit(g, kv, all[1..], |sel| - 1, r);
    assert all[1..][..|sel| - 1] == sel[1..] && all[1..][|sel| - 1..] == sel';
    a := m + a';
    JoinedMore(g, kv, sel, sel[1..], a, m, a');
  }

  /** Members after a comma: the comma and the members. */
  lemma CommaJoined(g: Grammar, kv: Members, sel: seq<Name>, c: Text, w: Text)
    requires sel != [] && Means(g, COMMA, c) && Joined(g, kv, sel, w)
    ensures Tail(g, kv, sel, c + w)
  {
    var m, r := JoinedFirst(g, kv, sel, w);
    TailMore(g, kv, sel, c + w, c, m, r);
  }

  lemma TailComma(g: Grammar, kv: Members, sel: seq<Name>, w: Text) returns (c: Text, j: Text)
    requires sel != [] && Tail(g, kv, sel, w)
    ensures w == c + j && Means(g, COMMA, c) && Joined(g, kv, sel, j)
  {
    var m, r;
    c, m, r := TailFirst(g, kv, sel, w);
    j := m + r;
    JoinedMore(g, kv, sel, sel[1..], j, m, r);
  }

  // ---------------------------------------------------------------------------------------------
  // The expressions for optional members

  /** A member after a comma. */
  function CommaRef(kv: Members, k: Name): Expr
    requires k in kv
  {
    Group(Cat(COMMA, Ref(kv[k])))
  }

  /** The first of the members: after a comma if it is itself optional. */
  function Head(kv: Members, k: Name, firstIsOptional: bool): Expr
    requires k in kv
  {
    if firstIsOptional then Rep(CommaRef(kv, k), 0, if k == ADDITIONAL then None else Some(1))
    else if k == ADDITIONAL then Cat(Ref(kv[k]), Rep(CommaRef(kv, k), 0, None))
    else Ref(kv[k])
  }

  /** `e` is the first of the members `ks` and a reference to a rule for the others. */
  ghost predicate Refs(g: Grammar, kv: Members, ks: seq<Name>, firstIsOptional: bool, e: Expr)
    decreases |ks|
  {
    && ks != []
    && ks[0] in kv
    && (if |ks| == 1 then e == Head(kv, ks[0], firstIsOptional)
        else
          && e.Cat?
          && e.left == Head(kv, ks[0], firstIsOptional)
          && e.right.Ref?
          && e.right.name in g
          && Refs(g, kv, ks[1..], true, g[e.right.name]))
  }

  /** What is there stays there when rules are added. */
  lemma {:induction false} RefsMore(g: Grammar, h: Grammar, kv: Members, ks: seq<Name>, firstIsOptional: bool, e: Expr)
    requires Refs(g, kv, ks, firstIsOptional, e) && Extends(g, h)
    ensures Refs(h, kv, ks, firstIsOptional, e)
    decreases |ks|
  {
    if |ks| > 1 {
      RefsMore(g, h, kv, ks[1..], true, g[e.right.name]);
    }
  }

  /** The alternatives begin with each of the first `n` members in turn. */
  ghost predicate Alternates(g: Grammar, kv: Members, ks: seq<Name>, n: nat, e: Expr)
    decreases n
  {
    && 0 < n <= |ks|
    && (if n == 1 then Refs(g, kv, ks, false, e)
        else e.Alt? && Alternates(g, kv, ks, n - 1, e.left) && Refs(g, kv, ks[n - 1..], false, e.right))
  }

  lemma {:induction false} AlternatesMore(g: Grammar, h: Grammar, kv: Members, ks: seq<Name>, n: nat, e: Expr)
    requires Alternates(g, kv, ks, n, e) && Extends(g, h)
    ensures Alternates(h, kv, ks, n, e)
    decreases n
  {
    if n == 1 {
      RefsMore(g, h, kv, ks, false, e);
    } else {
      AlternatesMore(g, h, kv, ks, n - 1, e.left);
      RefsMore(g, h, kv, ks[n - 1..], false, e.right);
    }
  }

  function NameTimes(k: Name, n: nat): (sel: seq<Name>)
    ensures BeginsWith(sel, n, k) && |sel| == n
  {
    seq(n, _ => k)
  }

  lemma {:induction false} TimesTail(g: Grammar, kv: Members, k: Name, n: nat, w: Text)
    requires k in kv && Times(g, CommaRef(kv, k), n, w)
    ensures Tail(g, kv, NameTimes(k, n), w)
    decreases n
  {
    if n == 0 {
      NoTimes(g, CommaRef(kv, k), w);
    } else {
      var a, b := TimesFirst(g, CommaRef(kv, k), n, w);
      MeansGroup(g, Cat(COMMA, Ref(kv[k])), a);
      var c, m := SplitCat(g, COMMA, Ref(kv[k]), a);
      TimesTail(g, kv, k, n - 1, b);
      assert NameTimes(k, n)[1..] == NameTimes(k, n - 1);
      TailMore(g, kv, NameTimes(k, n), w, c, m, b);
    }
  }

  lemma {:induction false} TailTimes(g: Grammar, kv: Members, k: Name, n: nat, sel: seq<Name>, w: Text)
    requires k in kv && |sel| == n && BeginsWith(sel, n, k) && Tail(g, kv, sel, w)
    ensures Times(g, CommaRef(kv, k), n, w)
    decreases n
  {
    if n == 0 {
      NoTimes(g, CommaRef(kv, k), w);
    } else {
      var c, m, r := TailFirst(g, kv, sel, w);
      JoinCat(g, COMMA, Ref(kv[k]), c, m);
      MeansGroup(g, Cat(COMMA, Ref(kv[k])), c + m);
      TailTimes(g, kv, k, n - 1, sel[1..], r);
      TimesMore(g, CommaRef(kv, k), n - 1, c + m, r);
    }
  }

  // ---------------------------------------------------------------------------------------------
  // Their meaning

  ghost predicate SomeTail(g: Grammar, kv: Members, ks: seq<Name>, w: Text) {
    exists sel :: Selects(ks, sel) && Tail(g, kv, sel, w)
  }

  ghost predicate SomeFirst(g: Grammar, kv: Members, ks: seq<Name>, w: Text) {
    exists sel :: SelectsFirst(ks, sel) && Joined(g, kv, sel, w)
  }

  lemma SelectsMore(ks: seq<Name>, n: nat, sel: seq<Name>)
    requires ks != [] && (n > 1 ==> ks[0] == ADDITIONAL) && Selects(ks[1..], sel)
    ensures Selects(ks, NameTimes(ks[0], n) + sel)
    ensures n > 0 ==> SelectsFirst(ks, NameTimes(ks[0], n) + sel)
  {
    var all := NameTimes(ks[0], n) + sel;
    assert all[n..] == sel;
    assert SelectsBy(ks, all, n);
  }

  /** The members after the first, if any: nothing or the rule for them. */
  ghost predicate Rest(g: Grammar, kv: Members, ks: seq<Name>, e: Expr, w: Text)
    requires ks != [] && (|ks| > 1 ==> e.Cat? && e.right.Ref? && e.right.name in g)
  {
    if |ks| == 1 then w == [] else Means(g, g[e.right.name], w)
  }

  lemma SplitRefs(g: Grammar, kv: Members, ks: seq<Name>, first: bool, e: Expr, w: Text) returns (a: Text, b: Text)
    requires Refs(g, kv, ks, first, e) && Means(g, e, w)
    ensures w == a + b && Means(g, Head(kv, ks[0], first), a) && Rest(g, kv, ks, e, b)
  {
    if |ks| == 1 {
      a, b := w, [];
    } else {
      a, b := SplitCat(g, e.left, e.right, w);
      MeansRef(g, e.right.name, b);
    }
  }

  lemma JoinRefs(g: Grammar, kv: Members, ks: seq<Name>, first: bool, e: Expr, a: Text, b: Text)
    requires Refs(g, kv, ks, first, e) && Means(g, Head(kv, ks[0], first), a) && Rest(g, kv, ks, e, b)
    ensures Means(g, e, a + b)
  {
    if |ks| == 1 {
      assert a + b == a;
    } else {
      MeansRef(g, e.right.name, b);
      JoinCat(g, e.left, e.right, a, b);
    }
  }

  /** Optional members, each after a comma: exactly the selections from them. */
  lemma {:induction false} OptionalMembers(g: Grammar, kv: Members, ks: seq<Name>, e: Expr, w: Text)
    requires Refs(g, kv, ks, true, e)
    ensures Means(g, e, w) <==> SomeTail(g, kv, ks, w)
    decreases |ks|, 1
  {
    if Means(g, e, w) {
      var a, b := SplitRefs(g, kv, ks, true, e, w);
      var sel := RestSelected(g, kv, ks, true, e, b);
      var n := MeansRep(g, CommaRef(kv, ks[0]), 0, if ks[0] == ADDITIONAL then None else Some(1), a);
      TimesTail(g, kv, ks[0], n, a);
      TailAppend(g, kv, NameTimes(ks[0], n), sel, a, b);
      SelectsMore(ks, n, sel);
    }
    if SomeTail(g, kv, ks, w) {
      var sel :| Selects(ks, sel) && Tail(g, kv, sel, w);
      var n := SelectsCount(ks, sel);
      var a, b := TailSplit(g, kv, sel, n, w);
      TailTimes(g, kv, ks[0], n, sel[..n], a);
      JoinRep(g, CommaRef(kv, ks[0]), 0, if ks[0] == ADDITIONAL then None else Some(1), n, a);
      SelectedRest(g, kv, ks, true, e, sel[n..], b);
      JoinRefs(g, kv, ks, true, e, a, b);
    }
  }

  lemma {:induction false} RestSelected(g: Grammar, kv: Members, ks: seq<Name>, first: bool, e: Expr, w: Text)
    returns (sel: seq<Name>)
    requires Refs(g, kv, ks, first, e) && Rest(g, kv, ks, e, w)
    ensures Selects(ks[1..], sel) && Tail(g, kv, sel, w)
    decreases |ks|, 0
  {
    if |ks| == 1 {
      sel := [];
    } else {
      OptionalMembers(g, kv, ks[1..], g[e.right.name], w);
      sel :| Selects(ks[1..], sel) && Tail(g, kv, sel, w);
    }
  }

  lemma {:induction false} SelectedRest(g: Grammar, kv: Members, ks: seq<Name>, first: bool, e: Expr, sel: seq<Name>,
                                        w: Text)
    requires Refs(g, kv, ks, first, e) && Selects(ks[1..], sel) && Tail(g, kv, sel, w)
    ensures Rest(g, kv, ks, e, w)
    decreases |ks|, 0
  {
    if |ks| > 1 {
      OptionalMembers(g, kv, ks[1..], g[e.right.name], w);
    }
  }

  lemma HeadSplit(g: Grammar, kv: Members, k: Name, w: Text) returns (n: nat, m: Text, r: Text)
    requires k in kv && Means(g, Head(kv, k, false), w)
    ensures n > 0 ==> k == ADDITIONAL
    ensures w == m + r && Member(g, kv, k, m) && Times(g, CommaRef(kv, k), n, r)
  {
    if k == ADDITIONAL {
      m, r := SplitCat(g, Ref(kv[k]), Rep(CommaRef(kv, k), 0, None), w);
      n := MeansRep(g, CommaRef(kv, k), 0, None, r);
    } else {
      n, m, r := 0, w, [];
      NoTimes(g, CommaRef(kv, k), []);
    }
  }

  lemma HeadJoin(g: Grammar, kv: Members, k: Name, n: nat, m: Text, r: Text)
    requires n > 0 ==> k == ADDITIONAL
    requires Member(g, kv, k, m) && Times(g, CommaRef(kv, k), n, r)
    ensures Means(g, Head(kv, k, false), m + r)
  {
    if k == ADDITIONAL {
      JoinRep(g, CommaRef(kv, k), 0, None, n, r);
      JoinCat(g, Ref(kv[k]), Rep(CommaRef(kv, k), 0, None), m, r);
    } else {
      NoTimes(g, CommaRef(kv, k), r);
      assert m + r == m;
    }
  }

  /** Members of which the first is there, without a comma before it. */
  lemma FirstMembers(g: Grammar, kv: Members, ks: seq<Name>, e: Expr, w: Text)
    requires Refs(g, kv, ks, false, e)
    ensures Means(g, e, w) <==> SomeFirst(g, kv, ks, w)
  {
    if Means(g, e, w) {
      FirstSound(g, kv, ks, ks[0], e, w);
    }
    if SomeFirst(g, kv, ks, w) {
      var sel :| SelectsFirst(ks, sel) && Joined(g, kv, sel, w);
      FirstComplete(g, kv, ks, ks[0], e, sel, w);
    }
  }

  lemma FirstJoined(g: Grammar, kv: Members, k: Name, n: nat, sel: seq<Name>, w: Text, m: Text, t: Text)
    requires w == m + t && Member(g, kv, k, m) && Tail(g, kv, NameTimes(k, n) + sel, t)
    ensures Joined(g, kv, NameTimes(k, n + 1) + sel, w)
  {
    var rest, all := NameTimes(k, n) + sel, NameTimes(k, n + 1) + sel;
    assert all[1..] == rest;
    JoinedMore(g, kv, all, rest, w, m, t);
  }

  lemma FirstSound(g: Grammar, kv: Members, ks: seq<Name>, k: Name, e: Expr, w: Text)
    requires Refs(g, kv, ks, false, e) && k == ks[0] && Means(g, e, w)
    ensures SomeFirst(g, kv, ks, w)
  {
    var a, b := SplitRefs(g, kv, ks, false, e, w);
    var sel := RestSelected(g, kv, ks, false, e, b);
    var n, m, r := HeadSplit(g, kv, k, a);
    TimesTail(g, kv, k, n, r);
    TailAppend(g, kv, NameTimes(k, n), sel, r, b);
    SelectsMore(ks, n + 1, sel);
    var t := r + b;
    assert w == m + t;
    FirstJoined(g, kv, k, n, sel, w, m, t);
  }

  lemma FirstCount(ks: seq<Name>, sel: seq<Name>) returns (n: nat)
    requires SelectsFirst(ks, sel)
    ensures n > 0 && (n > 1 ==> ks[0] == ADDITIONAL) && BeginsWith(sel, n, ks[0]) && Selects(ks[1..], sel[n..])
  {
    n :| n > 0 && SelectsBy(ks, sel, n);
  }

  /** Members that begin with `n` times `k`, taken apart after those. */
  lemma HeadAndTail(g: Grammar, kv: Members, sel: seq<Name>, k: Name, n: nat, w: Text) returns (a: Text, b: Text)
    requires k in kv && 0 < n && (n > 1 ==> k == ADDITIONAL) && BeginsWith(sel, n, k) && Joined(g, kv, sel, w)
    ensures w == a + b && Means(g, Head(kv, k, false), a) && Tail(g, kv, sel[n..], b)
  {
    var m, r := JoinedFirst(g, kv, sel, w);
    var a';
    a', b := TailSplit(g, kv, sel[1..], n - 1, r);
    TailTimes(g, kv, k, n - 1, sel[1..][..n - 1], a');
    HeadJoin(g, kv, k, n - 1, m, a');
    assert sel[1..][n - 1..] == sel[n..];
    a := m + a';
    assert w == a + b;
  }

  lemma FirstComplete(g: Grammar, kv: Members, ks: seq<Name>, k: Name, e: Expr, sel: seq<Name>, w: Text)
    requires Refs(g, kv, ks, false, e) && k == ks[0] && SelectsFirst(ks, sel) && Joined(g, kv, sel, w)
    ensures Means(g, e, w)
  {
    var n := FirstCount(ks, sel);
    var a, b := HeadAndTail(g, kv, sel, k, n, w);
    SelectedRest(g, kv, ks, false, e, sel[n..], b);
    JoinRefs(g, kv, ks, false, e, a, b);
  }

  ghost predicate SomeUpTo(g: Grammar, kv: Members, ks: seq<Name>, n: nat, w: Text) {
    exists i: nat :: i < n && i < |ks| && SomeFirst(g, kv, ks[i..], w)
  }

  lemma {:induction false} AlternateMembers(g: Grammar, kv: Members, ks: seq<Name>, n: nat, e: Expr, w: Text)
    requires Alternates(g, kv, ks, n, e)
    ensures Means(g, e, w) <==> SomeUpTo(g, kv, ks, n, w)
    decreases n
  {
    if n == 1 {
      FirstMembers(g, kv, ks, e, w);
      assert ks[0..] == ks;
    } else {
      AlternateMembers(g, kv, ks, n - 1, e.left, w);
      FirstMembers(g, kv, ks[n - 1..], e.right, w);
      MeansAlt(g, e.left, e.right, w);
    }
  }

  /** At least one of the optional members. */
  ghost predicate SomeJoined(g: Grammar, kv: Members, ks: seq<Name>, w: Text) {
    exists sel :: Selects(ks, sel) && sel != [] && Joined(g, kv, sel, w)
  }

  /** The alternatives together: exactly the selections that are not empty. */
  lemma ChosenMembers(g: Grammar, kv: Members, ks: seq<Name>, e: Expr, w: Text)
    requires Alternates(g, kv, ks, |ks|, e)
    ensures Means(g, e, w) <==> SomeJoined(g, kv, ks, w)
  {
    AlternateMembers(g, kv, ks, |ks|, e, w);
    if SomeUpTo(g, kv, ks, |ks|, w) {
      var i: nat :| i < |ks| && SomeFirst(g, kv, ks[i..], w);
      var sel :| SelectsFirst(ks[i..], sel) && Joined(g, kv, sel, w);
      SelectedAnywhere(ks, i, sel);
    }
    if SomeJoined(g, kv, ks, w) {
      var sel :| Selects(ks, sel) && sel != [] && Joined(g, kv, sel, w);
      var i := FirstSelected(ks, sel);
      assert SomeFirst(g, kv, ks[i..], w);
    }
  }
}
