/** The rule for a JSON object, built from its properties. */
module ObjectRules {
  import opened Wrappers
  import opened Gbnf
  import opened Meaning
  import opened ObjectMembers

  // ---------------------------------------------------------------------------------------------
  // The whole object

  /** The opening brace and the required members, with commas between them. */
  function Chain(kv: Members, required: seq<Name>): Expr
    requires forall k :: k in required ==> k in kv
  {
    if required == [] then OPENING
    else
      var n := |required| - 1;
      Cat(if n == 0 then OPENING else Cat(Chain(kv, required[..n]), COMMA), Ref(kv[required[n]]))
  }

  /** `e` is the rule for an object with these members. */
  ghost predicate IsObject(g: Grammar, kv: Members, required: seq<Name>, optional: seq<Name>, e: Expr) {
    e.Cat? && IsBody(g, kv, required, optional, e.left) && e.right == CLOSING
  }

  ghost predicate IsChoice(g: Grammar, kv: Members, required: seq<Name>, optional: seq<Name>, e: Expr) {
    exists alternatives ::
      && Alternates(g, kv, optional, |optional|, alternatives)
      && e == Rep(Group(if required == [] then alternatives else Cat(COMMA, Group(alternatives))), 0, Some(1))
  }

  /** An opening brace and members. */
  ghost predicate Opened(g: Grammar, kv: Members, sel: seq<Name>, w: Text) {
    exists o, j :: OpenedBy(g, kv, sel, w, o, j)
  }

  ghost predicate OpenedBy(g: Grammar, kv: Members, sel: seq<Name>, w: Text, o: Text, j: Text) {
    w == o + j && Means(g, OPENING, o) && Joined(g, kv, sel, j)
  }

  lemma JoinedOne(g: Grammar, kv: Members, k: Name, w: Text)
    ensures Joined(g, kv, [k], w) <==> Member(g, kv, k, w)
  {
    if Joined(g, kv, [k], w) {
      var m, r := JoinedFirst(g, kv, [k], w);
      assert w == m;
    }
    if Member(g, kv, k, w) {
      JoinedMore(g, kv, [k], [], w, w, []);
    }
  }

  lemma {:induction false} ChainOpens(g: Grammar, kv: Members, required: seq<Name>, w: Text)
    requires (forall k :: k in required ==> k in kv) && Means(g, Chain(kv, required), w)
    ensures Opened(g, kv, required, w)
    decreases |required|
  {
    if required == [] {
      assert OpenedBy(g, kv, required, w, w, []);
    } else {
      var n := |required| - 1;
      var front, last := required[..n], required[n];
      var before := if n == 0 then OPENING else Cat(Chain(kv, front), COMMA);
      var a, m := SplitCat(g, before, Ref(kv[last]), w);
      JoinedOne(g, kv, last, m);
      assert required == front + [last];
      if n == 0 {
        assert required == [last];
        assert OpenedBy(g, kv, required, w, a, m);
      } else {
        var b, c := SplitCat(g, Chain(kv, front), COMMA, a);
        ChainOpens(g, kv, front, b);
        OpenedMore(g, kv, front, last, b, c, m);
      }
    }
  }

  lemma OpenedMore(g: Grammar, kv: Members, front: seq<Name>, last: Name, b: Text, c: Text, m: Text)
    requires front != [] && Opened(g, kv, front, b) && Means(g, COMMA, c) && Joined(g, kv, [last], m)
    ensures Opened(g, kv, front + [last], b + c + m)
  {
    var o, j :| OpenedBy(g, kv, front, b, o, j);
    CommaJoined(g, kv, [last], c, m);
    JoinedAppend(g, kv, front, [last], j, c + m);
    assert b + c + m == o + (j + (c + m));
    assert OpenedBy(g, kv, front + [last], b + c + m, o, j + (c + m));
  }

  lemma ChainMore(g: Grammar, kv: Members, front: seq<Name>, last: Name, b: Text, c: Text, m: Text)
    requires (forall k :: k in front ==> k in kv) && last in kv
    requires Means(g, Chain(kv, front), b) && Means(g, COMMA, c) && Joined(g, kv, [last], m)
    ensures Means(g, Cat(Cat(Chain(kv, front), COMMA), Ref(kv[last])), b + c + m)
  {
    JoinedOne(g, kv, last, m);
    JoinCat(g, Chain(kv, front), COMMA, b, c);
    JoinCat(g, Cat(Chain(kv, front), COMMA), Ref(kv[last]), b + c, m);
  }

  lemma {:induction false} OpensChain(g: Grammar, kv: Members, required: seq<Name>, w: Text)
    requires (forall k :: k in required ==> k in kv) && Opened(g, kv, required, w)
    ensures Means(g, Chain(kv, required), w)
    decreases |required|
  {
    var o, j :| OpenedBy(g, kv, required, w, o, j);
    if required == [] {
      assert w == o;
    } else {
      var n := |required| - 1;
      var front, last := required[..n], required[n];
      assert required == front + [last];
      if n == 0 {
        assert required == [last];
        JoinedOne(g, kv, last, j);
        JoinCat(g, OPENING, Ref(kv[last]), o, j);
      } else {
        var a, t := JoinedSplit(g, kv, front, [last], j);
        var c, m := TailComma(g, kv, [last], t);
        var b := o + a;
        assert OpenedBy(g, kv, front, b, o, a);
        OpensChain(g, kv, front, b);
        ChainMore(g, kv, front, last, b, c, m);
        assert w == b + c + m;
      }
    }
  }

  /** After the required members: nothing, or a selection of the optional ones. */
  ghost predicate Chosen(g: Grammar, kv: Members, required: seq<Name>, optional: seq<Name>, w: Text) {
    exists sel :: ChosenBy(g, kv, required, optional, w, sel)
  }

  ghost predicate ChosenBy(g: Grammar, kv: Members, required: seq<Name>, optional: seq<Name>, w: Text, sel: seq<Name>) {
    Selects(optional, sel) && if required == [] then Joined(g, kv, sel, w) else Tail(g, kv, sel, w)
  }

  lemma {:induction false} SelectsNothing(ks: seq<Name>)
    ensures Selects(ks, [])
    decreases |ks|
  {
    if ks != [] {
      SelectsNothing(ks[1..]);
      var none: seq<Name> := [];
      assert none[0..] == none;
      assert SelectsBy(ks, none, 0);
    }
  }

  lemma ChoiceMeans(g: Grammar, kv: Members, required: seq<Name>, optional: seq<Name>, e: Expr, w: Text)
    requires IsChoice(g, kv, required, optional, e)
    ensures Means(g, e, w) <==> Chosen(g, kv, required, optional, w)
  {
    var alternatives :|
      && Alternates(g, kv, optional, |optional|, alternatives)
      && e == Rep(Group(if required == [] then alternatives else Cat(COMMA, Group(alternatives))), 0, Some(1));
    MeansOptional(g, e.item, w);
    MeansGroup(g, e.item.body, w);
    ChosenSomething(g, kv, required, optional, w);
    if required == [] {
      ChosenMembers(g, kv, optional, alternatives, w);
    } else {
      AfterComma(g, kv, optional, alternatives, w);
    }
  }

  /** Nothing is chosen, or a selection that is not empty. */
  lemma ChosenSomething(g: Grammar, kv: Members, required: seq<Name>, optional: seq<Name>, w: Text)
    ensures Chosen(g, kv, required, optional, w) <==>
            w == [] || exists sel :: ChosenBy(g, kv, required, optional, w, sel) && sel != []
    ensures (exists sel :: ChosenBy(g, kv, required, optional, w, sel) && sel != []) <==>
            if required == [] then exists sel :: Selects(optional, sel) && sel != [] && Joined(g, kv, sel, w)
            else SomeTailed(g, kv, optional, w)
  {
    SelectsNothing(optional);
    if w == [] {
      assert ChosenBy(g, kv, required, optional, w, []);
    }
    if required == [] {
      if sel :| Selects(optional, sel) && sel != [] && Joined(g, kv, sel, w) {
        assert ChosenBy(g, kv, required, optional, w, sel);
      }
    } else {
      if sel :| Selects(optional, sel) && sel != [] && Tail(g, kv, sel, w) {
        assert ChosenBy(g, kv, required, optional, w, sel);
      }
    }
  }

  ghost predicate SomeTailed(g: Grammar, kv: Members, ks: seq<Name>, w: Text) {
    exists sel :: Selects(ks, sel) && sel != [] && Tail(g, kv, sel, w)
  }

  lemma AfterComma(g: Grammar, kv: Members, ks: seq<Name>, e: Expr, w: Text)
    requires Alternates(g, kv, ks, |ks|, e)
    ensures Means(g, Cat(COMMA, Group(e)), w) <==> SomeTailed(g, kv, ks, w)
  {
    if Means(g, Cat(COMMA, Group(e)), w) {
      var c, j := SplitCat(g, COMMA, Group(e), w);
      MeansGroup(g, e, j);
      ChosenMembers(g, kv, ks, e, j);
      var sel :| Selects(ks, sel) && sel != [] && Joined(g, kv, sel, j);
      CommaJoined(g, kv, sel, c, j);
    }
    if SomeTailed(g, kv, ks, w) {
      var sel :| Selects(ks, sel) && sel != [] && Tail(g, kv, sel, w);
      var c, j := TailComma(g, kv, sel, w);
      ChosenMembers(g, kv, ks, e, j);
      MeansGroup(g, e, j);
      JoinCat(g, COMMA, Group(e), c, j);
    }
  }

  /** An object with all the required members and a selection of the optional ones. */
  ghost predicate SomeObject(g: Grammar, kv: Members, required: seq<Name>, optional: seq<Name>, w: Text) {
    exists sel :: Selects(optional, sel) && ObjectText(g, kv, required + sel, w)
  }

  lemma JoinChosen(g: Grammar, kv: Members, required: seq<Name>, sel: seq<Name>, j: Text, t: Text)
    requires Joined(g, kv, required, j) && if required == [] then Joined(g, kv, sel, t) else Tail(g, kv, sel, t)
    ensures Joined(g, kv, required + sel, j + t)
  {
    if required == [] {
      assert required + sel == sel && j + t == t;
    } else {
      JoinedAppend(g, kv, required, sel, j, t);
    }
  }

  lemma SplitChosen(g: Grammar, kv: Members, required: seq<Name>, sel: seq<Name>, w: Text) returns (j: Text, t: Text)
    requires Joined(g, kv, required + sel, w)
    ensures w == j + t && Joined(g, kv, required, j) &&
            if required == [] then Joined(g, kv, sel, t) else Tail(g, kv, sel, t)
  {
    if required == [] {
      assert required + sel == sel;
      j, t := [], w;
    } else {
      j, t := JoinedSplit(g, kv, required, sel, w);
    }
  }

  /** What comes before the closing brace. */
  ghost predicate IsBody(g: Grammar, kv: Members, required: seq<Name>, optional: seq<Name>, e: Expr) {
    && (forall k :: k in required ==> k in kv)
    && (if optional == [] then e == Chain(kv, required)
        else e.Cat? && e.left == Chain(kv, required) && IsChoice(g, kv, required, optional, e.right))
  }

  lemma BodySplit(g: Grammar, kv: Members, required: seq<Name>, optional: seq<Name>, e: Expr, w: Text)
    returns (b: Text, t: Text)
    requires IsBody(g, kv, required, optional, e) && Means(g, e, w)
    ensures w == b + t && Opened(g, kv, required, b) && Chosen(g, kv, required, optional, t)
  {
    if optional == [] {
      b, t := w, [];
      assert ChosenBy(g, kv, required, optional, t, []);
    } else {
      b, t := SplitCat(g, e.left, e.right, w);
      ChoiceMeans(g, kv, required, optional, e.right, t);
    }
    ChainOpens(g, kv, required, b);
  }

  lemma BodyJoin(g: Grammar, kv: Members, required: seq<Name>, optional: seq<Name>, e: Expr, b: Text, t: Text)
    requires IsBody(g, kv, required, optional, e)
    requires Opened(g, kv, required, b) && Chosen(g, kv, required, optional, t)
    ensures Means(g, e, b + t)
  {
    OpensChain(g, kv, required, b);
    if optional == [] {
      assert b + t == b;
    } else {
      ChoiceMeans(g, kv, required, optional, e.right, t);
      JoinCat(g, e.left, e.right, b, t);
    }
  }

  lemma ObjectSound(g: Grammar, kv: Members, required: seq<Name>, optional: seq<Name>, e: Expr, w: Text)
    requires IsObject(g, kv, required, optional, e) && Means(g, e, w)
    ensures SomeObject(g, kv, required, optional, w)
  {
    var a, c := SplitCat(g, e.left, CLOSING, w);
    var b, t := BodySplit(g, kv, required, optional, e.left, a);
    ObjectParts(g, kv, required, optional, b, t, c);
  }

  lemma ObjectParts(g: Grammar, kv: Members, required: seq<Name>, optional: seq<Name>, b: Text, t: Text, c: Text)
    requires Opened(g, kv, required, b) && Chosen(g, kv, required, optional, t) && Means(g, CLOSING, c)
    ensures SomeObject(g, kv, required, optional, b + t + c)
  {
    var sel :| ChosenBy(g, kv, required, optional, t, sel);
    var o, j :| OpenedBy(g, kv, required, b, o, j);
    JoinChosen(g, kv, required, sel, j, t);
    assert b + t + c == o + (j + t) + c;
    assert ObjectOf(g, kv, required + sel, b + t + c, o, j + t, c);
  }

  lemma ObjectComplete(g: Grammar, kv: Members, required: seq<Name>, optional: seq<Name>, e: Expr, sel: seq<Name>,
                       w: Text)
    requires IsObject(g, kv, required, optional, e) && Selects(optional, sel) && ObjectText(g, kv, required + sel, w)
    ensures Means(g, e, w)
  {
    var o, x, c :| ObjectOf(g, kv, required + sel, w, o, x, c);
    BodyComplete(g, kv, required, optional, e.left, sel, o, x, o + x);
    JoinCat(g, e.left, CLOSING, o + x, c);
  }

  lemma BodyComplete(g: Grammar, kv: Members, required: seq<Name>, optional: seq<Name>, e: Expr, sel: seq<Name>,
                     o: Text, x: Text, w: Text)
    requires IsBody(g, kv, required, optional, e) && Selects(optional, sel)
    requires Means(g, OPENING, o) && Joined(g, kv, required + sel, x) && w == o + x
    ensures Means(g, e, w)
  {
    var j, t := ChosenParts(g, kv, required, optional, sel, x);
    var b := o + j;
    assert OpenedBy(g, kv, required, b, o, j);
    BodyJoin(g, kv, required, optional, e, b, t);
    assert w == b + t;
  }

  lemma ChosenParts(g: Grammar, kv: Members, required: seq<Name>, optional: seq<Name>, sel: seq<Name>, x: Text)
    returns (j: Text, t: Text)
    requires Joined(g, kv, required + sel, x) && Selects(optional, sel)
    ensures x == j + t && Joined(g, kv, required, j) && Chosen(g, kv, required, optional, t)
  {
    j, t := SplitChosen(g, kv, required, sel, x);
    assert ChosenBy(g, kv, required, optional, t, sel);
  }

  /**
    The rule for an object describes exactly the texts in braces of all the required members in their
    order and then any selection of the optional ones in theirs, with one comma between neighbours.
   */
  lemma ObjectExact(g: Grammar, kv: Members, required: seq<Name>, optional: seq<Name>, e: Expr, w: Text)
    requires IsObject(g, kv, required, optional, e)
    ensures Means(g, e, w) <==> SomeObject(g, kv, required, optional, w)
  {
    if Means(g, e, w) {
      ObjectSound(g, kv, required, optional, e, w);
    }
    if SomeObject(g, kv, required, optional, w) {
      var sel :| Selects(optional, sel) && ObjectText(g, kv, required + sel, w);
      ObjectComplete(g, kv, required, optional, e, sel, w);
    }
  }

  /** It stays the rule for that object whatever rules are added. */
  lemma ObjectMore(g: Grammar, h: Grammar, kv: Members, required: seq<Name>, optional: seq<Name>, e: Expr)
    requires IsObject(g, kv, required, optional, e) && Extends(g, h)
    ensures IsObject(h, kv, required, optional, e)
  {
    if optional != [] {
      var choice := e.left.right;
      var alternatives :|
        && Alternates(g, kv, optional, |optional|, alternatives)
        && choice == Rep(Group(if required == [] then alternatives else Cat(COMMA, Group(alternatives))), 0, Some(1));
      AlternatesMore(g, h, kv, optional, |optional|, alternatives);
    }
  }

  // ---------------------------------------------------------------------------------------------
  // Members that are repeated

  predicate Distinct(names: seq<Name>) {
    forall i, j :: 0 <= i < j < |names| ==> names[i] != names[j]
  }

  ghost predicate NoneRepeated(ks: seq<Name>) {
    forall sel :: Selects(ks, sel) ==> Distinct(sel)
  }

  lemma {:induction false} SelectedAmong(ks: seq<Name>, sel: seq<Name>)
    requires Selects(ks, sel)
    ensures forall k :: k in sel ==> k in ks
    decreases |ks|
  {
    if ks != [] {
      var n := SelectsCount(ks, sel);
      SelectedAmong(ks[1..], sel[n..]);
      forall k | k in sel
        ensures k in ks
      {
        var i :| 0 <= i < |sel| && sel[i] == k;
        if i >= n {
          assert sel[n..][i - n] == k;
          assert k in ks[1..];
        }
      }
    }
  }

  lemma {:induction false} SelectedOnce(ks: seq<Name>, sel: seq<Name>)
    requires Distinct(ks) && ADDITIONAL !in ks && Selects(ks, sel)
    ensures Distinct(sel)
    decreases |ks|
  {
    if ks != [] {
      var n := SelectsCount(ks, sel);
      var rest, others := sel[n..], ks[1..];
      RestDistinct(ks);
      SelectedOnce(others, rest);
      SelectedAmong(others, rest);
      if n == 0 {
        assert sel == rest;
      } else {
        assert n == 1 && sel == [ks[0]] + rest;
        FrontDistinct(ks[0], rest);
      }
    }
  }

  lemma RestDistinct(ks: seq<Name>)
    requires Distinct(ks) && ks != []
    ensures Distinct(ks[1..]) && ks[0] !in ks[1..]
  {
    assert forall i :: 0 <= i < |ks| - 1 ==> ks[1..][i] == ks[i + 1];
  }

  lemma FrontDistinct(k: Name, rest: seq<Name>)
    requires Distinct(rest) && k !in rest
    ensures Distinct([k] + rest)
  {
  }

  /** Of names that differ, just the one for additional members may be repeated. */
  lemma RepeatsAdditional(ks: seq<Name>)
    requires Distinct(ks)
    ensures NoneRepeated(ks) <==> ADDITIONAL !in ks
  {
    if ADDITIONAL in ks {
      var i :| 0 <= i < |ks| && ks[i] == ADDITIONAL;
      var sel := NameTimes(ADDITIONAL, 2);
      SelectsNothing(ks[i..][1..]);
      SelectsMore(ks[i..], 2, []);
      assert sel + [] == sel;
      SelectedAnywhere(ks, i, sel);
      assert sel[0] == sel[1];
    } else {
      forall sel | Selects(ks, sel)
        ensures Distinct(sel)
      {
        SelectedOnce(ks, sel);
      }
    }
  }
}
