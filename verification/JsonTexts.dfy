/** The texts of JSON objects: braces, commas, colons and the space after them. */
module JsonTexts {
  import opened Gbnf
  import opened Meaning
  import opened KeyExclusion
  import opened ObjectMembers

  ghost predicate Space(g: Grammar, s: Text) {
    Means(g, Ref("space"), s)
  }

  /** The character `c` and space. */
  ghost predicate Sign(g: Grammar, c: Code, w: Text) {
    w != [] && w[0] == c && Space(g, w[1..])
  }

  lemma SignMeans(g: Grammar, c: Code, w: Text)
    ensures Means(g, Cat(Lit([c]), Ref(SPACE_NAME)), w) <==> Sign(g, c, w)
  {
    if Means(g, Cat(Lit([c]), Ref(SPACE_NAME)), w) {
      var a, b := SplitCat(g, Lit([c]), Ref(SPACE_NAME), w);
      assert a == [c] && w[1..] == b;
    }
    if Sign(g, c, w) {
      assert Match(g, 0, Lit([c]), [c]);
      JoinCat(g, Lit([c]), Ref(SPACE_NAME), [c], w[1..]);
      assert w == [c] + w[1..];
    }
  }

  /** The signs are a brace, a comma and a brace. */
  lemma Signs(g: Grammar, w: Text)
    ensures Means(g, OPENING, w) <==> Sign(g, 123, w)
    ensures Means(g, COMMA, w) <==> Sign(g, 44, w)
    ensures Means(g, CLOSING, w) <==> Sign(g, 125, w)
  {
    SignMeans(g, 123, w);
    SignMeans(g, 44, w);
    SignMeans(g, 125, w);
  }

  // ---------------------------------------------------------------------------------------------
  // Members

  /** A key, space, a colon and space, and a value. */
  ghost predicate MemberText(g: Grammar, literal: Text, valueRule: Name, w: Text) {
    exists s, t, v :: MemberParts(g, literal, valueRule, w, s, t, v)
  }

  ghost predicate MemberParts(g: Grammar, literal: Text, valueRule: Name, w: Text, s: Text, t: Text, v: Text) {
    w == literal + s + [58] + t + v && Space(g, s) && Space(g, t) && Means(g, Ref(valueRule), v)
  }

  /** A key with the space that its rule has after it, a colon and space, and a value. */
  ghost predicate AdditionalText(g: Grammar, keyRule: Name, valueRule: Name, w: Text) {
    exists k, t, v :: AdditionalParts(g, keyRule, valueRule, w, k, t, v)
  }

  ghost predicate AdditionalParts(g: Grammar, keyRule: Name, valueRule: Name, w: Text, k: Text, t: Text, v: Text) {
    w == k + [58] + t + v && Means(g, Ref(keyRule), k) && Space(g, t) && Means(g, Ref(valueRule), v)
  }

  // ---------------------------------------------------------------------------------------------
  // Objects

  /** The texts, with a comma and space between neighbours. */
  ghost predicate Listed(g: Grammar, ms: seq<Text>, w: Text)
    decreases |ms|, 1
  {
    if ms == [] then w == []
    else if |ms| == 1 then w == ms[0]
    else exists s, r :: ListedOf(g, ms, w, s, r)
  }

  ghost predicate ListedOf(g: Grammar, ms: seq<Text>, w: Text, s: Text, r: Text)
    requires ms != []
    decreases |ms|, 0
  {
    w == ms[0] + [44] + s + r && Space(g, s) && Listed(g, ms[1..], r)
  }

  /** The texts between braces, after each of which there is space. */
  ghost predicate Braced(g: Grammar, ms: seq<Text>, w: Text) {
    exists s, j, t :: BracedOf(g, ms, w, s, j, t)
  }

  ghost predicate BracedOf(g: Grammar, ms: seq<Text>, w: Text, s: Text, j: Text, t: Text) {
    w == [123] + s + j + [125] + t && Space(g, s) && Listed(g, ms, j) && Space(g, t)
  }

  /** The texts are those of the members. */
  ghost predicate AreMembers(g: Grammar, kv: Members, sel: seq<Name>, ms: seq<Text>) {
    |ms| == |sel| && forall i :: 0 <= i < |sel| ==> Member(g, kv, sel[i], ms[i])
  }

  lemma {:induction false} JoinedTexts(g: Grammar, kv: Members, sel: seq<Name>, w: Text) returns (ms: seq<Text>)
    requires Joined(g, kv, sel, w)
    ensures AreMembers(g, kv, sel, ms) && Listed(g, ms, w)
    decreases |sel|
  {
    if sel == [] {
      ms := [];
    } else {
      var m, r := JoinedFirst(g, kv, sel, w);
      if |sel| == 1 {
        ms := [m];
      } else {
        var c, j := TailComma(g, kv, sel[1..], r);
        var rest := JoinedTexts(g, kv, sel[1..], j);
        Signs(g, c);
        ms := [m] + rest;
        assert ms[1..] == rest && c == [44] + c[1..];
        assert w == m + [44] + c[1..] + j;
        assert ListedOf(g, ms, w, c[1..], j);
      }
    }
  }

  lemma {:induction false} TextsJoined(g: Grammar, kv: Members, sel: seq<Name>, ms: seq<Text>, w: Text)
    requires AreMembers(g, kv, sel, ms) && Listed(g, ms, w)
    ensures Joined(g, kv, sel, w)
    decreases |sel|
  {
    if |sel| == 1 {
      JoinedMore(g, kv, sel, [], w, ms[0], []);
    } else if |sel| > 1 {
      var s, r :| ListedOf(g, ms, w, s, r);
      TextsJoined(g, kv, sel[1..], ms[1..], r);
      var c := [44] + s;
      assert c[1..] == s;
      Signs(g, c);
      CommaJoined(g, kv, sel[1..], c, r);
      assert w == ms[0] + (c + r);
      JoinedMore(g, kv, sel, sel[1..], w, ms[0], c + r);
    }
  }

  /** An object of these members is the texts of the members between braces. */
  lemma ObjectInTexts(g: Grammar, kv: Members, sel: seq<Name>, w: Text)
    ensures ObjectText(g, kv, sel, w) <==> exists ms :: AreMembers(g, kv, sel, ms) && Braced(g, ms, w)
  {
    if ObjectText(g, kv, sel, w) {
      var ms := ObjectTexts(g, kv, sel, w);
    }
    if ms :| AreMembers(g, kv, sel, ms) && Braced(g, ms, w) {
      var s, j, t :| BracedOf(g, ms, w, s, j, t);
      TextsJoined(g, kv, sel, ms, j);
      BracesObject(g, kv, sel, w, s, j, t);
    }
  }

  lemma ObjectTexts(g: Grammar, kv: Members, sel: seq<Name>, w: Text) returns (ms: seq<Text>)
    requires ObjectText(g, kv, sel, w)
    ensures AreMembers(g, kv, sel, ms) && Braced(g, ms, w)
  {
    var o, j, c :| ObjectOf(g, kv, sel, w, o, j, c);
    ms := JoinedTexts(g, kv, sel, j);
    Signs(g, o);
    Signs(g, c);
    assert o == [123] + o[1..] && c == [125] + c[1..];
    assert w == [123] + o[1..] + j + [125] + c[1..];
    assert BracedOf(g, ms, w, o[1..], j, c[1..]);
  }

  lemma BracesObject(g: Grammar, kv: Members, sel: seq<Name>, w: Text, s: Text, j: Text, t: Text)
    requires w == [123] + s + j + [125] + t && Space(g, s) && Joined(g, kv, sel, j) && Space(g, t)
    ensures ObjectText(g, kv, sel, w)
  {
    var o, c := [123] + s, [125] + t;
    assert o[1..] == s && c[1..] == t;
    Signs(g, o);
    Signs(g, c);
    assert w == o + j + c;
    assert ObjectOf(g, kv, sel, w, o, j, c);
  }
}
