/** The expression for the keys that are not among those listed, and what it accepts. */
module KeyExclusion {
  import opened Wrappers
  import opened Gbnf
  import opened GbnfReader
  import opened GbnfSyntax
  import opened Separated

  const QUOTE: Code := 34
  const DASH: Code := 45
  const CHAR_NAME: Name := "char"
  const SPACE_NAME: Name := "space"

  // ---------------------------------------------------------------------------------------------
  // Sets of keys

  /** The first characters of the keys. */
  function Heads(keys: set<Text>): set<Code> {
    set s | s in keys && s != [] :: s[0]
  }

  /** What follows `c` in the keys that begin with it. */
  function After(keys: set<Text>, c: Code): set<Text> {
    set s | s in keys && s != [] && s[0] == c :: s[1..]
  }

  /** `p` begins a key. */
  predicate Begins(keys: set<Text>, p: Text) {
    exists s :: s in keys && p <= s
  }

  lemma BeginsAfter(keys: set<Text>, c: Code, p: Text)
    ensures Begins(keys, [c] + p) <==> Begins(After(keys, c), p)
  {
    var q := [c] + p;
    if Begins(keys, q) {
      var s :| s in keys && q <= s;
      assert s[0] == q[0] && p == q[1..] <= s[1..];
      assert s[1..] in After(keys, c);
    }
    if Begins(After(keys, c), p) {
      var t :| t in After(keys, c) && p <= t;
      var s :| s in keys && s != [] && s[0] == c && s[1..] == t;
      assert s == [c] + t;
      assert q <= s;
    }
  }

  ghost predicate LongestIn(keys: set<Text>, s: Text) {
    s in keys && forall t :: t in keys ==> |t| <= |s|
  }

  lemma {:induction false} LongestExists(keys: set<Text>)
    requires keys != {}
    ensures exists s :: LongestIn(keys, s)
    decreases |keys|
  {
    var s :| s in keys;
    if keys == {s} {
      assert LongestIn(keys, s);
    } else {
      LongestExists(keys - {s});
      var s' :| LongestIn(keys - {s}, s');
      assert forall t :: t in keys ==> t == s || t in keys - {s};
      assert LongestIn(keys, if |s| < |s'| then s' else s);
    }
  }

  ghost function Longest(keys: set<Text>): (n: nat)
    ensures forall t :: t in keys ==> |t| <= n
    ensures keys != {} ==> exists s :: s in keys && |s| == n
  {
    if keys == {} then 0
    else
      LongestExists(keys);
      var s :| LongestIn(keys, s);
      |s|
  }

  lemma AfterShorter(keys: set<Text>, c: Code)
    requires c in Heads(keys)
    ensures After(keys, c) != {} && Longest(After(keys, c)) < Longest(keys)
  {
    var s :| s in keys && s != [] && s[0] == c;
    assert s[1..] in After(keys, c);
  }

  // ---------------------------------------------------------------------------------------------
  // Characters in order

  predicate Least(cs: set<Code>, m: Code) {
    m in cs && forall x :: x in cs ==> m <= x
  }

  lemma {:induction false} LeastExists(cs: set<Code>)
    requires cs != {}
    ensures exists m :: Least(cs, m)
    decreases |cs|
  {
    var c :| c in cs;
    if cs == {c} {
      assert Least(cs, c);
    } else {
      LeastExists(cs - {c});
      var m :| Least(cs - {c}, m);
      assert forall x :: x in cs ==> x == c || x in cs - {c};
      assert Least(cs, if c < m then c else m);
    }
  }

  function Smallest(cs: set<Code>): (m: Code)
    requires cs != {}
    ensures Least(cs, m)
  {
    LeastExists(cs);
    var m :| m in cs && Least(cs, m);
    m
  }

  /** The characters of a set in increasing order. */
  function Sorted(cs: set<Code>): (r: seq<Code>)
    ensures forall c :: c in cs <==> c in r
    ensures forall i, j :: 0 <= i < j < |r| ==> r[i] < r[j]
    decreases |cs|
  {
    if cs == {} then []
    else
      var m := Smallest(cs);
      var rest := Sorted(cs - {m});
      assert forall c :: c in cs <==> c == m || c in cs - {m};
      [m] + rest
  }

  // ---------------------------------------------------------------------------------------------
  // The expression

  function Single(c: Code): Expr {
    Class(false, [One(c)])
  }

  /** The ranges that characters in a row are read as: a dash makes one of the characters around it. */
  function Spanned(cs: seq<Code>): seq<CharRange> {
    if cs == [] then []
    else if |cs| > 2 && cs[1] == DASH then [Span(cs[0], cs[2])] + Spanned(cs[3..])
    else [One(cs[0])] + Spanned(cs[1..])
  }

  /** There is at most one dash, and none at the beginning but alone. */
  predicate OneDash(cs: seq<Code>) {
    && (forall i, j :: 0 <= i < j < |cs| ==> cs[i] != DASH || cs[j] != DASH)
    && (|cs| > 1 ==> cs[0] != DASH)
  }

  /** `c` lies between the characters around a dash. */
  ghost predicate InGap(cs: seq<Code>, c: Code) {
    exists i :: GapAt(cs, c, i)
  }

  predicate GapAt(cs: seq<Code>, c: Code, i: int) {
    0 < i < |cs| - 1 && cs[i] == DASH && cs[i - 1] <= c <= cs[i + 1]
  }

  lemma GapLater(cs: seq<Code>, c: Code, n: nat)
    requires 0 < n < |cs| && forall i :: 0 < i <= n ==> !GapAt(cs, c, i)
    ensures InGap(cs, c) <==> InGap(cs[n..], c)
  {
    var rest := cs[n..];
    if i :| GapAt(cs, c, i) {
      assert GapAt(rest, c, i - n);
    }
    if i :| GapAt(rest, c, i) {
      assert GapAt(cs, c, i + n);
    }
  }

  lemma NoDashNoGap(cs: seq<Code>, c: Code)
    requires DASH !in cs
    ensures !InGap(cs, c)
  {
    forall i
      ensures !GapAt(cs, c, i)
    {
      assert 0 <= i < |cs| ==> cs[i] in cs;
    }
  }

  lemma InFirst(c: Code, first: CharRange, others: seq<CharRange>)
    ensures InRanges(c, [first] + others) <==> InRange(c, first) || InRanges(c, others)
  {
    var all := [first] + others;
    if InRanges(c, all) {
      var i :| 0 <= i < |all| && InRange(c, all[i]);
      assert i > 0 ==> InRange(c, others[i - 1]);
    }
    if InRange(c, first) {
      assert InRange(c, all[0]);
    }
    if InRanges(c, others) {
      var i :| 0 <= i < |others| && InRange(c, others[i]);
      assert InRange(c, all[i + 1]);
    }
  }

  /** A dash stands between a smaller and a greater character. */
  predicate DashInOrder(cs: seq<Code>) {
    forall i :: 0 < i < |cs| - 1 && cs[i] == DASH ==> cs[i - 1] < DASH < cs[i + 1]
  }

  lemma OneDashRest(cs: seq<Code>, n: nat)
    requires OneDash(cs) && DashInOrder(cs) && 0 < n <= |cs| && (n < |cs| - 1 ==> cs[n] != DASH)
    ensures OneDash(cs[n..]) && DashInOrder(cs[n..])
  {
    var rest := cs[n..];
    assert forall i :: 0 <= i < |rest| ==> rest[i] == cs[i + n];
  }

  lemma InSplit(cs: seq<Code>, n: nat, c: Code)
    requires n <= |cs|
    ensures c in cs <==> c in cs[..n] || c in cs[n..]
  {
    assert cs == cs[..n] + cs[n..];
  }

  /** The ranges hold the characters, and those between the characters around the dash. */
  lemma {:induction false} SpannedHold(cs: seq<Code>, c: Code)
    requires OneDash(cs) && DashInOrder(cs)
    ensures InRanges(c, Spanned(cs)) <==> c in cs || InGap(cs, c)
    decreases |cs|
  {
    if |cs| > 2 && cs[1] == DASH {
      OneDashRest(cs, 3);
      SpannedHold(cs[3..], c);
      InFirst(c, Span(cs[0], cs[2]), Spanned(cs[3..]));
      InSplit(cs, 3, c);
      OneGap(cs, c);
    } else if cs != [] {
      OneDashRest(cs, 1);
      SpannedHold(cs[1..], c);
      InFirst(c, One(cs[0]), Spanned(cs[1..]));
      InSplit(cs, 1, c);
      if |cs| > 1 {
        assert !GapAt(cs, c, 1);
        GapLater(cs, c, 1);
      } else {
        assert forall i :: !GapAt(cs, c, i) && !GapAt(cs[1..], c, i);
      }
    } else {
      assert forall i :: !GapAt(cs, c, i);
    }
  }

  lemma OneGap(cs: seq<Code>, c: Code)
    requires |cs| > 2 && cs[1] == DASH && OneDash(cs) && DashInOrder(cs)
    ensures InGap(cs, c) <==> cs[0] <= c <= cs[2]
    ensures !InGap(cs[3..], c) && (c in cs[..3] ==> cs[0] <= c <= cs[2])
  {
    assert GapAt(cs, c, 1) <==> cs[0] <= c <= cs[2];
    assert forall i :: GapAt(cs, c, i) ==> i == 1;
    var rest := cs[3..];
    assert forall i :: 0 <= i < |rest| ==> rest[i] == cs[i + 3] != DASH;
    NoDashNoGap(rest, c);
    assert cs[..3] == [cs[0], cs[1], cs[2]];
  }

  /** The set of the other characters, as its text is read. */
  function Others(cs: seq<Code>): Expr {
    Class(true, Spanned([QUOTE] + cs))
  }

  /** `c` lies between the characters around a dash, where a set begins with the quote. */
  ghost predicate Lost(cs: seq<Code>, c: Code) {
    InGap([QUOTE] + cs, c)
  }

  /** A character of a key as it is put into a set; keys are made of characters. */
  function KeyChar(c: Code): char {
    if c < 0xD800 || 0xE000 <= c < 0x11_0000 then c as char else NUL
  }

  function KeyChars(cs: seq<Code>): string {
    seq(|cs|, i requires 0 <= i < |cs| => KeyChar(cs[i]))
  }

  function SingleSet(c: Code): Syntax {
    Term(Single(c), "[" + (KeyChars([c]) + "]"))
  }

  function OthersSet(cs: seq<Code>): Syntax {
    Term(Others(cs), "[^" + (KeyChars([QUOTE] + cs) + "]"))
  }

  const UNIT := Ref(CHAR_NAME)
  const UNITS_FROM_NONE := Marked(Named(CHAR_NAME), Bounds(0, None), "*")
  const UNITS_FROM_ONE := Marked(Named(CHAR_NAME), Bounds(1, None), "+")

  /** What may follow the first character `c` of a key. */
  function Branch(keys: set<Text>, c: Code): Syntax
    requires c in Heads(keys)
    decreases Longest(keys), 0
  {
    AfterShorter(keys, c);
    var after := After(keys, c);
    if Heads(after) != {} then Seq(SingleSet(c), Paren(false, Alternatives(after)))
    else if [] in after then Seq(SingleSet(c), UNITS_FROM_ONE)
    else SingleSet(c)
  }

  /** The branches for the first `n` of the characters `cs`. */
  function Branches(keys: set<Text>, cs: seq<Code>, n: nat): Syntax
    requires 0 < n <= |cs| && forall c :: c in cs ==> c in Heads(keys)
    decreases Longest(keys), 1, n
  {
    var last := Branch(keys, cs[n - 1]);
    if n == 1 then last else Or(Branches(keys, cs, n - 1), last)
  }

  /** The alternatives between keys, by their first characters, and what none of them begins with. */
  function Alternatives(keys: set<Text>): Syntax
    decreases Longest(keys), 2
  {
    var cs := Sorted(Heads(keys));
    if cs == [] then Nothing else Or(Branches(keys, cs, |cs|), Seq(OthersSet(cs), UNITS_FROM_NONE))
  }

  /** The key as a whole; it may be empty unless that is a listed key. */
  function KeyBody(keys: set<Text>): Syntax {
    var body := Paren(true, Alternatives(keys));
    if [] in keys then body else Marked(body, Bounds(0, Some(1)), "?")
  }

  // ---------------------------------------------------------------------------------------------
  // What it accepts

  /** A concatenation of any number of characters. */
  ghost predicate Many(unit: Language, w: Text) {
    exists n: nat :: Copies(unit, n, w)
  }

  /** A concatenation of at least one character. */
  ghost predicate Some1(unit: Language, w: Text) {
    exists n: nat :: n > 0 && Copies(unit, n, w)
  }

  /** The first `m` characters of `w` begin a key, but with the next one they do not. */
  predicate Parts(keys: set<Text>, w: Text, m: nat) {
    && m < |w|
    && Begins(keys, w[..m])
    && !Begins(keys, w[..m + 1])
  }

  /**
    `w` leaves the listed keys after its first `m` characters. After a key that begins no other, at least
    one character follows; elsewhere any character but a quote and those that a dash loses, and then any
    number of characters.
   */
  ghost predicate LeavesAt(unit: Language, keys: set<Text>, w: Text, m: nat) {
    && Parts(keys, w, m)
    && (if Continues(keys, w[..m]) then w[m] != QUOTE && !LostAt(keys, w, m) && Many(unit, w[m + 1..])
        else Some1(unit, w[m..]))
  }

  /** What follows `p` in the keys that begin with it. */
  function AfterAll(keys: set<Text>, p: Text): set<Text>
    decreases |p|
  {
    if p == [] then keys else AfterAll(After(keys, p[0]), p[1..])
  }

  /** A dash among the characters that may come next loses the one that does. */
  ghost predicate LostAt(keys: set<Text>, w: Text, m: nat)
    requires m < |w|
  {
    Lost(Sorted(Heads(AfterAll(keys, w[..m]))), w[m])
  }

  /** Some key goes on after `p`. */
  predicate Continues(keys: set<Text>, p: Text) {
    exists s :: s in keys && p < s
  }

  ghost predicate Leaves(unit: Language, keys: set<Text>, w: Text) {
    exists m: nat :: LeavesAt(unit, keys, w, m)
  }

  lemma SingleAccepts(g: Grammar, k: nat, c: Code, w: Text)
    ensures Match(g, k, Single(c), w) <==> w == [c]
  {
    if |w| == 1 {
      assert InRanges(w[0], [One(c)]) <==> InRange(w[0], [One(c)][0]);
    }
  }

  lemma OthersAccepts(g: Grammar, k: nat, cs: seq<Code>, w: Text)
    requires forall i, j :: 0 <= i < j < |cs| ==> cs[i] < cs[j]
    ensures Match(g, k, Others(cs), w) <==> |w| == 1 && w[0] != QUOTE && w[0] !in cs && !Lost(cs, w[0])
  {
    if |w| == 1 {
      var all := [QUOTE] + cs;
      assert forall i :: 0 < i < |all| ==> all[i] == cs[i - 1];
      SpannedHold(all, w[0]);
    }
  }

  /** An expression for one character of a set and then another expression. */
  lemma OneThen(g: Grammar, k: nat, first: Expr, rest: Expr, w: Text)
    requires forall v :: Match(g, k, first, v) ==> |v| == 1
    ensures Match(g, k, Cat(first, rest), w) <==> w != [] && Match(g, k, first, w[..1]) && Match(g, k, rest, w[1..])
  {
    if Match(g, k, Cat(first, rest), w) {
      var i := CatCut(g, k, first, rest, w);
      assert |w[..i]| == 1;
    }
  }

  lemma ManyAccepts(g: Grammar, k: nat, unit: Expr, w: Text)
    ensures Match(g, k, Rep(unit, 0, None), w) <==> Many(Of(g, k, unit), w)
    ensures Match(g, k, Rep(unit, 1, None), w) <==> Some1(Of(g, k, unit), w)
  {
    var l := Of(g, k, unit);
    forall n: nat
      ensures Power(g, k, unit, n, w) <==> Copies(l, n, w)
    {
      PowerCopies(g, k, unit, n, w);
    }
    if Match(g, k, Rep(unit, 0, None), w) {
      var n := RepCount(g, k, unit, 0, None, w);
      assert Copies(l, n, w);
    }
    if Match(g, k, Rep(unit, 1, None), w) {
      var n := RepCount(g, k, unit, 1, None, w);
      assert Copies(l, n, w);
    }
    if Many(l, w) {
      var n: nat :| Copies(l, n, w);
      RepJoin(g, k, unit, 0, None, n, w);
    }
    if Some1(l, w) {
      var n: nat :| n > 0 && Copies(l, n, w);
      RepJoin(g, k, unit, 1, None, n, w);
    }
  }

  lemma SingleThen(g: Grammar, k: nat, c: Code, rest: Expr, w: Text)
    ensures Match(g, k, Cat(Single(c), rest), w) <==> w != [] && w[0] == c && Match(g, k, rest, w[1..])
  {
    forall v
      ensures Match(g, k, Single(c), v) <==> v == [c]
    {
      SingleAccepts(g, k, c, v);
    }
    OneThen(g, k, Single(c), rest, w);
  }

  lemma OthersThen(g: Grammar, k: nat, cs: seq<Code>, rest: Expr, w: Text)
    requires forall i, j :: 0 <= i < j < |cs| ==> cs[i] < cs[j]
    ensures Match(g, k, Cat(Others(cs), rest), w) <==>
            w != [] && w[0] != QUOTE && w[0] !in cs && !Lost(cs, w[0]) && Match(g, k, rest, w[1..])
  {
    forall v
      ensures Match(g, k, Others(cs), v) <==> |v| == 1 && v[0] != QUOTE && v[0] !in cs && !Lost(cs, v[0])
    {
      OthersAccepts(g, k, cs, v);
    }
    OneThen(g, k, Others(cs), rest, w);
  }

  lemma MeantSets(c: Code, cs: seq<Code>)
    ensures Meant(SingleSet(c)) == Single(c) && Meant(OthersSet(cs)) == Others(cs)
    ensures Meant(UNITS_FROM_NONE) == Rep(UNIT, 0, None) && Meant(UNITS_FROM_ONE) == Rep(UNIT, 1, None)
  {
  }

  lemma MeantSeq(left: Syntax, right: Syntax)
    ensures Meant(Seq(left, right)) == Cat(Meant(left), Meant(right))
  {
  }

  /** What is accepted after the first character `c` of a key. */
  ghost predicate Onward(g: Grammar, k: nat, after: set<Text>, v: Text) {
    if Heads(after) != {} then Match(g, k, Meant(Alternatives(after)), v) else Some1(Of(g, k, UNIT), v)
  }

  lemma BranchAccepts(g: Grammar, k: nat, keys: set<Text>, c: Code, w: Text)
    requires c in Heads(keys)
    ensures Match(g, k, Meant(Branch(keys, c)), w) <==> w != [] && w[0] == c && Onward(g, k, After(keys, c), w[1..])
  {
    AfterShorter(keys, c);
    MeantSets(c, []);
    var after := After(keys, c);
    if Heads(after) != {} {
      MeantSeq(SingleSet(c), Paren(false, Alternatives(after)));
    } else {
      MeantSeq(SingleSet(c), UNITS_FROM_ONE);
    }
    BranchForms(g, k, after, c, Meant(Branch(keys, c)), w);
  }

  lemma NoHeads(keys: set<Text>)
    requires keys != {} && Heads(keys) == {}
    ensures keys == {[]}
  {
    assert forall s :: s in keys && s != [] ==> s[0] in Heads(keys);
    var s :| s in keys;
    assert s == [];
  }

  lemma BranchForms(g: Grammar, k: nat, after: set<Text>, c: Code, e: Expr, w: Text)
    requires after != {}
    requires Heads(after) != {} ==> e == Cat(Single(c), Group(Meant(Alternatives(after))))
    requires Heads(after) == {} && [] in after ==> e == Cat(Single(c), Rep(UNIT, 1, None))
    ensures Match(g, k, e, w) <==> w != [] && w[0] == c && Onward(g, k, after, w[1..])
  {
    if Heads(after) != {} {
      var rest := Meant(Alternatives(after));
      SingleThen(g, k, c, Group(rest), w);
    } else {
      NoHeads(after);
      SingleThen(g, k, c, Rep(UNIT, 1, None), w);
      if w != [] {
        ManyAccepts(g, k, UNIT, w[1..]);
      }
    }
  }

  lemma {:induction false} BranchesAccept(g: Grammar, k: nat, keys: set<Text>, cs: seq<Code>, n: nat, w: Text)
    requires 0 < n <= |cs| && forall c :: c in cs ==> c in Heads(keys)
    ensures Match(g, k, Meant(Branches(keys, cs, n)), w) <==>
            w != [] && w[0] in cs[..n] && Onward(g, k, After(keys, w[0]), w[1..])
    decreases n
  {
    var c := cs[n - 1];
    BranchAccepts(g, k, keys, c, w);
    InFront(cs, n);
    if n > 1 {
      BranchesAccept(g, k, keys, cs, n - 1, w);
      EitherWay(g, k, Meant(Branches(keys, cs, n - 1)), Meant(Branch(keys, c)), Meant(Branches(keys, cs, n)), w);
    }
  }

  lemma InFront(cs: seq<Code>, n: nat)
    requires 0 < n <= |cs|
    ensures forall c :: c in cs[..n] <==> c in cs[..n - 1] || c == cs[n - 1]
    ensures n == 1 ==> cs[..n - 1] == []
  {
    assert cs[..n] == cs[..n - 1] + [cs[n - 1]];
  }

  ghost predicate OneStep(g: Grammar, k: nat, keys: set<Text>, w: Text) {
    && w != []
    && (if w[0] in Heads(keys) then Onward(g, k, After(keys, w[0]), w[1..])
        else w[0] != QUOTE && !Lost(Sorted(Heads(keys)), w[0]) && Many(Of(g, k, UNIT), w[1..]))
  }

  lemma AlternativesStep(g: Grammar, k: nat, keys: set<Text>, w: Text)
    requires Heads(keys) != {}
    ensures Match(g, k, Meant(Alternatives(keys)), w) <==> OneStep(g, k, keys, w)
  {
    var cs := Sorted(Heads(keys));
    AlternativesMeant(keys, cs);
    BranchesAccept(g, k, keys, cs, |cs|, w);
    assert cs[..|cs|] == cs;
    OthersThen(g, k, cs, Rep(UNIT, 0, None), w);
    if w != [] {
      ManyAccepts(g, k, UNIT, w[1..]);
    }
    EitherWay(g, k, Meant(Branches(keys, cs, |cs|)), Cat(Others(cs), Rep(UNIT, 0, None)), Meant(Alternatives(keys)), w);
  }

  lemma AlternativesMeant(keys: set<Text>, cs: seq<Code>)
    requires Heads(keys) != {} && cs == Sorted(Heads(keys))
    ensures cs != []
    ensures Meant(Alternatives(keys)) == Alt(Meant(Branches(keys, cs, |cs|)), Cat(Others(cs), Rep(UNIT, 0, None)))
  {
    AlternativesAre(keys, cs);
    MeantSets(0, cs);
    MeantSeq(OthersSet(cs), UNITS_FROM_NONE);
  }

  lemma AlternativesAre(keys: set<Text>, cs: seq<Code>)
    requires Heads(keys) != {} && cs == Sorted(Heads(keys))
    ensures cs != [] && Alternatives(keys) == Or(Branches(keys, cs, |cs|), Seq(OthersSet(cs), UNITS_FROM_NONE))
  {
    var c :| c in Heads(keys);
    assert c in cs;
  }

  lemma EitherWay(g: Grammar, k: nat, left: Expr, right: Expr, e: Expr, w: Text)
    requires e == Alt(left, right)
    ensures Match(g, k, e, w) <==> Match(g, k, left, w) || Match(g, k, right, w)
  {
  }

  // ---------------------------------------------------------------------------------------------
  // The same by the longest part of a key

  lemma BeginsFirst(keys: set<Text>, w: Text, m: nat)
    requires 0 < m <= |w|
    ensures Begins(keys, w[..m]) <==> Begins(After(keys, w[0]), w[1..][..m - 1])
    ensures Continues(keys, w[..m]) <==> Continues(After(keys, w[0]), w[1..][..m - 1])
  {
    var c, p := w[0], w[1..][..m - 1];
    assert w[..m] == [c] + p;
    BeginsAfter(keys, c, p);
    ContinuesAfter(keys, c, p);
  }

  lemma ContinuesAfter(keys: set<Text>, c: Code, p: Text)
    ensures Continues(keys, [c] + p) <==> Continues(After(keys, c), p)
  {
    var q := [c] + p;
    if Continues(keys, q) {
      var s :| s in keys && q < s;
      assert s[0] == q[0] && p == q[1..] < s[1..];
      assert s[1..] in After(keys, c);
    }
    if Continues(After(keys, c), p) {
      var t :| t in After(keys, c) && p < t;
      var s :| s in keys && s != [] && s[0] == c && s[1..] == t;
      assert s == [c] + t;
      assert q < s;
    }
  }

  lemma LeavesLater(unit: Language, keys: set<Text>, w: Text, m: nat)
    requires 0 < m < |w|
    ensures LeavesAt(unit, keys, w, m) <==> LeavesAt(unit, After(keys, w[0]), w[1..], m - 1)
  {
    BeginsFirst(keys, w, m);
    BeginsFirst(keys, w, m + 1);
    assert w[1..][..m - 1 + 1] == w[1..][..m];
    assert w[..m][1..] == w[1..][..m - 1];
    assert w[m..] == w[1..][m - 1..] && w[m + 1..] == w[1..][m - 1 + 1..];
  }

  lemma BeginsNothing(keys: set<Text>)
    ensures Begins(keys, []) <==> keys != {}
    ensures Continues(keys, []) <==> Heads(keys) != {}
  {
    if s :| s in keys {
      assert [] <= s;
    }
    if c :| c in Heads(keys) {
      var s :| s in keys && s != [] && s[0] == c;
      assert [] < s;
    }
    if Continues(keys, []) {
      var s :| s in keys && [] < s;
      assert s[0] in Heads(keys);
    }
  }

  lemma BeginsHead(keys: set<Text>, c: Code)
    ensures Begins(keys, [c]) <==> c in Heads(keys)
  {
    if Begins(keys, [c]) {
      var s :| s in keys && [c] <= s;
      assert s[0] == c;
    }
    if c in Heads(keys) {
      var s :| s in keys && s != [] && s[0] == c;
      assert [c] <= s;
    }
  }

  /** Past the first character of a key. */
  lemma LeavesStep(unit: Language, keys: set<Text>, w: Text)
    requires w != [] && w[0] in Heads(keys)
    ensures Leaves(unit, keys, w) <==> Leaves(unit, After(keys, w[0]), w[1..])
  {
    BeginsHead(keys, w[0]);
    assert w[..0 + 1] == [w[0]];
    assert !LeavesAt(unit, keys, w, 0);
    if Leaves(unit, keys, w) {
      var m: nat :| LeavesAt(unit, keys, w, m);
      LeavesLater(unit, keys, w, m);
    }
    if Leaves(unit, After(keys, w[0]), w[1..]) {
      var m: nat :| LeavesAt(unit, After(keys, w[0]), w[1..], m);
      LeavesLater(unit, keys, w, m + 1);
    }
  }

  /** At a character that begins no key. */
  lemma LeavesAtOnce(unit: Language, keys: set<Text>, w: Text)
    requires keys != {} && w != [] && w[0] !in Heads(keys)
    ensures Leaves(unit, keys, w) <==>
            if Heads(keys) != {} then w[0] != QUOTE && !Lost(Sorted(Heads(keys)), w[0]) && Many(unit, w[1..])
            else Some1(unit, w)
  {
    BeginsNothing(keys);
    BeginsHead(keys, w[0]);
    assert w[..0] == [] && w[..0 + 1] == [w[0]] && w[0..] == w;
    if Leaves(unit, keys, w) {
      var m: nat :| LeavesAt(unit, keys, w, m);
    }
    if if Heads(keys) != {} then w[0] != QUOTE && !Lost(Sorted(Heads(keys)), w[0]) && Many(unit, w[1..])
       else Some1(unit, w) {
      assert LeavesAt(unit, keys, w, 0);
    }
  }

  lemma NothingIsNone(unit: Language)
    requires !unit([])
    ensures !Some1(unit, [])
  {
    if n: nat :| n > 0 && Copies(unit, n, []) {
      var nothing: Text := [];
      var i := CopiesFirst(unit, n, nothing);
    }
  }

  /** The alternatives accept exactly the texts that leave the listed keys. */
  lemma {:induction false} AlternativesExact(g: Grammar, k: nat, keys: set<Text>, w: Text)
    requires Heads(keys) != {} && !Match(g, k, UNIT, [])
    ensures Match(g, k, Meant(Alternatives(keys)), w) <==> Leaves(Of(g, k, UNIT), keys, w)
    decreases |w|
  {
    var l := Of(g, k, UNIT);
    AlternativesStep(g, k, keys, w);
    if w != [] {
      if w[0] in Heads(keys) {
        LeavesStep(l, keys, w);
        AfterShorter(keys, w[0]);
        var after, v := After(keys, w[0]), w[1..];
        if Heads(after) != {} {
          AlternativesExact(g, k, after, v);
        } else if v != [] {
          NoHeads(after);
          LeavesAtOnce(l, after, v);
        } else {
          NothingIsNone(l);
        }
      } else {
        LeavesAtOnce(l, keys, w);
      }
    }
  }

  // ---------------------------------------------------------------------------------------------
  // Characters of JSON strings

  const BACKSLASH: Code := 92
  const LOWER_U: Code := 117

  /** The characters that stand for themselves in a JSON string. */
  predicate Plain(c: Code) {
    c != QUOTE && c != BACKSLASH && c != 0x7F && c > 0x1F
  }

  predicate IsHex(c: Code) {
    48 <= c <= 57 || 97 <= c <= 102 || 65 <= c <= 70
  }

  /** The letters, quote and backslash that may follow a backslash. */
  predicate IsEscape(c: Code) {
    c == QUOTE || c == BACKSLASH || c == 98 || c == 102 || c == 110 || c == 114 || c == 116
  }

  /** One character of a JSON string as it is written. */
  predicate IsUnit(w: Text) {
    || (|w| == 1 && Plain(w[0]))
    || (|w| == 2 && w[0] == BACKSLASH && IsEscape(w[1]))
    || (|w| == 6 && w[0] == BACKSLASH && w[1] == LOWER_U && IsHex(w[2]) && IsHex(w[3]) && IsHex(w[4]) && IsHex(w[5]))
  }

  const HEX_DIGIT := Class(false, [Span(48, 57), Span(97, 102), Span(65, 70)])
  const ESCAPE := Class(false, [One(QUOTE), One(BACKSLASH), One(98), One(102), One(110), One(114), One(116)])

  /** The rule for a character of a string. */
  const CHAR_RULE := Alt(
    Class(true, [One(QUOTE), One(BACKSLASH), One(0x7F), Span(0, 0x1F)]),
    Cat(Single(BACKSLASH), Group(Alt(ESCAPE, Cat(Lit([LOWER_U]), Rep(HEX_DIGIT, 4, Some(4)))))))

  lemma ClassAccepts(g: Grammar, k: nat, w: Text)
    ensures Match(g, k, HEX_DIGIT, w) <==> |w| == 1 && IsHex(w[0])
    ensures Match(g, k, ESCAPE, w) <==> |w| == 1 && IsEscape(w[0])
    ensures Match(g, k, CHAR_RULE.left, w) <==> |w| == 1 && Plain(w[0])
  {
    if |w| == 1 {
      var c, h, e, p := w[0], HEX_DIGIT.ranges, ESCAPE.ranges, CHAR_RULE.left.ranges;
      assert InRange(c, h[0]) || InRange(c, h[1]) || InRange(c, h[2]) <==> IsHex(c);
      assert (|| InRange(c, e[0]) || InRange(c, e[1]) || InRange(c, e[2]) || InRange(c, e[3]) || InRange(c, e[4])
              || InRange(c, e[5]) || InRange(c, e[6])) <==> IsEscape(c);
      assert InRange(c, p[0]) || InRange(c, p[1]) || InRange(c, p[2]) || InRange(c, p[3]) <==> !Plain(c);
    }
  }

  lemma {:induction false} HexDigits(g: Grammar, k: nat, n: nat, w: Text)
    ensures Power(g, k, HEX_DIGIT, n, w) <==> |w| == n && forall i :: 0 <= i < n ==> IsHex(w[i])
    decreases n
  {
    if n > 0 {
      forall i | 0 <= i <= |w|
        ensures Match(g, k, HEX_DIGIT, w[..i]) <==> i == 1 && IsHex(w[0])
      {
        ClassAccepts(g, k, w[..i]);
      }
      if w != [] {
        HexDigits(g, k, n - 1, w[1..]);
        assert Match(g, k, HEX_DIGIT, w[..1]) <==> IsHex(w[0]);
        assert forall i :: 0 < i < |w| ==> w[i] == w[1..][i - 1];
      }
    }
  }

  lemma FourHex(g: Grammar, k: nat, w: Text)
    ensures Match(g, k, Rep(HEX_DIGIT, 4, Some(4)), w) <==>
            |w| == 4 && IsHex(w[0]) && IsHex(w[1]) && IsHex(w[2]) && IsHex(w[3])
  {
    HexDigits(g, k, 4, w);
    if Match(g, k, Rep(HEX_DIGIT, 4, Some(4)), w) {
      var n := RepCount(g, k, HEX_DIGIT, 4, Some(4), w);
    }
  }

  lemma LetterThen(g: Grammar, k: nat, c: Code, rest: Expr, w: Text)
    ensures Match(g, k, Cat(Lit([c]), rest), w) <==> w != [] && w[0] == c && Match(g, k, rest, w[1..])
  {
    OneThen(g, k, Lit([c]), rest, w);
  }

  lemma CharRuleExact(g: Grammar, k: nat, w: Text)
    ensures Match(g, k, CHAR_RULE, w) <==> IsUnit(w)
  {
    var unicode := Cat(Lit([LOWER_U]), Rep(HEX_DIGIT, 4, Some(4)));
    var escaped := Alt(ESCAPE, unicode);
    ClassAccepts(g, k, w);
    SingleThen(g, k, BACKSLASH, Group(escaped), w);
    EitherWay(g, k, CHAR_RULE.left, Cat(Single(BACKSLASH), Group(escaped)), CHAR_RULE, w);
    if w != [] {
      var v := w[1..];
      ClassAccepts(g, k, v);
      LetterThen(g, k, LOWER_U, Rep(HEX_DIGIT, 4, Some(4)), v);
      EitherWay(g, k, ESCAPE, unicode, escaped, v);
      if v != [] {
        FourHex(g, k, v[1..]);
      }
    }
  }

  /** A grammar whose rule for characters is in place. */
  predicate HasChars(g: Grammar) {
    CHAR_NAME in g && g[CHAR_NAME] == CHAR_RULE
  }

  const UNITS: Language := w => IsUnit(w)

  lemma UnitsAsReferred(g: Grammar, k: nat, w: Text)
    requires HasChars(g) && k > 0
    ensures Of(g, k, Ref(CHAR_NAME))(w) <==> UNITS(w)
  {
    CharRuleExact(g, k - 1, w);
  }

  lemma ManySame(l: Language, l': Language, w: Text)
    requires forall v :: l(v) <==> l'(v)
    ensures Many(l, w) <==> Many(l', w)
    ensures Some1(l, w) <==> Some1(l', w)
  {
    forall n: nat
      ensures Copies(l, n, w) <==> Copies(l', n, w)
    {
      SameCopies(l, l', n, w);
    }
    assert Many(l, w) ==> Many(l', w) by {
      if n: nat :| Copies(l, n, w) {
        assert Copies(l', n, w);
      }
    }
    assert Many(l', w) ==> Many(l, w) by {
      if n: nat :| Copies(l', n, w) {
        assert Copies(l, n, w);
      }
    }
    assert Some1(l, w) ==> Some1(l', w) by {
      if n: nat :| n > 0 && Copies(l, n, w) {
        assert Copies(l', n, w);
      }
    }
    assert Some1(l', w) ==> Some1(l, w) by {
      if n: nat :| n > 0 && Copies(l', n, w) {
        assert Copies(l, n, w);
      }
    }
  }

  lemma LeavesSame(l: Language, l': Language, keys: set<Text>, w: Text)
    requires forall v :: l(v) <==> l'(v)
    ensures Leaves(l, keys, w) <==> Leaves(l', keys, w)
  {
    forall m: nat
      ensures LeavesAt(l, keys, w, m) <==> LeavesAt(l', keys, w, m)
    {
      if m < |w| {
        ManySame(l, l', w[m + 1..]);
        ManySame(l, l', w[m..]);
      }
    }
  }

  /**
    `w` is accepted in the place of a key: it is empty, unless that is a listed key, or it leaves the
    listed keys. With the empty key alone, it is just that key which is accepted.
   */
  ghost predicate Takes(keys: set<Text>, w: Text) {
    if Heads(keys) == {} then w == [] else (w == [] && [] !in keys) || Leaves(UNITS, keys, w)
  }

  /** What is accepted in the place of a key, for every text. */
  lemma KeysExact(g: Grammar, k: nat, keys: set<Text>, w: Text)
    requires HasChars(g) && k > 0
    ensures Match(g, k, Meant(KeyBody(keys)), w) <==> Takes(keys, w)
  {
    var body := Group(Meant(Alternatives(keys)));
    AtMostOne(g, k, body, w);
    if Heads(keys) == {} {
      assert Sorted(Heads(keys)) == [];
      assert body == Group(Empty);
    } else {
      forall v
        ensures Of(g, k, UNIT)(v) <==> UNITS(v)
      {
        UnitsAsReferred(g, k, v);
      }
      assert Match(g, k, UNIT, []) <==> Of(g, k, UNIT)([]);
      AlternativesExact(g, k, keys, w);
      LeavesSame(Of(g, k, UNIT), UNITS, keys, w);
    }
  }

  /** With the empty key alone, it is just that key which is accepted, although it is to be kept out. */
  lemma EmptyKeyAlone(g: Grammar, k: nat, w: Text)
    requires HasChars(g) && k > 0
    ensures Match(g, k, Meant(KeyBody({[]})), w) <==> w == []
  {
    var keys: set<Text> := {[]};
    assert Heads(keys) == {};
    KeysExact(g, k, keys, w);
  }

  // ---------------------------------------------------------------------------------------------
  // Keys as they are written

  predicate IsPlain(w: Text) {
    forall i :: 0 <= i < |w| ==> Plain(w[i])
  }

  lemma {:induction false} PlainUnits(w: Text)
    requires IsPlain(w)
    ensures Copies(UNITS, |w|, w)
    decreases |w|
  {
    if w != [] {
      PlainUnits(w[1..]);
      assert UNITS(w[..1]);
    }
  }

  lemma BeginsMono(keys: set<Text>, w: Text, m: nat)
    requires m <= |w| && Begins(keys, w)
    ensures Begins(keys, w[..m])
  {
    var s :| s in keys && w <= s;
    assert w[..m] <= s;
  }

  /** The longest part of a text that begins a key. */
  lemma LongestPart(keys: set<Text>, w: Text) returns (m: nat)
    requires keys != {} && !Begins(keys, w)
    ensures Parts(keys, w, m)
  {
    m := 0;
    BeginsNothing(keys);
    assert w[..0] == [] && w[..|w|] == w;
    while m + 1 < |w| && Begins(keys, w[..m + 1])
      invariant m < |w| && Begins(keys, w[..m])
    {
      m := m + 1;
    }
  }

  /** `w` leaves the listed keys, before the end of one, with a character that is lost to a dash. */
  ghost predicate LostToDash(keys: set<Text>, w: Text) {
    exists m: nat :: Parts(keys, w, m) && Continues(keys, w[..m]) && LostAt(keys, w, m)
  }

  /**
    A key of plain characters is accepted unless it is listed or a proper part of a listed key that is not
    empty, or it is lost to a dash.
   */
  lemma PlainKeysExact(keys: set<Text>, w: Text)
    requires Heads(keys) != {} && IsPlain(w)
    ensures Takes(keys, w) <==> w !in keys && (w == [] || !Continues(keys, w)) && !LostToDash(keys, w)
  {
    assert w == [] ==> !Leaves(UNITS, keys, w);
    if w != [] {
      assert Begins(keys, w) <==> w in keys || Continues(keys, w) by {
        if s :| s in keys && w <= s {
          assert w == s || w < s;
        }
      }
      if Begins(keys, w) {
        NoParts(keys, w);
      } else {
        assert keys != {};
        var m := LongestPart(keys, w);
        PlainLeaves(keys, w, m);
      }
    }
  }

  lemma PlainLeaves(keys: set<Text>, w: Text, m: nat)
    requires IsPlain(w) && Parts(keys, w, m)
    ensures Leaves(UNITS, keys, w) <==> !LostToDash(keys, w)
  {
    PlainUnits(w[m..]);
    PlainUnits(w[m + 1..]);
    assert LeavesAt(UNITS, keys, w, m) <==> !(Continues(keys, w[..m]) && LostAt(keys, w, m));
    forall n: nat | Parts(keys, w, n)
      ensures n == m
    {
      PartsOrder(keys, w, m, n);
      PartsOrder(keys, w, n, m);
    }
  }

  lemma NoParts(keys: set<Text>, w: Text)
    requires Begins(keys, w)
    ensures forall m: nat :: !Parts(keys, w, m)
  {
    forall m: nat
      ensures !Parts(keys, w, m)
    {
      if m < |w| {
        BeginsMono(keys, w, m + 1);
      }
    }
  }

  /** The first character of a string is not a quote, and a plain one can be taken off. */
  lemma FirstUnit(w: Text, n: nat)
    requires w != [] && Copies(UNITS, n, w)
    ensures w[0] != QUOTE && n > 0
    ensures w[0] != BACKSLASH ==> Plain(w[0]) && Copies(UNITS, n - 1, w[1..])
  {
    var i := CopiesFirst(UNITS, n, w);
    assert IsUnit(w[..i]);
    assert w[..i][0] == w[0];
    assert w[0] != BACKSLASH ==> i == 1;
  }

  /** The plain characters at the beginning of a string can be taken off. */
  lemma {:induction false} PlainOff(w: Text, n: nat, m: nat)
    requires Copies(UNITS, n, w) && m <= |w| && IsPlain(w[..m])
    ensures Many(UNITS, w[m..]) && (m < |w| ==> Some1(UNITS, w[m..]))
    decreases m
  {
    if m > 0 {
      assert w[..m][0] == w[0];
      FirstUnit(w, n);
      assert w[1..][..m - 1] == w[..m][1..];
      PlainOff(w[1..], n - 1, m - 1);
      assert w[1..][m - 1..] == w[m..];
    } else {
      assert w[0..] == w;
    }
  }

  /** Leaving the listed keys after `m` characters, before the end of one, loses nothing to a dash or a backslash. */
  ghost predicate NothingLost(keys: set<Text>, w: Text, m: nat)
    requires m < |w|
  {
    Continues(keys, w[..m]) ==> !LostAt(keys, w, m) && (w[m] == BACKSLASH ==> Many(UNITS, w[m + 1..]))
  }

  /**
    A key as it is written, of any characters, where the listed ones are plain: it must not begin a
    listed key, and must not be lost to a dash; and where it leaves the listed keys with a backslash, what
    follows the backslash must itself be a string of characters, unless all of a listed key that begins no
    other comes before it.
   */
  lemma WrittenKeysExact(keys: set<Text>, w: Text)
    requires Heads(keys) != {} && (forall s :: s in keys ==> IsPlain(s))
    requires Many(UNITS, w) && w != []
    ensures Takes(keys, w) <==> exists m: nat :: Parts(keys, w, m) && NothingLost(keys, w, m)
  {
    forall m: nat | Parts(keys, w, m)
      ensures LeavesAt(UNITS, keys, w, m) <==> NothingLost(keys, w, m)
    {
      AfterPart(keys, w, m);
    }
    if m: nat :| Parts(keys, w, m) && NothingLost(keys, w, m) {
      assert LeavesAt(UNITS, keys, w, m);
    }
  }

  /** A text leaves the listed keys in one place, if it does not begin one of them. */
  lemma OnePart(keys: set<Text>, w: Text)
    requires keys != {}
    ensures Begins(keys, w) <==> forall m: nat :: !Parts(keys, w, m)
    ensures forall m: nat, n: nat :: Parts(keys, w, m) && Parts(keys, w, n) ==> m == n
  {
    if Begins(keys, w) {
      NoParts(keys, w);
    } else {
      var m := LongestPart(keys, w);
    }
    forall m: nat, n: nat | Parts(keys, w, m) && Parts(keys, w, n)
      ensures m == n
    {
      PartsOrder(keys, w, m, n);
      PartsOrder(keys, w, n, m);
    }
  }

  lemma PartsOrder(keys: set<Text>, w: Text, m: nat, n: nat)
    requires Parts(keys, w, m) && Parts(keys, w, n)
    ensures m <= n
  {
    var s :| s in keys && w[..m] <= s;
    forall i: nat | i <= m
      ensures Begins(keys, w[..i])
    {
      assert w[..i] <= s;
    }
  }

  lemma AfterPart(keys: set<Text>, w: Text, m: nat)
    requires (forall s :: s in keys ==> IsPlain(s)) && Many(UNITS, w)
    requires m < |w| && Begins(keys, w[..m])
    ensures w[m] != QUOTE && Some1(UNITS, w[m..])
    ensures w[m] != BACKSLASH ==> Many(UNITS, w[m + 1..])
  {
    var s :| s in keys && w[..m] <= s;
    assert IsPlain(w[..m]);
    var n: nat :| Copies(UNITS, n, w);
    PlainOff(w, n, m);
    var v := w[m..];
    var n': nat :| Copies(UNITS, n', v);
    FirstUnit(v, n');
    assert v[0] == w[m] && v[1..] == w[m + 1..];
  }

  lemma LoneBackslash()
    ensures !Many(UNITS, [BACKSLASH])
  {
    var w := [BACKSLASH];
    if n: nat :| Copies(UNITS, n, w) {
      var i := CopiesFirst(UNITS, n, w);
      assert |w[..i]| <= 1;
    }
  }

  /** With any plain key listed, the key that is one escaped backslash is not accepted. */
  lemma EscapeLost(key: Text)
    requires key != [] && IsPlain(key)
    ensures !Takes({key}, [BACKSLASH, BACKSLASH])
  {
    var keys, w := {key}, [BACKSLASH, BACKSLASH];
    assert key[0] in Heads(keys);
    if Leaves(UNITS, keys, w) {
      var m: nat :| LeavesAt(UNITS, keys, w, m);
      assert w[1..] == [BACKSLASH];
      LoneBackslash();
    }
  }

  // ---------------------------------------------------------------------------------------------
  // The whole rule

  /** A key between quotes and the space after it. */
  function NotStrings(keys: set<Text>): Syntax {
    Seq(SingleSet(QUOTE), Seq(KeyBody(keys), Seq(SingleSet(QUOTE), Named(SPACE_NAME))))
  }

  /** A key that is accepted, between quotes, and space. */
  ghost predicate Quoted(g: Grammar, k: nat, keys: set<Text>, key: Text, space: Text, w: Text) {
    w == [QUOTE] + key + [QUOTE] + space && Takes(keys, key) && Match(g, k, Ref(SPACE_NAME), space)
  }

  lemma Unquote(g: Grammar, k: nat, body: Expr, last: Expr, w: Text) returns (key: Text, space: Text)
    requires Match(g, k, Cat(Single(QUOTE), Cat(body, Cat(Single(QUOTE), last))), w)
    ensures w == [QUOTE] + key + [QUOTE] + space && Match(g, k, body, key) && Match(g, k, last, space)
  {
    SingleThen(g, k, QUOTE, Cat(body, Cat(Single(QUOTE), last)), w);
    key, space := BeforeQuote(g, k, body, last, w[1..]);
  }

  lemma CutAtQuote(w: Text, i: nat)
    requires i < |w| && w[i] == QUOTE
    ensures w == w[..i] + [QUOTE] + w[i..][1..]
  {
  }

  lemma BeforeQuote(g: Grammar, k: nat, body: Expr, last: Expr, w: Text) returns (key: Text, space: Text)
    requires Match(g, k, Cat(body, Cat(Single(QUOTE), last)), w)
    ensures w == key + [QUOTE] + space && Match(g, k, body, key) && Match(g, k, last, space)
  {
    var i := CatCut(g, k, body, Cat(Single(QUOTE), last), w);
    var rest := w[i..];
    SingleThen(g, k, QUOTE, last, rest);
    key, space := w[..i], rest[1..];
    CutAtQuote(w, i);
  }

  lemma QuoteAny(g: Grammar, k: nat, body: Expr, last: Expr, key: Text, space: Text, w: Text)
    requires Match(g, k, body, key) && Match(g, k, last, space) && w == [QUOTE] + key + [QUOTE] + space
    ensures Match(g, k, Cat(Single(QUOTE), Cat(body, Cat(Single(QUOTE), last))), w)
  {
    SingleThen(g, k, QUOTE, Cat(body, Cat(Single(QUOTE), last)), w);
    QuoteAfter(g, k, body, last, key, space, w[1..]);
  }

  lemma QuoteAfter(g: Grammar, k: nat, body: Expr, last: Expr, key: Text, space: Text, w: Text)
    requires Match(g, k, body, key) && Match(g, k, last, space) && w == key + [QUOTE] + space
    ensures Match(g, k, Cat(body, Cat(Single(QUOTE), last)), w)
  {
    var v := w[|key|..];
    assert v[1..] == space;
    SingleThen(g, k, QUOTE, last, v);
    assert w[..|key|] == key;
    CatJoin(g, k, body, Cat(Single(QUOTE), last), w, |key|);
  }

  lemma MeantNotStrings(keys: set<Text>)
    ensures Meant(NotStrings(keys)) ==
            Cat(Single(QUOTE), Cat(Meant(KeyBody(keys)), Cat(Single(QUOTE), Ref(SPACE_NAME))))
  {
    MeantSets(QUOTE, []);
    MeantSeq(SingleSet(QUOTE), Named(SPACE_NAME));
    MeantSeq(KeyBody(keys), Seq(SingleSet(QUOTE), Named(SPACE_NAME)));
  }

  /** Whatever is accepted in the place of a key may stand between the quotes, and nothing else. */
  lemma NotStringsExact(g: Grammar, k: nat, keys: set<Text>, w: Text)
    requires HasChars(g) && k > 0
    ensures Match(g, k, Meant(NotStrings(keys)), w) <==> exists key, space :: Quoted(g, k, keys, key, space, w)
  {
    var body := Meant(KeyBody(keys));
    MeantNotStrings(keys);
    if Match(g, k, Meant(NotStrings(keys)), w) {
      var key, space := Unquote(g, k, body, Ref(SPACE_NAME), w);
      KeysExact(g, k, keys, key);
      assert Quoted(g, k, keys, key, space, w);
    }
    if key, space :| Quoted(g, k, keys, key, space, w) {
      KeysExact(g, k, keys, key);
      QuoteAny(g, k, body, Ref(SPACE_NAME), key, space, w);
    }
  }
}
