/** The text of the expression for keys that are not listed: what it reads as, and when that is what is meant. */
module KeySpelling {
  import opened Wrappers
  import opened Gbnf
  import opened GbnfReader
  import opened GbnfSyntax
  import opened GbnfSpelling
  import opened KeyExclusion

  // ---------------------------------------------------------------------------------------------
  // One set

  predicate Increasing(cs: seq<Code>) {
    forall i, j :: 0 <= i < j < |cs| ==> cs[i] < cs[j]
  }

  /** A character that is read as itself wherever it is put into a set. */
  predicate IsSetChar(c: Code) {
    IsRaw(c) && KeyChar(c) != ']'
  }

  /** The characters can be written into a set. */
  predicate Listable(cs: seq<Code>) {
    forall i :: 0 <= i < |cs| ==> IsSetChar(cs[i])
  }

  /** The characters between brackets are read as these ranges and no others. */
  predicate ReadAs(src: string, pos: nat, before: seq<CharRange>, ranges: seq<CharRange>) {
    var r := ReadClass(src, pos, before);
    r.Success? && r.value.0 == ranges
  }

  lemma {:induction false} ClassGrows(src: string, pos: nat, before: seq<CharRange>)
    ensures var r := ReadClass(src, pos, before); r.Success? ==> before <= r.value.0
    decreases |src| - pos
  {
    if At(src, pos) != ']' && At(src, pos) != NUL {
      var r := ReadRange(src, pos);
      if r.Success? {
        ClassGrows(src, r.value.1, before + [r.value.0]);
      }
    }
  }

  lemma {:induction false} ContinuationGrows(src: string, pos: nat, end: nat, value: nat)
    ensures ReadContinuation(src, pos, end, value).0 >= value
    decreases end - pos
  {
    if pos < end && At(src, pos) != NUL {
      ContinuationGrows(src, pos + 1, end, 64 * value + At(src, pos) as int % 64);
    }
  }

  /** `d` follows `c` in the set, or the closing bracket does. */
  predicate Next(c: Code, d: char) {
    d == ']' || c < d as nat < 256
  }

  lemma NotItsByte(src: string, pos: nat, c: Code)
    requires 0x80 <= c < 256 && pos < |src| && src[pos] == c as char && Next(c, At(src, pos + 1))
    ensures ReadUtf8(src, pos).0 != c
  {
    var first, d, len, lead := c as int, At(src, pos + 1) as int, Utf8Length(c), Utf8Lead(c);
    if len > 1 {
      var value := 64 * lead + d % 64;
      assert ReadUtf8(src, pos) == ReadContinuation(src, pos + 2, pos + len, value);
      if len == 2 {
        assert value != c;
      } else if pos + 2 < pos + len && At(src, pos + 2) != NUL {
        ContinuationGrows(src, pos + 3, pos + len, 64 * value + At(src, pos + 2) as int % 64);
      }
    }
  }

  /** A character that is not one for sets is not read as itself. */
  lemma BadChar(src: string, pos: nat, c: Code)
    requires c < 256 && !IsRaw(c) && c != 0 && At(src, pos) == KeyChar(c) && Next(c, At(src, pos + 1))
    requires KeyChar(c) == '\\' && At(src, pos + 1) != ']' ==> Next(At(src, pos + 1) as nat, At(src, pos + 2))
    ensures var r := ReadChar(src, pos); r.Success? ==> r.value.0 != c
  {
    if c >= 0x80 {
      NotItsByte(src, pos, c);
    } else {
      var e := At(src, pos + 1);
      if e == 'x' || e == 'u' || e == 'U' {
        assert HexDigit(At(src, pos + 2)) == None;
      }
    }
  }

  /** Where the characters of a set are, and its closing bracket. */
  predicate SetAt(src: string, pos: nat, cs: seq<Code>) {
    && (forall i :: 0 <= i < |cs| ==> cs[i] < 256 && At(src, pos + i) == KeyChar(cs[i]))
    && At(src, pos + |cs|) == ']'
  }

  lemma SetAtNext(src: string, pos: nat, cs: seq<Code>)
    requires SetAt(src, pos, cs) && cs != []
    ensures SetAt(src, pos + 1, cs[1..])
    ensures At(src, pos) == KeyChar(cs[0]) && At(src, pos + 1) == if |cs| > 1 then KeyChar(cs[1]) else ']'
    ensures |cs| > 1 ==> At(src, pos + 2) == if |cs| > 2 then KeyChar(cs[2]) else ']'
  {
    assert At(src, pos + 0) == KeyChar(cs[0]);
    forall i | 0 <= i < |cs[1..]|
      ensures At(src, pos + 1 + i) == KeyChar(cs[1..][i])
    {
      assert At(src, pos + (i + 1)) == KeyChar(cs[i + 1]);
    }
  }

  /** Another first range than the one expected is not made good later. */
  lemma OtherRange(src: string, pos: nat, before: seq<CharRange>, ranges: seq<CharRange>)
    requires ranges != [] && At(src, pos) != ']'
    requires var r := ReadRange(src, pos); r.Success? ==> r.value.0 != ranges[0]
    ensures !ReadAs(src, pos, before, before + ranges)
  {
    var r := ReadRange(src, pos);
    if At(src, pos) != NUL && r.Success? {
      ClassGrows(src, r.value.1, before + [r.value.0]);
      assert (before + ranges)[|before|] == ranges[0];
      assert (before + [r.value.0])[|before|] == r.value.0;
    }
  }

  /** The first range is as expected, and what follows decides. */
  lemma FirstRange(src: string, pos: nat, before: seq<CharRange>, first: CharRange, end: nat, others: seq<CharRange>)
    requires At(src, pos) != ']' && At(src, pos) != NUL && ReadRange(src, pos) == Success((first, end))
    ensures ReadAs(src, pos, before, before + ([first] + others)) <==>
            ReadAs(src, end, before + [first], before + [first] + others)
  {
    assert before + ([first] + others) == before + [first] + others;
  }

  lemma RawReads(src: string, pos: nat, c: Code)
    requires IsSetChar(c) && At(src, pos) == KeyChar(c)
    ensures pos < |src| && At(src, pos) != ']' && At(src, pos) != NUL && ReadChar(src, pos) == Success((c, pos + 1))
  {
  }

  /** One character is read as itself where no range begins with it. */
  lemma OneReads(src: string, pos: nat, before: seq<CharRange>, cs: seq<Code>)
    requires cs != [] && SetAt(src, pos, cs) && IsSetChar(cs[0]) && (|cs| > 2 ==> cs[1] != DASH)
    ensures ReadAs(src, pos, before, before + Spanned(cs)) <==>
            ReadAs(src, pos + 1, before + [One(cs[0])], before + [One(cs[0])] + Spanned(cs[1..]))
  {
    SetAtNext(src, pos, cs);
    RawReads(src, pos, cs[0]);
    assert At(src, pos + 1) == '-' ==> At(src, pos + 2) == ']';
    FirstRange(src, pos, before, One(cs[0]), pos + 1, Spanned(cs[1..]));
  }

  /** Where the characters around a dash are. */
  lemma AroundDash(src: string, pos: nat, cs: seq<Code>)
    requires |cs| > 2 && SetAt(src, pos, cs) && cs[1] == DASH && Increasing(cs[1..])
    ensures DASH < cs[2] < 256
    ensures At(src, pos) == KeyChar(cs[0]) && At(src, pos + 1) == '-' && At(src, pos + 2) == KeyChar(cs[2])
    ensures Next(cs[2], At(src, pos + 3))
    ensures At(src, pos + 3) != ']' ==> Next(At(src, pos + 3) as nat, At(src, pos + 4))
  {
    SetAtLater(src, pos, cs, 2);
    SetAtNext(src, pos, cs);
    SetAtNext(src, pos + 2, cs[2..]);
    assert cs[1..][0] < cs[1..][1];
    if |cs| > 3 {
      assert cs[1..][1] < cs[1..][2];
      assert cs[2..][1] == cs[3];
    }
    if |cs| > 4 {
      assert cs[1..][2] < cs[1..][3];
      assert cs[2..][2] == cs[4];
    }
  }

  /** A dash makes a range of the characters around it. */
  lemma SpanReads(src: string, pos: nat, before: seq<CharRange>, cs: seq<Code>)
    requires |cs| > 2 && SetAt(src, pos, cs) && Increasing(cs[1..])
    requires IsSetChar(cs[0]) && cs[1] == DASH && IsSetChar(cs[2])
    ensures ReadAs(src, pos, before, before + Spanned(cs)) <==>
            ReadAs(src, pos + 3, before + [Span(cs[0], cs[2])], before + [Span(cs[0], cs[2])] + Spanned(cs[3..]))
  {
    AroundDash(src, pos, cs);
    RawReads(src, pos, cs[0]);
    RawReads(src, pos + 2, cs[2]);
    FirstRange(src, pos, before, Span(cs[0], cs[2]), pos + 3, Spanned(cs[3..]));
  }

  lemma SpanFails(src: string, pos: nat, before: seq<CharRange>, cs: seq<Code>)
    requires |cs| > 2 && SetAt(src, pos, cs) && Increasing(cs[1..])
    requires IsSetChar(cs[0]) && cs[1] == DASH && !IsSetChar(cs[2])
    ensures !ReadAs(src, pos, before, before + Spanned(cs))
  {
    AroundDash(src, pos, cs);
    RawReads(src, pos, cs[0]);
    if KeyChar(cs[2]) != ']' {
      BadChar(src, pos + 2, cs[2]);
    }
    OtherRange(src, pos, before, Spanned(cs));
  }

  lemma SetAtLater(src: string, pos: nat, cs: seq<Code>, n: nat)
    requires SetAt(src, pos, cs) && n <= |cs|
    ensures SetAt(src, pos + n, cs[n..])
    decreases n
  {
    if n > 0 {
      SetAtNext(src, pos, cs);
      SetAtLater(src, pos + 1, cs[1..], n - 1);
      assert cs[1..][n - 1..] == cs[n..];
    } else {
      assert cs[0..] == cs;
    }
  }

  lemma ListableRest(cs: seq<Code>, n: nat)
    requires n <= |cs|
    ensures Listable(cs) <==> Listable(cs[..n]) && Listable(cs[n..])
  {
    assert forall i :: n <= i < |cs| ==> cs[i] == cs[n..][i - n];
    assert forall i :: 0 <= i < |cs| - n ==> cs[n..][i] == cs[i + n];
  }

  lemma IncreasingRest(cs: seq<Code>, n: nat)
    requires Increasing(cs) && n <= |cs|
    ensures Increasing(cs[n..])
  {
    assert forall i :: 0 <= i < |cs| - n ==> cs[n..][i] == cs[i + n];
  }

  /** The characters of a set in their order are read as their ranges exactly when all of them can be written. */
  lemma {:induction false} ListReads(src: string, pos: nat, before: seq<CharRange>, cs: seq<Code>)
    requires Increasing(cs) && SetAt(src, pos, cs)
    ensures ReadAs(src, pos, before, before + Spanned(cs)) <==> Listable(cs)
    decreases |cs|, 1
  {
    if cs == [] {
      assert before + Spanned(cs) == before;
    } else if !IsSetChar(cs[0]) {
      NotListed(src, pos, before, cs);
    } else {
      IncreasingRest(cs, 1);
      FirstListed(src, pos, before, cs);
    }
  }

  /** The same where the first character can be written; it need not be less than the others. */
  lemma {:induction false} FirstListed(src: string, pos: nat, before: seq<CharRange>, cs: seq<Code>)
    requires cs != [] && IsSetChar(cs[0]) && Increasing(cs[1..]) && SetAt(src, pos, cs)
    ensures ReadAs(src, pos, before, before + Spanned(cs)) <==> Listable(cs)
    decreases |cs|, 0
  {
    if |cs| > 2 && cs[1] == DASH {
      var rest := cs[3..];
      RestOfSpan(src, pos, cs);
      ListReads(src, pos + 3, before + [Span(cs[0], cs[2])], rest);
      if IsSetChar(cs[2]) {
        SpanReads(src, pos, before, cs);
      } else {
        SpanFails(src, pos, before, cs);
      }
    } else {
      var rest := cs[1..];
      SetAtLater(src, pos, cs, 1);
      ListReads(src, pos + 1, before + [One(cs[0])], rest);
      OneReads(src, pos, before, cs);
      ListableRest(cs, 1);
    }
  }

  lemma RestOfSpan(src: string, pos: nat, cs: seq<Code>)
    requires |cs| > 2 && cs[1] == DASH && IsSetChar(cs[0]) && Increasing(cs[1..]) && SetAt(src, pos, cs)
    ensures Increasing(cs[3..]) && SetAt(src, pos + 3, cs[3..])
    ensures Listable(cs) <==> IsSetChar(cs[2]) && Listable(cs[3..])
  {
    ListableRest(cs, 3);
    assert cs[..3] == [cs[0], cs[1], cs[2]];
    SetAtLater(src, pos, cs, 3);
    IncreasingRest(cs[1..], 2);
    assert cs[1..][2..] == cs[3..];
  }

  lemma NotListed(src: string, pos: nat, before: seq<CharRange>, cs: seq<Code>)
    requires cs != [] && Increasing(cs) && SetAt(src, pos, cs) && !IsSetChar(cs[0])
    ensures !ReadAs(src, pos, before, before + Spanned(cs))
  {
    var c := cs[0];
    SetAtNext(src, pos, cs);
    if c != 0 && !IsRaw(c) {
      BadChar(src, pos, c);
      OtherRange(src, pos, before, Spanned(cs));
    } else {
      assert |before + Spanned(cs)| > |before|;
    }
  }

  // ---------------------------------------------------------------------------------------------
  // The sets of a key

  /** Between the brackets of a set for one character. */
  predicate CanStand(c: Code) {
    IsSetChar(c) && KeyChar(c) != '^'
  }

  /** What is read at the place of a terminal is this expression. */
  predicate TerminalIs(src: string, pos: nat, e: Expr) {
    && StartsTerminal(At(src, pos))
    && var r := ReadTerminal(src, pos, false);
    r.Success? && r.value.0 == e
  }

  lemma CharsAt(src: string, pos: nat, open: string, cs: seq<Code>)
    requires TextAt(src, pos, open + (KeyChars(cs) + "]")) && forall c :: c in cs ==> c < 256
    ensures TextAt(src, pos, open) && SetAt(src, pos + |open|, cs)
  {
    var t := KeyChars(cs) + "]";
    var start := pos + |open|;
    TextParts(src, pos, open + t, open, t);
    forall i | 0 <= i < |cs|
      ensures cs[i] < 256 && At(src, start + i) == KeyChar(cs[i])
    {
      assert cs[i] in cs;
      TextChar(src, start, t, i);
    }
    TextChar(src, start, t, |cs|);
  }

  /** The set for one character is read as that set exactly when the character may stand in it. */
  lemma SingleExact(src: string, pos: nat, c: Code)
    requires c < 256 && TextAt(src, pos, TextOf(SingleSet(c)))
    ensures TerminalIs(src, pos, Single(c)) <==> CanStand(c)
  {
    var cs: seq<Code> := [c];
    CharsAt(src, pos, "[", cs);
    TextChar(src, pos, "[", 0);
    SetAtNext(src, pos + 1, cs);
    ListReads(src, pos + 1, [], cs);
    assert [] + Spanned(cs) == [One(c)];
    assert Listable(cs) <==> IsSetChar(c);
  }

  /** The set of the other characters is read as its ranges exactly when the characters can be written. */
  lemma OthersExact(src: string, pos: nat, cs: seq<Code>)
    requires Increasing(cs) && (forall c :: c in cs ==> c < 256) && TextAt(src, pos, TextOf(OthersSet(cs)))
    ensures TerminalIs(src, pos, Others(cs)) <==> Listable(cs)
  {
    var all := [QUOTE] + cs;
    assert all[1..] == cs;
    CharsAt(src, pos, "[^", all);
    TextChar(src, pos, "[^", 0);
    TextChar(src, pos, "[^", 1);
    FirstListed(src, pos + 2, [], all);
    ListableRest(all, 1);
    assert Listable(all[..1]);
    assert [] + Spanned(all) == Spanned(all);
  }

  // ---------------------------------------------------------------------------------------------
  // All the sets of the listed keys

  predicate IsBytes(s: Text) {
    forall i :: 0 <= i < |s| ==> s[i] < 256
  }

  predicate AllBytes(keys: set<Text>) {
    forall s :: s in keys ==> IsBytes(s)
  }

  predicate AllStand(s: Text) {
    forall i :: 0 <= i < |s| ==> CanStand(s[i])
  }

  /** The listed keys can be written into sets: they are of ASCII characters without `]`, `^`, the backslash and NUL. */
  predicate Spellable(keys: set<Text>) {
    forall s :: s in keys ==> AllStand(s)
  }

  lemma AfterIn(keys: set<Text>, s: Text)
    requires s in keys && s != []
    ensures s[0] in Heads(keys) && s[1..] in After(keys, s[0])
  {
  }

  lemma InAfter(keys: set<Text>, c: Code, s: Text)
    requires s in After(keys, c)
    ensures [c] + s in keys
  {
    var t :| t in keys && t != [] && t[0] == c && t[1..] == s;
    assert t == [c] + s;
  }

  lemma BytesAfter(keys: set<Text>, c: Code)
    requires AllBytes(keys)
    ensures AllBytes(After(keys, c)) && forall h :: h in Heads(keys) ==> h < 256
  {
    forall s | s in After(keys, c)
      ensures IsBytes(s)
    {
      InAfter(keys, c, s);
      assert IsBytes([c] + s);
      assert forall i :: 0 <= i < |s| ==> s[i] == ([c] + s)[i + 1];
    }
  }

  lemma SpellableAfter(keys: set<Text>, c: Code)
    requires Spellable(keys)
    ensures Spellable(After(keys, c))
  {
    forall s | s in After(keys, c)
      ensures AllStand(s)
    {
      InAfter(keys, c, s);
      assert AllStand([c] + s);
      assert forall i :: 0 <= i < |s| ==> s[i] == ([c] + s)[i + 1];
    }
  }

  /** The first characters can be written into sets. */
  predicate HeadsFine(keys: set<Text>) {
    forall c :: c in Heads(keys) ==> CanStand(c)
  }

  /** The listed keys can be written when their first characters and what follows each of them can. */
  lemma SpellableStep(keys: set<Text>)
    ensures Spellable(keys) <==> HeadsFine(keys) && forall c :: c in Heads(keys) ==> Spellable(After(keys, c))
  {
    if Spellable(keys) {
      forall c | c in Heads(keys)
        ensures CanStand(c) && Spellable(After(keys, c))
      {
        var s :| s in keys && s != [] && s[0] == c;
        assert AllStand(s);
        SpellableAfter(keys, c);
      }
    }
    if HeadsFine(keys) && forall c :: c in Heads(keys) ==> Spellable(After(keys, c)) {
      forall s | s in keys
        ensures AllStand(s)
      {
        StandsBack(keys, s);
      }
    }
  }

  lemma StandsBack(keys: set<Text>, s: Text)
    requires HeadsFine(keys) && s in keys && (s != [] ==> Spellable(After(keys, s[0])))
    ensures AllStand(s)
  {
    if s != [] {
      AfterIn(keys, s);
      assert AllStand(s[1..]);
      assert forall i :: 0 < i < |s| ==> s[i] == s[1..][i - 1];
    }
  }

  // ---------------------------------------------------------------------------------------------
  // The text of all the sets

  function KeyPart(c: Code): Part {
    Part(One(c), [KeyChar(c)])
  }

  function SpanPart(c: Code, d: Code): Part {
    Part(Span(c, d), [KeyChar(c)] + ("-" + [KeyChar(d)]))
  }

  /** The parts of a set, each with the characters it is read from. */
  function KeyParts(cs: seq<Code>): seq<Part> {
    if cs == [] then []
    else if |cs| > 2 && cs[1] == DASH then [SpanPart(cs[0], cs[2])] + KeyParts(cs[3..])
    else [KeyPart(cs[0])] + KeyParts(cs[1..])
  }

  lemma KeyCharsSplit(cs: seq<Code>, n: nat)
    requires n <= |cs|
    ensures KeyChars(cs) == KeyChars(cs[..n]) + KeyChars(cs[n..])
  {
  }

  lemma {:induction false} KeyPartsText(cs: seq<Code>)
    ensures PartsText(KeyParts(cs)) == KeyChars(cs) && RangesOf(KeyParts(cs)) == Spanned(cs)
    decreases |cs|
  {
    if |cs| > 2 && cs[1] == DASH {
      KeyPartsText(cs[3..]);
      KeyCharsSplit(cs, 3);
      PartsHead(SpanPart(cs[0], cs[2]), KeyParts(cs[3..]));
      assert KeyChars(cs[..3]) == [KeyChar(cs[0])] + ("-" + [KeyChar(cs[2])]);
    } else if cs != [] {
      KeyPartsText(cs[1..]);
      KeyCharsSplit(cs, 1);
      PartsHead(KeyPart(cs[0]), KeyParts(cs[1..]));
      assert KeyChars(cs[..1]) == [KeyChar(cs[0])];
    }
  }

  lemma PartsHead(p: Part, parts: seq<Part>)
    ensures PartsText([p] + parts) == p.text + PartsText(parts) && RangesOf([p] + parts) == [p.range] + RangesOf(parts)
  {
    assert ([p] + parts)[1..] == parts;
  }

  /** Good parts after a good one, if none of them begins with a dash or the only one is a dash. */
  lemma PartsGood(p: Part, parts: seq<Part>)
    requires GoodPart(p) && GoodParts(parts)
    requires parts != [] && BeginsWith(parts[0].text, '-') ==> |parts| == 1 && parts[0].text == "-"
    ensures GoodParts([p] + parts)
  {
    var all := [p] + parts;
    forall i: nat
      ensures Fits(all, i)
    {
      if 0 < i < |all| {
        assert Fits(parts, i - 1) && all[i] == parts[i - 1];
      }
    }
  }

  lemma {:induction false} KeyPartsGood(cs: seq<Code>)
    requires Listable(cs) && OneDash(cs)
    ensures GoodParts(KeyParts(cs))
    ensures cs != [] ==> KeyParts(cs) != [] && KeyParts(cs)[0].text[..1] == [KeyChar(cs[0])]
    ensures |cs| == 1 ==> KeyParts(cs) == [KeyPart(cs[0])]
    decreases |cs|
  {
    if cs == [] {
      assert forall i: nat :: Fits(KeyParts(cs), i);
    } else {
      var n := if |cs| > 2 && cs[1] == DASH then 3 else 1;
      var rest := cs[n..];
      assert IsSetChar(cs[0]) && (n == 3 ==> IsSetChar(cs[2]));
      ListableRest(cs, n);
      assert forall i :: 0 <= i < |rest| ==> rest[i] == cs[i + n];
      KeyPartsGood(rest);
      RawChar(cs[0]);
      if n == 3 {
        RawChar(cs[2]);
        GoodSpan(cs[0], [KeyChar(cs[0])], cs[2], [KeyChar(cs[2])]);
        PartsGood(SpanPart(cs[0], cs[2]), KeyParts(rest));
      } else {
        GoodOne(cs[0], [KeyChar(cs[0])]);
        PartsGood(KeyPart(cs[0]), KeyParts(rest));
      }
    }
  }

  lemma WholeText(t: string)
    ensures TextAt(t, 0, t)
  {
    assert t[0..0 + |t|] == t;
  }

  /** The text of a set is that of the set in all places exactly when its character may stand in it. */
  lemma SingleWritten(c: Code)
    requires c < 256
    ensures IsItem(SingleSet(c)) <==> CanStand(c)
  {
    var t := TextOf(SingleSet(c));
    if CanStand(c) {
      var cs: seq<Code> := [c];
      KeyPartsText(cs);
      KeyPartsGood(cs);
      GoodSet(false, KeyParts(cs));
      assert Spanned(cs) == [One(c)];
    }
    if IsItem(SingleSet(c)) {
      WholeText(t);
      assert TermRead(Single(c), t, t, 0);
      SingleExact(t, 0, c);
    }
  }

  lemma OthersWritten(cs: seq<Code>)
    requires Increasing(cs) && forall c :: c in cs ==> c < 256
    ensures IsItem(OthersSet(cs)) <==> Listable(cs)
  {
    var t, all := TextOf(OthersSet(cs)), [QUOTE] + cs;
    ListableRest(all, 1);
    assert all[1..] == cs && Listable(all[..1]);
    if Listable(cs) {
      assert forall i :: 0 < i < |all| ==> all[i] == cs[i - 1];
      KeyPartsText(all);
      KeyPartsGood(all);
      GoodSet(true, KeyParts(all));
    }
    if IsItem(OthersSet(cs)) {
      WholeText(t);
      assert TermRead(Others(cs), t, t, 0);
      OthersExact(t, 0, cs);
    }
  }

  lemma UnitsWritten()
    ensures IsItem(UNITS_FROM_NONE) && IsItem(UNITS_FROM_ONE) && IsItem(Named(SPACE_NAME))
  {
    GoodSigns();
    assert IsItem(Named(CHAR_NAME));
  }

  /** The alternatives for these keys are well written, if there are any. */
  ghost predicate WellSpelled(keys: set<Text>) {
    Heads(keys) == {} || IsAlternates(Alternatives(keys))
  }

  lemma BranchWritten(keys: set<Text>, c: Code)
    requires c in Heads(keys) && c < 256
    ensures IsSequence(Branch(keys, c)) <==> CanStand(c) && WellSpelled(After(keys, c))
  {
    var after := After(keys, c);
    AfterShorter(keys, c);
    SingleWritten(c);
    UnitsWritten();
    if Heads(after) != {} {
      var x := Paren(false, Alternatives(after));
      assert Sorted(Heads(after)) != [];
      assert IsSequence(x) <==> IsItem(x);
    } else {
      assert IsSequence(UNITS_FROM_ONE);
    }
    assert IsSequence(SingleSet(c)) <==> IsItem(SingleSet(c));
  }

  lemma {:induction false} BranchesWritten(keys: set<Text>, cs: seq<Code>, n: nat)
    requires 0 < n <= |cs| && (forall c :: c in cs ==> c in Heads(keys) && c < 256)
    ensures IsAlternates(Branches(keys, cs, n)) <==>
            forall i :: 0 <= i < n ==> CanStand(cs[i]) && WellSpelled(After(keys, cs[i]))
    decreases n
  {
    var last := Branch(keys, cs[n - 1]);
    BranchWritten(keys, cs[n - 1]);
    if n > 1 {
      BranchesWritten(keys, cs, n - 1);
    } else {
      assert IsAlternates(last) <==> IsSequence(last);
    }
  }

  lemma OrWritten(left: Syntax, cs: seq<Code>)
    requires Increasing(cs) && forall c :: c in cs ==> c < 256
    ensures IsAlternates(Or(left, Seq(OthersSet(cs), UNITS_FROM_NONE))) <==>
            IsAlternates(left) && Listable(cs)
  {
    OthersWritten(cs);
    UnitsWritten();
    assert IsSequence(UNITS_FROM_NONE);
    assert IsSequence(OthersSet(cs)) <==> IsItem(OthersSet(cs));
    assert IsSequence(Seq(OthersSet(cs), UNITS_FROM_NONE)) <==> IsSequence(OthersSet(cs));
  }

  /** At one place the alternatives are well written when its sets are, and what follows them. */
  lemma WellSpelledStep(keys: set<Text>)
    requires AllBytes(keys)
    ensures WellSpelled(keys) <==>
            Heads(keys) == {} || (HeadsFine(keys) && forall c :: c in Heads(keys) ==> WellSpelled(After(keys, c)))
  {
    var cs := Sorted(Heads(keys));
    if Heads(keys) != {} {
      var c :| c in Heads(keys);
      assert c in cs;
      BytesAfter(keys, c);
      BranchesWritten(keys, cs, |cs|);
      OrWritten(Branches(keys, cs, |cs|), cs);
      assert forall d :: d in Heads(keys) <==> d in cs;
    }
  }

  lemma NoHeadsFine(keys: set<Text>)
    requires Heads(keys) == {}
    ensures HeadsFine(keys)
  {
    assert Sorted(Heads(keys)) == [];
  }

  /** The alternatives are well written exactly when the listed keys can be written. */
  lemma {:induction false} AlternativesWritten(keys: set<Text>)
    requires AllBytes(keys)
    ensures WellSpelled(keys) <==> Spellable(keys)
    decreases Longest(keys)
  {
    SpellableStep(keys);
    WellSpelledStep(keys);
    forall c | c in Heads(keys)
      ensures WellSpelled(After(keys, c)) <==> Spellable(After(keys, c))
    {
      AfterShorter(keys, c);
      BytesAfter(keys, c);
      AlternativesWritten(After(keys, c));
    }
    if Heads(keys) == {} {
      NoHeadsFine(keys);
    }
  }

  /** The whole text is well written exactly when the listed keys can be written. */
  lemma NotStringsWritten(keys: set<Text>)
    requires AllBytes(keys)
    ensures IsAlternates(NotStrings(keys)) <==> Spellable(keys)
  {
    AlternativesWritten(keys);
    SingleWritten(QUOTE);
    UnitsWritten();
    GoodSigns();
    BodyWritten(keys);
    assert IsSequence(SingleSet(QUOTE)) && IsSequence(Named(SPACE_NAME)) &&
           IsSequence(Seq(SingleSet(QUOTE), Named(SPACE_NAME)));
    var rest := Seq(KeyBody(keys), Seq(SingleSet(QUOTE), Named(SPACE_NAME)));
    assert IsSequence(rest) <==> IsSequence(KeyBody(keys));
    assert IsSequence(NotStrings(keys)) <==> IsSequence(rest);
  }

  lemma BodyWritten(keys: set<Text>)
    ensures IsSequence(KeyBody(keys)) <==> WellSpelled(keys)
  {
    ParenWritten(Alternatives(keys));
    AlternativesNone(keys);
  }

  lemma AlternativesNone(keys: set<Text>)
    ensures Alternatives(keys).Nothing? <==> Heads(keys) == {}
  {
    var cs := Sorted(Heads(keys));
    if c :| c in Heads(keys) {
      assert c in cs;
    }
    if cs != [] {
      assert cs[0] in Heads(keys);
    }
  }

  lemma ParenWritten(x: Syntax)
    ensures IsSequence(Paren(true, x)) <==> x.Nothing? || IsAlternates(x)
    ensures IsSequence(Marked(Paren(true, x), Bounds(0, Some(1)), "?")) <==> x.Nothing? || IsAlternates(x)
  {
    var body, bounds := Paren(true, x), Bounds(0, Some(1));
    GoodSigns();
    assert IsSequence(body) <==> IsItem(body);
    assert IsSequence(Marked(body, bounds, "?")) <==> IsItem(Marked(body, bounds, "?"));
  }
}
