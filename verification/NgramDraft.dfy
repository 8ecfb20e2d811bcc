/** Drafting tokens from n-gram caches. */
module NgramDraft {
  import opened NgramCounts
  import opened NgramCache

  // ---------------------------------------------------------------------------------------------
  // Sums of counts

  ghost function Sum(part: Part): int
    decreases |part|
  {
    if part == map[] then 0
    else
      NotEmpty(part);
      var t :| t in part;
      Smaller(part, t);
      part[t] + Sum(part - {t})
  }

  lemma Smaller(part: Part, t: Token)
    requires t in part
    ensures |part - {t}| < |part|
  {
    assert (part - {t}).Keys == part.Keys - {t};
    assert |part.Keys| == |part| && |(part - {t}).Keys| == |part - {t}|;
  }

  /** Any token may be taken out of the sum first. */
  lemma {:induction false} SumOut(part: Part, t: Token)
    requires t in part
    ensures Sum(part) == part[t] + Sum(part - {t})
    decreases |part|
  {
    NotEmpty(part);
    var u :| u in part && Sum(part) == part[u] + Sum(part - {u});
    if u != t {
      Smaller(part, u);
      Smaller(part, t);
      SumOut(part - {u}, t);
      SumOut(part - {t}, u);
      assert part - {u} - {t} == part - {t} - {u};
    }
  }

  lemma SumPut(part: Part, t: Token, count: int)
    requires t !in part
    ensures Sum(part[t := count]) == Sum(part) + count
  {
    SumOut(part[t := count], t);
    assert part[t := count] - {t} == part;
  }

  // ---------------------------------------------------------------------------------------------
  // When a token may be drafted

  /**
    The least number of samples and the least percentage, by the place of the n-gram in the list of
    those looked up.
   */
  datatype Thresholds = Thresholds(minSamples: seq<int>, minPercents: seq<int>)

  const LAX := Thresholds([2, 2, 1, 1], [66, 50, 50, 50])
  const STRICT := Thresholds([4, 3, 2, 2], [75, 66, 66, 66])

  /** How much the static cache supports a token. */
  function Weight(part: Part, t: Token): int {
    if t in part then 100 * part[t] else 1
  }

  function Score(part: Part, support: Part, t: Token): int
    requires t in part
  {
    part[t] * Weight(support, t)
  }

  /** No token of the part scores higher. */
  predicate Top(part: Part, support: Part, t: Token) {
    t in part && forall u :: u in part ==> Score(part, support, u) <= Score(part, support, t)
  }

  /** There are enough samples, and enough of them are of this token. */
  ghost predicate Sufficient(part: Part, t: Token, minSample: int, minPercent: int)
    requires t in part
  {
    Sum(part) >= minSample && 100 * part[t] >= minPercent * Sum(part)
  }

  ghost predicate Accepts(part: Part, support: Part, t: Token, minSample: int, minPercent: int) {
    Top(part, support, t) && Sufficient(part, t, minSample, minPercent)
  }

  /** Some token that scores highest is not sufficient; or there is none. */
  ghost predicate Declines(part: Part, support: Part, minSample: int, minPercent: int) {
    part == map[] || exists t :: Top(part, support, t) && !Sufficient(part, t, minSample, minPercent)
  }

  function PartOf(parts: Parts, g: Ngram): Part {
    if g in parts then parts[g] else map[]
  }

  // ---------------------------------------------------------------------------------------------
  // Looking up one n-gram

  /** The best token among those of `part` that are not left, and what they sum up to. */
  ghost predicate BestSoFar(part: Part, support: Part, left: set<Token>, best: Token, sum: int) {
    && left <= part.Keys
    && sum == Sum(part - left)
    && (if best == NO_TOKEN then left == part.Keys
        else best in part && forall u :: u in part && u !in left ==>
          Score(part, support, u) <= Score(part, support, best))
  }

  lemma BestMore(part: Part, support: Part, left: set<Token>, best: Token, sum: int, t: Token, better: Token)
    requires BestSoFar(part, support, left, best, sum) && t in left && t >= 0
    requires better == if best == NO_TOKEN || Score(part, support, best) < Score(part, support, t) then t else best
    ensures BestSoFar(part, support, left - {t}, better, sum + part[t])
  {
    assert part - (left - {t}) == (part - left)[t := part[t]];
    SumPut(part - left, t, part[t]);
  }

  lemma BestAtLast(part: Part, support: Part, best: Token, sum: int)
    requires BestSoFar(part, support, {}, best, sum)
    ensures sum == Sum(part) && (best == NO_TOKEN <==> part == map[]) && (best != NO_TOKEN ==> Top(part, support, best))
  {
    assert part - {} == part;
    assert part.Keys == {} ==> part == map[];
  }

  predicate PositiveCounts(part: Part) {
    forall t :: t in part ==> t >= 0 && part[t] > 0
  }

  lemma WeightPositive(support: Part, t: Token)
    requires PositiveCounts(support)
    ensures Weight(support, t) >= 1
  {
  }

  lemma ScorePositive(part: Part, support: Part, t: Token)
    requires PositiveCounts(part) && PositiveCounts(support) && t in part
    ensures Score(part, support, t) > 0
  {
    WeightPositive(support, t);
    assert part[t] * Weight(support, t) >= 1 * 1;
  }

  /** The highest count times weight among the tokens of a part, which come in any order. */
  method BestToken(part: Part, support: Part) returns (best: Token, count: int, sum: int)
    requires PositiveCounts(part) && PositiveCounts(support)
    ensures sum == Sum(part)
    ensures if part == map[] then best == NO_TOKEN && count == 0 else Top(part, support, best) && count == part[best]
  {
    var maxCount, maxWeight := 0, 0;
    best, sum := NO_TOKEN, 0;
    var left := part.Keys;
    assert part - left == map[];
    while left != {}
      invariant BestSoFar(part, support, left, best, sum)
      invariant IsBest(part, support, best, maxCount, maxWeight)
      decreases |left|
    {
      Inhabited(left);
      var t :| t in left;
      var weight := Weight(support, t);
      ghost var last := best;
      if Better(part, support, best, maxCount, maxWeight, t) {
        best, maxCount, maxWeight := t, part[t], weight;
      }
      BestMore(part, support, left, last, sum, t, best);
      sum := sum + part[t];
      left := left - {t};
    }
    BestAtLast(part, support, best, sum);
    count := maxCount;
  }

  /** The count and the weight of the best token, or nothing yet. */
  predicate IsBest(part: Part, support: Part, best: Token, maxCount: int, maxWeight: int) {
    if best == NO_TOKEN then maxCount == 0 && maxWeight == 0
    else best in part && maxCount == part[best] && maxWeight == Weight(support, best)
  }

  predicate Better(part: Part, support: Part, best: Token, maxCount: int, maxWeight: int, t: Token): (better: bool)
    requires PositiveCounts(part) && PositiveCounts(support) && t in part
    requires IsBest(part, support, best, maxCount, maxWeight)
    ensures better <==> best == NO_TOKEN || Score(part, support, best) < Score(part, support, t)
  {
    ScorePositive(part, support, t);
    part[t] * Weight(support, t) > maxCount * maxWeight
  }

  /** Caches of tokens that are not negative. */
  predicate Positive(parts: Parts) {
    forall g :: g in parts ==> PositiveCounts(parts[g])
  }

  /** Whether the static cache alone lets a token be drafted. */
  method TryDraftStatic(nc: Parts, ngram: Ngram) returns (token: Token)
    requires Positive(nc)
    ensures var samples, percent := LAX.minSamples[STATIC_SIZE - 1], LAX.minPercents[STATIC_SIZE - 1];
            if token == NO_TOKEN then Declines(PartOf(nc, ngram), map[], samples, percent)
            else Accepts(PartOf(nc, ngram), map[], token, samples, percent)
  {
    if ngram !in nc {
      return NO_TOKEN;
    }
    var best, count, sum := BestToken(nc[ngram], map[]);
    if sum < LAX.minSamples[STATIC_SIZE - 1] {
      return NO_TOKEN;
    }
    if 100 * count < LAX.minPercents[STATIC_SIZE - 1] * sum {
      return NO_TOKEN;
    }
    return best;
  }

  /** The n-gram at place `i` yields the token, and those after it, which are longer, yield none. */
  ghost predicate Yields(nc: Parts, ngrams: seq<Ngram>, support: Part, th: Thresholds, i: nat, token: Token)
    requires |ngrams| <= |th.minSamples| && |ngrams| <= |th.minPercents|
  {
    && i < |ngrams|
    && Accepts(PartOf(nc, ngrams[i]), support, token, th.minSamples[i], th.minPercents[i])
    && YieldsNone(nc, ngrams, support, th, i + 1)
  }

  /** None of the n-grams from place `from` on yields a token. */
  ghost predicate YieldsNone(nc: Parts, ngrams: seq<Ngram>, support: Part, th: Thresholds, from: nat)
    requires |ngrams| <= |th.minSamples| && |ngrams| <= |th.minPercents|
  {
    forall i :: from <= i < |ngrams| ==> Declines(PartOf(nc, ngrams[i]), support, th.minSamples[i], th.minPercents[i])
  }

  /** Looks the n-grams up from the longest on, and drafts the first token for which there is enough support. */
  method TryDraft(nc: Parts, ngrams: seq<Ngram>, support: Part, th: Thresholds) returns (token: Token)
    requires Positive(nc) && PositiveCounts(support)
    requires |ngrams| <= |th.minSamples| && |ngrams| <= |th.minPercents|
    ensures if token == NO_TOKEN then YieldsNone(nc, ngrams, support, th, 0)
            else token >= 0 && exists i: nat :: Yields(nc, ngrams, support, th, i, token)
  {
    token := NO_TOKEN;
    var i := |ngrams| - 1;
    while i >= 0 && token == NO_TOKEN
      invariant -1 <= i < |ngrams|
      invariant token == NO_TOKEN ==> YieldsNone(nc, ngrams, support, th, i + 1)
      invariant token != NO_TOKEN ==> token >= 0 && exists j: nat :: Yields(nc, ngrams, support, th, j, token)
    {
      if ngrams[i] in nc {
        var best, count, sum := BestToken(nc[ngrams[i]], support);
        if sum >= th.minSamples[i] && 100 * count >= th.minPercents[i] * sum && best != NO_TOKEN {
          token := best;
          assert Yields(nc, ngrams, support, th, i, token);
        }
      }
      i := i - 1;
    }
  }

  // ---------------------------------------------------------------------------------------------
  // Drafting

  function Suffix(s: seq<Token>, size: nat): seq<Token>
    requires size <= |s|
  {
    s[|s| - size..]
  }

  /** The n-grams at the end of the tokens, of sizes from `min` to `max`. */
  function Suffixes(s: seq<Token>, min: nat, max: int): (r: seq<Ngram>)
    requires max <= |s|
    ensures |r| == if min <= max then max - min + 1 else 0
    ensures forall i :: 0 <= i < |r| ==> r[i] == Padded(Suffix(s, min + i))
    decreases max - min
  {
    if max < min then [] else Suffixes(s, min, max - 1) + [Padded(Suffix(s, max))]
  }

  /** The three caches. */
  datatype Caches = Caches(context: Parts, dynamic_: Parts, static_: Parts)

  ghost predicate AllPositive(c: Caches) {
    Positive(c.context) && Positive(c.dynamic_) && Positive(c.static_)
  }

  function Support(c: Caches, s: seq<Token>): Part
    requires |s| >= STATIC_SIZE
  {
    PartOf(c.static_, Padded(Suffix(s, STATIC_SIZE)))
  }

  ghost predicate StaticDeclines(c: Caches, s: seq<Token>)
    requires |s| >= STATIC_SIZE
  {
    Declines(Support(c, s), map[], LAX.minSamples[STATIC_SIZE - 1], LAX.minPercents[STATIC_SIZE - 1])
  }

  /**
    After the tokens `s` the caches let `t` be drafted: the context cache, else the dynamic one, else
    the static one.
   */
  ghost predicate Justified(c: Caches, s: seq<Token>, min: nat, max: nat, t: Token)
    requires STATIC_SIZE <= |s| && max <= |s| && 1 <= min && max <= MAX_SIZE
  {
    var ngrams, support := Suffixes(s, min, max), Support(c, s);
    || (exists i: nat :: Yields(c.context, ngrams, support, LAX, i, t))
    || (&& YieldsNone(c.context, ngrams, support, LAX, 0)
        && exists i: nat :: Yields(c.dynamic_, ngrams, support, STRICT, i, t))
    || (&& YieldsNone(c.context, ngrams, support, LAX, 0)
        && YieldsNone(c.dynamic_, ngrams, support, STRICT, 0)
        && Accepts(support, map[], t, LAX.minSamples[STATIC_SIZE - 1], LAX.minPercents[STATIC_SIZE - 1]))
  }

  /** After the tokens `s` none of the caches lets a token be drafted. */
  ghost predicate Stuck(c: Caches, s: seq<Token>, min: nat, max: nat)
    requires STATIC_SIZE <= |s| && max <= |s| && 1 <= min && max <= MAX_SIZE
  {
    && YieldsNone(c.context, Suffixes(s, min, max), Support(c, s), LAX, 0)
    && YieldsNone(c.dynamic_, Suffixes(s, min, max), Support(c, s), STRICT, 0)
    && StaticDeclines(c, s)
  }

  /** The input followed by what has been drafted after the first, already sampled, token. */
  function Combined(inp: seq<Token>, draft: seq<Token>): seq<Token>
    requires draft != []
  {
    inp + draft[1..]
  }

  function GetToken(inp: seq<Token>, draft: seq<Token>, i: nat): (t: Token)
    requires draft != [] && i < |inp| + |draft| - 1
    ensures t == Combined(inp, draft)[i]
  {
    if i < |inp| then inp[i] else draft[1 + i - |inp|]
  }

  /** The n-gram at the end of the input and the draft. */
  method LastNgram(inp: seq<Token>, draft: seq<Token>, size: nat) returns (g: Ngram)
    requires draft != [] && size <= |inp| && size <= MAX_SIZE
    ensures g == Padded(Suffix(Combined(inp, draft), size))
  {
    var tokens: seq<Token> := [NO_TOKEN, NO_TOKEN, NO_TOKEN, NO_TOKEN];
    var start := |inp| - size + |draft| - 1;
    var j := start;
    while j < start + size
      invariant start <= j <= start + size && |tokens| == MAX_SIZE
      invariant forall i :: 0 <= i < MAX_SIZE ==>
                tokens[i] == if i < j - start then Combined(inp, draft)[start + i] else NO_TOKEN
    {
      tokens := tokens[j - start := GetToken(inp, draft, j)];
      j := j + 1;
    }
    g := tokens;
  }

  method LastNgrams(inp: seq<Token>, draft: seq<Token>, min: nat, max: nat) returns (ngrams: seq<Ngram>)
    requires draft != [] && max <= |inp| && max <= MAX_SIZE
    ensures ngrams == Suffixes(Combined(inp, draft), min, max)
  {
    ngrams := [];
    var size := min;
    while size <= max
      invariant min <= size && |ngrams| == size - min && (size <= max + 1 || size == min)
      invariant forall i :: 0 <= i < |ngrams| ==> ngrams[i] == Padded(Suffix(Combined(inp, draft), min + i))
    {
      var g := LastNgram(inp, draft, size);
      ngrams := ngrams + [g];
      size := size + 1;
    }
  }

  /** The next token, if one may be drafted after the input and the draft. */
  method NextToken(c: Caches, inp: seq<Token>, draft: seq<Token>, min: nat, max: nat) returns (token: Token)
    requires AllPositive(c) && draft != [] && STATIC_SIZE <= |inp| && max <= |inp| && 1 <= min && max <= MAX_SIZE
    ensures if token == NO_TOKEN then Stuck(c, Combined(inp, draft), min, max)
            else Justified(c, Combined(inp, draft), min, max, token)
  {
    var ngramStatic := LastNgram(inp, draft, STATIC_SIZE);
    var support: Part := PartOf(c.static_, ngramStatic);
    var ngrams := LastNgrams(inp, draft, min, max);
    token := TryDraft(c.context, ngrams, support, LAX);
    if token == NO_TOKEN {
      token := TryDraft(c.dynamic_, ngrams, support, STRICT);
    }
    if token == NO_TOKEN {
      token := TryDraftStatic(c.static_, ngramStatic);
    }
  }

  /** Every token after the first is justified by the input and the tokens before it. */
  ghost predicate AllJustified(c: Caches, inp: seq<Token>, draft: seq<Token>, min: nat, max: nat)
    requires STATIC_SIZE <= |inp| && max <= |inp| && 1 <= min && max <= MAX_SIZE
  {
    forall j :: 1 <= j < |draft| ==> Justified(c, inp + draft[1..j], min, max, draft[j])
  }

  /**
    Adds up to `nDraft` tokens to the one already sampled. It stops when there are enough, or when
    after the last one no token may be drafted.
   */
  method Draft(inp: seq<Token>, sampled: Token, nDraft: int, min: nat, max: nat, c: Caches) returns (draft: seq<Token>)
    requires AllPositive(c) && 1 <= min && max <= MAX_SIZE && (STATIC_SIZE <= |inp| ==> max <= |inp|)
    ensures draft != [] && draft[0] == sampled
    ensures |draft| == 1 || |draft| - 1 <= nDraft
    ensures |inp| < STATIC_SIZE ==> draft == [sampled]
    ensures STATIC_SIZE <= |inp| ==> AllJustified(c, inp, draft, min, max)
    ensures STATIC_SIZE <= |inp| ==> |draft| - 1 >= nDraft || Stuck(c, inp + draft[1..], min, max)
  {
    draft := [sampled];
    if |inp| < STATIC_SIZE {
      return;
    }
    while |draft| - 1 < nDraft
      invariant draft != [] && draft[0] == sampled && (|draft| == 1 || |draft| - 1 <= nDraft)
      invariant AllJustified(c, inp, draft, min, max)
      decreases nDraft - |draft|
    {
      var token := NextToken(c, inp, draft, min, max);
      if token == NO_TOKEN {
        break;
      }
      ghost var before := draft;
      draft := draft + [token];
      assert draft[1..|before|] == before[1..];
      assert forall j :: 1 <= j < |before| ==> draft[1..j] == before[1..j];
    }
  }

  // ---------------------------------------------------------------------------------------------
  // What a drafted token has behind it

  /** The positions below `hi` where something follows `h`. */
  function Occurrences(inp: seq<Token>, h: seq<Token>, hi: nat): set<nat> {
    set i: nat | i < hi && Occurs(inp, h, i)
  }

  predicate Occurs(inp: seq<Token>, h: seq<Token>, i: nat) {
    |h| <= i < |inp| && inp[i - |h|..i] == h
  }

  /** How often each token follows `h` below position `hi`. */
  function FollowersBelow(inp: seq<Token>, h: seq<Token>, hi: nat): Part {
    map t | t in inp && |Places(inp, h, t, hi)| > 0 :: |Places(inp, h, t, hi)|
  }

  lemma PlacesMore(inp: seq<Token>, h: seq<Token>, t: Token, i: nat)
    requires i < |inp|
    ensures |Places(inp, h, t, i + 1)| == |Places(inp, h, t, i)| + if Occurs(inp, h, i) && t == inp[i] then 1 else 0
  {
    MorePlaces(inp, h, t, i);
  }

  lemma FollowersMore(inp: seq<Token>, h: seq<Token>, i: nat, part: Part, t: Token)
    requires i < |inp| && t == inp[i] && part == FollowersBelow(inp, h, i)
    ensures FollowersBelow(inp, h, i + 1) == if Occurs(inp, h, i) then part[t := InPart(part, t) + 1] else part
  {
    var after := FollowersBelow(inp, h, i + 1);
    var expected := if Occurs(inp, h, i) then part[t := InPart(part, t) + 1] else part;
    forall u
      ensures u in after <==> u in expected
      ensures u in after ==> after[u] == expected[u]
    {
      PlacesMore(inp, h, u, i);
    }
  }

  lemma OccurrencesMore(inp: seq<Token>, h: seq<Token>, i: nat)
    ensures |Occurrences(inp, h, i + 1)| == |Occurrences(inp, h, i)| + if Occurs(inp, h, i) then 1 else 0
  {
    var before, after := Occurrences(inp, h, i), Occurrences(inp, h, i + 1);
    var here: set<nat> := if Occurs(inp, h, i) then {i} else {};
    forall j: nat
      ensures j in after <==> j in before + here
    {
      assert j in after <==> j < i + 1 && Occurs(inp, h, j);
      assert j in before <==> j < i && Occurs(inp, h, j);
    }
    assert after == before + here && i !in before;
  }

  /** The counts of all the tokens that follow `h` sum up to the positions where something does. */
  lemma {:induction false} FollowersSum(inp: seq<Token>, h: seq<Token>, hi: nat)
    requires hi <= |inp|
    ensures Sum(FollowersBelow(inp, h, hi)) == |Occurrences(inp, h, hi)|
    decreases hi
  {
    if hi == 0 {
      NothingBelow(inp, h);
    } else {
      var i := hi - 1;
      var part := FollowersBelow(inp, h, i);
      FollowersSum(inp, h, i);
      FollowersMore(inp, h, i, part, inp[i]);
      OccurrencesMore(inp, h, i);
      SumChanged(part, inp[i], InPart(part, inp[i]) + 1);
    }
  }

  lemma NothingBelow(inp: seq<Token>, h: seq<Token>)
    ensures FollowersBelow(inp, h, 0) == map[] && Occurrences(inp, h, 0) == {}
  {
    assert forall t :: Places(inp, h, t, 0) == {};
  }

  lemma SumChanged(part: Part, t: Token, count: int)
    ensures Sum(part[t := count]) == Sum(part) - InPart(part, t) + count
  {
    if t in part {
      SumOut(part, t);
      SumOut(part[t := count], t);
      assert part[t := count] - {t} == part - {t};
    } else {
      SumPut(part, t, count);
    }
  }

  /** A cache that counts the whole input holds, for each n-gram, how often each token follows it. */
  lemma CountedPart(inp: seq<Token>, min: nat, max: int, parts: Parts, h: seq<Token>)
    requires Updated(map[], parts, inp, min, max, 0) && AreTokens(inp) && AreTokens(h) && min <= |h| <= max <= MAX_SIZE
    ensures PartOf(parts, Padded(h)) == FollowersBelow(inp, h, |inp|)
  {
    var part, followers := PartOf(parts, Padded(h)), FollowersBelow(inp, h, |inp|);
    forall t
      ensures t in part <==> t in followers
      ensures t in part ==> part[t] == followers[t]
    {
      TallyCounts(inp, h, t, min, max);
      assert Count(parts, Padded(h), t) == Followed(inp, h, t) == |Places(inp, h, t, |inp|)|;
      if Places(inp, h, t, |inp|) != {} {
        var i :| i in Places(inp, h, t, |inp|);
        assert inp[i] == t;
      }
    }
  }

  /**
    `h` has been followed by `t` as often, and by as much of what followed it, as the thresholds ask;
    and no token scores higher.
   */
  predicate Backed(inp: seq<Token>, h: seq<Token>, support: Part, t: Token, minSample: int, minPercent: int) {
    && Followed(inp, h, t) > 0
    && |Occurrences(inp, h, |inp|)| >= minSample
    && 100 * Followed(inp, h, t) >= minPercent * |Occurrences(inp, h, |inp|)|
    && forall u :: u in inp ==>
      Followed(inp, h, u) * (if u in support then 100 * support[u] else 1) <=
      Followed(inp, h, t) * (if t in support then 100 * support[t] else 1)
  }

  /**
    With a context cache that counts the whole input: a token drafted from it followed the last tokens,
    of one of the sizes looked up, in the input, as the thresholds ask; and for no longer ones one did.
   */
  lemma ContextBacked(inp: seq<Token>, s: seq<Token>, min: nat, max: nat, parts: Parts, support: Part, i: nat, t: Token)
    requires Updated(map[], parts, inp, min, max, 0) && AreTokens(inp) && AreTokens(s)
    requires 1 <= min && max <= |s| && max <= MAX_SIZE && PositiveCounts(support)
    requires Yields(parts, Suffixes(s, min, max), support, LAX, i, t)
    ensures i < 4 && Backed(inp, s[|s| - (min + i)..], support, t, [2, 2, 1, 1][i], [66, 50, 50, 50][i])
  {
    var h := Suffix(s, min + i);
    CountedPart(inp, min, max, parts, h);
    FollowersSum(inp, h, |inp|);
    AcceptedBacked(inp, h, PartOf(parts, Padded(h)), support, t, LAX.minSamples[i], LAX.minPercents[i]);
  }

  lemma AcceptedBacked(inp: seq<Token>, h: seq<Token>, part: Part, support: Part, t: Token, minSample: int,
                       minPercent: int)
    requires part == FollowersBelow(inp, h, |inp|) && Sum(part) == |Occurrences(inp, h, |inp|)|
    requires Accepts(part, support, t, minSample, minPercent) && PositiveCounts(support)
    ensures Backed(inp, h, support, t, minSample, minPercent)
  {
    assert forall u :: u in part ==> part[u] == |Places(inp, h, u, |inp|)| == Followed(inp, h, u);
    forall u | u in inp
      ensures Followed(inp, h, u) * Weight(support, u) <= Followed(inp, h, t) * Weight(support, t)
    {
      WeightPositive(support, t);
      if u in part {
        assert Score(part, support, u) <= Score(part, support, t);
      } else {
        assert |Places(inp, h, u, |inp|)| == 0;
        Nothing(Followed(inp, h, t), Weight(support, t), Weight(support, u));
      }
    }
  }

  lemma Nothing(a: nat, b: nat, c: int)
    ensures 0 * c <= a * b
  {
  }

  // ---------------------------------------------------------------------------------------------
  // The numbers of the thresholds

  /**
    After the tokens `h`, at most four, the cache has seen `t`: often enough, and often enough among what
    it has seen there; and no other token scores higher by its count and a hundred times its count in `support`.
   */
  ghost predicate LooksUp(parts: Parts, h: seq<Token>, support: Part, t: Token, minSample: int, minPercent: int)
    requires |h| <= 4
  {
    var g := h + seq(4 - |h|, _ => -1);
    && g in parts
    && t in parts[g]
    && Sum(parts[g]) >= minSample
    && 100 * parts[g][t] >= minPercent * Sum(parts[g])
    && forall u :: u in parts[g] ==>
      parts[g][u] * (if u in support then 100 * support[u] else 1) <=
      parts[g][t] * (if t in support then 100 * support[t] else 1)
  }

  /** The cache has not seen these tokens, or one that scores highest after them not often enough. */
  ghost predicate FindsNone(parts: Parts, h: seq<Token>, support: Part, minSample: int, minPercent: int)
    requires |h| <= 4
  {
    var g := h + seq(4 - |h|, _ => -1);
    g in parts && parts[g] != map[] ==> exists t :: TooLittle(parts[g], support, t, minSample, minPercent)
  }

  ghost predicate TooLittle(part: Part, support: Part, t: Token, minSample: int, minPercent: int) {
    ScoresTop(part, support, t) && (Sum(part) < minSample || 100 * part[t] < minPercent * Sum(part))
  }

  predicate ScoresTop(part: Part, support: Part, t: Token) {
    && t in part
    && forall u :: u in part ==>
      part[u] * (if u in support then 100 * support[u] else 1) <=
      part[t] * (if t in support then 100 * support[t] else 1)
  }

  /** For the last `min + i` tokens `t` is found, and for more of them none is. */
  ghost predicate FoundAt(parts: Parts, s: seq<Token>, min: nat, max: nat, support: Part, samples: seq<int>,
                          percents: seq<int>, i: nat, t: Token)
    requires max <= |s| && max <= 4 <= |samples| && 4 <= |percents| && 1 <= min
  {
    && min + i <= max
    && LooksUp(parts, s[|s| - (min + i)..], support, t, samples[i], percents[i])
    && NoneFrom(parts, s, min, max, support, samples, percents, i + 1)
  }

  ghost predicate NoneFrom(parts: Parts, s: seq<Token>, min: nat, max: nat, support: Part, samples: seq<int>,
                           percents: seq<int>, from: nat)
    requires max <= |s| && max <= 4 <= |samples| && 4 <= |percents| && 1 <= min
  {
    forall i: nat {:trigger samples[i]} :: from <= i && min + i <= max ==>
      FindsNone(parts, s[|s| - (min + i)..], support, samples[i], percents[i])
  }

  lemma FilledUp(h: seq<Token>)
    requires |h| <= 4
    ensures Padded(h) == h + seq(4 - |h|, _ => -1)
  {
  }

  lemma ScoresAlike(part: Part, support: Part, t: Token)
    ensures Top(part, support, t) <==> ScoresTop(part, support, t)
  {
    if Top(part, support, t) {
      assert forall u :: u in part ==> Score(part, support, u) <= Score(part, support, t);
    }
    if ScoresTop(part, support, t) {
      forall u | u in part
        ensures Score(part, support, u) == part[u] * (if u in support then 100 * support[u] else 1)
      {
      }
    }
  }

  lemma AcceptedLooksUp(parts: Parts, h: seq<Token>, support: Part, t: Token, minSample: int, minPercent: int)
    requires |h| <= 4 && Accepts(PartOf(parts, Padded(h)), support, t, minSample, minPercent)
    ensures LooksUp(parts, h, support, t, minSample, minPercent)
  {
    FilledUp(h);
    ScoresAlike(PartOf(parts, Padded(h)), support, t);
  }

  lemma DeclinedFindsNone(parts: Parts, h: seq<Token>, support: Part, minSample: int, minPercent: int)
    requires |h| <= 4 && Declines(PartOf(parts, Padded(h)), support, minSample, minPercent)
    ensures FindsNone(parts, h, support, minSample, minPercent)
  {
    FilledUp(h);
    var part := PartOf(parts, Padded(h));
    if part != map[] {
      var t :| Top(part, support, t) && !Sufficient(part, t, minSample, minPercent);
      ScoresAlike(part, support, t);
      assert TooLittle(part, support, t, minSample, minPercent);
    }
  }

  lemma YieldsFound(parts: Parts, s: seq<Token>, min: nat, max: nat, support: Part, th: Thresholds, i: nat, t: Token)
    requires max <= |s| && 1 <= min && max <= 4 == |th.minSamples| == |th.minPercents|
    requires Yields(parts, Suffixes(s, min, max), support, th, i, t)
    ensures FoundAt(parts, s, min, max, support, th.minSamples, th.minPercents, i, t)
  {
    AcceptedLooksUp(parts, Suffix(s, min + i), support, t, th.minSamples[i], th.minPercents[i]);
    NoneYieldsNone(parts, s, min, max, support, th, i + 1);
  }

  lemma NoneYieldsNone(parts: Parts, s: seq<Token>, min: nat, max: nat, support: Part, th: Thresholds, from: nat)
    requires max <= |s| && 1 <= min && max <= 4 == |th.minSamples| == |th.minPercents|
    requires YieldsNone(parts, Suffixes(s, min, max), support, th, from)
    ensures NoneFrom(parts, s, min, max, support, th.minSamples, th.minPercents, from)
  {
    forall i: nat | from <= i && min + i <= max
      ensures FindsNone(parts, s[|s| - (min + i)..], support, th.minSamples[i], th.minPercents[i])
    {
      DeclinedFindsNone(parts, Suffix(s, min + i), support, th.minSamples[i], th.minPercents[i]);
    }
  }

  /** The part of the static cache for the last two tokens. */
  function LastTwo(c: Caches, s: seq<Token>): Part
    requires |s| >= 2
  {
    var g: Ngram := [s[|s| - 2], s[|s| - 1], -1, -1];
    if g in c.static_ then c.static_[g] else map[]
  }

  lemma LastTwoSupport(c: Caches, s: seq<Token>)
    requires |s| >= 2
    ensures Support(c, s) == LastTwo(c, s)
  {
    var h := Suffix(s, 2);
    assert h == [s[|s| - 2], s[|s| - 1]];
    assert Padded(h) == [s[|s| - 2], s[|s| - 1], -1, -1];
  }

  /**
    What is drafted comes from the context cache, if nothing is found there from the dynamic one, and if
    nothing is found there either from the static one, by these numbers.
   */
  lemma DraftedFrom(c: Caches, s: seq<Token>, min: nat, max: nat, t: Token)
    requires STATIC_SIZE <= |s| && max <= |s| && 1 <= min && max <= MAX_SIZE && Justified(c, s, min, max, t)
    ensures var support := LastTwo(c, s);
            || (exists i :: FoundAt(c.context, s, min, max, support, [2, 2, 1, 1], [66, 50, 50, 50], i, t))
            || (&& NoneFrom(c.context, s, min, max, support, [2, 2, 1, 1], [66, 50, 50, 50], 0)
                && (|| (exists i :: FoundAt(c.dynamic_, s, min, max, support, [4, 3, 2, 2], [75, 66, 66, 66], i, t))
                    || (&& NoneFrom(c.dynamic_, s, min, max, support, [4, 3, 2, 2], [75, 66, 66, 66], 0)
                        && LooksUp(c.static_, s[|s| - 2..], map[], t, 2, 50))))
  {
    var ngrams, support := Suffixes(s, min, max), Support(c, s);
    LastTwoSupport(c, s);
    if i: nat :| Yields(c.context, ngrams, support, LAX, i, t) {
      YieldsFound(c.context, s, min, max, support, LAX, i, t);
    } else {
      NoneYieldsNone(c.context, s, min, max, support, LAX, 0);
      if i: nat :| Yields(c.dynamic_, ngrams, support, STRICT, i, t) {
        YieldsFound(c.dynamic_, s, min, max, support, STRICT, i, t);
      } else {
        NoneYieldsNone(c.dynamic_, s, min, max, support, STRICT, 0);
        AcceptedLooksUp(c.static_, Suffix(s, 2), map[], t, 2, 50);
      }
    }
  }
}
