/** The cache of how often tokens follow n-grams: updating and merging. */
module NgramCache {
  import opened NgramCounts

  /** A token and the number of times it has been seen. */
  type Part = map<Token, int>
  type Parts = map<Ngram, Part>

  function Count(parts: Parts, g: Ngram, t: Token): int {
    if g in parts && t in parts[g] then parts[g][t] else 0
  }

  /** No part is empty and every count is positive. */
  predicate Proper(parts: Parts) {
    forall g :: g in parts ==> ProperPart(parts[g])
  }

  predicate ProperPart(part: Part) {
    part != map[] && forall t :: t in part ==> part[t] > 0
  }

  /** Proper caches that count the same are the same. */
  lemma SameCounts(a: Parts, b: Parts)
    requires Proper(a) && Proper(b) && forall g, t :: Count(a, g, t) == Count(b, g, t)
    ensures a == b
  {
    SameKeys(a, b);
    SameKeys(b, a);
    assert a.Keys == b.Keys;
    forall g | g in a
      ensures a[g] == b[g]
    {
      forall t
        ensures t in a[g] <==> t in b[g]
        ensures t in a[g] ==> a[g][t] == b[g][t]
      {
        assert Count(a, g, t) == Count(b, g, t);
      }
    }
  }

  lemma Inhabited(tokens: set<Token>)
    requires tokens != {}
    ensures exists t :: t in tokens
  {
    assert (forall t :: t !in tokens) ==> tokens == {};
  }

  lemma NotEmpty(part: Part)
    requires part != map[]
    ensures exists t :: t in part
  {
    assert (forall t :: t !in part) ==> part == map[];
  }

  lemma SameKeys(a: Parts, b: Parts)
    requires Proper(a) && Proper(b) && forall g, t :: Count(a, g, t) == Count(b, g, t)
    ensures forall g :: g in a ==> g in b
  {
    forall g | g in a
      ensures g in b
    {
      NotEmpty(a[g]);
      var t :| t in a[g];
      assert Count(a, g, t) == Count(b, g, t);
    }
  }

  // ---------------------------------------------------------------------------------------------
  // One occurrence more

  function Bump(parts: Parts, g: Ngram, t: Token): Parts {
    parts[g := (if g in parts then parts[g] else map[])[t := Count(parts, g, t) + 1]]
  }

  lemma BumpCounts(parts: Parts, g: Ngram, t: Token)
    requires Proper(parts)
    ensures Proper(Bump(parts, g, t))
    ensures forall h, u :: Count(Bump(parts, g, t), h, u) == Count(parts, h, u) + if h == g && u == t then 1 else 0
  {
    var after := Bump(parts, g, t);
    var part := after[g];
    assert t in part && part[t] > 0;
    forall h | h in after
      ensures ProperPart(after[h])
    {
      assert h != g ==> after[h] == parts[h];
    }
    forall h, u
      ensures Count(after, h, u) == Count(parts, h, u) + if h == g && u == t then 1 else 0
    {
      assert h != g ==> (h in after <==> h in parts);
    }
  }

  /**
    `after` counts what `before` does and the tokens from position `lo` on of the n-grams of sizes below
    `size`, and those of size `size` up to position `i`.
   */
  ghost predicate Counted(before: Parts, after: Parts, inp: seq<Token>, min: nat, lo: int, size: nat, i: nat) {
    && Proper(after)
    && forall g, t :: Count(after, g, t) ==
         Count(before, g, t) + Tally(inp, g, t, min, size - 1, lo, |inp|) + Hits(inp, g, t, size, lo, i)
  }

  /** `after` counts what `before` does and the tokens of `inp` from position `lo` on. */
  ghost predicate Updated(before: Parts, after: Parts, inp: seq<Token>, min: nat, max: int, lo: int) {
    && Proper(after)
    && forall g, t :: Count(after, g, t) == Count(before, g, t) + Tally(inp, g, t, min, max, lo, |inp|)
  }

  lemma CountedStart(before: Parts, after: Parts, inp: seq<Token>, min: nat, lo: int, size: nat)
    requires Updated(before, after, inp, min, size - 1, lo)
    ensures var start := if lo < size then size else lo;
            start <= |inp| ==> Counted(before, after, inp, min, lo, size, start)
    ensures (if lo < size then size else lo) >= |inp| ==> Counted(before, after, inp, min, lo, size, |inp|)
  {
    var start := if lo < size then size else lo;
    forall g, t
      ensures start <= |inp| ==> Hits(inp, g, t, size, lo, start) == 0
      ensures start >= |inp| ==> Hits(inp, g, t, size, lo, |inp|) == 0
    {
      HitsFrom(inp, g, t, size, lo, |inp|);
      if start <= |inp| {
        HitsFrom(inp, g, t, size, lo, start);
      }
    }
  }

  lemma CountedMore(before: Parts, after: Parts, inp: seq<Token>, min: nat, lo: int, size: nat, i: nat)
    requires Counted(before, after, inp, min, lo, size, i) && lo <= i && size <= i < |inp|
    ensures Counted(before, Bump(after, Padded(inp[i - size..i]), inp[i]), inp, min, lo, size, i + 1)
  {
    BumpCounts(after, Padded(inp[i - size..i]), inp[i]);
  }

  lemma CountedEnd(before: Parts, after: Parts, inp: seq<Token>, min: nat, lo: int, size: nat)
    requires Counted(before, after, inp, min, lo, size, |inp|) && min <= size
    ensures Updated(before, after, inp, min, size, lo)
  {
  }

  class Cache {
    var parts: Parts

    constructor ()
      ensures parts == map[]
    {
      parts := map[];
    }

    method AddOne(ngram: Ngram, token: Token)
      modifies this
      ensures parts == Bump(old(parts), ngram, token)
    {
      if ngram !in parts {
        var part: Part := map[token := 1];
        parts := parts[ngram := part];
      } else if token !in parts[ngram] {
        parts := parts[ngram := parts[ngram][token := 1]];
      } else {
        parts := parts[ngram := parts[ngram][token := parts[ngram][token] + 1]];
      }
    }

    /** Counts the last `nnew` tokens of the input, each after the n-grams of sizes from `ngramMin` to `ngramMax`. */
    method Update(ngramMin: nat, ngramMax: int, inp: seq<Token>, nnew: int)
      requires Proper(parts)
      modifies this
      ensures Updated(old(parts), parts, inp, ngramMin, ngramMax, |inp| - nnew)
    {
      ghost var before := parts;
      ghost var lo := |inp| - nnew;
      var size: nat := ngramMin;
      while size <= ngramMax
        invariant ngramMin <= size && (size <= ngramMax + 1 || size == ngramMin)
        invariant Updated(before, parts, inp, ngramMin, size - 1, lo)
        decreases ngramMax - size
      {
        CountNgrams(ngramMin, size, inp, nnew, before);
        size := size + 1;
      }
      TallyNone(before, parts, inp, ngramMin, size - 1, ngramMax, lo);
    }

    method CountNgrams(ghost ngramMin: nat, size: nat, inp: seq<Token>, nnew: int, ghost before: Parts)
      requires ngramMin <= size && Updated(before, parts, inp, ngramMin, size - 1, |inp| - nnew)
      modifies this
      ensures Updated(before, parts, inp, ngramMin, size, |inp| - nnew)
    {
      ghost var lo := |inp| - nnew;
      var i := if |inp| - nnew < size then size else |inp| - nnew;
      CountedStart(before, parts, inp, ngramMin, lo, size);
      ghost var start := i;
      while i < |inp|
        invariant lo <= i && size <= i && (i <= |inp| || i == start)
        invariant Counted(before, parts, inp, ngramMin, lo, size, if i < |inp| then i else |inp|)
      {
        var ngram := MakeNgram(inp[i - size..], size);
        assert inp[i - size..][..size] == inp[i - size..i];
        CountedMore(before, parts, inp, ngramMin, lo, size, i);
        AddOne(ngram, inp[i]);
        i := i + 1;
      }
      CountedEnd(before, parts, inp, ngramMin, lo, size);
    }

    /** Adds the counts of another cache, whose parts come in any order; it may be this one. */
    method Merge(add: Cache)
      requires Proper(parts) && Proper(add.parts)
      modifies this
      ensures Merged(old(parts), old(add.parts), parts)
    {
      var merged := MergeParts(parts, add.parts);
      parts := merged;
    }
  }

  /** The sum of two caches, the n-grams of the second one in any order. */
  method MergeParts(target: Parts, added: Parts) returns (parts: Parts)
    requires Proper(target) && Proper(added)
    ensures Merged(target, added, parts)
  {
    parts := target;
    var ngrams := added.Keys;
    while ngrams != {}
      invariant ngrams <= added.Keys && MergedBut(target, added, parts, ngrams)
      decreases |ngrams|
    {
      var ngram :| ngram in ngrams;
      var after := AddNgram(parts, ngram, added[ngram]);
      MergedMore(target, added, parts, ngrams, ngram, after);
      parts := after;
      ngrams := ngrams - {ngram};
    }
  }

  /** The n-grams that are left have not been added yet, all others have. */
  ghost predicate MergedBut(before: Parts, added: Parts, parts: Parts, left: set<Ngram>) {
    && Proper(parts)
    && forall g, t :: Count(parts, g, t) == Count(before, g, t) + if g in left then 0 else Count(added, g, t)
  }

  lemma MergedMore(before: Parts, added: Parts, parts: Parts, left: set<Ngram>, ngram: Ngram, after: Parts)
    requires MergedBut(before, added, parts, left) && ngram in left && ngram in added && Proper(after)
    requires forall g, t :: Count(after, g, t) == Count(parts, g, t) + if g == ngram then InPart(added[ngram], t) else 0
    ensures MergedBut(before, added, after, left - {ngram})
  {
    forall g, t
      ensures Count(after, g, t) == Count(before, g, t) + if g in left - {ngram} then 0 else Count(added, g, t)
    {
      assert Count(parts, g, t) == Count(before, g, t) + if g in left then 0 else Count(added, g, t);
    }
  }

  method AddNgram(parts: Parts, ngram: Ngram, part: Part) returns (after: Parts)
    requires Proper(parts) && ProperPart(part)
    ensures Proper(after) && after.Keys == parts.Keys + {ngram}
    ensures forall g :: g in parts && g != ngram ==> after[g] == parts[g]
    ensures forall g, t :: Count(after, g, t) == Count(parts, g, t) + if g == ngram then InPart(part, t) else 0
  {
    if ngram !in parts {
      after := parts[ngram := part];
    } else {
      var sum := AddPart(parts[ngram], part);
      after := parts[ngram := sum];
      assert forall t :: Count(after, ngram, t) == InPart(sum, t);
    }
  }

  function InPart(part: Part, t: Token): int {
    if t in part then part[t] else 0
  }

  /** The sum of two parts, the tokens of the second one in any order. */
  method AddPart(merged: Part, part: Part) returns (sum: Part)
    requires ProperPart(merged) && ProperPart(part)
    ensures ProperPart(sum)
    ensures forall t :: InPart(sum, t) == InPart(merged, t) + InPart(part, t)
  {
    sum := merged;
    var tokens := part.Keys;
    while tokens != {}
      invariant tokens <= part.Keys && ProperPart(sum)
      invariant forall t :: InPart(sum, t) == InPart(merged, t) + if t in tokens then 0 else InPart(part, t)
      decreases |tokens|
    {
      Inhabited(tokens);
      var token :| token in tokens;
      var count := part[token];
      if token !in sum {
        sum := sum[token := count];
      } else {
        sum := sum[token := sum[token] + count];
      }
      tokens := tokens - {token};
    }
  }

  lemma TallyNone(before: Parts, after: Parts, inp: seq<Token>, min: nat, reached: int, max: int, lo: int)
    requires Updated(before, after, inp, min, reached, lo)
    requires reached == max || (reached < min && max < min)
    ensures Updated(before, after, inp, min, max, lo)
  {
  }

  // ---------------------------------------------------------------------------------------------
  // Runs

  function Concat(chunks: seq<seq<Token>>): seq<Token> {
    if chunks == [] then [] else Concat(chunks[..|chunks| - 1]) + chunks[|chunks| - 1]
  }

  /** The cache starts empty and is updated after each chunk, with the number of tokens in it. */
  ghost predicate Run(chunks: seq<seq<Token>>, min: nat, max: int, parts: Parts) {
    if chunks == [] then parts == map[]
    else
      var n := |chunks| - 1;
      exists before :: Run(chunks[..n], min, max, before)
                       && Updated(before, parts, Concat(chunks), min, max, |Concat(chunks)| - |chunks[n]|)
  }

  lemma {:induction false} TallyEmpty(inp: seq<Token>, g: Ngram, t: Token, min: nat, max: int, lo: int, hi: nat)
    requires hi <= lo
    ensures Tally(inp, g, t, min, max, lo, hi) == 0
    decreases max - min
  {
    if min <= max {
      TallyEmpty(inp, g, t, min, max - 1, lo, hi);
    }
  }

  lemma UpdatedTwice(a: Parts, b: Parts, c: Parts, inp: seq<Token>, more: seq<Token>, min: nat, max: int, lo: int)
    requires lo <= |inp| && Updated(a, b, inp, min, max, lo) && Updated(b, c, inp + more, min, max, |inp|)
    ensures Updated(a, c, inp + more, min, max, lo)
  {
    var all := inp + more;
    forall g, t
      ensures Count(c, g, t) == Count(a, g, t) + Tally(all, g, t, min, max, lo, |all|)
    {
      TallyPrefix(inp, more, g, t, min, max, lo, |inp|);
      TallySplit(all, g, t, min, max, lo, |inp|, |all|);
    }
  }

  /** Updating chunk by chunk counts what counting all at once does. */
  lemma {:induction false} RunCounts(chunks: seq<seq<Token>>, min: nat, max: int, parts: Parts)
    requires Run(chunks, min, max, parts)
    ensures Updated(map[], parts, Concat(chunks), min, max, 0)
    decreases |chunks|
  {
    if chunks == [] {
      forall g, t
        ensures Tally([], g, t, min, max, 0, 0) == 0
      {
        TallyEmpty([], g, t, min, max, 0, 0);
      }
    } else {
      var n := |chunks| - 1;
      var front := chunks[..n];
      var before :| Run(front, min, max, before)
        && Updated(before, parts, Concat(chunks), min, max, |Concat(chunks)| - |chunks[n]|);
      RunCounts(front, min, max, before);
      UpdatedTwice(map[], before, parts, Concat(front), chunks[n], min, max, 0);
    }
  }

  /** It does not matter how the tokens are split into chunks. */
  lemma AnyChunks(a: seq<seq<Token>>, b: seq<seq<Token>>, min: nat, max: int, partsA: Parts, partsB: Parts)
    requires Run(a, min, max, partsA) && Run(b, min, max, partsB) && Concat(a) == Concat(b)
    ensures partsA == partsB
  {
    RunCounts(a, min, max, partsA);
    RunCounts(b, min, max, partsB);
    SameCounts(partsA, partsB);
  }

  /**
    What is stored after a run: for every n-gram and token, the number of positions where the one is
    followed by the other.
   */
  lemma RunCountsPositions(chunks: seq<seq<Token>>, min: nat, max: int, parts: Parts, h: seq<Token>, t: Token)
    requires Run(chunks, min, max, parts) && max <= MAX_SIZE
    requires AreTokens(Concat(chunks)) && AreTokens(h) && |h| <= MAX_SIZE
    ensures Count(parts, Padded(h), t) == if min <= |h| <= max then Followed(Concat(chunks), h, t) else 0
  {
    RunCounts(chunks, min, max, parts);
    TallyCounts(Concat(chunks), h, t, min, max);
  }

  // ---------------------------------------------------------------------------------------------
  // Merging

  ghost predicate Merged(target: Parts, add: Parts, after: Parts) {
    Proper(after) && forall g, t :: Count(after, g, t) == Count(target, g, t) + Count(add, g, t)
  }

  /** Merging two caches and counting the same tokens into one of them may be done in either order. */
  lemma MergeCommutesWithUpdate(target: Parts, add: Parts, inp: seq<Token>, min: nat, max: int, lo: int,
                                updated: Parts, updatedMerged: Parts, merged: Parts, mergedUpdated: Parts)
    requires Updated(target, updated, inp, min, max, lo) && Merged(updated, add, updatedMerged)
    requires Merged(target, add, merged) && Updated(merged, mergedUpdated, inp, min, max, lo)
    ensures updatedMerged == mergedUpdated
  {
    forall g, t
      ensures Count(updatedMerged, g, t) == Count(mergedUpdated, g, t)
    {
      assert Count(updated, g, t) == Count(target, g, t) + Tally(inp, g, t, min, max, lo, |inp|);
      assert Count(merged, g, t) == Count(target, g, t) + Count(add, g, t);
    }
    SameCounts(updatedMerged, mergedUpdated);
  }

  /** The caches of two runs, merged, count the positions in both sequences of tokens. */
  lemma MergedRuns(a: seq<seq<Token>>, b: seq<seq<Token>>, min: nat, max: int, partsA: Parts, partsB: Parts,
                   merged: Parts,
                   h: seq<Token>, t: Token)
    requires Run(a, min, max, partsA) && Run(b, min, max, partsB) && Merged(partsA, partsB, merged)
    requires AreTokens(Concat(a)) && AreTokens(Concat(b)) && AreTokens(h) && min <= |h| <= max <= MAX_SIZE
    ensures Count(merged, Padded(h), t) == Followed(Concat(a), h, t) + Followed(Concat(b), h, t)
  {
    RunCountsPositions(a, min, max, partsA, h, t);
    RunCountsPositions(b, min, max, partsB, h, t);
  }
}
