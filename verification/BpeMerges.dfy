/** The recovery of byte-pair merges from the ranks of tokens. */
module BpeMerges {
  import opened Wrappers

  type Bytes = seq<int>
  type Ranks = map<Bytes, int>

  function Concat(parts: seq<Bytes>): Bytes {
    if parts == [] then [] else parts[0] + Concat(parts[1..])
  }

  function Singles(token: Bytes): (parts: seq<Bytes>)
    ensures |parts| == |token|
  {
    seq(|token|, i requires 0 <= i < |token| => [token[i]])
  }

  lemma {:induction false} SinglesConcat(token: Bytes)
    ensures Concat(Singles(token)) == token
    decreases |token|
  {
    if token != [] {
      SinglesConcat(token[1..]);
      assert Singles(token)[1..] == Singles(token[1..]);
      assert token == [token[0]] + token[1..];
    }
  }

  lemma {:induction false} ConcatAppend(a: seq<Bytes>, b: seq<Bytes>)
    ensures Concat(a + b) == Concat(a) + Concat(b)
    decreases |a|
  {
    if a == [] {
      assert a + b == b;
    } else {
      ConcatAppend(a[1..], b);
      assert (a + b)[1..] == a[1..] + b;
      assert Concat(a + b) == a[0] + (Concat(a[1..]) + Concat(b));
    }
  }

  // ---------------------------------------------------------------------------------------------
  // The best pair

  /** The rank of the parts at `i` and after it, joined. */
  function RankAt(ranks: Ranks, parts: seq<Bytes>, i: nat): Option<int>
    requires i + 1 < |parts|
  {
    var pair := parts[i] + parts[i + 1];
    if pair in ranks then Some(ranks[pair]) else None
  }

  datatype Pair = Pair(index: nat, rank: int)

  /** `best` is the first of the pairs of least rank among those before `n`, or there is no pair with a rank. */
  predicate IsBest(ranks: Ranks, parts: seq<Bytes>, n: nat, best: Option<Pair>)
    requires n < |parts| || n == 0
  {
    match best
    case None => forall i :: 0 <= i < n ==> RankAt(ranks, parts, i).None?
    case Some(Pair(index, rank)) =>
      && index < n
      && RankAt(ranks, parts, index) == Some(rank)
      && (forall i :: 0 <= i < n ==> RankAt(ranks, parts, i).None? || rank <= RankAt(ranks, parts, i).value)
      && (forall i :: 0 <= i < index ==> RankAt(ranks, parts, i) != Some(rank))
  }

  predicate BestOf(ranks: Ranks, parts: seq<Bytes>, best: Option<Pair>) {
    IsBest(ranks, parts, if parts == [] then 0 else |parts| - 1, best)
  }

  /** There is one best pair. */
  lemma BestUnique(ranks: Ranks, parts: seq<Bytes>, a: Option<Pair>, b: Option<Pair>)
    requires BestOf(ranks, parts, a) && BestOf(ranks, parts, b)
    ensures a == b
  {
    if a.Some? && b.Some? {
      assert RankAt(ranks, parts, a.value.index).Some? && RankAt(ranks, parts, b.value.index).Some?;
    }
  }

  method FindBest(ranks: Ranks, parts: seq<Bytes>) returns (best: Option<Pair>)
    ensures BestOf(ranks, parts, best)
  {
    best := None;
    if parts == [] {
      return;
    }
    for i := 0 to |parts| - 1
      invariant IsBest(ranks, parts, i, best)
    {
      var rank := RankAt(ranks, parts, i);
      if rank.Some? && (best.None? || rank.value < best.value.rank) {
        best := Some(Pair(i, rank.value));
      }
    }
  }

  // ---------------------------------------------------------------------------------------------
  // Merging

  function Merge(parts: seq<Bytes>, i: nat): (r: seq<Bytes>)
    requires i + 1 < |parts|
    ensures |r| == |parts| - 1
  {
    parts[..i] + [parts[i] + parts[i + 1]] + parts[i + 2..]
  }

  /** Merging does not change the text. */
  lemma {:induction false} MergeConcat(parts: seq<Bytes>, i: nat)
    requires i + 1 < |parts|
    ensures Concat(Merge(parts, i)) == Concat(parts)
    decreases i
  {
    var merged := Merge(parts, i);
    if i == 0 {
      assert merged[1..] == parts[2..] == parts[1..][1..];
      assert parts[0] + (parts[1] + Concat(parts[2..])) == merged[0] + Concat(parts[2..]);
    } else {
      assert merged[1..] == Merge(parts[1..], i - 1);
      MergeConcat(parts[1..], i - 1);
    }
  }

  /** The pair can be merged: no cap is reached. */
  predicate Allowed(pair: Pair, maxRank: Option<int>) {
    maxRank.None? || pair.rank < maxRank.value
  }

  /** The merging, one best pair after the other, leads from `parts` to `result` and goes no further. */
  ghost predicate Leads(ranks: Ranks, parts: seq<Bytes>, maxRank: Option<int>, result: seq<Bytes>)
    decreases |parts|
  {
    exists best :: BestOf(ranks, parts, best) && After(ranks, parts, maxRank, best, result)
  }

  ghost predicate After(ranks: Ranks, parts: seq<Bytes>, maxRank: Option<int>, best: Option<Pair>, result: seq<Bytes>)
    requires BestOf(ranks, parts, best)
    decreases |parts|, 0
  {
    if best.None? || !Allowed(best.value, maxRank) then result == parts
    else Leads(ranks, Merge(parts, best.value.index), maxRank, result)
  }

  /** Merges from single bytes on, while there is a pair of a rank below the cap. */
  method Bpe(ranks: Ranks, token: Bytes, maxRank: Option<int>) returns (parts: seq<Bytes>)
    ensures Leads(ranks, Singles(token), maxRank, parts)
    ensures NothingLeft(ranks, parts, maxRank)
  {
    parts := Singles(token);
    while true
      invariant forall r :: Leads(ranks, parts, maxRank, r) ==> Leads(ranks, Singles(token), maxRank, r)
      decreases |parts|
    {
      var best := FindBest(ranks, parts);
      if best.None? || !Allowed(best.value, maxRank) {
        assert After(ranks, parts, maxRank, best, parts);
        LeadsEnds(ranks, Singles(token), maxRank, parts);
        return;
      }
      forall r | Leads(ranks, Merge(parts, best.value.index), maxRank, r)
        ensures Leads(ranks, parts, maxRank, r)
      {
        assert After(ranks, parts, maxRank, best, r);
      }
      parts := Merge(parts, best.value.index);
    }
  }

  // ---------------------------------------------------------------------------------------------
  // Faithfulness

  lemma BestLeading(ranks: Ranks, parts: seq<Bytes>, maxRank: Option<int>, result: seq<Bytes>)
    returns (best: Option<Pair>)
    requires Leads(ranks, parts, maxRank, result)
    ensures BestOf(ranks, parts, best) && After(ranks, parts, maxRank, best, result)
  {
    best :| BestOf(ranks, parts, best) && After(ranks, parts, maxRank, best, result);
  }

  /** The text of two neighbours. */
  function Neighbours(parts: seq<Bytes>, i: nat): Bytes
    requires i + 1 < |parts|
  {
    parts[i] + parts[i + 1]
  }

  /** Neighbours that make up a token have a rank that reaches the cap; without a cap there are none. */
  predicate NothingLeft(ranks: Ranks, parts: seq<Bytes>, maxRank: Option<int>) {
    forall i :: 0 <= i < |parts| - 1 && Neighbours(parts, i) in ranks ==>
      maxRank.Some? && ranks[Neighbours(parts, i)] >= maxRank.value
  }

  /** The neighbours at `i` make up a token of least rank, the first such, and below the cap. */
  predicate FirstLeast(ranks: Ranks, parts: seq<Bytes>, maxRank: Option<int>, i: nat) {
    && i + 1 < |parts|
    && Neighbours(parts, i) in ranks
    && var rank := ranks[Neighbours(parts, i)];
    && (maxRank.Some? ==> rank < maxRank.value)
    && forall j :: 0 <= j < |parts| - 1 && Neighbours(parts, j) in ranks ==>
      rank <= ranks[Neighbours(parts, j)] && (j < i ==> rank < ranks[Neighbours(parts, j)])
  }

  /** Each step joins the first neighbours of least rank, as long as some have a rank below the cap. */
  lemma LeadsStep(ranks: Ranks, parts: seq<Bytes>, maxRank: Option<int>, result: seq<Bytes>)
    returns (i: nat, next: seq<Bytes>)
    requires Leads(ranks, parts, maxRank, result)
    ensures NothingLeft(ranks, parts, maxRank) ==> result == parts
    ensures !NothingLeft(ranks, parts, maxRank) ==>
            && FirstLeast(ranks, parts, maxRank, i)
            && next == parts[..i] + [parts[i] + parts[i + 1]] + parts[i + 2..]
            && Leads(ranks, next, maxRank, result)
  {
    var best := BestLeading(ranks, parts, maxRank, result);
    i, next := 0, parts;
    forall j | 0 <= j < |parts| - 1
      ensures Neighbours(parts, j) in ranks <==> RankAt(ranks, parts, j).Some?
      ensures Neighbours(parts, j) in ranks ==> RankAt(ranks, parts, j) == Some(ranks[Neighbours(parts, j)])
    {
    }
    if best.Some? {
      i := best.value.index;
      next := Merge(parts, i);
      BestFirst(ranks, parts, best.value);
    }
  }

  lemma BestFirst(ranks: Ranks, parts: seq<Bytes>, best: Pair)
    requires BestOf(ranks, parts, Some(best))
    ensures FirstLeast(ranks, parts, None, best.index) && ranks[Neighbours(parts, best.index)] == best.rank
  {
    forall j | 0 <= j < |parts| - 1 && Neighbours(parts, j) in ranks
      ensures best.rank <= ranks[Neighbours(parts, j)] && (j < best.index ==> best.rank < ranks[Neighbours(parts, j)])
    {
      assert RankAt(ranks, parts, j) == Some(ranks[Neighbours(parts, j)]);
    }
  }

  /** The merging ends only when nothing is left to merge. */
  lemma {:induction false} LeadsEnds(ranks: Ranks, parts: seq<Bytes>, maxRank: Option<int>, result: seq<Bytes>)
    requires Leads(ranks, parts, maxRank, result)
    ensures NothingLeft(ranks, result, maxRank)
    decreases |parts|
  {
    var i, next := LeadsStep(ranks, parts, maxRank, result);
    if !NothingLeft(ranks, parts, maxRank) {
      LeadsEnds(ranks, next, maxRank, result);
    }
  }

  /** There is one result. */
  lemma {:induction false} LeadsUnique(ranks: Ranks, parts: seq<Bytes>, maxRank: Option<int>, a: seq<Bytes>,
                                       b: seq<Bytes>)
    requires Leads(ranks, parts, maxRank, a) && Leads(ranks, parts, maxRank, b)
    ensures a == b
    decreases |parts|
  {
    var best := BestLeading(ranks, parts, maxRank, a);
    var best' := BestLeading(ranks, parts, maxRank, b);
    BestUnique(ranks, parts, best, best');
    if best.Some? && Allowed(best.value, maxRank) {
      LeadsUnique(ranks, Merge(parts, best.value.index), maxRank, a, b);
    }
  }

  /** The parts of the result make up the same text. */
  lemma {:induction false} LeadsConcat(ranks: Ranks, parts: seq<Bytes>, maxRank: Option<int>, result: seq<Bytes>)
    requires Leads(ranks, parts, maxRank, result)
    ensures Concat(result) == Concat(parts)
    decreases |parts|
  {
    var best := BestLeading(ranks, parts, maxRank, result);
    if best.Some? && Allowed(best.value, maxRank) {
      MergeConcat(parts, best.value.index);
      LeadsConcat(ranks, Merge(parts, best.value.index), maxRank, result);
    }
  }

  /** A run with a cap is the beginning of the run without: from where the one ends the other goes on to its own end. */
  lemma {:induction false} CappedIsPrefix(ranks: Ranks, parts: seq<Bytes>, cap: int, capped: seq<Bytes>,
                                          result: seq<Bytes>)
    requires Leads(ranks, parts, Some(cap), capped) && Leads(ranks, capped, None, result)
    ensures Leads(ranks, parts, None, result)
    decreases |parts|
  {
    var best := BestLeading(ranks, parts, Some(cap), capped);
    if best.Some? && Allowed(best.value, Some(cap)) {
      CappedIsPrefix(ranks, Merge(parts, best.value.index), cap, capped, result);
      assert After(ranks, parts, None, best, result);
    }
  }

  /** The run without a cap passes through where the run with a cap ends. */
  lemma {:induction false} PassesCapped(ranks: Ranks, parts: seq<Bytes>, cap: int, capped: seq<Bytes>,
                                        result: seq<Bytes>)
    requires Leads(ranks, parts, Some(cap), capped) && Leads(ranks, parts, None, result)
    ensures Leads(ranks, capped, None, result)
    decreases |parts|
  {
    var best := BestLeading(ranks, parts, Some(cap), capped);
    var best' := BestLeading(ranks, parts, None, result);
    BestUnique(ranks, parts, best, best');
    if best.Some? && Allowed(best.value, Some(cap)) {
      PassesCapped(ranks, Merge(parts, best.value.index), cap, capped, result);
    }
  }

  /** Each part is a single byte or a token of a rank below the cap. */
  predicate Known(ranks: Ranks, maxRank: Option<int>, parts: seq<Bytes>) {
    forall i :: 0 <= i < |parts| ==> KnownPart(ranks, maxRank, parts[i])
  }

  predicate KnownPart(ranks: Ranks, maxRank: Option<int>, part: Bytes) {
    |part| == 1 || (part in ranks && (maxRank.Some? ==> ranks[part] < maxRank.value))
  }

  lemma {:induction false} LeadsKnown(ranks: Ranks, parts: seq<Bytes>, maxRank: Option<int>, result: seq<Bytes>)
    requires Leads(ranks, parts, maxRank, result) && Known(ranks, maxRank, parts)
    ensures Known(ranks, maxRank, result)
    decreases |parts|
  {
    var best := BestLeading(ranks, parts, maxRank, result);
    if best.Some? && Allowed(best.value, maxRank) {
      var i := best.value.index;
      var merged := Merge(parts, i);
      assert RankAt(ranks, parts, i).Some?;
      forall j | 0 <= j < |merged|
        ensures KnownPart(ranks, maxRank, merged[j])
      {
        assert j < i ==> merged[j] == parts[j];
        assert j > i ==> merged[j] == parts[j + 1];
      }
      LeadsKnown(ranks, merged, maxRank, result);
    }
  }

  lemma ConcatTwo(parts: seq<Bytes>)
    requires |parts| == 2
    ensures Concat(parts) == parts[0] + parts[1]
  {
    var rest := parts[1..];
    assert rest[1..] == [] && Concat(rest[1..]) == [];
    assert Concat(rest) == rest[0];
  }

  /**
    A token whose run, capped at its own rank, ends in two parts is the merge of those: each is a byte
    or a token of lower rank, and without a cap the token is rebuilt whole.
   */
  lemma MergeRecovered(ranks: Ranks, token: Bytes, merged: seq<Bytes>, whole: seq<Bytes>)
    requires token in ranks && Leads(ranks, Singles(token), Some(ranks[token]), merged) && |merged| == 2
    requires Leads(ranks, Singles(token), None, whole)
    ensures merged[0] + merged[1] == token && Known(ranks, Some(ranks[token]), merged)
    ensures whole == [token]
  {
    LeadsConcat(ranks, Singles(token), Some(ranks[token]), merged);
    SinglesConcat(token);
    ConcatTwo(merged);
    LeadsKnown(ranks, Singles(token), Some(ranks[token]), merged);
    assert RankAt(ranks, merged, 0) == Some(ranks[token]);
    var best := Some(Pair(0, ranks[token]));
    assert BestOf(ranks, merged, best);
    assert Merge(merged, 0) == [token];
    assert BestOf(ranks, [token], None) && After(ranks, [token], None, None, [token]);
    assert Leads(ranks, [token], None, [token]);
    assert After(ranks, merged, None, best, [token]);
    CappedIsPrefix(ranks, Singles(token), ranks[token], merged, [token]);
    LeadsUnique(ranks, Singles(token), None, whole, [token]);
  }

  // ---------------------------------------------------------------------------------------------
  // When two parts are left

  /** `b` is a proper part of the token. */
  predicate IsPart(token: Bytes, a: Bytes, b: Bytes, c: Bytes) {
    token == a + b + c && |b| < |token|
  }

  /** Every token that is a proper part of this one has a lower rank. */
  ghost predicate PartsLower(ranks: Ranks, token: Bytes)
    requires token in ranks
  {
    forall a, b, c {:trigger IsPart(token, a, b, c)} ::
      IsPart(token, a, b, c) && b in ranks ==> ranks[b] < ranks[token]
  }

  predicate NoneEmpty(parts: seq<Bytes>) {
    forall i :: 0 <= i < |parts| ==> parts[i] != []
  }

  lemma {:induction false} LeadsNoneEmpty(ranks: Ranks, parts: seq<Bytes>, maxRank: Option<int>, result: seq<Bytes>)
    requires Leads(ranks, parts, maxRank, result) && NoneEmpty(parts)
    ensures NoneEmpty(result)
    decreases |parts|
  {
    var best := BestLeading(ranks, parts, maxRank, result);
    if best.Some? && Allowed(best.value, maxRank) {
      LeadsNoneEmpty(ranks, Merge(parts, best.value.index), maxRank, result);
    }
  }

  lemma NotEmptyConcat(parts: seq<Bytes>)
    requires NoneEmpty(parts) && parts != []
    ensures Concat(parts) != []
  {
    assert parts[0] != [];
  }

  lemma AtMostOne(parts: seq<Bytes>)
    requires |parts| <= 1
    ensures Concat(parts) == if parts == [] then [] else parts[0]
  {
    assert parts != [] ==> parts[1..] == [];
  }

  /** Two neighbours among more parts than two are a proper part of the whole. */
  lemma NeighboursPart(parts: seq<Bytes>, i: nat) returns (a: Bytes, c: Bytes)
    requires NoneEmpty(parts) && |parts| > 2 && i + 1 < |parts|
    ensures IsPart(Concat(parts), a, Neighbours(parts, i), c)
  {
    var front, pair, back := parts[..i], parts[i..i + 2], parts[i + 2..];
    a, c := Concat(front), Concat(back);
    ConcatAppend(front, pair + back);
    ConcatAppend(pair, back);
    ConcatTwo(pair);
    assert parts == front + (pair + back);
    assert a + Neighbours(parts, i) + c == a + (Concat(pair) + c);
    if front != [] {
      NotEmptyConcat(front);
    } else {
      NotEmptyConcat(back);
    }
  }

  /**
    Two parts are left exactly if the run without a cap rebuilds the token whole, provided that every token
    that is a proper part of it has a lower rank.
   */
  lemma TwoPartsLeft(ranks: Ranks, token: Bytes, merged: seq<Bytes>, whole: seq<Bytes>)
    requires token in ranks && |token| >= 2 && PartsLower(ranks, token)
    requires Leads(ranks, Singles(token), Some(ranks[token]), merged) && Leads(ranks, Singles(token), None, whole)
    ensures |merged| == 2 <==> whole == [token]
  {
    var cap := ranks[token];
    if |merged| == 2 {
      MergeRecovered(ranks, token, merged, whole);
    } else if whole == [token] {
      LeadsConcat(ranks, Singles(token), Some(cap), merged);
      SinglesConcat(token);
      LeadsKnown(ranks, Singles(token), Some(cap), merged);
      LeadsNoneEmpty(ranks, Singles(token), Some(cap), merged);
      LeadsEnds(ranks, Singles(token), Some(cap), merged);
      PassesCapped(ranks, Singles(token), cap, merged, whole);
      if |merged| > 2 {
        var i, next := LeadsStep(ranks, merged, None, whole);
        var a, c := NeighboursPart(merged, i);
        assert false;
      } else {
        AtMostOne(merged);
        assert false;
      }
    }
  }
}
