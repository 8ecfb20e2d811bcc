/** N-grams, and how often a token follows each of them in a sequence of tokens. */
module NgramCounts {
  /** A token of the vocabulary is not negative; -1 stands for no token. */
  type Token = int

  const MAX_SIZE := 4
  const STATIC_SIZE := 2
  const NO_TOKEN: Token := -1

  type Ngram = s: seq<Token> | |s| == MAX_SIZE witness [NO_TOKEN, NO_TOKEN, NO_TOKEN, NO_TOKEN]

  /** The first tokens of a sequence, filled up with -1. */
  function Padded(s: seq<Token>): (g: Ngram)
    ensures forall i :: 0 <= i < MAX_SIZE ==> g[i] == if i < |s| then s[i] else NO_TOKEN
  {
    seq(MAX_SIZE, i requires 0 <= i < MAX_SIZE => if i < |s| then s[i] else NO_TOKEN)
  }

  predicate AreTokens(s: seq<Token>) {
    forall i :: 0 <= i < |s| ==> s[i] >= 0
  }

  /** Filling up keeps sequences of tokens apart, of whatever sizes. */
  lemma PaddedInjective(a: seq<Token>, b: seq<Token>)
    requires AreTokens(a) && AreTokens(b) && |a| <= MAX_SIZE && |b| <= MAX_SIZE
    ensures Padded(a) == Padded(b) <==> a == b
  {
    assert |a| < |b| ==> Padded(b)[|a|] == b[|a|] && Padded(a)[|a|] == NO_TOKEN;
    assert |b| < |a| ==> Padded(a)[|b|] == a[|b|] && Padded(b)[|b|] == NO_TOKEN;
    assert forall i :: 0 <= i < |a| ==> Padded(a)[i] == a[i];
    assert forall i :: 0 <= i < |b| ==> Padded(b)[i] == b[i];
    if Padded(a) == Padded(b) {
      assert |a| == |b|;
    }
  }

  /** The n-gram of the first `size` tokens of the input. */
  method MakeNgram(input: seq<Token>, size: nat) returns (g: Ngram)
    requires size <= |input|
    ensures g == Padded(input[..size])
  {
    var tokens: seq<Token> := [];
    for i := 0 to MAX_SIZE
      invariant |tokens| == i
      invariant forall j :: 0 <= j < i ==> tokens[j] == if j < size then input[j] else NO_TOKEN
    {
      tokens := tokens + [if i < size then input[i] else NO_TOKEN];
    }
    g := tokens;
  }

  // ---------------------------------------------------------------------------------------------
  // Positions

  /** Position `i` holds `t`, after the `size` tokens of `g`. */
  predicate Hit(inp: seq<Token>, g: Ngram, t: Token, size: nat, i: nat) {
    size <= i < |inp| && Padded(inp[i - size..i]) == g && inp[i] == t
  }

  /** The number of positions from `lo` to `hi` that hold `t` after the `size` tokens of `g`. */
  function Hits(inp: seq<Token>, g: Ngram, t: Token, size: nat, lo: int, hi: nat): nat
    decreases hi
  {
    if hi == 0 || hi <= lo then 0
    else Hits(inp, g, t, size, lo, hi - 1) + if Hit(inp, g, t, size, hi - 1) then 1 else 0
  }

  /** The same for all sizes from `min` to `max`. */
  function Tally(inp: seq<Token>, g: Ngram, t: Token, min: nat, max: int, lo: int, hi: nat): nat
    decreases max - min
  {
    if max < min then 0 else Tally(inp, g, t, min, max - 1, lo, hi) + Hits(inp, g, t, max, lo, hi)
  }

  lemma {:induction false} HitsSplit(inp: seq<Token>, g: Ngram, t: Token, size: nat, lo: int, mid: nat, hi: nat)
    requires lo <= mid <= hi
    ensures Hits(inp, g, t, size, lo, hi) == Hits(inp, g, t, size, lo, mid) + Hits(inp, g, t, size, mid, hi)
    decreases hi
  {
    if mid < hi {
      HitsSplit(inp, g, t, size, lo, mid, hi - 1);
    }
  }

  lemma {:induction false} TallySplit(inp: seq<Token>, g: Ngram, t: Token, min: nat, max: int, lo: int, mid: nat,
                                      hi: nat)
    requires lo <= mid <= hi
    ensures Tally(inp, g, t, min, max, lo, hi) == Tally(inp, g, t, min, max, lo, mid) +
            Tally(inp, g, t, min, max, mid, hi)
    decreases max - min
  {
    if min <= max {
      TallySplit(inp, g, t, min, max - 1, lo, mid, hi);
      HitsSplit(inp, g, t, max, lo, mid, hi);
    }
  }

  /** Tokens that are appended do not change what came before. */
  lemma {:induction false} HitsPrefix(inp: seq<Token>, more: seq<Token>, g: Ngram, t: Token, size: nat, lo: int,
                                      hi: nat)
    requires hi <= |inp|
    ensures Hits(inp + more, g, t, size, lo, hi) == Hits(inp, g, t, size, lo, hi)
    decreases hi
  {
    if lo < hi && 0 < hi {
      HitsPrefix(inp, more, g, t, size, lo, hi - 1);
      HitPrefix(inp, more, g, t, size, hi - 1);
    }
  }

  lemma HitPrefix(inp: seq<Token>, more: seq<Token>, g: Ngram, t: Token, size: nat, i: nat)
    requires i < |inp|
    ensures Hit(inp + more, g, t, size, i) <==> Hit(inp, g, t, size, i)
  {
    if size <= i {
      assert (inp + more)[i - size..i] == inp[i - size..i];
    }
  }

  lemma {:induction false} TallyPrefix(inp: seq<Token>, more: seq<Token>, g: Ngram, t: Token, min: nat, max: int,
                                       lo: int, hi: nat)
    requires hi <= |inp|
    ensures Tally(inp + more, g, t, min, max, lo, hi) == Tally(inp, g, t, min, max, lo, hi)
    decreases max - min
  {
    if min <= max {
      TallyPrefix(inp, more, g, t, min, max - 1, lo, hi);
      HitsPrefix(inp, more, g, t, max, lo, hi);
    }
  }

  /** From before the first position on is from the first position on. */
  lemma {:induction false} HitsFrom(inp: seq<Token>, g: Ngram, t: Token, size: nat, lo: int, hi: nat)
    ensures Hits(inp, g, t, size, lo, hi) == Hits(inp, g, t, size, if lo < size then size else lo, hi)
    decreases hi
  {
    if hi > 0 {
      HitsFrom(inp, g, t, size, lo, hi - 1);
    }
  }

  /** At position `i`, `h` is followed by `t`. */
  predicate Place(inp: seq<Token>, h: seq<Token>, t: Token, i: nat) {
    |h| <= i < |inp| && inp[i - |h|..i] == h && inp[i] == t
  }

  /** The positions below `hi` where `h` is followed by `t`. */
  function Places(inp: seq<Token>, h: seq<Token>, t: Token, hi: nat): set<nat> {
    set i: nat | i < hi && Place(inp, h, t, i)
  }

  /** How often `h` is followed by `t`. */
  function Followed(inp: seq<Token>, h: seq<Token>, t: Token): nat {
    |Places(inp, h, t, |inp|)|
  }

  lemma {:induction false} HitsPlaces(inp: seq<Token>, h: seq<Token>, t: Token, hi: nat)
    requires AreTokens(inp) && AreTokens(h) && |h| <= MAX_SIZE && hi <= |inp|
    ensures Hits(inp, Padded(h), t, |h|, 0, hi) == |Places(inp, h, t, hi)|
    decreases hi
  {
    if hi == 0 {
      assert Places(inp, h, t, hi) == {};
    } else {
      var i := hi - 1;
      HitsPlaces(inp, h, t, i);
      HitIsPlace(inp, h, t, i);
      MorePlaces(inp, h, t, i);
    }
  }

  lemma HitIsPlace(inp: seq<Token>, h: seq<Token>, t: Token, i: nat)
    requires AreTokens(inp) && AreTokens(h) && |h| <= MAX_SIZE
    ensures Hit(inp, Padded(h), t, |h|, i) <==> Place(inp, h, t, i)
  {
    if |h| <= i < |inp| {
      PaddedInjective(inp[i - |h|..i], h);
    }
  }

  lemma MorePlaces(inp: seq<Token>, h: seq<Token>, t: Token, i: nat)
    ensures |Places(inp, h, t, i + 1)| == |Places(inp, h, t, i)| + if Place(inp, h, t, i) then 1 else 0
  {
    var before, after := Places(inp, h, t, i), Places(inp, h, t, i + 1);
    var here: set<nat> := if Place(inp, h, t, i) then {i} else {};
    forall j: nat
      ensures j in after <==> j in before + here
    {
      assert j in after <==> j < i + 1 && Place(inp, h, t, j);
      assert j in before <==> j < i && Place(inp, h, t, j);
    }
    assert after == before + here && i !in before;
  }

  /** An n-gram of another size has no hits. */
  lemma {:induction false} NoHits(inp: seq<Token>, h: seq<Token>, t: Token, size: nat, lo: int, hi: nat)
    requires AreTokens(inp) && AreTokens(h) && |h| <= MAX_SIZE && size <= MAX_SIZE && size != |h|
    ensures Hits(inp, Padded(h), t, size, lo, hi) == 0
    decreases hi
  {
    if hi > 0 {
      NoHits(inp, h, t, size, lo, hi - 1);
      if size <= hi - 1 < |inp| {
        PaddedInjective(inp[hi - 1 - size..hi - 1], h);
      }
    }
  }

  lemma {:induction false} TallyIsHits(inp: seq<Token>, h: seq<Token>, t: Token, min: nat, max: int, lo: int, hi: nat)
    requires AreTokens(inp) && AreTokens(h) && |h| <= MAX_SIZE && max <= MAX_SIZE
    ensures Tally(inp, Padded(h), t, min, max, lo, hi) ==
            if min <= |h| <= max then Hits(inp, Padded(h), t, |h|, lo, hi) else 0
    decreases max - min
  {
    if min <= max {
      TallyIsHits(inp, h, t, min, max - 1, lo, hi);
      if max != |h| {
        NoHits(inp, h, t, max, lo, hi);
      }
    }
  }

  /** The tally for an n-gram is the number of positions where it is followed by the token. */
  lemma TallyCounts(inp: seq<Token>, h: seq<Token>, t: Token, min: nat, max: int)
    requires AreTokens(inp) && AreTokens(h) && |h| <= MAX_SIZE && max <= MAX_SIZE
    ensures Tally(inp, Padded(h), t, min, max, 0, |inp|) == if min <= |h| <= max then Followed(inp, h, t) else 0
  {
    TallyIsHits(inp, h, t, min, max, 0, |inp|);
    HitsPlaces(inp, h, t, |inp|);
  }
}
