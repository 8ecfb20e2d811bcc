/** Filling the rows of a training batch with tokens of samples. */
module TrainingRows {
  type Token = int

  /** The samples as ranges of the training data, and where in each one may begin. */
  datatype Samples = Samples(data: seq<Token>, begins: seq<nat>, sizes: seq<nat>, offsets: seq<nat>) {
    predicate Valid() {
      && |begins| == |sizes| == |offsets| > 0
      && forall i :: 0 <= i < |begins| ==> begins[i] + sizes[i] <= |data|
    }
  }

  /** What to do between samples, and the vocabulary. */
  datatype Options = Options(withEos: bool, withBos: bool, fill: bool, randomOffsets: bool, bos: Token, eos: Token,
    vocab: nat) {
    predicate Valid() {
      0 <= bos < vocab && 0 <= eos < vocab
    }
  }

  function Clamp(t: Token, vocab: nat): (r: Token)
    requires vocab > 0
    ensures 0 <= r < vocab
  {
    if t < 0 then 0 else if t >= vocab then vocab - 1 else t
  }

  function Clamped(ts: seq<Token>, vocab: nat): (r: seq<Token>)
    requires vocab > 0
    ensures |r| == |ts|
  {
    seq(|ts|, i requires 0 <= i < |ts| => Clamp(ts[i], vocab))
  }

  // ---------------------------------------------------------------------------------------------
  // The stream of tokens

  /** Sample number `u`, counted round and round, from `offset` on. */
  function Sample(s: Samples, o: Options, u: nat, offset: nat): seq<Token>
    requires s.Valid() && o.Valid()
  {
    var i := u % |s.begins|;
    if offset < s.sizes[i] then Clamped(s.data[s.begins[i] + offset..s.begins[i] + s.sizes[i]], o.vocab) else []
  }

  /** What is put for the next sample; for an empty one a single end of sequence. */
  function Body(s: Samples, o: Options, u: nat): (r: seq<Token>)
    requires s.Valid() && o.Valid()
    ensures r != []
  {
    if Sample(s, o, u, 0) == [] then [o.eos] else Sample(s, o, u, 0)
  }

  /** What separates samples. */
  function Separator(o: Options): seq<Token> {
    (if o.withEos then [o.eos] else []) + (if o.withBos then [o.bos] else [])
  }

  /** A first text, and then `m` more, each after a separator. */
  ghost function Chain(first: seq<Token>, separator: seq<Token>, others: nat -> seq<Token>, m: nat): seq<Token> {
    if m == 0 then first else Chain(first, separator, others, m - 1) + separator + others(m)
  }

  ghost function Later(s: Samples, o: Options, u: nat): nat -> seq<Token>
    requires s.Valid() && o.Valid()
  {
    (j: nat) => Body(s, o, u + j)
  }

  /** Sample `u` from `offset` on, and then `m` more samples, each after a separator. */
  ghost function Stream(s: Samples, o: Options, u: nat, offset: nat, m: nat): seq<Token>
    requires s.Valid() && o.Valid()
  {
    Chain(Sample(s, o, u, offset), Separator(o), Later(s, o, u), m)
  }

  lemma StreamMore(s: Samples, o: Options, u: nat, offset: nat, m: nat)
    requires s.Valid() && o.Valid()
    ensures Stream(s, o, u, offset, m + 1) == Stream(s, o, u, offset, m) + Separator(o) + Body(s, o, u + m + 1)
  {
  }

  lemma CutAppended(a: seq<Token>, b: seq<Token>, c: seq<Token>, d: seq<Token>, e: seq<Token>)
    requires |a| <= |b| && b[..|a|] == a && e == b + c + d
    ensures |a| <= |e| && e[..|a|] == a
  {
    assert e[..|a|] == b[..|a|];
  }

  lemma {:induction false} ChainLonger(first: seq<Token>, separator: seq<Token>, others: nat -> seq<Token>, m: nat,
                                       n: nat)
    requires m <= n
    ensures var a, b := Chain(first, separator, others, m), Chain(first, separator, others, n);
            |a| <= |b| && b[..|a|] == a
    decreases n
  {
    if m < n {
      ChainLonger(first, separator, others, m, n - 1);
      var a, b := Chain(first, separator, others, m), Chain(first, separator, others, n - 1);
      CutAppended(a, b, separator, others(n), Chain(first, separator, others, n));
    }
  }

  /** The stream of fewer samples begins that of more. */
  lemma StreamLonger(s: Samples, o: Options, u: nat, offset: nat, m: nat, n: nat)
    requires s.Valid() && o.Valid() && m <= n
    ensures var a, b := Stream(s, o, u, offset, m), Stream(s, o, u, offset, n);
            |a| <= |b| && b[..|a|] == a
  {
    ChainLonger(Sample(s, o, u, offset), Separator(o), Later(s, o, u), m, n);
  }

  /**
    The targets of a row: as many tokens of the stream as there is room for; or, without filling, those
    of the one sample and then ends of sequence.
   */
  ghost predicate IsRow(s: Samples, o: Options, u: nat, offset: nat, row: seq<Token>)
    requires s.Valid() && o.Valid()
  {
    if o.fill then exists m: nat :: row <= Stream(s, o, u, offset, m)
    else
      var sample := Sample(s, o, u, offset);
      forall i :: 0 <= i < |row| ==> row[i] == if i < |sample| then sample[i] else o.eos
  }

  /** The last sample that a row of `n` tokens begins is the one `m` after the first. */
  ghost predicate Begins(s: Samples, o: Options, u: nat, offset: nat, n: nat, m: nat)
    requires s.Valid() && o.Valid()
  {
    if o.fill then
      && (m > 0 ==> |Stream(s, o, u, offset, m - 1)| + |Separator(o)| < n)
      && n <= |Stream(s, o, u, offset, m)| + |Separator(o)|
    else m == 0
  }

  // ---------------------------------------------------------------------------------------------
  // One row

  /** Where the filling of a row is. */
  datatype State = State(sample: nat, offset: nat, eosDone: bool, bosDone: bool)

  /** How much of the separator has been put. */
  function Separated(o: Options, st: State): nat {
    (if o.withEos && st.eosDone then 1 else 0) + (if o.withBos && st.bosDone then 1 else 0)
  }

  /** The flags that are not asked for count as done, and the end of sequence comes first. */
  predicate InOrder(o: Options, st: State) {
    && (!o.withEos ==> st.eosDone)
    && (!o.withBos ==> st.bosDone)
    && (o.withBos && st.bosDone ==> st.eosDone)
  }

  /**
    With what is left of the sample the row is `whole`, the stream up to there; or it has all of that
    and a part of the separator.
   */
  ghost predicate At(s: Samples, o: Options, st: State, row: seq<Token>, whole: seq<Token>)
    requires s.Valid() && o.Valid()
  {
    && InOrder(o, st)
    && (if st.offset < s.sizes[st.sample % |s.begins|] then
          Separated(o, st) == 0 && row + Sample(s, o, st.sample, st.offset) == whole
        else
          row == whole + Separator(o)[..Separated(o, st)])
  }

  /** The state and the token after one more. */
  function Advance(s: Samples, o: Options, st: State, started: nat): (r: (State, Token, nat))
    requires s.Valid() && o.Valid()
  {
    var size := s.sizes[st.sample % |s.begins|];
    if st.offset < size then Take(s, o, st, started)
    else if !o.fill then (st, o.eos, started)
    else if !st.eosDone then (st.(eosDone := true), o.eos, started)
    else if !st.bosDone then (st.(bosDone := true), o.bos, started)
    else
      var next := State(st.sample + 1, 0, !o.withEos, !o.withBos);
      if 0 < s.sizes[next.sample % |s.begins|] then Take(s, o, next, started + 1) else (next, o.eos, started + 1)
  }

  /** The next token of the sample. */
  function Take(s: Samples, o: Options, st: State, started: nat): (State, Token, nat)
    requires s.Valid() && o.Valid() && st.offset < s.sizes[st.sample % |s.begins|]
  {
    var i := st.sample % |s.begins|;
    (st.(offset := st.offset + 1), Clamp(s.data[s.begins[i] + st.offset], o.vocab), started)
  }

  lemma SampleTaken(s: Samples, o: Options, u: nat, offset: nat)
    requires s.Valid() && o.Valid() && offset < s.sizes[u % |s.begins|]
    ensures Sample(s, o, u, offset) == [Clamp(s.data[s.begins[u % |s.begins|] + offset], o.vocab)] +
            Sample(s, o, u, offset + 1)
  {
  }

  lemma TakeKeeps(s: Samples, o: Options, st: State, row: seq<Token>, started: nat, whole: seq<Token>)
    requires s.Valid() && o.Valid() && At(s, o, st, row, whole) && st.offset < s.sizes[st.sample % |s.begins|]
    ensures var (st', t, started') := Take(s, o, st, started);
            At(s, o, st', row + [t], whole) && started' == started && st'.sample == st.sample
  {
    SampleTaken(s, o, st.sample, st.offset);
    var (st', t, _) := Take(s, o, st, started);
    assert row + ([t] + Sample(s, o, st.sample, st'.offset)) == row + [t] + Sample(s, o, st.sample, st'.offset);
    if st'.offset >= s.sizes[st.sample % |s.begins|] {
      assert row + [t] + [] == row + [t];
      assert row + [t] == whole + Separator(o)[..0];
    }
  }

  lemma SeparatorKeeps(s: Samples, o: Options, st: State, row: seq<Token>, whole: seq<Token>)
    requires s.Valid() && o.Valid() && o.fill && At(s, o, st, row, whole)
    requires st.offset >= s.sizes[st.sample % |s.begins|] && !(st.eosDone && st.bosDone)
    ensures var (st', t, _) := Advance(s, o, st, 0);
            At(s, o, st', row + [t], whole) && st'.sample == st.sample
  {
    var (st', t, _) := Advance(s, o, st, 0);
    var n := Separated(o, st);
    assert Separated(o, st') == n + 1 && Separator(o)[n] == t;
    assert Separator(o)[..n + 1] == Separator(o)[..n] + [t];
  }

  function NextState(o: Options, st: State): State {
    State(st.sample + 1, 0, !o.withEos, !o.withBos)
  }

  lemma NextKeeps(s: Samples, o: Options, st: State, row: seq<Token>, whole: seq<Token>)
    requires s.Valid() && o.Valid() && At(s, o, st, row, whole)
    requires st.offset >= s.sizes[st.sample % |s.begins|] && st.eosDone && st.bosDone
    ensures var next, longer := NextState(o, st), whole + Separator(o) + Body(s, o, st.sample + 1);
            && |row| == |whole| + |Separator(o)|
            && (if 0 < s.sizes[next.sample % |s.begins|] then At(s, o, next, row, longer)
                else At(s, o, next, row + [o.eos], longer))
  {
    var next, body := NextState(o, st), Body(s, o, st.sample + 1);
    assert Separator(o)[..Separated(o, st)] == Separator(o);
    assert row + body == row + body + Separator(o)[..0];
  }

  /** The row goes on as the stream does. */
  lemma AdvanceKeeps(s: Samples, o: Options, st: State, row: seq<Token>, started: nat, whole: seq<Token>)
    requires s.Valid() && o.Valid() && o.fill && At(s, o, st, row, whole)
    ensures var (st', t, started') := Advance(s, o, st, started);
            if st'.sample == st.sample then At(s, o, st', row + [t], whole) && started' == started
            else
              && st'.sample == st.sample + 1
              && started' == started + 1
              && |row| == |whole| + |Separator(o)|
              && At(s, o, st', row + [t], whole + Separator(o) + Body(s, o, st.sample + 1))
  {
    if st.offset < s.sizes[st.sample % |s.begins|] {
      TakeKeeps(s, o, st, row, started, whole);
    } else if !(st.eosDone && st.bosDone) {
      SeparatorKeeps(s, o, st, row, whole);
    } else {
      NextKeeps(s, o, st, row, whole);
      var next := NextState(o, st);
      if 0 < s.sizes[next.sample % |s.begins|] {
        TakeKeeps(s, o, next, row, started + 1, whole + Separator(o) + Body(s, o, st.sample + 1));
      }
    }
  }

  /** What the tokens put so far are, in each mode; the last sample was begun at place `from`. */
  ghost predicate RowSoFar(s: Samples, o: Options, u: nat, offset: nat, st: State, row: seq<Token>, started: nat,
                           whole: seq<Token>, from: int)
    requires s.Valid() && o.Valid()
  {
    if o.fill then
      && At(s, o, st, row, whole)
      && st.sample >= u
      && started == st.sample - u + 1
      && whole == Stream(s, o, u, offset, started - 1)
      && from < |row|
      && (started > 1 ==> from == |Stream(s, o, u, offset, started - 2)| + |Separator(o)|)
    else
      && started == 1
      && st.sample == u
      && st.offset >= offset
      && IsRow(s, o, u, offset, row)
      && (if st.offset < s.sizes[u % |s.begins|] then |row| == st.offset - offset else |row| >= |Sample(s, o, u,
        offset)|)
  }

  lemma AtFirst(s: Samples, o: Options, u: nat, offset: nat, st: State)
    requires s.Valid() && o.Valid() && st == State(u, offset, !o.withEos, !o.withBos)
    ensures RowSoFar(s, o, u, offset, st, [], 1, Stream(s, o, u, offset, 0), -1)
  {
    assert [] + Sample(s, o, u, offset) == Sample(s, o, u, offset);
  }

  lemma RowGoesOn(s: Samples, o: Options, u: nat, offset: nat, st: State, row: seq<Token>, started: nat,
                  whole: seq<Token>, from: int)
    returns (whole': seq<Token>, from': int)
    requires s.Valid() && o.Valid() && RowSoFar(s, o, u, offset, st, row, started, whole, from)
    ensures var (st', t, started') := Advance(s, o, st, started);
            RowSoFar(s, o, u, offset, st', row + [t], started', whole', from')
  {
    if o.fill {
      whole', from' := RowFilled(s, o, u, offset, st, row, started, whole, from);
    } else {
      whole', from' := whole, from;
      RowEnded(s, o, u, offset, st, row, started, whole, from);
    }
  }

  lemma RowFilled(s: Samples, o: Options, u: nat, offset: nat, st: State, row: seq<Token>, started: nat,
                  whole: seq<Token>, from: int)
    returns (whole': seq<Token>, from': int)
    requires s.Valid() && o.Valid() && o.fill && RowSoFar(s, o, u, offset, st, row, started, whole, from)
    ensures var (st', t, started') := Advance(s, o, st, started);
            RowSoFar(s, o, u, offset, st', row + [t], started', whole', from')
  {
    AdvanceKeeps(s, o, st, row, started, whole);
    var (st', t, started') := Advance(s, o, st, started);
    if st'.sample == st.sample {
      whole', from' := whole, from;
    } else {
      StreamMore(s, o, u, offset, started - 1);
      assert u + (started - 1) + 1 == st.sample + 1;
      whole', from' := whole + Separator(o) + Body(s, o, st.sample + 1), |row|;
    }
  }

  lemma RowEnded(s: Samples, o: Options, u: nat, offset: nat, st: State, row: seq<Token>, started: nat,
                 whole: seq<Token>, from: int)
    requires s.Valid() && o.Valid() && !o.fill && RowSoFar(s, o, u, offset, st, row, started, whole, from)
    ensures var (st', t, started') := Advance(s, o, st, started);
            RowSoFar(s, o, u, offset, st', row + [t], started', whole, from)
  {
  }

  /** Every token put is one of the vocabulary. */
  lemma AdvanceInVocabulary(s: Samples, o: Options, st: State, started: nat)
    requires s.Valid() && o.Valid()
    ensures 0 <= Advance(s, o, st, started).1 < o.vocab
  {
  }

  lemma RowDone(s: Samples, o: Options, u: nat, offset: nat, st: State, row: seq<Token>, started: nat,
                whole: seq<Token>, from: int)
    requires s.Valid() && o.Valid() && RowSoFar(s, o, u, offset, st, row, started, whole, from)
    ensures IsRow(s, o, u, offset, row) && started > 0 && Begins(s, o, u, offset, |row|, started - 1)
  {
    if o.fill {
      StreamMore(s, o, u, offset, started - 1);
      WithinStream(s, o, st, row, whole, Separator(o), Body(s, o, u + started), Stream(s, o, u, offset, started));
    }
  }

  lemma WithinStream(s: Samples, o: Options, st: State, row: seq<Token>, whole: seq<Token>, sep: seq<Token>,
                     body: seq<Token>, longer: seq<Token>)
    requires s.Valid() && o.Valid() && At(s, o, st, row, whole) && sep == Separator(o) && longer == whole + sep + body
    ensures row <= longer && |row| <= |whole| + |sep|
  {
    if st.offset < s.sizes[st.sample % |s.begins|] {
      assert row <= whole;
    } else {
      assert row <= whole + sep;
    }
  }

  // ---------------------------------------------------------------------------------------------
  // The whole batch

  /**
    Row `k` of the batch: the first input is the beginning of sequence, the others are the targets
    before them, each target is certain.
   */
  ghost predicate Filled(input: array2<Token>, probs: array3<real>, k: nat, bos: Token, row: seq<Token>)
    requires k < input.Length0 && k < probs.Length0 && probs.Length1 == input.Length1 >= |row|
    reads input, probs
  {
    && (input.Length1 > 0 ==> input[k, 0] == bos)
    && (forall i :: 0 <= i < |row| && i + 1 < input.Length1 ==> input[k, i + 1] == row[i])
    && (forall i, v :: 0 <= i < |row| && 0 <= v < probs.Length2 ==> probs[k, i, v] == if v == row[i] then 1.0 else 0.0)
  }

  /** No target from place `i` of row `k` on. */
  ghost predicate Empty(probs: array3<real>, k: nat, i: nat)
    requires k < probs.Length0
    reads probs
  {
    forall p, v :: i <= p < probs.Length1 && 0 <= v < probs.Length2 ==> probs[k, p, v] == 0.0
  }

  /** All rows but one are as they were. */
  twostate predicate OthersKept(input: array2<Token>, probs: array3<real>, k: nat)
    reads input, probs
  {
    && (forall j, p :: 0 <= j < input.Length0 && 0 <= p < input.Length1 && j != k ==> input[j, p] == old(input[j, p]))
    && (forall j, p, v :: 0 <= j < probs.Length0 && 0 <= p < probs.Length1 && 0 <= v < probs.Length2 && j != k ==>
          probs[j, p, v] == old(probs[j, p, v]))
  }

  /** Puts a token as a target, and as the next input. */
  method Put(input: array2<Token>, probs: array3<real>, k: nat, i: nat, bos: Token, ghost row: seq<Token>, token: Token)
    requires k < input.Length0 && k < probs.Length0 && i < probs.Length1 == input.Length1 && 0 <= token < probs.Length2
    requires |row| == i && Filled(input, probs, k, bos, row) && Empty(probs, k, i)
    modifies input, probs
    ensures Filled(input, probs, k, bos, row + [token]) && Empty(probs, k, i + 1) && OthersKept(input, probs, k)
  {
    probs[k, i, token] := 1.0;
    if i + 1 < input.Length1 {
      input[k, i + 1] := token;
    }
  }

  /** Fills one row from sample `u` on. */
  method FillRow(s: Samples, o: Options, u: nat, offset: nat, k: nat, input: array2<Token>, probs: array3<real>)
    returns (started: nat, ghost row: seq<Token>)
    requires s.Valid() && o.Valid()
    requires k < input.Length0 == probs.Length0 && input.Length1 == probs.Length1 > 0 && probs.Length2 == o.vocab
    requires Empty(probs, k, 0)
    modifies input, probs
    ensures |row| == input.Length1 && IsRow(s, o, u, offset, row) && started > 0
    ensures Begins(s, o, u, offset, |row|, started - 1)
    ensures Filled(input, probs, k, o.bos, row) && OthersKept(input, probs, k)
  {
    var st := State(u, offset, !o.withEos, !o.withBos);
    started := 1;
    row := [];
    input[k, 0] := o.bos;
    ghost var whole, from := Stream(s, o, u, offset, 0), -1;
    AtFirst(s, o, u, offset, st);
    var i := 0;
    while i < input.Length1
      invariant i <= input.Length1 && |row| == i
      invariant RowSoFar(s, o, u, offset, st, row, started, whole, from)
      invariant Filled(input, probs, k, o.bos, row) && Empty(probs, k, i) && OthersKept(input, probs, k)
    {
      whole, from := RowGoesOn(s, o, u, offset, st, row, started, whole, from);
      AdvanceInVocabulary(s, o, st, started);
      var (st', token, started') := Advance(s, o, st, started);
      Put(input, probs, k, i, o.bos, row, token);
      st, started, row := st', started', row + [token];
      i := i + 1;
    }
    RowDone(s, o, u, offset, st, row, started, whole, from);
  }

  /** Where row `k` begins if its first sample is number `u`. */
  function OffsetOf(s: Samples, o: Options, u: nat): nat
    requires s.Valid()
  {
    if o.randomOffsets then s.offsets[u % |s.begins|] else 0
  }

  /** Row `k` is filled from sample `u` on, and the next row begins with sample `next`. */
  ghost predicate RowFrom(s: Samples, o: Options, u: nat, next: nat, row: seq<Token>, input: array2<Token>,
                          probs: array3<real>, k: nat)
    requires s.Valid() && o.Valid() && k < input.Length0 && k < probs.Length0 && probs.Length1 == input.Length1
    reads input, probs
  {
    && u < next
    && |row| == input.Length1
    && IsRow(s, o, u, OffsetOf(s, o, u), row)
    && CopiesSample(s, o, u, row)
    && Begins(s, o, u, OffsetOf(s, o, u), |row|, next - u - 1)
    && Filled(input, probs, k, o.bos, row)
  }

  /** A token of the data as it is put: one of the vocabulary stays, others go to its nearer end. */
  predicate PutAs(token: Token, data: Token, vocab: nat) {
    && (0 <= data < vocab ==> token == data)
    && (data < 0 ==> token == 0)
    && (data >= vocab ==> token == vocab - 1)
  }

  /**
    As long as its first sample goes on the row has the tokens of the data, from the beginning of the
    sample or, if that is asked for, from its offset on.
   */
  predicate CopiesSample(s: Samples, o: Options, u: nat, row: seq<Token>)
    requires s.Valid()
  {
    var n := u % |s.begins|;
    var from := if o.randomOffsets then s.offsets[n] else 0;
    forall i :: 0 <= i < |row| && from + i < s.sizes[n] ==> PutAs(row[i], s.data[s.begins[n] + from + i], o.vocab)
  }

  lemma SampleCopied(s: Samples, o: Options, u: nat, row: seq<Token>)
    requires s.Valid() && o.Valid() && IsRow(s, o, u, OffsetOf(s, o, u), row)
    ensures CopiesSample(s, o, u, row)
  {
    var n, from := u % |s.begins|, OffsetOf(s, o, u);
    var sample := Sample(s, o, u, from);
    if o.fill {
      var m: nat :| row <= Stream(s, o, u, from, m);
      StreamLonger(s, o, u, from, 0, m);
      assert Stream(s, o, u, from, 0) == sample;
    }
    forall i | 0 <= i < |row| && from + i < s.sizes[n]
      ensures PutAs(row[i], s.data[s.begins[n] + from + i], o.vocab)
    {
      assert row[i] == sample[i];
    }
  }

  /** A row that is longer than the stream up to a sample goes on with its separator and the next sample. */
  lemma GoesOn(s: Samples, o: Options, u: nat, offset: nat, m: nat, row: seq<Token>, before: seq<Token>, i: nat)
    requires s.Valid() && o.Valid() && o.fill && IsRow(s, o, u, offset, row)
    requires before == Stream(s, o, u, offset, m) && |before| + i < |row|
    requires i < |Separator(o) + Body(s, o, u + m + 1)|
    ensures row[|before| + i] == (Separator(o) + Body(s, o, u + m + 1))[i]
  {
    var k: nat :| row <= Stream(s, o, u, offset, k);
    StreamMore(s, o, u, offset, m);
    if k <= m {
      StreamLonger(s, o, u, offset, k, m);
      assert false;
    } else {
      StreamLonger(s, o, u, offset, m + 1, k);
      var sep, body := Separator(o), Body(s, o, u + m + 1);
      assert before + sep + body == before + (sep + body);
      SameToken(row, Stream(s, o, u, offset, k), before, sep + body, i);
    }
  }

  lemma SameToken(row: seq<Token>, all: seq<Token>, before: seq<Token>, next: seq<Token>, i: nat)
    requires row <= all && |before + next| <= |all| && all[..|before + next|] == before + next
    requires |before| + i < |row| && i < |next|
    ensures row[|before| + i] == next[i]
  {
    var j := |before| + i;
    assert row[j] == all[j] == all[..|before + next|][j] == (before + next)[j];
  }

  /** After the samples before it and their separators the row has the tokens of the next sample. */
  lemma LaterCopied(s: Samples, o: Options, u: nat, offset: nat, m: nat, row: seq<Token>, i: nat)
    requires s.Valid() && o.Valid() && o.fill && IsRow(s, o, u, offset, row)
    requires var before, n := |Stream(s, o, u, offset, m)| + |Separator(o)|, (u + m + 1) % |s.begins|;
             before + i < |row| && i < s.sizes[n]
    ensures var before, n := |Stream(s, o, u, offset, m)| + |Separator(o)|, (u + m + 1) % |s.begins|;
            PutAs(row[before + i], s.data[s.begins[n] + i], o.vocab)
  {
    GoesOn(s, o, u, offset, m, row, Stream(s, o, u, offset, m), |Separator(o)| + i);
  }

  /**
    Between two samples there are an end and a beginning of sequence, in this order, each if it is asked
    for; and an empty sample is put as one more end of sequence.
   */
  lemma SeparatorPut(s: Samples, o: Options, u: nat, offset: nat, m: nat, row: seq<Token>)
    requires s.Valid() && o.Valid() && o.fill && IsRow(s, o, u, offset, row)
    requires |Stream(s, o, u, offset, m)| + 3 <= |row|
    ensures var end, eosCount, bosCount :=
              |Stream(s, o, u, offset, m)|, if o.withEos then 1 else 0, if o.withBos then 1 else 0;
            && (o.withEos ==> row[end] == o.eos)
            && (o.withBos ==> row[end + eosCount] == o.bos)
            && |Separator(o)| == eosCount + bosCount
            && (s.sizes[(u + m + 1) % |s.begins|] == 0 ==> row[end + eosCount + bosCount] == o.eos)
  {
    var before, sep, n := Stream(s, o, u, offset, m), Separator(o), |Separator(o)|;
    GoesOn(s, o, u, offset, m, row, before, 0);
    GoesOn(s, o, u, offset, m, row, before, n);
    if n > 0 {
      GoesOn(s, o, u, offset, m, row, before, n - 1);
    }
  }

  /** The targets are all zero. */
  method Clear(probs: array3<real>)
    modifies probs
    ensures forall k: nat :: k < probs.Length0 ==> Empty(probs, k, 0)
  {
    for k := 0 to probs.Length0
      invariant forall j, p, v :: 0 <= j < k && 0 <= p < probs.Length1 && 0 <= v < probs.Length2 ==>
                probs[j, p, v] == 0.0
    {
      for i := 0 to probs.Length1
        invariant forall j, p, v :: 0 <= j < k && 0 <= p < probs.Length1 && 0 <= v < probs.Length2 ==>
                  probs[j, p, v] == 0.0
        invariant forall p, v :: 0 <= p < i && 0 <= v < probs.Length2 ==> probs[k, p, v] == 0.0
      {
        for t := 0 to probs.Length2
          invariant forall j, p, v :: 0 <= j < k && 0 <= p < probs.Length1 && 0 <= v < probs.Length2 ==>
                    probs[j, p, v] == 0.0
          invariant forall p, v :: 0 <= p < i && 0 <= v < probs.Length2 ==> probs[k, p, v] == 0.0
          invariant forall v :: 0 <= v < t ==> probs[k, i, v] == 0.0
        {
          probs[k, i, t] := 0.0;
        }
      }
    }
  }

  /** Fills row `k` and leaves those before it as they are. */
  method FillNext(s: Samples, o: Options, u: nat, k: nat, input: array2<Token>, probs: array3<real>,
                  ghost firsts: seq<nat>, ghost rows: seq<seq<Token>>)
    returns (started: nat, ghost row: seq<Token>)
    requires s.Valid() && o.Valid() && k < input.Length0 == probs.Length0
    requires input.Length1 == probs.Length1 > 0 && probs.Length2 == o.vocab && |rows| == k && |firsts| == k + 1
    requires forall j: nat :: j < k ==> RowFrom(s, o, firsts[j], firsts[j + 1], rows[j], input, probs, j)
    requires forall j: nat :: k <= j < probs.Length0 ==> Empty(probs, j, 0)
    modifies input, probs
    ensures started > 0 && RowFrom(s, o, u, u + started, row, input, probs, k)
    ensures forall j: nat :: j < k ==> RowFrom(s, o, firsts[j], firsts[j + 1], rows[j], input, probs, j)
    ensures forall j: nat :: k < j < probs.Length0 ==> Empty(probs, j, 0)
  {
    started, row := FillRow(s, o, u, OffsetOf(s, o, u), k, input, probs);
    SampleCopied(s, o, u, row);
    forall j: nat | j < k
      ensures RowFrom(s, o, firsts[j], firsts[j + 1], rows[j], input, probs, j)
    {
      assert old(RowFrom(s, o, firsts[j], firsts[j + 1], rows[j], input, probs, j));
    }
    forall j: nat | k < j < probs.Length0
      ensures Empty(probs, j, 0)
    {
      assert old(Empty(probs, j, 0));
    }
  }

  /**
    Fills the batch from sample `exampleId` on: each row goes on with the sample after the last one begun
    in the row before, and all the samples begun are counted.
   */
  method GetExampleTargetsBatch(s: Samples, o: Options, exampleId: nat, input: array2<Token>, probs: array3<real>)
    returns (used: nat, ghost firsts: seq<nat>, ghost rows: seq<seq<Token>>)
    requires s.Valid() && o.Valid()
    requires input.Length0 == probs.Length0 && input.Length1 == probs.Length1 > 0 && probs.Length2 == o.vocab
    modifies input, probs
    ensures |rows| == input.Length0 && |firsts| == |rows| + 1 && firsts[0] == exampleId
    ensures firsts[|rows|] == exampleId + used
    ensures forall k: nat :: k < |rows| ==> RowFrom(s, o, firsts[k], firsts[k + 1], rows[k], input, probs, k)
  {
    Clear(probs);
    used, firsts, rows := 0, [exampleId], [];
    var k := 0;
    while k < input.Length0
      invariant k <= input.Length0 && |rows| == k && |firsts| == k + 1
      invariant firsts[0] == exampleId && firsts[k] == exampleId + used
      invariant forall j: nat :: j < k ==> RowFrom(s, o, firsts[j], firsts[j + 1], rows[j], input, probs, j)
      invariant forall j: nat :: k <= j < probs.Length0 ==> Empty(probs, j, 0)
    {
      var started, row := FillNext(s, o, exampleId + used, k, input, probs, firsts, rows);
      used := used + started;
      rows, firsts := rows + [row], firsts + [exampleId + used];
      k := k + 1;
    }
  }
}
