/** Joining low-rank tensors along their first axis. */
module LoraJoining {
  import opened Wrappers
  import opened Tensors
  import opened LoraTensors
  import opened LoraOperations

  // ---------------------------------------------------------------------------------------------
  // Joining tensors

  predicate Joinable(t: Tensor, u: Tensor) {
    t.Valid() && u.Valid() && t.shape != [] && u.shape != [] && t.shape[1..] == u.shape[1..]
  }

  function JoinedAt(t: Tensor, u: Tensor, idx: Index): real
    requires Joinable(t, u) && Within([t.shape[0] + u.shape[0]] + t.shape[1..], idx)
  {
    var shape := [t.shape[0] + u.shape[0]] + t.shape[1..];
    assert forall i :: 0 <= i < |t.shape| - 1 ==> idx[1..][i] < shape[i + 1] == t.shape[1..][i];
    if idx[0] < t.shape[0] then PickAt(t, idx[0], idx[1..]) else PickAt(u, idx[0] - t.shape[0], idx[1..])
  }

  /** The elements of one tensor and then those of another along the first axis. */
  function Join(t: Tensor, u: Tensor): (j: Tensor)
    requires Joinable(t, u)
    ensures j.Valid() && j.shape == [t.shape[0] + u.shape[0]] + t.shape[1..]
    ensures forall idx {:trigger j.At(idx)} | Within(j.shape, idx) :: j.At(idx) == JoinedAt(t, u, idx)
  {
    var shape := [t.shape[0] + u.shape[0]] + t.shape[1..];
    Build(shape, idx requires Within(shape, idx) => JoinedAt(t, u, idx))
  }

  /** `j` is made up of `t` and `u`. */
  ghost predicate JoinedFrom(t: Tensor, u: Tensor, j: Tensor) {
    && Joinable(t, u)
    && j.Valid()
    && j.shape == [t.shape[0] + u.shape[0]] + t.shape[1..]
    && j.shape[1..] == t.shape[1..]
    && forall y: nat, idx {:trigger JoinedHere(t, u, j, y, idx)} :: JoinedHere(t, u, j, y, idx)
  }

  ghost predicate JoinedHere(t: Tensor, u: Tensor, j: Tensor, y: nat, idx: Index)
    requires Joinable(t, u) && j.Valid() && j.shape == [t.shape[0] + u.shape[0]] + t.shape[1..]
    requires j.shape[1..] == t.shape[1..]
  {
    y < j.shape[0] && Within(t.shape[1..], idx) ==>
      PickAt(j, y, idx) == if y < t.shape[0] then PickAt(t, y, idx) else PickAt(u, y - t.shape[0], idx)
  }

  lemma JoinIsJoined(t: Tensor, u: Tensor, j: Tensor)
    requires Joinable(t, u) && j == Join(t, u)
    ensures JoinedFrom(t, u, j)
  {
    assert j.shape[1..] == t.shape[1..];
    forall y: nat, idx
      ensures JoinedHere(t, u, j, y, idx)
    {
      if y < j.shape[0] && Within(t.shape[1..], idx) {
        TailWithin(j.shape, y, idx);
        assert ([y] + idx)[1..] == idx;
        assert j.At([y] + idx) == JoinedAt(t, u, [y] + idx);
      }
    }
  }

  /** What is joined can be sliced off again. */
  lemma JoinedSlices(t: Tensor, u: Tensor, j: Tensor)
    requires JoinedFrom(t, u, j)
    ensures SlicedFrom(j, Run(0, 1, t.shape[0]), t) && SlicedFrom(j, Run(t.shape[0], 1, u.shape[0]), u)
  {
    assert j.shape[1..] == t.shape[1..];
    var lower, upper := Run(0, 1, t.shape[0]), Run(t.shape[0], 1, u.shape[0]);
    forall y: nat, idx
      ensures SlicedHere(j, lower, t, y, idx)
    {
      assert JoinedHere(t, u, j, y, idx) && lower.Place(y) == y;
    }
    forall y: nat, idx
      ensures SlicedHere(j, upper, u, y, idx)
    {
      assert JoinedHere(t, u, j, y + t.shape[0], idx) && upper.Place(y) == y + t.shape[0];
    }
  }

  /** The slices of a tensor make it up. */
  lemma SlicesJoin(j: Tensor, m: nat, n: nat, t: Tensor, u: Tensor)
    requires SlicedFrom(j, Run(0, 1, m), t) && SlicedFrom(j, Run(m, 1, n), u) && j.shape[0] == m + n
    ensures Joinable(t, u) && Join(t, u) == j
  {
    assert t.shape[1..] == j.shape[1..] == u.shape[1..];
    var j' := Join(t, u);
    JoinIsJoined(t, u, j');
    assert j'.shape == j.shape;
    forall idx | Within(j.shape, idx)
      ensures j'.At(idx) == j.At(idx)
    {
      JoinedBack(j, m, n, t, u, j', idx[0], idx[1..]);
      assert idx == [idx[0]] + idx[1..];
    }
    SameTensor(j', j);
  }

  lemma JoinedBack(j: Tensor, m: nat, n: nat, t: Tensor, u: Tensor, j': Tensor, y: nat, idx: Index)
    requires SlicedFrom(j, Run(0, 1, m), t) && SlicedFrom(j, Run(m, 1, n), u) && j.shape[0] == m + n
    requires JoinedFrom(t, u, j') && j'.shape == j.shape && y < m + n && Within(j.shape[1..], idx)
    ensures PickAt(j', y, idx) == PickAt(j, y, idx)
  {
    if y < m {
      JoinedLower(t, u, j', y, idx);
      RunHere(j, Run(0, 1, m), t, y, y, idx);
    } else {
      JoinedUpper(t, u, j', y, idx);
      RunHere(j, Run(m, 1, n), u, y - m, y, idx);
    }
  }

  lemma JoinedLower(t: Tensor, u: Tensor, j: Tensor, y: nat, idx: Index)
    requires JoinedFrom(t, u, j) && y < t.shape[0] && Within(j.shape[1..], idx)
    ensures PickAt(j, y, idx) == PickAt(t, y, idx)
  {
    assert JoinedHere(t, u, j, y, idx);
  }

  lemma JoinedUpper(t: Tensor, u: Tensor, j: Tensor, y: nat, idx: Index)
    requires JoinedFrom(t, u, j) && t.shape[0] <= y < j.shape[0] && Within(j.shape[1..], idx)
    ensures PickAt(j, y, idx) == PickAt(u, y - t.shape[0], idx)
  {
    assert JoinedHere(t, u, j, y, idx);
  }

  /** At the place `x` of a run without gaps. */
  lemma RunHere(t: Tensor, run: Run, s: Tensor, y: nat, x: nat, idx: Index)
    requires SlicedFrom(t, run, s) && y < run.length && Within(t.shape[1..], idx) && run.step == 1 && x == run.from + y
    ensures x < t.shape[0] && PickAt(s, y, idx) == PickAt(t, x, idx)
  {
    assert SlicedHere(t, run, s, y, idx);
  }

  /** The tensors of a list, one after the other. */
  function Cat(ts: seq<Tensor>): (r: Result<Tensor, TensorError>)
    requires forall t :: t in ts ==> t.Valid()
    ensures r.Success? ==> r.value.Valid()
  {
    if ts == [] || ts[0].shape == [] then Failure(BadShape)
    else if |ts| == 1 then Success(ts[0])
    else
      var rest :- Cat(ts[1..]);
      if !Joinable(ts[0], rest) then Failure(BadShape) else Success(Join(ts[0], rest))
  }

  lemma CatMore(ts: seq<Tensor>, rest: seq<Tensor>, t: Tensor)
    requires (forall u :: u in ts ==> u.Valid()) && |ts| > 1 && rest == ts[1..] && Cat(rest) == Success(t) &&
             Joinable(ts[0], t)
    ensures Cat(ts) == Success(Join(ts[0], t))
  {
  }

  // ---------------------------------------------------------------------------------------------
  // Joining low-rank tensors

  /** `l` is made up of `m` and `n`, which share the factor `a` if they are matrices. */
  ghost predicate MadeUp(l: Lora, m: Lora, n: Lora) {
    && m.Fits()
    && n.Fits()
    && l.Fits()
    && |m.b.shape| == |n.b.shape|
    && JoinedFrom(m.b, n.b, l.b)
    && (if |m.b.shape| == 2 then m.a == n.a == l.a
        else
          && JoinedFrom(m.a, n.a, l.a)
          && m.a.shape[0] == m.b.shape[0]
          && n.a.shape[0] == n.b.shape[0])
  }

  lemma LowerPart(l: Lora, m: Lora, n: Lora, run: Run)
    requires MadeUp(l, m, n) && run == Run(0, 1, m.b.shape[0])
    ensures SlicedBoth(l, m, run, run) && run.Inside(l.b.shape[0])
  {
    JoinedSlices(m.b, n.b, l.b);
    if |m.b.shape| > 2 {
      JoinedSlices(m.a, n.a, l.a);
    }
  }

  lemma UpperPart(l: Lora, m: Lora, n: Lora, run: Run)
    requires MadeUp(l, m, n) && run == Run(m.b.shape[0], 1, n.b.shape[0])
    ensures SlicedBoth(l, n, run, run) && run.Inside(l.b.shape[0])
  {
    JoinedSlices(m.b, n.b, l.b);
    if |m.b.shape| > 2 {
      JoinedSlices(m.a, n.a, l.a);
    }
  }

  lemma UpperSlice(l: Lora, m: Lora, n: Lora, run: Run, dl: Tensor, dn: Tensor)
    requires MadeUp(l, m, n) && run == Run(m.b.shape[0], 1, n.b.shape[0]) && dl == Dense(l) && dn == Dense(n)
    ensures SlicedFrom(dl, run, dn)
  {
    UpperPart(l, m, n, run);
    SlicedDense(l, n, run, run, dl, dn);
  }

  lemma LowerSlice(l: Lora, m: Lora, n: Lora, run: Run, dl: Tensor, dm: Tensor)
    requires MadeUp(l, m, n) && run == Run(0, 1, m.b.shape[0]) && dl == Dense(l) && dm == Dense(m)
    ensures SlicedFrom(dl, run, dm) && dl.shape[0] == l.b.shape[0]
  {
    LowerPart(l, m, n, run);
    SlicedDense(l, m, run, run, dl, dm);
  }

  /** The product of what is joined joins the products. */
  lemma JoinCommutes(l: Lora, m: Lora, n: Lora)
    requires MadeUp(l, m, n)
    ensures Joinable(Dense(m), Dense(n)) && Dense(l) == Join(Dense(m), Dense(n))
  {
    var x, y := m.b.shape[0], n.b.shape[0];
    var dl, dm, dn := Dense(l), Dense(m), Dense(n);
    LowerSlice(l, m, n, Run(0, 1, x), dl, dm);
    UpperSlice(l, m, n, Run(x, 1, y), dl, dn);
    SlicesJoin(dl, x, y, dm, dn);
  }

  /** Matrices are joined if they share factor `a`; with more axes both factors are. */
  function LoraCat(ls: seq<Lora>): Result<Lora, TensorError>
    requires AllFit(ls)
  {
    FactorsValid(ls);
    if ls == [] then Failure(BadShape)
    else if |ls[0].b.shape| > 2 then
      var a :- Cat(FactorsA(ls));
      var b :- Cat(FactorsB(ls));
      Success(Lora(a, b))
    else if forall i :: 0 <= i < |ls| ==> ls[i].a == ls[0].a then
      var b :- Cat(FactorsB(ls));
      Success(Lora(ls[0].a, b))
    else Failure(NotImplemented)
  }

  /** All have as many axes, and with more than two as many matrices in both factors. */
  predicate Alike(ls: seq<Lora>)
    requires AllFit(ls)
  {
    forall i :: 0 <= i < |ls| ==>
      |ls[i].b.shape| == |ls[0].b.shape| && (|ls[i].b.shape| > 2 ==> ls[i].a.shape[0] == ls[i].b.shape[0])
  }

  lemma FactorsRest(ls: seq<Lora>)
    requires ls != []
    ensures FactorsA(ls)[1..] == FactorsA(ls[1..]) && FactorsB(ls)[1..] == FactorsB(ls[1..])
  {
  }

  lemma CatRest(ls: seq<Lora>, l: Lora) returns (rest: Lora)
    requires |ls| > 1 && AllFit(ls) && Alike(ls) && LoraCat(ls) == Success(l)
    ensures AllFit(ls[1..]) && Alike(ls[1..]) && LoraCat(ls[1..]) == Success(rest)
    ensures JoinedFrom(ls[0].b, rest.b, l.b)
    ensures if |ls[0].b.shape| > 2 then JoinedFrom(ls[0].a, rest.a, l.a) else ls[0].a == rest.a == l.a
  {
    FactorsValid(ls);
    FactorsValid(ls[1..]);
    FactorsRest(ls);
    rest := LoraCat(ls[1..]).value;
    JoinIsJoined(ls[0].b, rest.b, l.b);
    if |ls[0].b.shape| > 2 {
      JoinIsJoined(ls[0].a, rest.a, l.a);
    }
  }

  lemma {:induction false} CatFits(ls: seq<Lora>, l: Lora)
    requires ls != [] && AllFit(ls) && Alike(ls) && LoraCat(ls) == Success(l)
    ensures l.Fits() && |l.b.shape| == |ls[0].b.shape| && (|l.b.shape| > 2 ==> l.a.shape[0] == l.b.shape[0])
    decreases |ls|
  {
    if |ls| > 1 {
      var rest := CatRest(ls, l);
      CatFits(ls[1..], rest);
    }
  }

  /** Tensors can be joined just when they have the same axes after the first. */
  lemma {:induction false} CatWhen(ts: seq<Tensor>)
    requires forall t :: t in ts ==> t.Valid()
    ensures Cat(ts).Success? <==> Joins(ts)
    ensures Cat(ts).Success? ==> Cat(ts).value.shape != [] && Cat(ts).value.shape[1..] == ts[0].shape[1..]
    decreases |ts|
  {
    if |ts| > 1 {
      var rest := ts[1..];
      CatWhen(rest);
      if Joins(ts) {
        assert forall i :: 0 <= i < |rest| ==> rest[i] == ts[i + 1];
        assert Joins(rest);
      }
      if Cat(ts).Success? {
        assert forall i :: 0 < i < |ts| ==> ts[i] == rest[i - 1];
      }
    }
  }

  predicate Joins(ts: seq<Tensor>) {
    && ts != []
    && ts[0].shape != []
    && forall i :: 0 <= i < |ts| ==> ts[i].shape != [] && ts[i].shape[1..] == ts[0].shape[1..]
  }

  /**
    Low-rank tensors can be joined just when their factors have the same axes after the first; matrices,
    when they have the same factor `a` and the same rank.
   */
  lemma CatPossible(ls: seq<Lora>)
    requires AllFit(ls)
    ensures LoraCat(ls).Success? <==>
            && ls != []
            && (forall i :: 0 <= i < |ls| ==> ls[i].b.shape[1..] == ls[0].b.shape[1..])
            && (forall i :: 0 <= i < |ls| ==>
                 if |ls[0].b.shape| > 2 then ls[i].a.shape[1..] == ls[0].a.shape[1..] else ls[i].a == ls[0].a)
  {
    if ls != [] {
      FactorsValid(ls);
      CatWhen(FactorsA(ls));
      CatWhen(FactorsB(ls));
      JoinsA(ls);
      JoinsB(ls);
    }
  }

  lemma JoinsA(ls: seq<Lora>)
    requires AllFit(ls) && ls != []
    ensures Joins(FactorsA(ls)) <==> forall i :: 0 <= i < |ls| ==> ls[i].a.shape[1..] == ls[0].a.shape[1..]
  {
    var ts := FactorsA(ls);
    forall i | 0 <= i < |ls|
      ensures ts[i].shape != [] && (ts[i].shape[1..] == ts[0].shape[1..] <==> ls[i].a.shape[1..] == ls[0].a.shape[1..])
    {
      assert ts[i] == ls[i].a;
    }
  }

  lemma JoinsB(ls: seq<Lora>)
    requires AllFit(ls) && ls != []
    ensures Joins(FactorsB(ls)) <==> forall i :: 0 <= i < |ls| ==> ls[i].b.shape[1..] == ls[0].b.shape[1..]
  {
    var ts := FactorsB(ls);
    forall i | 0 <= i < |ls|
      ensures ts[i].shape != [] && (ts[i].shape[1..] == ts[0].shape[1..] <==> ls[i].b.shape[1..] == ls[0].b.shape[1..])
    {
      assert ts[i] == ls[i].b;
    }
  }

  /** Joining low-rank tensors joins their products. */
  lemma {:induction false} CatCommutes(ls: seq<Lora>)
    requires AllFit(ls) && Alike(ls)
    ensures var r := LoraCat(ls);
            r.Success? ==> r.value.Fits() && Cat(DenseAll(ls)) == Success(Dense(r.value))
    decreases |ls|
  {
    var r := LoraCat(ls);
    if r.Success? {
      CatFits(ls, r.value);
      if |ls| > 1 {
        var rest := CatRest(ls, r.value);
        CatFits(ls[1..], rest);
        CatCommutes(ls[1..]);
        CatStep(ls, r.value, rest);
      } else {
        assert DenseAll(ls) == [Dense(r.value)];
      }
    }
  }

  lemma DenseParts(ls: seq<Lora>, ts: seq<Tensor>, others: seq<Tensor>)
    requires |ls| > 1 && AllFit(ls) && AllFit(ls[1..]) && ts == DenseAll(ls) && others == DenseAll(ls[1..])
    ensures |ts| > 1 && ts[0] == Dense(ls[0]) && ts[1..] == others
  {
  }

  lemma CatFirst(ls: seq<Lora>, ts: seq<Tensor>, others: seq<Tensor>, first: Tensor, d: Tensor, whole: Tensor)
    requires |ls| > 1 && AllFit(ls) && AllFit(ls[1..]) && ts == DenseAll(ls) && others == DenseAll(ls[1..])
    requires first == Dense(ls[0]) && Cat(others) == Success(d) && Joinable(first, d) && whole == Join(first, d)
    ensures Cat(ts) == Success(whole)
  {
    DenseParts(ls, ts, others);
    CatMore(ts, others, d);
  }

  lemma CatStep(ls: seq<Lora>, l: Lora, rest: Lora)
    requires |ls| > 1 && AllFit(ls) && AllFit(ls[1..]) && MadeUp(l, ls[0], rest)
    requires Cat(DenseAll(ls[1..])) == Success(Dense(rest))
    ensures Cat(DenseAll(ls)) == Success(Dense(l))
  {
    var first, d, whole := Dense(ls[0]), Dense(rest), Dense(l);
    JoinCommutes(l, ls[0], rest);
    CatFirst(ls, DenseAll(ls), DenseAll(ls[1..]), first, d, whole);
  }
}
