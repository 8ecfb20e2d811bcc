/** The operations on low-rank tensors that permute, select and join, and what they do to the product. */
module LoraOperations {
  import opened Wrappers
  import opened Tensors
  import opened LoraTensors

  // ---------------------------------------------------------------------------------------------
  // Permuting

  /** The axes, of which negative ones count from the last. */
  function Axes(n: nat, dims: seq<int>): Result<seq<nat>, TensorError> {
    if exists i :: 0 <= i < |dims| && (dims[i] < -(n as int) || n <= dims[i]) then Failure(BadAxes)
    else Success(seq(|dims|, i requires 0 <= i < |dims| => Position(n, dims[i]) as nat))
  }

  /** Permutes the axes but the last, or transposes a matrix; nothing else is supported. */
  function LoraPermute(l: Lora, dims: seq<int>): (r: Result<Lora, TensorError>)
    requires l.Valid()
    ensures r.Success? ==> r.value.Valid() && r.value.Rank() == l.Rank()
  {
    var n := |l.b.shape|;
    var axes :- Axes(n, dims);
    if axes == [] then Failure(BadAxes)
    else if Last(axes) == n - 1 then
      if !AllOnes(Lead(l.a.shape)) then Failure(NotImplemented)
      else
        var b :- Permute(l.b, axes);
        Success(Lora(l.a, b))
    else if n == 2 && axes == [1, 0] then
      var a :- Permute(l.b, axes);
      Success(Lora(a, Permute(l.a, axes).value))
    else Failure(NotImplemented)
  }

  lemma FrontPermutation(axes: seq<nat>)
    requires axes != [] && IsPermutation(axes) && Last(axes) == |axes| - 1
    ensures IsPermutation(Front(axes))
  {
    var front, n := Front(axes), |axes| - 1;
    forall i | 0 <= i < n
      ensures front[i] < n
    {
      assert axes[i] != axes[n];
    }
    forall a | 0 <= a < n
      ensures a in front
    {
      assert a in axes;
      var i :| 0 <= i < |axes| && axes[i] == a;
      assert front[i] == a;
    }
  }

  /** If the last axis stays, so does the last part of the index. */
  lemma OriginSplit(axes: seq<nat>, row: Index, x: nat)
    requires axes != [] && IsPermutation(axes) && Last(axes) == |axes| - 1 && |row| == |axes| - 1
    requires IsPermutation(Front(axes))
    ensures Origin(axes, row + [x]) == Origin(Front(axes), row) + [x]
  {
    var n, front := |axes| - 1, Front(axes);
    var whole, part := Origin(axes, row + [x]), Origin(front, row);
    forall a | 0 <= a <= n
      ensures whole[a] == (part + [x])[a]
    {
      if a < n {
        var i := AxisOf(front, a);
        assert front[i] == axes[i] == a;
        assert whole[axes[i]] == (row + [x])[i] && part[front[i]] == row[i];
      } else {
        assert whole[axes[n]] == (row + [x])[n];
      }
    }
  }

  lemma PermutedFront(shape: Shape, axes: seq<nat>, x: nat)
    requires shape != [] && |axes| == |shape| && IsPermutation(axes) && Last(axes) == |axes| - 1
    requires IsPermutation(Front(axes))
    ensures PermutedShape(Front(shape) + [x], axes) == PermutedShape(Front(shape), Front(axes)) + [x]
    ensures PermutedShape(shape, axes) == PermutedShape(Front(shape), Front(axes)) + [Last(shape)]
  {
  }

  /** `p` is `t` with its axes permuted. */
  ghost predicate Permuted(t: Tensor, axes: seq<nat>, p: Tensor) {
    && t.Valid()
    && p.Valid()
    && |axes| == |t.shape|
    && IsPermutation(axes)
    && p.shape == PermutedShape(t.shape, axes)
    && forall idx {:trigger OriginAt(t, axes, idx)} | Within(p.shape, idx) :: p.At(idx) == OriginAt(t, axes, idx)
  }

  lemma PermutedIsPermute(t: Tensor, axes: seq<nat>, p: Tensor)
    requires Permuted(t, axes, p)
    ensures Permute(t, axes) == Success(p)
  {
    var q := Permute(t, axes).value;
    forall idx | Within(p.shape, idx)
      ensures p.At(idx) == q.At(idx)
    {
      assert p.At(idx) == OriginAt(t, axes, idx) == q.At(idx);
    }
    SameTensor(p, q);
  }

  /** The axes but the last of factor `b` are permuted, and factor `a` is one matrix. */
  ghost predicate RowsMoved(l: Lora, l': Lora, axes: seq<nat>) {
    && l.Fits()
    && l'.Fits()
    && l'.a == l.a
    && AllOnes(Lead(l.a.shape))
    && axes != []
    && Last(axes) == |axes| - 1
    && IsPermutation(Front(axes))
    && Permuted(l.b, axes, l'.b)
  }

  lemma RowTerm(l: Lora, l': Lora, axes: seq<nat>, row: Index, row': Index, col: nat, k: nat)
    requires RowsMoved(l, l', axes) && l.Rank() == l'.Rank()
    requires Within(Front(l.b.shape), row') && Within(Front(l'.b.shape), row) && row' == Origin(Front(axes), row)
    requires col < Last(l.a.shape) && k < l.Rank()
    ensures Term(l, row', col, k) == Term(l', row, col, k)
  {
    var lead := Lead(l.a.shape);
    assert Broadcast(lead, row) == Broadcast(lead, row');
    var at := Broadcast(lead, row) + [k, col];
    TermIs(l, row', col, k, row' + [k], at);
    TermIs(l', row, col, k, row + [k], at);
    RowAt(l.b, l'.b, axes, row, row', k);
  }

  lemma RowAt(t: Tensor, p: Tensor, axes: seq<nat>, row: Index, row': Index, k: nat)
    requires Permuted(t, axes, p) && axes != [] && Last(axes) == |axes| - 1 && IsPermutation(Front(axes))
    requires |row| == |axes| - 1 && row' == Origin(Front(axes), row) && Within(p.shape, row + [k])
    ensures Within(t.shape, row' + [k]) && p.At(row + [k]) == t.At(row' + [k])
  {
    OriginSplit(axes, row, k);
    PermutedAt(t, axes, p, row + [k], row' + [k]);
  }

  lemma PermutedAt(t: Tensor, axes: seq<nat>, p: Tensor, idx: Index, from: Index)
    requires Permuted(t, axes, p) && Within(p.shape, idx) && from == Origin(axes, idx)
    ensures Within(t.shape, from) && p.At(idx) == t.At(from)
  {
    OriginWithin(t.shape, axes, idx);
    assert p.At(idx) == OriginAt(t, axes, idx);
  }

  lemma RowsShape(l: Lora, l': Lora, axes: seq<nat>)
    requires RowsMoved(l, l', axes)
    ensures l.Rank() == l'.Rank() && PermutedShape(l.ShapeOf(), axes) == l'.ShapeOf()
  {
    PermutedFront(l.b.shape, axes, Last(l.a.shape));
    assert Front(l'.b.shape) == PermutedShape(Front(l.b.shape), Front(axes));
  }

  lemma RowOrigin(l: Lora, l': Lora, axes: seq<nat>, idx: Index) returns (row': Index)
    requires RowsMoved(l, l', axes) && Within(l'.ShapeOf(), idx) && PermutedShape(l.ShapeOf(), axes) == l'.ShapeOf()
    ensures Within(l.ShapeOf(), Origin(axes, idx))
    ensures row' == Front(Origin(axes, idx)) == Origin(Front(axes), Front(idx)) && Last(Origin(axes, idx)) == Last(idx)
  {
    assert idx == Front(idx) + [Last(idx)];
    OriginSplit(axes, Front(idx), Last(idx));
    OriginWithin(l.ShapeOf(), axes, idx);
    row' := Front(Origin(axes, idx));
  }

  /** Permuting all axes but the last of factor `b` permutes those of the product. */
  lemma RowsPermuted(l: Lora, l': Lora, axes: seq<nat>, idx: Index)
    requires RowsMoved(l, l', axes) && Within(l'.ShapeOf(), idx) && PermutedShape(l.ShapeOf(), axes) == l'.ShapeOf()
    ensures OriginAt(Dense(l), axes, idx) == Entry(l', idx)
  {
    RowsShape(l, l', axes);
    var row' := RowOrigin(l, l', axes, idx);
    EntryWithin(l', idx);
    EntryWithin(l, Origin(axes, idx));
    forall k: nat | k < l.Rank()
      ensures Term(l, row', Last(idx), k) == Term(l', Front(idx), Last(idx), k)
    {
      RowTerm(l, l', axes, Front(idx), row', Last(idx), k);
    }
    SameDot(l, l', row', Front(idx), Last(idx), Last(idx), l.Rank());
  }

  lemma TwoAxes(axes: seq<nat>, x: nat, y: nat)
    requires axes == [1, 0] && IsPermutation(axes)
    ensures Origin(axes, [x, y]) == [y, x]
  {
    var o := Origin(axes, [x, y]);
    assert o[axes[0]] == x && o[axes[1]] == y;
  }

  /** Both factors are transposed and exchanged. */
  ghost predicate Exchanged(l: Lora, l': Lora, axes: seq<nat>) {
    l.Fits() && l'.Fits() && |l.b.shape| == 2 && axes == [1, 0] && Permuted(l.b, axes, l'.a) &&
      Permuted(l.a, axes, l'.b)
  }

  /** The summands of a product of two matrices. */
  lemma MatrixTerm(l: Lora, row: nat, col: nat, k: nat)
    requires l.Fits() && |l.b.shape| == 2 && row < l.b.shape[0] && col < l.a.shape[1] && k < l.Rank()
    ensures Within(Front(l.b.shape), [row]) && Within(l.b.shape, [row, k]) && Within(l.a.shape, [k, col])
    ensures Term(l, [row], col, k) == l.b.At([row, k]) * l.a.At([k, col])
  {
    TermWithin(l, [row], col, k);
    assert [row] + [k] == [row, k];
    assert Broadcast(Lead(l.a.shape), [row]) == [];
    assert [] + [k, col] == [k, col];
  }

  lemma TransposedTerm(l: Lora, l': Lora, axes: seq<nat>, i: nat, j: nat, k: nat)
    requires Exchanged(l, l', axes) && i < l.a.shape[1] && j < l.b.shape[0] && k < l.Rank() == l'.Rank()
    requires l'.b.shape[0] == l.a.shape[1] && l'.a.shape[1] == l.b.shape[0]
    ensures Within(Front(l.b.shape), [j]) && Within(Front(l'.b.shape), [i])
    ensures Term(l, [j], i, k) == Term(l', [i], j, k)
  {
    MatrixTerm(l, j, i, k);
    MatrixTerm(l', i, j, k);
    TransposedAt(l.a, l'.b, axes, i, k);
    TransposedAt(l.b, l'.a, axes, k, j);
  }

  lemma TransposedAt(t: Tensor, t': Tensor, axes: seq<nat>, x: nat, y: nat)
    requires Permuted(t, axes, t') && axes == [1, 0] && IsPermutation(axes)
    requires Within(t'.shape, [x, y]) && Within(t.shape, [y, x])
    ensures t'.At([x, y]) == t.At([y, x])
  {
    TwoAxes(axes, x, y);
    PermutedAt(t, axes, t', [x, y], [y, x]);
  }

  /** Transposing both factors and exchanging them transposes the product. */
  lemma Transposed(l: Lora, l': Lora, axes: seq<nat>, idx: Index)
    requires Exchanged(l, l', axes) && Within(l'.ShapeOf(), idx) && PermutedShape(l.ShapeOf(), axes) == l'.ShapeOf()
    ensures OriginAt(Dense(l), axes, idx) == Entry(l', idx)
  {
    var i, j := idx[0], idx[1];
    EntryWithin(l', idx);
    assert idx == [i, j] && Front(idx) == [i] && Last(idx) == j;
    TwoAxes(axes, i, j);
    OriginWithin(l.ShapeOf(), axes, idx);
    EntryWithin(l, [j, i]);
    assert Front([j, i]) == [j] && Last([j, i]) == i;
    forall k: nat | k < l.Rank()
      ensures Term(l, [j], i, k) == Term(l', [i], j, k)
    {
      TransposedTerm(l, l', axes, i, j, k);
    }
    SameDot(l, l', [j], [i], i, j, l.Rank());
  }

  /**
    The axes can be permuted if the last one stays and `a` is a single matrix for all of `b`; and a
    matrix can be transposed.
   */
  lemma PermutePossible(l: Lora, axes: seq<nat>)
    requires l.Fits() && (forall i :: 0 <= i < |axes| ==> axes[i] < |l.b.shape|)
    ensures var n := |l.b.shape|;
            LoraPermute(l, axes).Success? <==>
              && |axes| == n
              && (forall i, j :: 0 <= i < j < n ==> axes[i] != axes[j])
              && (axes[n - 1] == n - 1 ==> forall i :: 0 <= i < n - 2 ==> l.a.shape[i] == 1)
              && (axes[n - 1] != n - 1 ==> n == 2)
  {
    var n := |l.b.shape|;
    PermuteWhen(l, axes);
    if |axes| == n && forall i, j :: 0 <= i < j < n ==> axes[i] != axes[j] {
      AllAxes(axes);
      assert axes[n - 1] != n - 1 && n == 2 ==> axes == [1, 0];
    }
  }

  lemma PermuteWhen(l: Lora, axes: seq<nat>)
    requires l.Fits() && (forall i :: 0 <= i < |axes| ==> axes[i] < |l.b.shape|)
    ensures var n := |l.b.shape|;
            LoraPermute(l, axes).Success? <==>
              && |axes| == n
              && IsPermutation(axes)
              && (if axes[n - 1] == n - 1 then forall i :: 0 <= i < n - 2 ==> l.a.shape[i] == 1
                  else n == 2 && axes == [1, 0])
  {
    var n := |l.b.shape|;
    AxesAreThey(n, axes);
    LeadOnes(l.a.shape);
  }

  lemma LeadOnes(shape: Shape)
    requires |shape| >= 2
    ensures AllOnes(Lead(shape)) <==> forall i :: 0 <= i < |shape| - 2 ==> shape[i] == 1
  {
    assert forall i :: 0 <= i < |shape| - 2 ==> Lead(shape)[i] == shape[i];
  }

  /** A negative axis counts from the last. */
  lemma NegativeAxes(l: Lora, dims: seq<int>, axes: seq<nat>)
    requires l.Fits() && |dims| == |axes| && (forall i :: 0 <= i < |axes| ==> axes[i] < |l.b.shape|)
    requires forall i :: 0 <= i < |axes| ==> dims[i] == axes[i] || dims[i] == axes[i] - |l.b.shape|
    ensures LoraPermute(l, dims) == LoraPermute(l, axes)
  {
    var n := |l.b.shape|;
    AxesAreThey(n, axes);
    var r := Axes(n, dims).value;
    assert r == axes;
  }

  lemma AxesAreThey(n: nat, axes: seq<nat>)
    requires forall i :: 0 <= i < |axes| ==> axes[i] < n
    ensures Axes(n, axes) == Success(axes)
  {
    var r := Axes(n, axes).value;
    assert r == axes;
  }

  /** As many different axes as there are are all of them. */
  lemma AllAxes(axes: seq<nat>)
    requires forall i :: 0 <= i < |axes| ==> axes[i] < |axes|
    requires forall i, j :: 0 <= i < j < |axes| ==> axes[i] != axes[j]
    ensures IsPermutation(axes)
  {
    var n := |axes|;
    var named := set i | 0 <= i < n :: axes[i];
    Counted(n);
    Different(axes, n, named);
    assert named <= Below(n) && |named| == |Below(n)|;
    SameSize(named, Below(n));
    forall a | 0 <= a < n
      ensures a in axes
    {
      assert a in Below(n) && a in named;
    }
  }

  function Below(n: nat): set<nat> {
    if n == 0 then {} else Below(n - 1) + {n - 1}
  }

  lemma {:induction false} Counted(n: nat)
    ensures |Below(n)| == n && forall a: nat :: a in Below(n) <==> a < n
    decreases n
  {
    if n > 0 {
      Counted(n - 1);
    }
  }

  lemma {:induction false} Different(axes: seq<nat>, n: nat, named: set<nat>)
    requires n <= |axes| && (forall i, j :: 0 <= i < j < |axes| ==> axes[i] != axes[j])
    requires named == set i | 0 <= i < n :: axes[i]
    ensures |named| == n
    decreases n
  {
    if n > 0 {
      var fewer := set i | 0 <= i < n - 1 :: axes[i];
      Different(axes, n - 1, fewer);
      assert named == fewer + {axes[n - 1]};
    }
  }

  lemma SameSize(a: set<nat>, b: set<nat>)
    requires a <= b && |a| == |b|
    ensures a == b
  {
    assert |b - a| == 0;
  }

  /** Permuting a low-rank tensor permutes the product. */
  lemma PermuteCommutes(l: Lora, dims: seq<int>)
    requires l.Fits()
    ensures var r := LoraPermute(l, dims);
            r.Success? ==>
              && r.value.Fits()
              && Axes(|l.b.shape|, dims).Success?
              && Permute(Dense(l), Axes(|l.b.shape|, dims).value) == Success(Dense(r.value))
  {
    var r := LoraPermute(l, dims);
    if r.Success? {
      var axes := Axes(|l.b.shape|, dims).value;
      if Last(axes) == |l.b.shape| - 1 {
        PermuteRows(l, r.value, axes);
      } else {
        PermuteBoth(l, r.value, axes);
      }
    }
  }

  lemma PermuteRows(l: Lora, l': Lora, axes: seq<nat>)
    requires l.Fits() && l'.a == l.a && AllOnes(Lead(l.a.shape)) && axes != [] && Last(axes) == |l.b.shape| - 1
    requires Permute(l.b, axes) == Success(l'.b)
    ensures l'.Fits() && Permute(Dense(l), axes) == Success(Dense(l'))
  {
    FrontPermutation(axes);
    PermutedFront(l.b.shape, axes, Last(l.a.shape));
    assert l'.Fits() by {
      assert forall i :: 0 <= i < |l.a.shape| - 2 ==> l.a.shape[i] == Lead(l.a.shape)[i];
    }
    assert RowsMoved(l, l', axes);
    RowsShape(l, l', axes);
    forall idx | Within(l'.ShapeOf(), idx)
      ensures Dense(l').At(idx) == OriginAt(Dense(l), axes, idx)
    {
      RowsPermuted(l, l', axes, idx);
    }
    PermutedIsPermute(Dense(l), axes, Dense(l'));
  }

  lemma PermuteBoth(l: Lora, l': Lora, axes: seq<nat>)
    requires l.Fits() && |l.b.shape| == 2 && axes == [1, 0]
    requires Permute(l.b, axes) == Success(l'.a) && Permute(l.a, axes) == Success(l'.b)
    ensures l'.Fits() && Permute(Dense(l), axes) == Success(Dense(l'))
  {
    assert Exchanged(l, l', axes);
    assert PermutedShape(l.ShapeOf(), axes) == l'.ShapeOf();
    forall idx | Within(l'.ShapeOf(), idx)
      ensures Dense(l').At(idx) == OriginAt(Dense(l), axes, idx)
    {
      Transposed(l, l', axes, idx);
    }
    PermutedIsPermute(Dense(l), axes, Dense(l'));
  }

  // ---------------------------------------------------------------------------------------------
  // Selecting along the first axis

  /** One element of the first axis, which must not leave a vector. */
  function LoraPick(l: Lora, i: int): (r: Result<Lora, TensorError>)
    requires l.Valid()
  {
    if |l.b.shape| <= 2 then Failure(NotImplemented)
    else
      var a :- Pick(l.a, i);
      var b :- Pick(l.b, i);
      Success(Lora(a, b))
  }

  /** A slice of the first axis: of both factors, but of rows of a matrix only of `b`. */
  function LoraSlice(l: Lora, slicing: Slicing): (r: Result<Lora, TensorError>)
    requires l.Valid()
  {
    if |l.b.shape| > 2 then
      var a :- Slice(l.a, slicing);
      var b :- Slice(l.b, slicing);
      Success(Lora(a, b))
    else
      var b :- Slice(l.b, slicing);
      Success(Lora(l.a, b))
  }

  /** `p` is what `t` has at place `x` of its first axis. */
  ghost predicate PickedFrom(t: Tensor, x: nat, p: Tensor) {
    && t.Valid()
    && t.shape != []
    && x < t.shape[0]
    && p.Valid()
    && p.shape == t.shape[1..]
    && forall idx {:trigger PickAt(t, x, idx)} | Within(p.shape, idx) :: p.At(idx) == PickAt(t, x, idx)
  }

  lemma PickedAt(t: Tensor, x: nat, p: Tensor, idx: Index, whole: Index)
    requires PickedFrom(t, x, p) && Within(p.shape, idx) && whole == [x] + idx
    ensures Within(t.shape, whole) && p.At(idx) == t.At(whole)
  {
    TailWithin(t.shape, x, idx);
    assert p.At(idx) == PickAt(t, x, idx);
  }

  /** The factors of `l'` are those of `l` at a place of their first axis, the only one if there is one. */
  ghost predicate PickedBoth(l: Lora, l': Lora, x: nat, xa: nat) {
    && l.Fits()
    && l'.Fits()
    && |l.b.shape| > 2
    && PickedFrom(l.a, xa, l'.a)
    && PickedFrom(l.b, x, l'.b)
    && xa == if l.a.shape[0] == 1 then 0 else x
  }

  lemma BroadcastPicked(lead: Shape, x: nat, xa: nat, row: Index)
    requires lead != [] && |lead| <= |row| + 1 && xa == if lead[0] == 1 then 0 else x
    ensures Broadcast(lead, [x] + row) == [xa] + Broadcast(lead[1..], row)
  {
  }

  lemma PickedShapes(l: Lora, l': Lora, x: nat, xa: nat)
    requires PickedBoth(l, l', x, xa)
    ensures l.Rank() == l'.Rank() && Last(l.a.shape) == Last(l'.a.shape) && l'.ShapeOf() == l.ShapeOf()[1..]
    ensures Front(l.b.shape) == [l.b.shape[0]] + Front(l'.b.shape)
    ensures Lead(l'.a.shape) == Lead(l.a.shape)[1..] && Lead(l.a.shape)[0] == l.a.shape[0]
  {
  }

  lemma PickedTerm(l: Lora, l': Lora, x: nat, xa: nat, row: Index, col: nat, k: nat)
    requires PickedBoth(l, l', x, xa) && Within(Front(l'.b.shape), row) && col < Last(l.a.shape) && k < l.Rank()
    requires l.Rank() == l'.Rank() && Last(l.a.shape) == Last(l'.a.shape)
    requires Front(l.b.shape) == [l.b.shape[0]] + Front(l'.b.shape)
    requires Lead(l'.a.shape) == Lead(l.a.shape)[1..] && Lead(l.a.shape)[0] == l.a.shape[0]
    ensures Within(Front(l.b.shape), [x] + row) && Term(l, [x] + row, col, k) == Term(l', row, col, k)
  {
    var inA, inB := Broadcast(Lead(l'.a.shape), row) + [k, col], row + [k];
    var wholeA, wholeB := Broadcast(Lead(l.a.shape), [x] + row) + [k, col], [x] + row + [k];
    TermIs(l', row, col, k, inB, inA);
    BroadcastPicked(Lead(l.a.shape), x, xa, row);
    PickedAt(l.a, xa, l'.a, inA, wholeA);
    PickedAt(l.b, x, l'.b, inB, wholeB);
    TermIs(l, [x] + row, col, k, wholeB, wholeA);
  }

  /** At place `x` of the first axis of `l` there is what `l'` stands for. */
  lemma PickedEntry(l: Lora, l': Lora, x: nat, xa: nat, idx: Index)
    requires PickedBoth(l, l', x, xa) && Within(l'.ShapeOf(), idx)
    ensures Within(l.ShapeOf(), [x] + idx) && Entry(l, [x] + idx) == Entry(l', idx)
  {
    PickedShapes(l, l', x, xa);
    TailWithin(l.ShapeOf(), x, idx);
    EntryWithin(l, [x] + idx);
    EntryWithin(l', idx);
    assert Front([x] + idx) == [x] + Front(idx) && Last([x] + idx) == Last(idx);
    forall k: nat | k < l.Rank()
      ensures Term(l, [x] + Front(idx), Last(idx), k) == Term(l', Front(idx), Last(idx), k)
    {
      PickedTerm(l, l', x, xa, Front(idx), Last(idx), k);
    }
    SameDot(l, l', [x] + Front(idx), Front(idx), Last(idx), Last(idx), l.Rank());
  }

  /**
    Picking from both factors picks from the product. It can be done for each place of the product if
    the factors are of the same length, and otherwise just for the first and the last one.
   */
  lemma PickCommutes(l: Lora, i: int)
    requires l.Fits() && |l.b.shape| > 2
    ensures var r := LoraPick(l, i);
            && (r.Success? <==> Pick(Dense(l), i).Success? && (l.a.shape[0] == l.b.shape[0] || i == 0 || i == -1))
            && (r.Success? ==> r.value.Fits() && Pick(Dense(l), i) == Success(Dense(r.value)))
  {
    var r := LoraPick(l, i);
    assert l.ShapeOf()[0] == l.b.shape[0];
    if r.Success? {
      var l' := r.value;
      var x, xa := Position(l.b.shape[0], i), Position(l.a.shape[0], i);
      assert PickedBoth(l, l', x, xa);
      var p := Pick(Dense(l), i).value;
      PickedShapes(l, l', x, xa);
      forall idx | Within(p.shape, idx)
        ensures p.At(idx) == Dense(l').At(idx)
      {
        PickedEntry(l, l', x, xa, idx);
        assert p.At(idx) == PickAt(Dense(l), x, idx);
      }
      SameTensor(p, Dense(l'));
    }
  }

  /** `s` has along its first axis what `t` has at the places of the run. */
  ghost predicate SlicedFrom(t: Tensor, run: Run, s: Tensor) {
    && t.Valid()
    && t.shape != []
    && s.Valid()
    && s.shape == [run.length] + t.shape[1..]
    && s.shape[1..] == t.shape[1..]
    && forall y: nat, idx {:trigger SlicedHere(t, run, s, y, idx)} :: SlicedHere(t, run, s, y, idx)
  }

  ghost predicate SlicedHere(t: Tensor, run: Run, s: Tensor, y: nat, idx: Index)
    requires t.Valid() && t.shape != [] && s.Valid() && s.shape != [] && s.shape[1..] == t.shape[1..]
  {
    y < s.shape[0] && Within(t.shape[1..], idx) ==>
      run.Place(y) < t.shape[0] && PickAt(s, y, idx) == PickAt(t, run.Place(y), idx)
  }

  lemma TakeIsSliced(t: Tensor, run: Run, s: Tensor)
    requires t.Valid() && t.shape != [] && run.Inside(t.shape[0]) && s == Take(t, run)
    ensures SlicedFrom(t, run, s)
  {
    assert s.shape[1..] == t.shape[1..];
    forall y: nat, idx
      ensures SlicedHere(t, run, s, y, idx)
    {
      if y < s.shape[0] && Within(t.shape[1..], idx) {
        TailWithin(s.shape, y, idx);
        var whole := [y] + idx;
        assert whole[1..] == idx;
        assert s.At(whole) == PickAt(t, run.Place(y), whole[1..]);
      }
    }
  }

  lemma SlicedIsTake(t: Tensor, run: Run, s: Tensor)
    requires SlicedFrom(t, run, s) && run.Inside(t.shape[0])
    ensures Take(t, run) == s
  {
    var u := Take(t, run);
    assert s.shape[1..] == t.shape[1..];
    forall idx | Within(s.shape, idx)
      ensures s.At(idx) == u.At(idx)
    {
      assert idx == [idx[0]] + idx[1..];
      assert u.At(idx) == PickAt(t, run.Place(idx[0]), idx[1..]);
      assert SlicedHere(t, run, s, idx[0], idx[1..]);
    }
    SameTensor(s, u);
  }

  /** The runs along the first axes of the factors go together: they are the same, or the only matrix of `a` is kept. */
  predicate Paired(rows: nat, rowsA: nat, run: Run, runA: Run) {
    || (rowsA == rows && runA == run)
    || (rowsA == 1 && runA.length == 1 && runA.from == 0)
    || run.length == 0
  }

  ghost predicate SlicedBoth(l: Lora, l': Lora, run: Run, runA: Run) {
    && l.Fits()
    && l'.Fits()
    && SlicedFrom(l.b, run, l'.b)
    && (if |l.b.shape| > 2 then SlicedFrom(l.a, runA, l'.a) && Paired(l.b.shape[0], l.a.shape[0], run, runA)
        else l'.a == l.a)
  }

  lemma SlicePicked(t: Tensor, run: Run, s: Tensor, y: nat, p: Tensor)
    requires SlicedFrom(t, run, s) && y < s.shape[0] && PickedFrom(t, run.Place(y), p)
    ensures PickedFrom(s, y, p)
  {
    assert s.shape[1..] == t.shape[1..];
    forall idx | Within(p.shape, idx)
      ensures p.At(idx) == PickAt(s, y, idx)
    {
      assert p.At(idx) == PickAt(t, run.Place(y), idx);
      assert SlicedHere(t, run, s, y, idx);
    }
  }

  /** What is picked from a slice is picked from the whole. */
  lemma SlicedPick(l: Lora, l': Lora, run: Run, runA: Run, y: nat, x: nat, xa: nat, ya: nat) returns (sub: Lora)
    requires SlicedBoth(l, l', run, runA) && |l.b.shape| > 2 && y < l'.b.shape[0] && x == run.Place(y) < l.b.shape[0]
    requires xa == if l.a.shape[0] == 1 then 0 else x
    requires ya == if l'.a.shape[0] == 1 then 0 else y
    ensures PickedBoth(l, sub, x, xa) && PickedBoth(l', sub, y, ya)
  {
    assert xa == runA.Place(ya);
    sub := Lora(Pick(l.a, xa).value, Pick(l.b, x).value);
    SlicePicked(l.a, runA, l'.a, ya, sub.a);
    SlicePicked(l.b, run, l'.b, y, sub.b);
  }

  /** What a slice stands for at place `y` of the first axis is what the whole does at the `y`-th place of the run. */
  lemma SlicedEntry(l: Lora, l': Lora, run: Run, runA: Run, y: nat, x: nat, idx: Index)
    requires SlicedBoth(l, l', run, runA) && |l.b.shape| > 2 && y < l'.b.shape[0] && Within(l.ShapeOf()[1..], idx)
    requires x == run.Place(y) < l.b.shape[0]
    ensures Within(l.ShapeOf(), [x] + idx) && Within(l'.ShapeOf(), [y] + idx)
    ensures Entry(l', [y] + idx) == Entry(l, [x] + idx)
  {
    var xa, ya := if l.a.shape[0] == 1 then 0 else x, if l'.a.shape[0] == 1 then 0 else y;
    var sub := SlicedPick(l, l', run, runA, y, x, xa, ya);
    PickedShapes(l, sub, x, xa);
    PickedEntry(l, sub, x, xa, idx);
    PickedEntry(l', sub, y, ya, idx);
  }

  lemma SlicedTerm(l: Lora, l': Lora, run: Run, runA: Run, y: nat, x: nat, col: nat, k: nat)
    requires SlicedBoth(l, l', run, runA) && |l.b.shape| == 2 && x == run.Place(y) < l.b.shape[0]
    requires y < l'.b.shape[0] && col < l.a.shape[1] && k < l.Rank()
    ensures Within(Front(l.b.shape), [x]) && Within(Front(l'.b.shape), [y])
    ensures Term(l, [x], col, k) == Term(l', [y], col, k)
  {
    MatrixTerm(l', y, col, k);
    assert SlicedHere(l.b, run, l'.b, y, [k]);
    MatrixTerm(l, x, col, k);
    assert [x] + [k] == [x, k] && [y] + [k] == [y, k];
  }

  lemma MatrixEntry(l: Lora, x: nat, col: nat)
    requires l.Fits() && |l.b.shape| == 2 && x < l.b.shape[0] && col < l.a.shape[1]
    ensures Within(l.ShapeOf(), [x, col]) && Within(Front(l.b.shape), [x])
    ensures Entry(l, [x, col]) == Dot(l, [x], col, l.Rank())
  {
    EntryWithin(l, [x, col]);
    assert Front([x, col]) == [x];
  }

  lemma SlicedRow(l: Lora, l': Lora, run: Run, runA: Run, y: nat, x: nat, col: nat)
    requires SlicedBoth(l, l', run, runA) && |l.b.shape| == 2 && y < l'.b.shape[0] && col < l.a.shape[1]
    requires x == run.Place(y) < l.b.shape[0]
    ensures Within(l.ShapeOf(), [x, col]) && Within(l'.ShapeOf(), [y, col])
    ensures Entry(l', [y, col]) == Entry(l, [x, col])
  {
    MatrixEntry(l', y, col);
    MatrixEntry(l, x, col);
    forall k: nat | k < l.Rank()
      ensures Term(l, [x], col, k) == Term(l', [y], col, k)
    {
      SlicedTerm(l, l', run, runA, y, x, col, k);
    }
    SameDot(l, l', [x], [y], col, col, l.Rank());
  }

  lemma SlicedPlace(l: Lora, l': Lora, run: Run, runA: Run, y: nat, x: nat, idx: Index)
    requires SlicedBoth(l, l', run, runA) && y < l'.b.shape[0] && Within(l.ShapeOf()[1..], idx)
    requires x == run.Place(y) < l.b.shape[0]
    ensures Within(l.ShapeOf(), [x] + idx) && Within(l'.ShapeOf(), [y] + idx)
    ensures Entry(l', [y] + idx) == Entry(l, [x] + idx)
  {
    if |l.b.shape| > 2 {
      SlicedEntry(l, l', run, runA, y, x, idx);
    } else {
      SlicedRow(l, l', run, runA, y, x, idx[0]);
      assert [y] + idx == [y, idx[0]] && [x] + idx == [x, idx[0]];
    }
  }

  lemma DensePicked(l: Lora, x: nat, idx: Index)
    requires l.Fits() && x < l.b.shape[0] && Within(l.ShapeOf(), [x] + idx) && Within(l.ShapeOf()[1..], idx)
    ensures PickAt(Dense(l), x, idx) == Entry(l, [x] + idx)
  {
    assert Dense(l).At([x] + idx) == Entry(l, [x] + idx);
  }

  lemma SlicedShape(l: Lora, l': Lora, run: Run, runA: Run)
    requires SlicedBoth(l, l', run, runA)
    ensures l'.ShapeOf() == [run.length] + l.ShapeOf()[1..]
    ensures l'.ShapeOf()[1..] == l.ShapeOf()[1..] && l.ShapeOf()[0] == l.b.shape[0] && l'.ShapeOf()[0] == l'.b.shape[0]
  {
  }

  lemma SlicedDense(l: Lora, l': Lora, run: Run, runA: Run, d: Tensor, d': Tensor)
    requires SlicedBoth(l, l', run, runA) && run.Inside(l.b.shape[0]) && d == Dense(l) && d' == Dense(l')
    ensures SlicedFrom(d, run, d')
  {
    SlicedShape(l, l', run, runA);
    forall y: nat, idx
      ensures SlicedHere(d, run, d', y, idx)
    {
      if y < d'.shape[0] && Within(d.shape[1..], idx) {
        SlicedDenseAt(l, l', run, runA, y, run.Place(y), idx);
      }
    }
  }

  lemma SlicedDenseAt(l: Lora, l': Lora, run: Run, runA: Run, y: nat, x: nat, idx: Index)
    requires SlicedBoth(l, l', run, runA) && y < Dense(l').shape[0] && Within(Dense(l).shape[1..], idx)
    requires x == run.Place(y) < l.b.shape[0]
    ensures SlicedHere(Dense(l), run, Dense(l'), y, idx)
  {
    SlicedShape(l, l', run, runA);
    SlicedPlace(l, l', run, runA, y, x, idx);
    DensePicked(l, x, idx);
    DensePicked(l', y, idx);
  }

  /**
    The factors of a slice fit together: always for a matrix. With more axes just when those of the whole
    are of the same length, the slice keeps the only matrix of `a`, or it is empty.
   */
  predicate SliceFits(l: Lora, slicing: Slicing)
    requires l.Fits() && slicing.Step() > 0
  {
    || |l.b.shape| == 2
    || l.a.shape[0] == l.b.shape[0]
    || RunOf(1, slicing).length == 1
    || RunOf(l.b.shape[0], slicing).length == 0
  }

  /** A slice of a single place is that place or nothing. */
  lemma RunOfOne(slicing: Slicing)
    requires slicing.Step() > 0
    ensures var r := RunOf(1, slicing); r.length == 0 || (r.length == 1 && r.from == 0)
  {
    var r := RunOf(1, slicing);
    assert r.Place(0) == r.from && r.Place(1) == r.from + r.step;
  }

  lemma SlicesFit(l: Lora, l': Lora, slicing: Slicing)
    requires l.Fits() && slicing.Step() > 0 && SlicedFrom(l.b, RunOf(l.b.shape[0], slicing), l'.b)
    requires if |l.b.shape| > 2 then SlicedFrom(l.a, RunOf(l.a.shape[0], slicing), l'.a) else l'.a == l.a
    ensures l'.Fits() <==> SliceFits(l, slicing)
    ensures l'.Fits() ==> SlicedBoth(l, l', RunOf(l.b.shape[0], slicing), RunOf(l.a.shape[0], slicing))
  {
    var n := |l.b.shape|;
    RunOfOne(slicing);
    assert forall i :: 0 < i < n ==> l'.b.shape[i] == l.b.shape[i];
    if n > 2 {
      assert forall i :: 0 < i < n ==> l'.a.shape[i] == l.a.shape[i];
      assert l'.Fits() <==> l'.a.shape[0] == 1 || l'.a.shape[0] == l'.b.shape[0];
    }
  }

  /** Slicing slices the product, with whatever bounds and step, just when the factors of the slice fit together. */
  lemma SliceCommutes(l: Lora, slicing: Slicing)
    requires l.Fits()
    ensures var r := LoraSlice(l, slicing);
            && (r.Success? <==> slicing.Step() > 0)
            && (r.Success? ==> (r.value.Fits() <==> SliceFits(l, slicing)))
            && (r.Success? && r.value.Fits() ==> Slice(Dense(l), slicing) == Success(Dense(r.value)))
  {
    if slicing.Step() > 0 {
      var l' := LoraSlice(l, slicing).value;
      var run, runA := RunOf(l.b.shape[0], slicing), RunOf(l.a.shape[0], slicing);
      TakeIsSliced(l.b, run, l'.b);
      if |l.b.shape| > 2 {
        TakeIsSliced(l.a, runA, l'.a);
      }
      SlicesFit(l, l', slicing);
      if l'.Fits() {
        SlicedDense(l, l', run, runA, Dense(l), Dense(l'));
        SlicedIsTake(Dense(l), run, Dense(l'));
      }
    }
  }

  // ---------------------------------------------------------------------------------------------
  // Joining

  function FactorsA(ls: seq<Lora>): seq<Tensor> {
    seq(|ls|, i requires 0 <= i < |ls| => ls[i].a)
  }

  function FactorsB(ls: seq<Lora>): seq<Tensor> {
    seq(|ls|, i requires 0 <= i < |ls| => ls[i].b)
  }

  predicate AllFit(ls: seq<Lora>) {
    forall i :: 0 <= i < |ls| ==> ls[i].Fits()
  }

  function DenseAll(ls: seq<Lora>): (ts: seq<Tensor>)
    requires AllFit(ls)
    ensures forall t :: t in ts ==> t.Valid()
  {
    seq(|ls|, i requires 0 <= i < |ls| => Dense(ls[i]))
  }

  lemma FactorsValid(ls: seq<Lora>)
    requires AllFit(ls)
    ensures forall t :: t in FactorsA(ls) ==> t.Valid()
    ensures forall t :: t in FactorsB(ls) ==> t.Valid()
  {
  }

  /** Stacks along a new first axis. */
  function LoraStack(ls: seq<Lora>): Result<Lora, TensorError>
    requires AllFit(ls)
  {
    FactorsValid(ls);
    var a :- Stack(FactorsA(ls));
    var b :- Stack(FactorsB(ls));
    Success(Lora(a, b))
  }

  /** Low-rank tensors can be stacked just when all their factors have the same shapes. */
  lemma StackPossible(ls: seq<Lora>)
    requires AllFit(ls)
    ensures LoraStack(ls).Success? <==> ls != [] && forall i {:trigger ls[i]} :: 0 <= i < |ls| ==>
      ls[i].a.shape == ls[0].a.shape && ls[i].b.shape == ls[0].b.shape
  {
    FactorsValid(ls);
    var a, b := FactorsA(ls), FactorsB(ls);
    assert forall i {:trigger ls[i]} :: 0 <= i < |ls| ==> a[i].shape == ls[i].a.shape && b[i].shape == ls[i].b.shape;
    if LoraStack(ls).Success? {
      assert forall i {:trigger ls[i]} :: 0 <= i < |ls| ==> a[i].shape == a[0].shape && b[i].shape == b[0].shape;
    }
  }

  /** Stacking low-rank tensors stacks their products. */
  lemma StackCommutes(ls: seq<Lora>)
    requires AllFit(ls)
    ensures var r := LoraStack(ls);
            r.Success? ==> r.value.Fits() && Stack(DenseAll(ls)) == Success(Dense(r.value))
  {
    var r := LoraStack(ls);
    if r.Success? {
      StackParts(ls, r.value);
      StackSame(ls, r.value);
    }
  }

  /** The factors are stacked from tensors of one shape each. */
  ghost predicate Stacked(ls: seq<Lora>, l: Lora) {
    && AllFit(ls)
    && ls != []
    && l.Fits()
    && |l.b.shape| > 2
    && l.b.shape[0] == l.a.shape[0] == |ls|
    && forall i {:trigger ls[i]} :: 0 <= i < |ls| ==> PickedFrom(l.a, i, ls[i].a) && PickedFrom(l.b, i, ls[i].b)
  }

  lemma StackPicks(ts: seq<Tensor>, t: Tensor, i: nat)
    requires (forall u :: u in ts ==> u.Valid()) && Stack(ts) == Success(t) && i < |ts|
    ensures PickedFrom(t, i, ts[i])
  {
    assert t.shape[1..] == ts[0].shape == ts[i].shape;
    forall idx | Within(ts[i].shape, idx)
      ensures ts[i].At(idx) == PickAt(t, i, idx)
    {
      TailWithin(t.shape, i, idx);
      assert ([i] + idx)[1..] == idx;
      assert t.At([i] + idx) == ts[i].At(idx);
    }
  }

  lemma StackPicksBoth(ls: seq<Lora>, l: Lora, i: nat)
    requires AllFit(ls) && LoraStack(ls) == Success(l) && i < |ls|
    ensures PickedFrom(l.a, i, ls[i].a) && PickedFrom(l.b, i, ls[i].b)
  {
    FactorsValid(ls);
    StackPicks(FactorsA(ls), l.a, i);
    StackPicks(FactorsB(ls), l.b, i);
  }

  lemma StackFits(first: Lora, l: Lora, n: nat)
    requires first.Fits() && l.a.Valid() && l.b.Valid()
    requires l.a.shape == [n] + first.a.shape && l.b.shape == [n] + first.b.shape
    ensures l.Fits() && |l.b.shape| > 2
  {
    var a, b := first.a.shape, first.b.shape;
    assert Last(l.a.shape) == Last(a) && Last(l.b.shape) == Last(b);
    forall i | 0 <= i < |l.a.shape| - 2
      ensures l.a.shape[i] == 1 || l.a.shape[i] == l.b.shape[i]
    {
      assert i > 0 ==> l.a.shape[i] == a[i - 1] && l.b.shape[i] == b[i - 1];
    }
  }

  lemma StackParts(ls: seq<Lora>, l: Lora)
    requires AllFit(ls) && LoraStack(ls) == Success(l)
    ensures Stacked(ls, l)
  {
    FactorsValid(ls);
    forall i | 0 <= i < |ls|
      ensures PickedFrom(l.a, i, ls[i].a) && PickedFrom(l.b, i, ls[i].b)
    {
      StackPicksBoth(ls, l, i);
    }
    assert l.a.shape == [|ls|] + ls[0].a.shape && l.b.shape == [|ls|] + ls[0].b.shape;
    StackFits(ls[0], l, |ls|);
  }

  lemma StackIsPicks(ts: seq<Tensor>, t: Tensor)
    requires ts != [] && t.Valid() && t.shape != [] && t.shape[0] == |ts|
    requires forall i {:trigger ts[i]} :: 0 <= i < |ts| ==> PickedFrom(t, i, ts[i])
    ensures (forall u :: u in ts ==> u.Valid()) && Stack(ts) == Success(t)
  {
    var s := Stack(ts).value;
    assert ts[0].shape == t.shape[1..];
    assert s.shape == t.shape;
    forall idx | Within(s.shape, idx)
      ensures s.At(idx) == t.At(idx)
    {
      assert idx == [idx[0]] + idx[1..];
      assert s.At(idx) == ts[idx[0]].At(idx[1..]) == PickAt(t, idx[0], idx[1..]);
    }
    SameTensor(s, t);
  }

  lemma StackSame(ls: seq<Lora>, l: Lora)
    requires Stacked(ls, l)
    ensures Stack(DenseAll(ls)) == Success(Dense(l))
  {
    var ts, d := DenseAll(ls), Dense(l);
    forall i | 0 <= i < |ts|
      ensures PickedFrom(d, i, ts[i])
    {
      StackedDense(ls, l, i);
    }
    StackIsPicks(ts, d);
  }

  lemma StackedDense(ls: seq<Lora>, l: Lora, i: nat)
    requires Stacked(ls, l) && i < |ls|
    ensures PickedFrom(Dense(l), i, Dense(ls[i]))
  {
    StackedOne(ls, l, i);
    var p, xa := ls[i], if |ls| == 1 then 0 else i;
    PickedShapes(l, p, i, xa);
    forall idx | Within(p.ShapeOf(), idx)
      ensures Dense(p).At(idx) == PickAt(Dense(l), i, idx)
    {
      PickedEntry(l, p, i, xa, idx);
      DensePicked(l, i, idx);
    }
  }

  lemma StackedOne(ls: seq<Lora>, l: Lora, i: nat)
    requires Stacked(ls, l) && i < |ls|
    ensures PickedBoth(l, ls[i], i, if |ls| == 1 then 0 else i) && Dense(ls[i]).shape == l.ShapeOf()[1..]
  {
    PickedShapes(l, ls[i], i, if |ls| == 1 then 0 else i);
  }
}
