/** Tensors of real numbers, in row-major order, and the operations on them that move elements around. */
module Tensors {
  import opened Wrappers

  type Shape = seq<nat>
  type Index = seq<nat>

  function Prod(shape: Shape): nat {
    if shape == [] then 1 else Prod(shape[..|shape| - 1]) * shape[|shape| - 1]
  }

  predicate Within(shape: Shape, idx: Index) {
    |idx| == |shape| && forall i :: 0 <= i < |idx| ==> idx[i] < shape[i]
  }

  /** The place of an element in row-major order. */
  function Ravel(shape: Shape, idx: Index): nat
    requires |idx| == |shape|
  {
    if shape == [] then 0
    else
      var n := |shape| - 1;
      Ravel(shape[..n], idx[..n]) * shape[n] + idx[n]
  }

  /** The index of the element at a place. */
  function Unravel(shape: Shape, place: nat): (idx: Index)
    requires place < Prod(shape)
    ensures |idx| == |shape|
  {
    if shape == [] then []
    else
      var n := |shape| - 1;
      assert shape[n] > 0;
      DivideBelow(place, Prod(shape[..n]), shape[n]);
      Unravel(shape[..n], place / shape[n]) + [place % shape[n]]
  }

  lemma NextRow(a: nat, b: nat, d: nat)
    requires a < b
    ensures a * d + d <= b * d
  {
    assert (a + 1) * d == a * d + d;
    MulMono(a + 1, b, d);
  }

  lemma MulMono(a: nat, b: nat, d: nat)
    requires a <= b
    ensures a * d <= b * d
  {
    assert b * d - a * d == (b - a) * d;
  }

  lemma DivideBelow(place: nat, rows: nat, cols: nat)
    requires place < rows * cols && cols > 0
    ensures place / cols < rows
  {
    if rows <= place / cols {
      MulMono(rows, place / cols, cols);
    }
  }

  lemma PlaceBelow(row: nat, col: nat, rows: nat, cols: nat)
    requires row < rows && col < cols
    ensures row * cols + col < rows * cols
    ensures (row * cols + col) / cols == row && (row * cols + col) % cols == col
  {
    NextRow(row, rows, cols);
    DivMod(row, col, cols, row * cols + col);
  }

  lemma DivMod(q: nat, r: nat, d: nat, n: nat)
    requires r < d && n == q * d + r
    ensures n / d == q && n % d == r
  {
    SameQuotient(q, r, n / d, n % d, d);
  }

  lemma SameQuotient(q: nat, r: nat, q': nat, r': nat, d: nat)
    requires r < d && r' < d && q * d + r == q' * d + r'
    ensures q == q' && r == r'
  {
    if q < q' {
      NextRow(q, q', d);
    } else if q' < q {
      NextRow(q', q, d);
    }
  }

  lemma {:induction false} UnravelWithin(shape: Shape, place: nat)
    requires place < Prod(shape)
    ensures Within(shape, Unravel(shape, place)) && Ravel(shape, Unravel(shape, place)) == place
    decreases |shape|
  {
    if shape != [] {
      var n := |shape| - 1;
      DivideBelow(place, Prod(shape[..n]), shape[n]);
      UnravelWithin(shape[..n], place / shape[n]);
      var idx := Unravel(shape, place);
      assert idx[..n] == Unravel(shape[..n], place / shape[n]);
    }
  }

  lemma {:induction false} RavelBelow(shape: Shape, idx: Index)
    requires Within(shape, idx)
    ensures Ravel(shape, idx) < Prod(shape) && Unravel(shape, Ravel(shape, idx)) == idx
    decreases |shape|
  {
    if shape != [] {
      var n := |shape| - 1;
      RavelBelow(shape[..n], idx[..n]);
      PlaceBelow(Ravel(shape[..n], idx[..n]), idx[n], Prod(shape[..n]), shape[n]);
      assert idx == idx[..n] + [idx[n]];
    }
  }

  // ---------------------------------------------------------------------------------------------
  // Tensors

  datatype Tensor = Tensor(shape: Shape, data: seq<real>) {
    predicate Valid() {
      |data| == Prod(shape)
    }

    function At(idx: Index): real
      requires Valid() && Within(shape, idx)
    {
      RavelBelow(shape, idx);
      data[Ravel(shape, idx)]
    }
  }

  /** The tensor with these elements. */
  function Build(shape: Shape, elem: Index --> real): (t: Tensor)
    requires forall idx | Within(shape, idx) :: elem.requires(idx)
    ensures t.Valid() && t.shape == shape
    ensures forall idx {:trigger t.At(idx)} | Within(shape, idx) :: t.At(idx) == elem(idx)
  {
    var data := seq(Prod(shape), place requires 0 <= place < Prod(shape) =>
      (UnravelWithin(shape, place); elem(Unravel(shape, place))));
    var t := Tensor(shape, data);
    BuildAt(t, elem);
    t
  }

  lemma BuildAt(t: Tensor, elem: Index --> real)
    requires forall idx | Within(t.shape, idx) :: elem.requires(idx)
    requires |t.data| == Prod(t.shape)
    requires forall place | 0 <= place < Prod(t.shape) ::
      (UnravelWithin(t.shape, place); t.data[place] == elem(Unravel(t.shape, place)))
    ensures t.Valid() && forall idx | Within(t.shape, idx) :: t.At(idx) == elem(idx)
  {
    forall idx | Within(t.shape, idx)
      ensures t.At(idx) == elem(idx)
    {
      RavelBelow(t.shape, idx);
    }
  }

  lemma SameTensor(t: Tensor, u: Tensor)
    requires t.Valid() && u.Valid() && t.shape == u.shape
    requires forall idx | Within(t.shape, idx) :: t.At(idx) == u.At(idx)
    ensures t == u
  {
    forall place | 0 <= place < Prod(t.shape)
      ensures t.data[place] == u.data[place]
    {
      var idx := Unravel(t.shape, place);
      UnravelWithin(t.shape, place);
      assert t.At(idx) == u.At(idx);
    }
  }

  datatype TensorError = BadShape | BadAxes | BadStep | OutOfRange | NotImplemented

  /** The same elements, in the same order, in another shape. */
  function Reshape(t: Tensor, shape: Shape): (r: Result<Tensor, TensorError>)
    ensures r.Success? && t.Valid() ==> r.value.Valid()
  {
    if Prod(shape) != Prod(t.shape) then Failure(BadShape) else Success(Tensor(shape, t.data))
  }

  /** Each axis once. */
  predicate IsPermutation(axes: seq<nat>) {
    && (forall i :: 0 <= i < |axes| ==> axes[i] < |axes|)
    && (forall i, j :: 0 <= i < j < |axes| ==> axes[i] != axes[j])
    && (forall a :: 0 <= a < |axes| ==> a in axes)
  }

  function AxisOf(axes: seq<nat>, a: nat): (i: nat)
    requires IsPermutation(axes) && a < |axes|
    ensures i < |axes| && axes[i] == a
  {
    assert a in axes;
    var i :| 0 <= i < |axes| && axes[i] == a;
    i
  }

  /** Axis `i` of the result is axis `axes[i]` of the tensor. */
  function PermutedShape(shape: Shape, axes: seq<nat>): (r: Shape)
    requires IsPermutation(axes) && |axes| == |shape|
    ensures |r| == |shape|
  {
    seq(|axes|, i requires 0 <= i < |axes| => shape[axes[i]])
  }

  /** Where the element at `idx` of the permuted tensor comes from. */
  function Origin(axes: seq<nat>, idx: Index): (r: Index)
    requires IsPermutation(axes) && |idx| == |axes|
    ensures |r| == |axes| && forall i :: 0 <= i < |axes| ==> r[axes[i]] == idx[i]
  {
    seq(|axes|, a requires 0 <= a < |axes| => idx[AxisOf(axes, a)])
  }

  lemma OriginWithin(shape: Shape, axes: seq<nat>, idx: Index)
    requires IsPermutation(axes) && |axes| == |shape| && Within(PermutedShape(shape, axes), idx)
    ensures Within(shape, Origin(axes, idx))
  {
    forall a | 0 <= a < |axes|
      ensures Origin(axes, idx)[a] < shape[a]
    {
      var i := AxisOf(axes, a);
      assert idx[i] < PermutedShape(shape, axes)[i];
    }
  }

  function OriginAt(t: Tensor, axes: seq<nat>, idx: Index): real
    requires t.Valid() && IsPermutation(axes) && |axes| == |t.shape| && Within(PermutedShape(t.shape, axes), idx)
  {
    OriginWithin(t.shape, axes, idx);
    t.At(Origin(axes, idx))
  }

  function Permute(t: Tensor, axes: seq<nat>): (r: Result<Tensor, TensorError>)
    requires t.Valid()
    ensures r.Success? <==> |axes| == |t.shape| && IsPermutation(axes)
    ensures r.Success? ==> r.value.Valid() && r.value.shape == PermutedShape(t.shape, axes)
    ensures r.Success? ==>
            forall idx {:trigger r.value.At(idx)} | Within(r.value.shape, idx) :: r.value.At(idx) == OriginAt(t, axes,
              idx)
  {
    if |axes| != |t.shape| || !IsPermutation(axes) then Failure(BadAxes)
    else
      var shape := PermutedShape(t.shape, axes);
      Success(Build(shape, idx requires Within(shape, idx) => OriginAt(t, axes, idx)))
  }

  // ---------------------------------------------------------------------------------------------
  // The first axis

  lemma TailWithin(shape: Shape, x: nat, idx: Index)
    requires shape != [] && x < shape[0] && Within(shape[1..], idx)
    ensures Within(shape, [x] + idx)
  {
  }

  /** A position counted from the end if it is negative. */
  function Position(n: nat, i: int): int {
    if i < 0 then i + n else i
  }

  function PickAt(t: Tensor, x: nat, idx: Index): real
    requires t.Valid() && t.shape != [] && x < t.shape[0] && Within(t.shape[1..], idx)
  {
    TailWithin(t.shape, x, idx);
    t.At([x] + idx)
  }

  /** One element of the first axis. */
  function Pick(t: Tensor, i: int): (r: Result<Tensor, TensorError>)
    requires t.Valid() && t.shape != []
    ensures r.Success? <==> 0 <= Position(t.shape[0], i) < t.shape[0]
    ensures r.Success? ==> r.value.Valid() && r.value.shape == t.shape[1..]
    ensures r.Success? ==>
            forall idx {:trigger r.value.At(idx)} | Within(r.value.shape, idx) ::
              r.value.At(idx) == PickAt(t, Position(t.shape[0], i), idx)
  {
    var x := Position(t.shape[0], i);
    if x < 0 || t.shape[0] <= x then Failure(OutOfRange)
    else Success(Build(t.shape[1..], idx requires Within(t.shape[1..], idx) => PickAt(t, x, idx)))
  }

  /** Places at equal distances. */
  datatype Run = Run(from: nat, step: nat, length: nat) {
    function Place(y: nat): nat {
      from + y * step
    }

    predicate Inside(n: nat) {
      forall y: nat {:trigger Place(y)} :: y < length ==> Place(y) < n
    }
  }

  /** A slice of an axis: its bounds, counted from the end if they are negative, and its step. */
  datatype Slicing = Slicing(start: Option<int>, stop: Option<int>, step: Option<int>) {
    function Step(): int {
      if step.None? then 1 else step.value
    }
  }

  /** A bound of a slice of `n` places, moved inside. */
  function BoundOf(n: nat, at: Option<int>, absent: nat): (r: nat)
    requires absent <= n
    ensures r <= n
  {
    match at
    case None => absent
    case Some(i) => if Position(n, i) < 0 then 0 else if Position(n, i) > n then n else Position(n, i)
  }

  /** The places of a slice of `n` places. */
  function RunOf(n: nat, s: Slicing): (r: Run)
    requires s.Step() > 0
    ensures r.Inside(n)
  {
    var lo, hi, step := BoundOf(n, s.start, 0), BoundOf(n, s.stop, n), s.Step();
    var r := Run(lo, step, if lo < hi then (hi - lo - 1) / step + 1 else 0);
    RunInside(lo, hi, step, r);
    r
  }

  lemma RunInside(lo: nat, hi: nat, step: nat, r: Run)
    requires step > 0 && r == Run(lo, step, if lo < hi then (hi - lo - 1) / step + 1 else 0)
    ensures r.Inside(hi)
  {
    forall y: nat | y < r.length
      ensures r.Place(y) < hi
    {
      MulMono(y, (hi - lo - 1) / step, step);
    }
  }

  /** The elements of the first axis at these places. */
  function Take(t: Tensor, run: Run): (r: Tensor)
    requires t.Valid() && t.shape != [] && run.Inside(t.shape[0])
    ensures r.Valid() && r.shape == [run.length] + t.shape[1..]
    ensures forall idx {:trigger r.At(idx)} | Within(r.shape, idx) ::
      run.Place(idx[0]) < t.shape[0] && r.At(idx) == PickAt(t, run.Place(idx[0]), idx[1..])
  {
    var shape := [run.length] + t.shape[1..];
    Build(shape, idx requires Within(shape, idx) => TakeAt(t, run, idx))
  }

  function TakeAt(t: Tensor, run: Run, idx: Index): (x: real)
    requires t.Valid() && t.shape != [] && run.Inside(t.shape[0]) && Within([run.length] + t.shape[1..], idx)
    ensures run.Place(idx[0]) < t.shape[0] && Within(t.shape[1..], idx[1..])
    ensures x == PickAt(t, run.Place(idx[0]), idx[1..])
  {
    var shape := [run.length] + t.shape[1..];
    assert forall i :: 0 <= i < |t.shape| - 1 ==> idx[1..][i] < shape[i + 1] == t.shape[1..][i];
    PickAt(t, run.Place(idx[0]), idx[1..])
  }

  /** A slice of the first axis; its step must be positive. */
  function Slice(t: Tensor, s: Slicing): (r: Result<Tensor, TensorError>)
    requires t.Valid() && t.shape != []
    ensures r.Success? <==> s.Step() > 0
    ensures r.Success? ==> r.value == Take(t, RunOf(t.shape[0], s))
  {
    if s.Step() <= 0 then Failure(BadStep) else Success(Take(t, RunOf(t.shape[0], s)))
  }

  /** Tensors of one shape, along a new first axis. */
  function Stack(ts: seq<Tensor>): (r: Result<Tensor, TensorError>)
    requires forall t :: t in ts ==> t.Valid()
    ensures r.Success? <==> ts != [] && forall i :: 0 <= i < |ts| ==> ts[i].shape == ts[0].shape
    ensures r.Success? ==> r.value.Valid() && r.value.shape == [|ts|] + ts[0].shape
    ensures r.Success? ==> forall idx | Within(r.value.shape, idx) ::
      Within(ts[0].shape, idx[1..]) && r.value.At(idx) == ts[idx[0]].At(idx[1..])
  {
    if ts == [] || exists i :: 0 <= i < |ts| && ts[i].shape != ts[0].shape then Failure(BadShape)
    else
      var shape := [|ts|] + ts[0].shape;
      Success(Build(shape, idx requires Within(shape, idx) => StackAt(ts, idx)))
  }

  function StackAt(ts: seq<Tensor>, idx: Index): (x: real)
    requires (forall t :: t in ts ==> t.Valid()) && ts != [] && forall i :: 0 <= i < |ts| ==> ts[i].shape == ts[0].shape
    requires Within([|ts|] + ts[0].shape, idx)
    ensures Within(ts[0].shape, idx[1..]) && x == ts[idx[0]].At(idx[1..])
  {
    var shape := [|ts|] + ts[0].shape;
    assert forall i :: 0 <= i < |ts[0].shape| ==> idx[1..][i] < shape[i + 1] == ts[0].shape[i];
    ts[idx[0]].At(idx[1..])
  }

  // ---------------------------------------------------------------------------------------------
  // The operations element by element

  /** An element of the permuted tensor is the one whose index has its numbers at the axes named. */
  lemma PermutedElement(t: Tensor, axes: seq<nat>, p: Tensor, idx: Index, from: Index)
    requires t.Valid() && Permute(t, axes) == Success(p) && Within(p.shape, idx)
    requires |from| == |axes| && forall i :: 0 <= i < |axes| ==> from[axes[i]] == idx[i]
    ensures |p.shape| == |t.shape| && forall i :: 0 <= i < |axes| ==> p.shape[i] == t.shape[axes[i]]
    ensures Within(t.shape, from) && p.At(idx) == t.At(from)
  {
    OriginWithin(t.shape, axes, idx);
    var origin := Origin(axes, idx);
    forall a | 0 <= a < |axes|
      ensures from[a] == origin[a]
    {
      assert axes[AxisOf(axes, a)] == a;
    }
    assert from == origin;
    assert p.At(idx) == OriginAt(t, axes, idx);
  }

  /** A negative place counts from the end. */
  lemma PickedElement(t: Tensor, i: int, p: Tensor, idx: Index)
    requires t.Valid() && t.shape != [] && Pick(t, i) == Success(p) && Within(p.shape, idx)
    ensures -t.shape[0] <= i < t.shape[0] && p.shape == t.shape[1..]
    ensures var x := if i < 0 then t.shape[0] + i else i;
            Within(t.shape, [x] + idx) && p.At(idx) == t.At([x] + idx)
  {
    TailWithin(t.shape, Position(t.shape[0], i), idx);
    assert p.At(idx) == PickAt(t, Position(t.shape[0], i), idx);
  }

  /** A bound of a slice of `n` places: counted from the end if it is negative, and moved inside. */
  predicate IsBound(n: nat, at: Option<int>, absent: nat, bound: nat) {
    match at
    case None => bound == absent
    case Some(i) =>
      var p := if i < 0 then n + i else i;
      if p < 0 then bound == 0 else if p <= n then bound == p else bound == n
  }

  /** A slice has the places from its lower bound up to its upper one that are whole steps away, in order. */
  lemma SlicePlaces(n: nat, s: Slicing, lo: nat, hi: nat, p: nat)
    requires IsBound(n, s.start, 0, lo) && IsBound(n, s.stop, n, hi) && (s.step.Some? ==> s.step.value > 0)
    ensures var r, step := RunOf(n, s), if s.step.Some? then s.step.value else 1;
            && r.from == lo && r.step == step
            && (HasPlace(r, p) <==> lo <= p < hi && (p - lo) % step == 0)
  {
    var r, step := RunOf(n, s), if s.step.Some? then s.step.value else 1;
    assert r == Run(lo, step, if lo < hi then (hi - lo - 1) / step + 1 else 0);
    RunInside(lo, hi, step, r);
    if HasPlace(r, p) {
      var y: nat :| y < r.length && r.Place(y) == p;
      assert p < hi;
      DivMod(y, 0, step, p - lo);
    }
    if lo <= p < hi && (p - lo) % step == 0 {
      var y := WholeSteps(lo, hi, step, p);
      assert r.Place(y) == p;
    }
  }

  ghost predicate HasPlace(r: Run, p: nat) {
    exists y: nat :: y < r.length && r.Place(y) == p
  }

  lemma WholeSteps(lo: nat, hi: nat, step: nat, p: nat) returns (y: nat)
    requires step > 0 && lo <= p < hi && (p - lo) % step == 0
    ensures lo + y * step == p && y < (hi - lo - 1) / step + 1
  {
    var d := p - lo;
    y := d / step;
    if y > (hi - lo - 1) / step {
      NextRow((hi - lo - 1) / step, y, step);
    }
  }

  /** What a slice has at each of its places. */
  lemma SlicedElement(t: Tensor, s: Slicing, c: Tensor, y: nat, idx: Index)
    requires t.Valid() && t.shape != [] && Slice(t, s) == Success(c)
    requires c.shape != [] && y < c.shape[0] && Within(t.shape[1..], idx)
    ensures c.shape == [RunOf(t.shape[0], s).length] + t.shape[1..]
    ensures var run := RunOf(t.shape[0], s);
            && Within(t.shape, [run.from + y * run.step] + idx)
            && Within(c.shape, [y] + idx)
            && c.At([y] + idx) == t.At([run.from + y * run.step] + idx)
  {
    var run := RunOf(t.shape[0], s);
    assert c.shape[1..] == t.shape[1..];
    TailWithin(c.shape, y, idx);
    TailWithin(t.shape, run.Place(y), idx);
    assert ([y] + idx)[1..] == idx;
    assert c.At([y] + idx) == PickAt(t, run.Place(y), idx);
  }
}
