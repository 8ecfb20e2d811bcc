/** Low-rank tensors: pairs of factors that stand for their product. */
module LoraTensors {
  import opened Wrappers
  import opened Tensors

  /** All axes but the last two: those of a batch of matrices. */
  function Lead(shape: Shape): Shape
    requires |shape| >= 2
  {
    shape[..|shape| - 2]
  }

  function Last(shape: Shape): nat
    requires shape != []
  {
    shape[|shape| - 1]
  }

  function Front(shape: Shape): Shape
    requires shape != []
  {
    shape[..|shape| - 1]
  }

  /** The product is that of `b`, with columns of the length of the rank, and `a`, with rows of that number. */
  datatype Lora = Lora(a: Tensor, b: Tensor) {
    /** What the constructor checks. */
    predicate Valid() {
      a.Valid() && b.Valid() && |a.shape| == |b.shape| >= 2 && a.shape[|a.shape| - 2] == Last(b.shape)
    }

    function Rank(): nat
      requires Valid()
    {
      Last(b.shape)
    }

    function ShapeOf(): Shape
      requires Valid()
    {
      Front(b.shape) + [Last(a.shape)]
    }

    /** The batches of the factors are of the same size, or `a` has one matrix for all of them, along each axis. */
    predicate Fits() {
      Valid() && forall i :: 0 <= i < |a.shape| - 2 ==> a.shape[i] == 1 || a.shape[i] == b.shape[i]
    }
  }

  /** Along an axis of length one there is just one place. */
  function Broadcast(shape: Shape, idx: Index): (r: Index)
    requires |shape| <= |idx|
    ensures |r| == |shape|
  {
    seq(|shape|, i requires 0 <= i < |shape| => if shape[i] == 1 then 0 else idx[i])
  }

  /** One summand of the product's element in row `row` and column `col`. */
  function Term(l: Lora, row: Index, col: nat, k: nat): real
    requires l.Fits() && Within(Front(l.b.shape), row) && col < Last(l.a.shape) && k < l.Rank()
  {
    TermWithin(l, row, col, k);
    l.b.At(row + [k]) * l.a.At(Broadcast(Lead(l.a.shape), row) + [k, col])
  }

  lemma TermWithin(l: Lora, row: Index, col: nat, k: nat)
    requires l.Fits() && Within(Front(l.b.shape), row) && col < Last(l.a.shape) && k < l.Rank()
    ensures Within(l.b.shape, row + [k])
    ensures Within(l.a.shape, Broadcast(Lead(l.a.shape), row) + [k, col])
  {
    var n := |l.b.shape|;
    forall i | 0 <= i < n
      ensures (row + [k])[i] < l.b.shape[i]
    {
      assert i < n - 1 ==> Front(l.b.shape)[i] == l.b.shape[i];
    }
    var at := Broadcast(Lead(l.a.shape), row) + [k, col];
    forall i | 0 <= i < n
      ensures at[i] < l.a.shape[i]
    {
      if i < n - 2 {
        assert Lead(l.a.shape)[i] == l.a.shape[i] && row[i] < Front(l.b.shape)[i] == l.b.shape[i];
      }
    }
  }

  lemma TermIs(l: Lora, row: Index, col: nat, k: nat, inB: Index, inA: Index)
    requires l.Fits() && Within(Front(l.b.shape), row) && col < Last(l.a.shape) && k < l.Rank()
    requires inB == row + [k] && inA == Broadcast(Lead(l.a.shape), row) + [k, col]
    ensures Within(l.b.shape, inB) && Within(l.a.shape, inA) && Term(l, row, col, k) == l.b.At(inB) * l.a.At(inA)
  {
    TermWithin(l, row, col, k);
  }

  /** The sum of the first `k` summands. */
  function Dot(l: Lora, row: Index, col: nat, k: nat): real
    requires l.Fits() && Within(Front(l.b.shape), row) && col < Last(l.a.shape) && k <= l.Rank()
  {
    if k == 0 then 0.0 else Dot(l, row, col, k - 1) + Term(l, row, col, k - 1)
  }

  function Entry(l: Lora, idx: Index): real
    requires l.Fits() && Within(l.ShapeOf(), idx)
  {
    EntryWithin(l, idx);
    Dot(l, Front(idx), Last(idx), l.Rank())
  }

  lemma EntryWithin(l: Lora, idx: Index)
    requires l.Fits() && Within(l.ShapeOf(), idx)
    ensures Within(Front(l.b.shape), Front(idx)) && Last(idx) < Last(l.a.shape)
  {
    var shape := l.ShapeOf();
    assert forall i :: 0 <= i < |idx| - 1 ==> Front(idx)[i] == idx[i] < shape[i] == Front(l.b.shape)[i];
    assert shape[|shape| - 1] == Last(l.a.shape);
  }

  /** The tensor a low-rank one stands for. */
  function Dense(l: Lora): (t: Tensor)
    requires l.Fits()
    ensures t.Valid() && t.shape == l.ShapeOf()
    ensures forall idx {:trigger t.At(idx)} | Within(t.shape, idx) :: t.At(idx) == Entry(l, idx)
  {
    Build(l.ShapeOf(), idx requires Within(l.ShapeOf(), idx) => Entry(l, idx))
  }

  /** Two products with the same summands are the same. */
  lemma {:induction false} SameDot(l: Lora, l': Lora, row: Index, row': Index, col: nat, col': nat, k: nat)
    requires l.Fits() && Within(Front(l.b.shape), row) && col < Last(l.a.shape) && k <= l.Rank()
    requires l'.Fits() && Within(Front(l'.b.shape), row') && col' < Last(l'.a.shape) && k <= l'.Rank()
    requires forall j: nat | j < k :: Term(l, row, col, j) == Term(l', row', col', j)
    ensures Dot(l, row, col, k) == Dot(l', row', col', k)
    decreases k
  {
    if k > 0 {
      SameDot(l, l', row, row', col, col', k - 1);
    }
  }

  // ---------------------------------------------------------------------------------------------
  // Reshaping

  function ProdOfKnown(shape: seq<int>): int {
    if shape == [] then 1
    else
      var d := shape[|shape| - 1];
      ProdOfKnown(shape[..|shape| - 1]) * (if d != -1 then d else 1)
  }

  /** The shape with -1 replaced by what is left of the elements. */
  function Expanded(shape: seq<int>, elems: nat): (r: Result<seq<int>, TensorError>)
    ensures r.Success? ==> |r.value| == |shape|
  {
    if -1 !in shape then Success(shape)
    else
      var known := ProdOfKnown(shape);
      if known == 0 || elems % known != 0 then Failure(BadShape)
      else Success(seq(|shape|, i requires 0 <= i < |shape| => if shape[i] != -1 then shape[i] else elems / known))
  }

  predicate IsShape(shape: seq<int>) {
    forall i :: 0 <= i < |shape| ==> shape[i] >= 0
  }

  function AsShape(shape: seq<int>): (r: Shape)
    requires IsShape(shape)
    ensures |r| == |shape| && forall i :: 0 <= i < |r| ==> r[i] == shape[i]
  {
    seq(|shape|, i requires 0 <= i < |shape| => shape[i] as nat)
  }

  function Ones(n: nat): (s: Shape)
    ensures |s| == n
  {
    seq(n, _ => 1)
  }

  /** Reshapes to a shape whose last axis stays as long as it was. */
  function LoraReshape(l: Lora, newShape: seq<int>): (r: Result<Lora, TensorError>)
    requires l.Valid()
    ensures r.Success? ==> r.value.Valid() && r.value.Rank() == l.Rank()
  {
    if |newShape| < 2 then Failure(NotImplemented)
    else
      var expanded :- Expanded(newShape, Prod(l.ShapeOf()));
      if !IsShape(expanded) then Failure(BadShape)
      else
        var shape := AsShape(expanded);
        if Last(shape) != Last(l.ShapeOf()) then Failure(NotImplemented)
        else
          var a :- Reshape(l.a, ReshapedA(l, |shape|));
          var b :- Reshape(l.b, Front(shape) + [l.Rank()]);
          Success(Lora(a, b))
  }

  lemma RavelMore(shape: Shape, n: nat, idx: Index, x: nat)
    requires |shape| == |idx|
    ensures Ravel(shape + [n], idx + [x]) == Ravel(shape, idx) * n + x
    ensures Prod(shape + [n]) == Prod(shape) * n
  {
    assert (shape + [n])[..|shape|] == shape && (idx + [x])[..|idx|] == idx;
  }

  lemma {:induction false} RavelZeros(shape: Shape, idx: Index)
    requires |shape| == |idx| && forall i :: 0 <= i < |idx| ==> idx[i] == 0
    ensures Ravel(shape, idx) == 0
    decreases |shape|
  {
    if shape != [] {
      RavelZeros(shape[..|shape| - 1], idx[..|shape| - 1]);
    }
  }

  predicate AllOnes(shape: Shape) {
    forall i :: 0 <= i < |shape| ==> shape[i] == 1
  }

  lemma OneFactors(a: nat, b: nat)
    requires a * b == 1
    ensures a == 1 && b == 1
  {
    if a > 1 {
      MulMono(2, a, b);
    }
  }

  lemma {:induction false} ProdOne(shape: Shape)
    ensures Prod(shape) == 1 <==> AllOnes(shape)
    decreases |shape|
  {
    if shape != [] {
      var n := |shape| - 1;
      ProdOne(shape[..n]);
      if Prod(shape) == 1 {
        OneFactors(Prod(shape[..n]), shape[n]);
        assert forall i :: 0 <= i < n ==> shape[..n][i] == shape[i];
      }
      if AllOnes(shape) {
        assert AllOnes(shape[..n]);
      }
    }
  }

  /** With one matrix for all rows the summands come from fixed places of the factors. */
  lemma FactorShapes(l: Lora)
    requires l.Fits()
    ensures l.b.shape == Front(l.b.shape) + [l.Rank()]
    ensures l.a.shape == Lead(l.a.shape) + [l.Rank(), Last(l.a.shape)]
  {
  }

  lemma FlatTerm(l: Lora, row: Index, col: nat, k: nat)
    requires l.Fits() && Within(Front(l.b.shape), row) && col < Last(l.a.shape) && k < l.Rank()
    requires AllOnes(Lead(l.a.shape))
    ensures var i, j := Ravel(Front(l.b.shape), row) * l.Rank() + k, k * Last(l.a.shape) + col;
            i < |l.b.data| && j < |l.a.data| && Term(l, row, col, k) == l.b.data[i] * l.a.data[j]
  {
    var at := Broadcast(Lead(l.a.shape), row) + [k, col];
    TermWithin(l, row, col, k);
    RavelBelow(l.b.shape, row + [k]);
    RavelBelow(l.a.shape, at);
    var front, lead := Front(l.b.shape), Lead(l.a.shape);
    FactorShapes(l);
    RavelMore(front, l.Rank(), row, k);
    FlatPlace(l.a.shape, lead, l.Rank(), Last(l.a.shape), Broadcast(lead, row), k, col);
  }

  lemma FlatPlace(shape: Shape, lead: Shape, rank: nat, cols: nat, at: Index, k: nat, col: nat)
    requires shape == lead + [rank, cols] && |at| == |lead| && forall i :: 0 <= i < |at| ==> at[i] == 0
    ensures Ravel(shape, at + [k, col]) == k * cols + col
  {
    assert shape == lead + [rank] + [cols] && at + [k, col] == at + [k] + [col];
    RavelMore(lead + [rank], cols, at + [k], col);
    RavelMore(lead, rank, at, k);
    RavelZeros(lead, at);
  }

  /** The element of the product at a place. */
  lemma DensePlace(l: Lora, place: nat)
    requires l.Fits() && place < Prod(l.ShapeOf())
    ensures var idx := Unravel(l.ShapeOf(), place);
            && Within(l.ShapeOf(), idx)
            && Last(l.a.shape) > 0
            && Dense(l).data[place] == Entry(l, idx)
            && Ravel(Front(l.b.shape), Front(idx)) == place / Last(l.a.shape)
            && Last(idx) == place % Last(l.a.shape)
  {
    var shape, c := l.ShapeOf(), Last(l.a.shape);
    var idx := Unravel(shape, place);
    UnravelWithin(shape, place);
    EntryWithin(l, idx);
    assert Dense(l).At(idx) == Entry(l, idx);
    RavelMore(Front(l.b.shape), c, Front(idx), Last(idx));
    assert idx == Front(idx) + [Last(idx)];
    DivMod(Ravel(Front(l.b.shape), Front(idx)), Last(idx), c, place);
  }

  function Get(data: seq<real>, i: nat): real {
    if i < |data| then data[i] else 0.0
  }

  /** The sum of the first `k` products of row `row` of `b` with column `col` of `a`, both taken as one matrix. */
  function FlatDot(b: seq<real>, a: seq<real>, rank: nat, cols: nat, row: nat, col: nat, k: nat): real {
    if k == 0 then 0.0
    else FlatDot(b, a, rank, cols, row, col, k - 1) + Get(b, row * rank + k - 1) * Get(a, (k - 1) * cols + col)
  }

  lemma {:induction false} DotIsFlat(l: Lora, row: Index, col: nat, k: nat)
    requires l.Fits() && Within(Front(l.b.shape), row) && col < Last(l.a.shape) && k <= l.Rank()
    requires k > 0 ==> AllOnes(Lead(l.a.shape))
    ensures Dot(l, row, col, k) ==
            FlatDot(l.b.data, l.a.data, l.Rank(), Last(l.a.shape), Ravel(Front(l.b.shape), row), col, k)
    decreases k
  {
    if k > 0 {
      DotIsFlat(l, row, col, k - 1);
      FlatTerm(l, row, col, k - 1);
    }
  }

  /** With one matrix for all rows the product is that of two matrices, whatever the shapes. */
  lemma DenseIsFlat(l: Lora, place: nat)
    requires l.Fits() && place < Prod(l.ShapeOf()) && (l.Rank() > 0 && Last(l.a.shape) > 0 ==> AllOnes(Lead(l.a.shape)))
    ensures var c := Last(l.a.shape);
            c > 0 && Dense(l).data[place] == FlatDot(l.b.data, l.a.data, l.Rank(), c, place / c, place % c, l.Rank())
  {
    DensePlace(l, place);
    var idx := Unravel(l.ShapeOf(), place);
    EntryWithin(l, idx);
    DotIsFlat(l, Front(idx), Last(idx), l.Rank());
  }

  /** Two pairs of the same data, with one matrix for all rows, stand for the same data. */
  lemma SameData(l: Lora, l': Lora)
    requires l.Fits() && l'.Fits() && l.a.data == l'.a.data && l.b.data == l'.b.data
    requires l.Rank() == l'.Rank() && Last(l.a.shape) == Last(l'.a.shape) && Prod(l.ShapeOf()) == Prod(l'.ShapeOf())
    requires l.Rank() > 0 && Last(l.a.shape) > 0 ==> AllOnes(Lead(l.a.shape)) && AllOnes(Lead(l'.a.shape))
    ensures Dense(l).data == Dense(l').data
  {
    forall place | 0 <= place < Prod(l.ShapeOf())
      ensures Dense(l).data[place] == Dense(l').data[place]
    {
      DenseIsFlat(l, place);
      DenseIsFlat(l', place);
    }
  }

  lemma ProdOfLast(shape: Shape, lead: Shape, r: nat, c: nat)
    requires shape == lead + [r, c]
    ensures Prod(shape) == Prod(lead) * r * c
  {
    assert shape == (lead + [r]) + [c];
    assert shape[..|shape| - 1] == lead + [r] && (lead + [r])[..|lead|] == lead;
  }

  lemma CancelRight(x: nat, y: nat, d: nat)
    requires d > 0
    ensures x * d == y * d <==> x == y
  {
    if x * d == y * d {
      SameQuotient(x, 0, y, 0, d);
    }
  }

  /** A shape of as many elements as one matrix, that ends in its shape, has no other axes of any length. */
  lemma OneMatrix(shape: Shape, lead: Shape, r: nat, c: nat)
    requires shape == lead + [r, c] && r > 0 && c > 0
    ensures Prod(shape) == r * c <==> AllOnes(lead)
  {
    ProdOfLast(shape, lead, r, c);
    CancelRight(Prod(lead) * r, r, c);
    CancelRight(Prod(lead), 1, r);
    ProdOne(lead);
  }

  lemma SameElements(l: Lora, l': Lora)
    requires l.Valid() && l'.Valid() && l.Rank() == l'.Rank() > 0 && Last(l.a.shape) == Last(l'.a.shape)
    ensures Prod(l.b.shape) == Prod(l'.b.shape) ==> Prod(l.ShapeOf()) == Prod(l'.ShapeOf())
    ensures Last(l.a.shape) > 0 && Prod(l.ShapeOf()) == Prod(l'.ShapeOf()) ==> Prod(l.b.shape) == Prod(l'.b.shape)
  {
    var f, f', c, r := Front(l.b.shape), Front(l'.b.shape), Last(l.a.shape), l.Rank();
    CancelRight(Prod(f), Prod(f'), r);
    assert l.b.shape == f + [r] && l'.b.shape == f' + [r];
    assert (f + [c])[..|f|] == f && (f' + [c])[..|f'|] == f';
    if c > 0 {
      CancelRight(Prod(f), Prod(f'), c);
    }
  }

  /** The factor `a` of a reshaped pair. */
  function ReshapedA(l: Lora, n: nat): (shape: Shape)
    requires l.Valid() && n >= 2
    ensures |shape| == n
  {
    Ones(n - 2) + [l.Rank(), Last(l.a.shape)]
  }

  lemma ReshapedOnes(l: Lora, n: nat)
    requires l.Fits() && n >= 2
    ensures AllOnes(Lead(ReshapedA(l, n)))
    ensures l.Rank() > 0 && Last(l.a.shape) > 0 ==>
            (Prod(ReshapedA(l, n)) == Prod(l.a.shape) <==> AllOnes(Lead(l.a.shape)))
  {
    var shape, rank, c := ReshapedA(l, n), l.Rank(), Last(l.a.shape);
    assert Lead(shape) == Ones(n - 2);
    if rank > 0 && c > 0 {
      assert l.a.shape == Lead(l.a.shape) + [rank, c];
      OneMatrix(shape, Ones(n - 2), rank, c);
      OneMatrix(l.a.shape, Lead(l.a.shape), rank, c);
    }
  }

  /** Reshaping the factors reshapes the product. */
  lemma ReshapeCommutes(l: Lora, newShape: seq<int>)
    requires l.Fits() && l.Rank() > 0
    ensures var r := LoraReshape(l, newShape);
            r.Success? ==> r.value.Fits() && Reshape(Dense(l), r.value.ShapeOf()) == Success(Dense(r.value))
  {
    var r := LoraReshape(l, newShape);
    if r.Success? {
      var l' := r.value;
      ReshapedOnes(l, |newShape|);
      assert l'.a.shape == ReshapedA(l, |newShape|);
      assert Last(l'.a.shape) == Last(l.a.shape) && l'.Rank() == l.Rank();
      assert l'.Fits() by {
        assert forall i :: 0 <= i < |newShape| - 2 ==> l'.a.shape[i] == Lead(l'.a.shape)[i];
      }
      SameElements(l, l');
      SameData(l, l');
    }
  }

  /** A pair can be reshaped just when the product can, the last axis stays, and the factor `a` is one matrix. */
  lemma ReshapePossible(l: Lora, newShape: seq<int>)
    requires l.Fits() && l.Rank() > 0 && Last(l.a.shape) > 0 && IsShape(newShape)
    ensures LoraReshape(l, newShape).Success? <==>
            && |newShape| >= 2
            && Last(AsShape(newShape)) == Last(l.ShapeOf())
            && Prod(AsShape(newShape)) == Prod(l.ShapeOf())
            && AllOnes(Lead(l.a.shape))
  {
    assert -1 !in newShape;
    if |newShape| >= 2 && Last(AsShape(newShape)) == Last(l.ShapeOf()) {
      var shape := AsShape(newShape);
      ReshapedOnes(l, |shape|);
      var f, f', c, r := Front(l.b.shape), Front(shape), Last(l.a.shape), l.Rank();
      assert l.b.shape == f + [r] && shape == f' + [c];
      assert (f + [c])[..|f|] == f && (f' + [r])[..|f'|] == f';
      CancelRight(Prod(f), Prod(f'), c);
      CancelRight(Prod(f), Prod(f'), r);
    }
  }

  /** The shape that is asked for, with what is left of the elements in the place of each -1. */
  lemma ReshapedTo(l: Lora, newShape: seq<int>)
    requires l.Valid() && LoraReshape(l, newShape).Success?
    ensures var shape := LoraReshape(l, newShape).value.ShapeOf();
            && |shape| == |newShape|
            && (forall i :: 0 <= i < |shape| && newShape[i] != -1 ==> shape[i] == newShape[i])
            && (forall i :: 0 <= i < |shape| && newShape[i] == -1 ==>
                 shape[i] * KnownProduct(newShape) == Prod(l.ShapeOf()))
  {
    var elems := Prod(l.ShapeOf());
    var expanded := Expanded(newShape, elems).value;
    var shape := AsShape(expanded);
    assert LoraReshape(l, newShape).value.ShapeOf() == Front(shape) + [Last(l.a.shape)] == shape;
    SameProduct(newShape);
    if -1 in newShape {
      assert elems / ProdOfKnown(newShape) * ProdOfKnown(newShape) == elems;
    }
  }

  /** The product of the lengths that are given. */
  function KnownProduct(shape: seq<int>): int {
    if shape == [] then 1 else (if shape[0] == -1 then 1 else shape[0]) * KnownProduct(shape[1..])
  }

  lemma {:induction false} SameProduct(shape: seq<int>)
    ensures ProdOfKnown(shape) == KnownProduct(shape)
    decreases |shape|
  {
    if shape != [] {
      FirstKnown(shape);
      SameProduct(shape[1..]);
    }
  }

  lemma {:induction false} FirstKnown(shape: seq<int>)
    requires shape != []
    ensures ProdOfKnown(shape) == (if shape[0] == -1 then 1 else shape[0]) * ProdOfKnown(shape[1..])
    decreases |shape|
  {
    var n := |shape| - 1;
    if n > 0 {
      var front, rest := shape[..n], shape[1..];
      FirstKnown(front);
      assert rest[..n - 1] == front[1..] && rest[n - 1] == shape[n];
      var first, last := if shape[0] == -1 then 1 else shape[0], if shape[n] != -1 then shape[n] else 1;
      Regrouped(first, ProdOfKnown(front[1..]), last);
    } else {
      assert shape[1..] == [] && shape[..0] == [];
    }
  }

  lemma Regrouped(x: int, y: int, z: int)
    ensures x * y * z == x * (y * z)
  {
  }

  /** A shape without -1 is the one reshaped to. */
  lemma ReshapedShape(l: Lora, shape: Shape)
    requires l.Valid() && LoraReshape(l, shape).Success?
    ensures LoraReshape(l, shape).value.ShapeOf() == shape
  {
    assert -1 !in shape;
    assert AsShape(shape) == shape;
    assert shape == Front(shape) + [Last(shape)];
  }
}
