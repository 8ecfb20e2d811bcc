/** The permutation of the rows of attention weights, on tensors and on low-rank ones. */
module HeadPermutation {
  import opened Wrappers
  import opened Tensors
  import opened LoraTensors
  import opened LoraOperations

  /** The axes of a tensor of `n` with two of them exchanged. */
  function Swapped(n: nat, i: nat, j: nat): seq<nat>
    requires i < n && j < n
  {
    seq(n, k requires 0 <= k < n => if k == i then j else if k == j then i else k)
  }

  lemma SwappedIsPermutation(n: nat, i: nat, j: nat)
    requires i < n && j < n
    ensures IsPermutation(Swapped(n, i, j))
  {
    var axes := Swapped(n, i, j);
    forall a | 0 <= a < n
      ensures a in axes
    {
      assert axes[if a == i then j else if a == j then i else a] == a;
    }
  }

  function SwapAxes(t: Tensor, i: nat, j: nat): (r: Result<Tensor, TensorError>)
    requires t.Valid()
    ensures r.Success? ==> r.value.Valid()
  {
    if i >= |t.shape| || j >= |t.shape| then Failure(BadAxes) else Permute(t, Swapped(|t.shape|, i, j))
  }

  function LoraSwapAxes(l: Lora, i: nat, j: nat): (r: Result<Lora, TensorError>)
    requires l.Valid()
    ensures r.Success? ==> r.value.Valid() && r.value.Rank() == l.Rank()
  {
    if i >= |l.b.shape| || j >= |l.b.shape| then Failure(BadAxes) else LoraPermute(l, Swapped(|l.b.shape|, i, j))
  }

  lemma AxesCounted(n: nat, axes: seq<nat>)
    requires forall i :: 0 <= i < |axes| ==> axes[i] < n
    ensures Axes(n, axes) == Success(axes)
  {
    assert Axes(n, axes).Success?;
    assert Axes(n, axes).value == axes;
  }

  /** Swapping axes of a low-rank tensor swaps those of the product. */
  lemma SwapCommutes(l: Lora, i: nat, j: nat)
    requires l.Fits()
    ensures var r := LoraSwapAxes(l, i, j);
            r.Success? ==> r.value.Fits() && SwapAxes(Dense(l), i, j) == Success(Dense(r.value))
  {
    var r := LoraSwapAxes(l, i, j);
    if r.Success? {
      var axes := Swapped(|l.b.shape|, i, j);
      AxesCounted(|l.b.shape|, axes);
      PermuteCommutes(l, axes);
    }
  }

  function Heads(nHead: nat, nHeadKv: Option<nat>): nat {
    if nHeadKv.Some? && nHead != nHeadKv.value then nHeadKv.value else nHead
  }

  /** The rows by head, half of the head, and row of the half. */
  function ByHead(shape: Shape, heads: nat): Shape
    requires shape != [] && heads > 0
  {
    [heads, 2, shape[0] / heads / 2] + shape[1..]
  }

  function PermuteHeads(t: Tensor, nHead: nat, nHeadKv: Option<nat>): Result<Tensor, TensorError>
    requires t.Valid()
  {
    var heads := Heads(nHead, nHeadKv);
    if t.shape == [] || heads == 0 then Failure(BadShape)
    else
      var split :- Reshape(t, ByHead(t.shape, heads));
      var swapped :- SwapAxes(split, 1, 2);
      Reshape(swapped, t.shape)
  }

  function LoraPermuteHeads(l: Lora, nHead: nat, nHeadKv: Option<nat>): Result<Lora, TensorError>
    requires l.Valid()
  {
    var heads := Heads(nHead, nHeadKv);
    if heads == 0 then Failure(BadShape)
    else
      var split :- LoraReshape(l, ByHead(l.ShapeOf(), heads));
      var swapped :- LoraSwapAxes(split, 1, 2);
      LoraReshape(swapped, l.ShapeOf())
  }

  /** Run on the factors, the permutation gives the permuted product. */
  lemma HeadsCommute(l: Lora, nHead: nat, nHeadKv: Option<nat>)
    requires l.Fits() && l.Rank() > 0
    ensures var r := LoraPermuteHeads(l, nHead, nHeadKv);
            r.Success? ==> r.value.Fits() && PermuteHeads(Dense(l), nHead, nHeadKv) == Success(Dense(r.value))
  {
    var r := LoraPermuteHeads(l, nHead, nHeadKv);
    if r.Success? {
      var shape, byHead := l.ShapeOf(), ByHead(l.ShapeOf(), Heads(nHead, nHeadKv));
      var split := LoraReshape(l, byHead).value;
      ReshapeCommutes(l, byHead);
      ReshapedShape(l, byHead);
      var swapped := LoraSwapAxes(split, 1, 2).value;
      SwapCommutes(split, 1, 2);
      ReshapeCommutes(swapped, shape);
      ReshapedShape(swapped, shape);
    }
  }

  // ---------------------------------------------------------------------------------------------
  // Where the rows go

  /** Row `j` of half `s` of head `h`, where a half has `half` rows. */
  function Row(h: nat, s: nat, j: nat, half: nat): nat {
    (h * 2 + s) * half + j
  }

  /** Where that row is put. */
  function NewRow(h: nat, s: nat, j: nat, half: nat): nat {
    (h * half + j) * 2 + s
  }

  /** The rows of the two halves of a head come side by side. */
  lemma SideBySide(h: nat, j: nat, half: nat)
    requires j < half
    ensures Row(h, 1, j, half) == Row(h, 0, j, half) + half
    ensures NewRow(h, 1, j, half) == NewRow(h, 0, j, half) + 1
    ensures NewRow(h, 0, j, half) == Row(h, 0, 0, half) + 2 * j
  {
    assert (h * 2 + 1) * half == (h * 2) * half + half;
    assert (h * 2) * half == 2 * (h * half);
  }

  /** Every row is one of a half of a head. */
  lemma EveryRow(heads: nat, half: nat, row: nat) returns (h: nat, s: nat, j: nat)
    requires row < heads * 2 * half
    ensures h < heads && s < 2 && j < half && Row(h, s, j, half) == row
  {
    assert half > 0;
    DivideBelow(row, heads * 2, half);
    h, s, j := row / half / 2, row / half % 2, row % half;
  }

  /** Some row is put at every place. */
  lemma EveryNewRow(heads: nat, half: nat, row: nat) returns (h: nat, s: nat, j: nat)
    requires row < heads * 2 * half
    ensures h < heads && s < 2 && j < half && NewRow(h, s, j, half) == row
  {
    assert half > 0;
    assert heads * 2 * half == heads * half * 2;
    DivideBelow(row / 2, heads, half);
    h, s, j := row / 2 / half, row % 2, row / 2 % half;
  }

  /** Different rows are put at different places. */
  lemma PlacesDistinct(half: nat, h: nat, s: nat, j: nat, h': nat, s': nat, j': nat)
    requires s < 2 && s' < 2 && j < half && j' < half
    ensures Row(h, s, j, half) == Row(h', s', j', half) <==> h == h' && s == s' && j == j'
    ensures NewRow(h, s, j, half) == NewRow(h', s', j', half) <==> h == h' && s == s' && j == j'
  {
    if Row(h, s, j, half) == Row(h', s', j', half) {
      SameQuotient(h * 2 + s, j, h' * 2 + s', j', half);
    }
    if NewRow(h, s, j, half) == NewRow(h', s', j', half) {
      SameQuotient(h * half + j, s, h' * half + j', s', 2);
      SameQuotient(h, j, h', j', half);
    }
  }

  lemma FourAxes(n0: nat, n1: nat, n2: nat, n3: nat, i0: nat, i1: nat, i2: nat, i3: nat)
    ensures Ravel([n0, n1, n2, n3], [i0, i1, i2, i3]) == ((i0 * n1 + i1) * n2 + i2) * n3 + i3
    ensures Prod([n0, n1, n2, n3]) == n0 * n1 * n2 * n3
  {
    RavelMore([n0, n1, n2], n3, [i0, i1, i2], i3);
    RavelMore([n0, n1], n2, [i0, i1], i2);
    RavelMore([n0], n1, [i0], i1);
    RavelMore([], n0, [], i0);
    assert [n0, n1, n2] + [n3] == [n0, n1, n2, n3] && [i0, i1, i2] + [i3] == [i0, i1, i2, i3];
    assert [n0, n1] + [n2] == [n0, n1, n2] && [i0, i1] + [i2] == [i0, i1, i2];
    assert [n0] + [n1] == [n0, n1] && [i0] + [i1] == [i0, i1];
    var none: seq<nat> := [];
    assert none + [n0] == [n0] && none + [i0] == [i0];
  }

  lemma SwappedMiddle(idx: Index)
    requires |idx| == 4
    ensures IsPermutation(Swapped(4, 1, 2)) && Origin(Swapped(4, 1, 2), idx) == [idx[0], idx[2], idx[1], idx[3]]
  {
    SwappedIsPermutation(4, 1, 2);
    var axes := Swapped(4, 1, 2);
    var o := Origin(axes, idx);
    assert o[axes[0]] == idx[0] && o[axes[1]] == idx[1] && o[axes[2]] == idx[2] && o[axes[3]] == idx[3];
  }

  lemma TwoPlaces(n0: nat, n1: nat, i0: nat, i1: nat)
    ensures Ravel([n0, n1], [i0, i1]) == i0 * n1 + i1 && Prod([n0, n1]) == n0 * n1
  {
    RavelMore([n0], n1, [i0], i1);
    RavelMore([], n0, [], i0);
    assert [n0] + [n1] == [n0, n1] && [i0] + [i1] == [i0, i1];
    var none: seq<nat> := [];
    assert none + [n0] == [n0] && none + [i0] == [i0];
  }

  /** An element at the same place of the same data in two shapes. */
  lemma SamePlace(t: Tensor, u: Tensor, i: Index, j: Index)
    requires t.Valid() && u.Valid() && t.data == u.data && Within(t.shape, i) && Within(u.shape, j)
    requires Ravel(t.shape, i) == Ravel(u.shape, j)
    ensures t.At(i) == u.At(j)
  {
  }

  lemma MovedAt(split: Tensor, swapped: Tensor, h: nat, s: nat, j: nat, col: nat)
    requires split.Valid() && |split.shape| == 4 && Within(split.shape, [h, s, j, col])
    requires SwapAxes(split, 1, 2) == Success(swapped)
    ensures swapped.shape == [split.shape[0], split.shape[2], split.shape[1], split.shape[3]]
    ensures Within(swapped.shape, [h, j, s, col]) && swapped.At([h, j, s, col]) == split.At([h, s, j, col])
  {
    SwappedIsPermutation(4, 1, 2);
    SwappedMiddle([h, j, s, col]);
    assert swapped.shape == [split.shape[0], split.shape[2], split.shape[1], split.shape[3]];
    assert swapped.At([h, j, s, col]) == OriginAt(split, Swapped(4, 1, 2), [h, j, s, col]);
  }

  lemma RowsWithin(rows: nat, heads: nat, half: nat, h: nat, s: nat, j: nat)
    requires rows == heads * 2 * half && h < heads && s < 2 && j < half
    ensures Row(h, s, j, half) < rows && NewRow(h, s, j, half) < rows
  {
    PlaceBelow(h * 2 + s, j, heads * 2, half);
    PlaceBelow(h, j, heads, half);
    PlaceBelow(h * half + j, s, heads * half, 2);
    assert heads * half * 2 == heads * 2 * half;
  }

  lemma Rearranged(x: nat, y: nat, z: nat, cols: nat)
    requires cols > 0 && x * 2 * y * cols == z * cols
    ensures z == x * 2 * y
  {
    CancelRight(x * 2 * y, z, cols);
  }

  /**
    Of a matrix each row is put at its new place. The heads are those for keys and values if their number
    is given.
   */
  lemma RowsMoved(t: Tensor, nHead: nat, nHeadKv: Option<nat>, heads: nat, h: nat, s: nat, j: nat, col: nat)
    requires t.Valid() && |t.shape| == 2 && PermuteHeads(t, nHead, nHeadKv).Success?
    requires heads == match nHeadKv case Some(kv) => kv case None => nHead
    requires h < heads && s < 2 && j < t.shape[0] / heads / 2 && col < t.shape[1]
    ensures var p, half := PermuteHeads(t, nHead, nHeadKv).value, t.shape[0] / heads / 2;
            && p.shape == t.shape
            && Within(t.shape, [Row(h, s, j, half), col])
            && Within(t.shape, [NewRow(h, s, j, half), col])
            && p.Valid()
            && p.At([NewRow(h, s, j, half), col]) == t.At([Row(h, s, j, half), col])
  {
    var half, rows, cols := t.shape[0] / heads / 2, t.shape[0], t.shape[1];
    var split := Reshape(t, ByHead(t.shape, heads)).value;
    var swapped := SwapAxes(split, 1, 2).value;
    assert t.shape == [rows, cols] && split.shape == [heads, 2, half, cols];
    RowMoved(t, split, swapped, PermuteHeads(t, nHead, nHeadKv).value, heads, half, h, s, j, col);
  }

  lemma RowMoved(t: Tensor, split: Tensor, swapped: Tensor, p: Tensor, heads: nat, half: nat, h: nat, s: nat, j: nat,
                 col: nat)
    requires t.Valid() && |t.shape| == 2 && split.shape == [heads, 2, half, t.shape[1]]
    requires Reshape(t, split.shape) == Success(split)
    requires SwapAxes(split, 1, 2) == Success(swapped) && Reshape(swapped, t.shape) == Success(p)
    requires h < heads && s < 2 && j < half && col < t.shape[1]
    ensures p.Valid() && p.shape == t.shape
    ensures Within(t.shape, [Row(h, s, j, half), col]) && Within(t.shape, [NewRow(h, s, j, half), col])
    ensures p.At([NewRow(h, s, j, half), col]) == t.At([Row(h, s, j, half), col])
  {
    var rows, cols := t.shape[0], t.shape[1];
    assert t.shape == [rows, cols];
    SplitRows(rows, heads, half, cols);
    RowsWithin(rows, heads, half, h, s, j);
    SameElement(t, split, [rows, cols], [heads, 2, half, cols], Row(h, s, j, half), h, s, j, col);
    MovedAt(split, swapped, h, s, j, col);
    SameElement(p, swapped, [rows, cols], [heads, half, 2, cols], NewRow(h, s, j, half), h, j, s, col);
  }

  /** The same of the matrix that a pair of factors stands for. */
  lemma LoraRowsMoved(l: Lora, nHead: nat, nHeadKv: Option<nat>, heads: nat, h: nat, s: nat, j: nat, col: nat)
    requires l.Fits() && l.Rank() > 0 && |l.b.shape| == 2 && LoraPermuteHeads(l, nHead, nHeadKv).Success?
    requires heads == match nHeadKv case Some(kv) => kv case None => nHead
    requires h < heads && s < 2 && j < l.b.shape[0] / heads / 2 && col < Last(l.a.shape)
    ensures var l', half := LoraPermuteHeads(l, nHead, nHeadKv).value, l.b.shape[0] / heads / 2;
            && l'.Fits()
            && Within(Dense(l').shape, [NewRow(h, s, j, half), col])
            && Within(Dense(l).shape, [Row(h, s, j, half), col])
            && Dense(l').At([NewRow(h, s, j, half), col]) == Dense(l).At([Row(h, s, j, half), col])
  {
    HeadsCommute(l, nHead, nHeadKv);
    assert l.ShapeOf() == [l.b.shape[0], Last(l.a.shape)];
    RowsMoved(Dense(l), nHead, nHeadKv, heads, h, s, j, col);
  }

  lemma SplitRows(rows: nat, heads: nat, half: nat, cols: nat)
    requires Prod([heads, 2, half, cols]) == Prod([rows, cols]) && cols > 0
    ensures rows == heads * 2 * half
  {
    FourAxes(heads, 2, half, cols, 0, 0, 0, 0);
    TwoPlaces(rows, cols, 0, 0);
    Rearranged(heads, half, rows, cols);
  }

  /** An element of a matrix, and of the same data with its rows numbered by three axes. */
  lemma SameElement(t: Tensor, u: Tensor, two: Shape, four: Shape, row: nat, i0: nat, i1: nat, i2: nat, col: nat)
    requires |two| == 2 && |four| == 4 && t.shape == two && u.shape == four && t.Valid() && u.Valid()
    requires t.data == u.data
    requires two[1] == four[3] && Within(two, [row, col]) && Within(four, [i0, i1, i2, col])
    requires row == (i0 * four[1] + i1) * four[2] + i2
    ensures t.At([row, col]) == u.At([i0, i1, i2, col])
  {
    TwoPlaces(two[0], two[1], row, col);
    FourAxes(four[0], four[1], four[2], four[3], i0, i1, i2, col);
    assert two == [two[0], two[1]] && four == [four[0], four[1], four[2], four[3]];
    SamePlace(t, u, [row, col], [i0, i1, i2, col]);
  }

  // ---------------------------------------------------------------------------------------------
  // When it can be done

  lemma WholeHeads(rows: nat, heads: nat)
    requires heads > 0
    ensures heads * 2 * (rows / heads / 2) == rows <==> rows % (heads * 2) == 0
  {
    var half, d := rows / heads / 2, heads * 2;
    if heads * 2 * half == rows {
      assert half * d == rows;
      DivMod(half, 0, d, rows);
    }
    if rows % d == 0 {
      var q := rows / d;
      assert q * d == rows && rows == q * 2 * heads;
      DivMod(q * 2, 0, heads, rows);
      DivMod(q, 0, 2, q * 2);
    }
  }

  lemma SplitShape(rows: nat, cols: nat, heads: nat)
    requires heads > 0 && cols > 0
    ensures Prod([heads, 2, rows / heads / 2, cols]) == Prod([rows, cols]) <==> rows % (heads * 2) == 0
  {
    var half := rows / heads / 2;
    FourAxes(heads, 2, half, cols, 0, 0, 0, 0);
    TwoPlaces(rows, cols, 0, 0);
    WholeHeads(rows, heads);
    if Prod([heads, 2, half, cols]) == Prod([rows, cols]) {
      CancelRight(heads * 2 * half, rows, cols);
    }
  }

  lemma SwapMiddle(t: Tensor)
    requires t.Valid() && |t.shape| == 4
    ensures SwapAxes(t, 1, 2).Success? && Prod(SwapAxes(t, 1, 2).value.shape) == Prod(t.shape)
  {
    var s := t.shape;
    SwappedIsPermutation(4, 1, 2);
    var u := SwapAxes(t, 1, 2).value.shape;
    assert s == [s[0], s[1], s[2], s[3]] && u == [s[0], s[2], s[1], s[3]];
    SameProduct(s[0], s[1], s[2], s[3]);
  }

  lemma SameProduct(a: nat, b: nat, c: nat, d: nat)
    ensures Prod([a, b, c, d]) == Prod([a, c, b, d])
  {
    FourAxes(a, b, c, d, 0, 0, 0, 0);
    FourAxes(a, c, b, d, 0, 0, 0, 0);
    Exchanged(a, b, c);
  }

  lemma Exchanged(a: nat, b: nat, c: nat)
    ensures a * b * c == a * c * b
  {
    assert a * b * c == a * (b * c) && a * c * b == a * (c * b);
  }

  /** A matrix can be permuted just when its rows are made up of heads of two halves each. */
  lemma HeadsPossible(t: Tensor, nHead: nat, nHeadKv: Option<nat>, heads: nat)
    requires t.Valid() && |t.shape| == 2 && t.shape[1] > 0
    requires heads == match nHeadKv case Some(kv) => kv case None => nHead
    ensures PermuteHeads(t, nHead, nHeadKv).Success? <==> heads > 0 && t.shape[0] % (heads * 2) == 0
  {
    if heads > 0 {
      var rows, cols := t.shape[0], t.shape[1];
      assert t.shape == [rows, cols] && ByHead(t.shape, heads) == [heads, 2, rows / heads / 2, cols];
      SplitShape(rows, cols, heads);
      if rows % (heads * 2) == 0 {
        SwapMiddle(Reshape(t, ByHead(t.shape, heads)).value);
      }
    }
  }

  lemma SplitFactors(l: Lora, byHead: Shape, split: Lora)
    requires l.Fits() && l.Rank() > 0 && LoraReshape(l, byHead) == Success(split)
    ensures split.Fits() && split.Rank() == l.Rank() && Last(split.a.shape) == Last(l.a.shape)
    ensures split.ShapeOf() == byHead && AllOnes(Lead(split.a.shape))
  {
    ReshapedShape(l, byHead);
    ReshapeCommutes(l, byHead);
    ReshapedOnes(l, |byHead|);
  }

  lemma SwappedFactors(split: Lora)
    requires split.Fits() && |split.b.shape| == 4 && AllOnes(Lead(split.a.shape))
    ensures var swapped := LoraSwapAxes(split, 1, 2);
            && swapped.Success?
            && swapped.value.Fits()
            && swapped.value.a == split.a
            && swapped.value.Rank() == split.Rank()
            && Prod(swapped.value.ShapeOf()) == Prod(split.ShapeOf())
  {
    var b := SwappedRows(split);
    SwapCommutes(split, 1, 2);
    SwapMiddle(Dense(split));
  }

  lemma SwappedRows(split: Lora) returns (b: Tensor)
    requires split.Fits() && |split.b.shape| == 4 && AllOnes(Lead(split.a.shape))
    ensures LoraSwapAxes(split, 1, 2) == Success(Lora(split.a, b)) && Lora(split.a, b).Valid()
  {
    var axes := Swapped(4, 1, 2);
    SwappedIsPermutation(4, 1, 2);
    AxesCounted(4, axes);
    b := Permute(split.b, axes).value;
    assert Last(axes) == 3;
  }

  lemma BackAgain(swapped: Lora, shape: Shape)
    requires swapped.Fits() && swapped.Rank() > 0 && Last(swapped.a.shape) > 0 && AllOnes(Lead(swapped.a.shape))
    requires |shape| == 2 && shape[1] == Last(swapped.a.shape) && Prod(shape) == Prod(swapped.ShapeOf())
    ensures LoraReshape(swapped, shape).Success?
  {
    assert AsShape(shape) == shape;
    ReshapePossible(swapped, shape);
  }

  lemma SplitPossible(l: Lora, heads: nat)
    requires l.Fits() && |l.b.shape| == 2 && l.Rank() > 0 && Last(l.a.shape) > 0 && heads > 0
    ensures LoraReshape(l, ByHead(l.ShapeOf(), heads)).Success? <==> l.b.shape[0] % (heads * 2) == 0
  {
    var shape := l.ShapeOf();
    var rows, cols := shape[0], shape[1];
    var byHead := ByHead(shape, heads);
    assert shape == [rows, cols] && byHead == [heads, 2, rows / heads / 2, cols];
    assert AsShape(byHead) == byHead;
    SplitShape(rows, cols, heads);
    ReshapePossible(l, byHead);
  }

  /** A pair of factors of a matrix can be permuted just when the matrix can. */
  lemma LoraHeadsPossible(l: Lora, nHead: nat, nHeadKv: Option<nat>, heads: nat)
    requires l.Fits() && |l.b.shape| == 2 && l.Rank() > 0 && Last(l.a.shape) > 0
    requires heads == match nHeadKv case Some(kv) => kv case None => nHead
    ensures LoraPermuteHeads(l, nHead, nHeadKv).Success? <==> heads > 0 && l.b.shape[0] % (heads * 2) == 0
  {
    if heads > 0 {
      var shape := l.ShapeOf();
      var byHead := ByHead(shape, heads);
      SplitPossible(l, heads);
      if l.b.shape[0] % (heads * 2) == 0 {
        var split := LoraReshape(l, byHead).value;
        SplitFactors(l, byHead, split);
        SwappedFactors(split);
        SplitShape(shape[0], shape[1], heads);
        assert shape == [shape[0], shape[1]] && byHead == [heads, 2, shape[0] / heads / 2, shape[1]];
        BackAgain(LoraSwapAxes(split, 1, 2).value, shape);
      }
    }
  }
}
