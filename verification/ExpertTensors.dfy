/** Gathering the tensors of the experts of each layer until they can be stacked. */
module ExpertTensors {
  import Numerals

  /** A weight of an expert of a layer; `which` is 0, 1 or 2 for w1, w2 and w3. */
  datatype Expert = Expert(layer: nat, index: nat, which: nat)

  /** The tensors of the experts of a layer, to be stacked in order. */
  datatype Merged<T> = Merged(layer: nat, which: nat, datas: seq<T>)

  function WeightName(which: nat): string {
    if which == 0 then "w1.weight" else if which == 1 then "w2.weight" else "w3.weight"
  }

  /** A name with two numbers in it, each before a point. */
  function Numbered(first: string, m: nat, second: string, n: nat, last: string): string {
    first + (Numerals.ToString(m) + "." + (second + (Numerals.ToString(n) + "." + last)))
  }

  function TensorName(e: Expert): string {
    Numbered("model.layers.", e.layer, "block_sparse_moe.experts.", e.index, WeightName(e.which))
  }

  /** Digits up to a point can be read in one way. */
  lemma DigitsThenPoint(m: nat, n: nat, a: string, b: string)
    requires Numerals.ToString(m) + "." + a == Numerals.ToString(n) + "." + b
    ensures m == n && a == b
  {
    var x, y := Numerals.ToString(m), Numerals.ToString(n);
    var s := x + "." + a;
    NoPoint(m);
    NoPoint(n);
    assert s[|x|] == '.' && s[|y|] == '.';
    assert forall i :: 0 <= i < |x| ==> s[i] == x[i];
    assert forall i :: 0 <= i < |y| ==> s[i] == y[i];
    assert |x| == |y|;
    assert x == s[..|x|] == y;
    assert a == s[|x| + 1..] == b;
    Numerals.ToStringInjective(m, n);
  }

  lemma NoPoint(n: nat)
    ensures forall i :: 0 <= i < |Numerals.ToString(n)| ==> Numerals.ToString(n)[i] != '.'
  {
    var w := Numerals.Numeral(n);
    assert forall i :: 0 <= i < |w| ==> Numerals.IsDigit(w[i]) && Numerals.ToString(n)[i] == w[i] as char;
  }

  predicate InRange(e: Expert, experts: nat, layers: nat) {
    e.layer < layers && e.index < experts && e.which < 3
  }

  lemma NumberedDiffer(first: string, m: nat, second: string, n: nat, last: string, m': nat, n': nat, last': string)
    requires Numbered(first, m, second, n, last) == Numbered(first, m', second, n', last')
    ensures m == m' && n == n' && last == last'
  {
    var tail, tail' := Numerals.ToString(n) + "." + last, Numerals.ToString(n') + "." + last';
    SameTail(first, Numerals.ToString(m) + "." + (second + tail), Numerals.ToString(m') + "." + (second + tail'));
    DigitsThenPoint(m, m', second + tail, second + tail');
    SameTail(second, tail, tail');
    DigitsThenPoint(n, n', last, last');
  }

  /** Different experts have tensors of different names. */
  lemma NamesDiffer(d: Expert, e: Expert)
    requires d.which < 3 && e.which < 3 && TensorName(d) == TensorName(e)
    ensures d == e
  {
    NumberedDiffer("model.layers.", d.layer, "block_sparse_moe.experts.", d.index, WeightName(d.which),
                   e.layer, e.index, WeightName(e.which));
    assert WeightName(d.which)[1] == WeightName(e.which)[1];
  }

  lemma SameTail(p: string, a: string, b: string)
    requires p + a == p + b
    ensures a == b
  {
    assert a == (p + a)[|p|..] == (p + b)[|p|..] == b;
  }

  // ---------------------------------------------------------------------------------------------
  // The experts of a layer

  /** All weights of a layer up to the number of experts. */
  function AllOf(layer: nat, experts: nat): set<Expert> {
    set i: nat, w: nat | i < experts && w < 3 :: Expert(layer, i, w)
  }

  lemma {:induction false} AllOfSize(layer: nat, experts: nat)
    ensures |AllOf(layer, experts)| == 3 * experts
    decreases experts
  {
    if experts > 0 {
      var n := experts - 1;
      AllOfSize(layer, n);
      var last := {Expert(layer, n, 0), Expert(layer, n, 1), Expert(layer, n, 2)};
      assert AllOf(layer, experts) == AllOf(layer, n) + last;
    } else {
      assert AllOf(layer, experts) == {};
    }
  }

  function Of(arrived: set<Expert>, layer: nat): set<Expert> {
    set e | e in arrived && e.layer == layer
  }

  /** Nothing has come of the layer, or all of it. */
  predicate IsComplete(arrived: set<Expert>, layer: nat, experts: nat) {
    AllOf(layer, experts) <= arrived
  }

  /** How tensors are named; different ones differently. */
  type Naming = Expert -> string

  ghost predicate Distinct(name: Naming) {
    forall d: Expert, e: Expert :: d.which < 3 && e.which < 3 && name(d) == name(e) ==> d == e
  }

  lemma TensorNamesDistinct()
    ensures Distinct(TensorName)
  {
    forall d: Expert, e: Expert | d.which < 3 && e.which < 3 && TensorName(d) == TensorName(e)
      ensures d == e
    {
      NamesDiffer(d, e);
    }
  }

  predicate AreWeights(es: set<Expert>) {
    forall e :: e in es ==> e.which < 3
  }

  function NamesOf(name: Naming, es: set<Expert>): set<string> {
    set e | e in es :: name(e)
  }

  lemma {:induction false} NamesOfSize(name: Naming, es: set<Expert>)
    requires Distinct(name) && AreWeights(es)
    ensures |NamesOf(name, es)| == |es|
    decreases |es|
  {
    if es != {} {
      var e :| e in es;
      var rest := es - {e};
      NamesOfSize(name, rest);
      assert name(e) !in NamesOf(name, rest);
      assert NamesOf(name, es) == NamesOf(name, rest) + {name(e)};
    } else {
      assert NamesOf(name, es) == {};
    }
  }

  // ---------------------------------------------------------------------------------------------
  // Gathering

  /** The tensors of one weight of all experts, in order. */
  function InOrder<T>(values: map<Expert, T>, layer: nat, which: nat, experts: nat): seq<T>
    requires forall i :: 0 <= i < experts ==> Expert(layer, i, which) in values
  {
    seq(experts, i requires 0 <= i < experts => values[Expert(layer, i, which)])
  }

  /** What a complete layer yields. */
  function LayerMerged<T>(values: map<Expert, T>, layer: nat, experts: nat): seq<Merged<T>>
    requires AllOf(layer, experts) <= values.Keys
  {
    assert forall i: nat, w: nat :: i < experts && w < 3 ==> Expert(layer, i, w) in AllOf(layer, experts);
    [Merged(layer, 0, InOrder(values, layer, 0, experts)), Merged(layer, 1, InOrder(values, layer, 1, experts)),
     Merged(layer, 2, InOrder(values, layer, 2, experts))]
  }

  /** There are three stacks, for w1, w2 and w3, and each has the tensors of its weight in the order of the experts. */
  lemma StacksOf<T>(values: map<Expert, T>, layer: nat, experts: nat)
    requires forall i: nat, w: nat :: i < experts && w < 3 ==> Expert(layer, i, w) in values
    ensures AllOf(layer, experts) <= values.Keys
    ensures var stacks := LayerMerged(values, layer, experts);
            && |stacks| == 3
            && forall w :: 0 <= w < 3 ==>
                 && stacks[w].layer == layer
                 && stacks[w].which == w
                 && |stacks[w].datas| == experts
                 && forall i :: 0 <= i < experts ==> stacks[w].datas[i] == values[Expert(layer, i, w)]
  {
  }

  /** The names under which the tensors of experts come. */
  lemma NameOf(e: Expert)
    requires e.which < 3
    ensures TensorName(e) == "model.layers." + Numerals.ToString(e.layer) + ".block_sparse_moe.experts." +
            Numerals.ToString(e.index) + [".w1.weight", ".w2.weight", ".w3.weight"][e.which]
  {
    var weight := ["w1.weight", "w2.weight", "w3.weight"][e.which];
    assert WeightName(e.which) == weight && "." + weight == [".w1.weight", ".w2.weight", ".w3.weight"][e.which];
    assert "." + "block_sparse_moe.experts." == ".block_sparse_moe.experts.";
    Regrouped("model.layers.", Numerals.ToString(e.layer), "block_sparse_moe.experts.", Numerals.ToString(e.index),
      weight);
  }

  lemma Regrouped(a: string, x: string, b: string, y: string, c: string)
    ensures a + (x + "." + (b + (y + "." + c))) == a + x + ("." + b) + y + ("." + c)
  {
  }

  /** `pending` holds the tensors of these experts by their names. */
  ghost predicate Holds<T>(name: Naming, pending: map<string, T>, es: set<Expert>, values: map<Expert, T>) {
    && es <= values.Keys
    && pending.Keys == NamesOf(name, es)
    && forall e :: e in es ==> name(e) in pending && pending[name(e)] == values[e]
  }

  /** What is left of a layer when the weights before `which`, and those of it up to `index`, have been taken out. */
  function Left(layer: nat, experts: nat, which: nat, index: nat): set<Expert> {
    set e | e in AllOf(layer, experts) && (e.which > which || (e.which == which && e.index >= index))
  }

  lemma LeftStep(layer: nat, experts: nat, which: nat, index: nat)
    requires which < 3 && index < experts
    ensures Expert(layer, index, which) in Left(layer, experts, which, index)
    ensures Left(layer, experts, which, index) - {Expert(layer, index, which)} == Left(layer, experts, which, index + 1)
    ensures AreWeights(Left(layer, experts, which, index))
  {
  }

  lemma LeftEnds(layer: nat, experts: nat, which: nat)
    ensures Left(layer, experts, which, experts) == Left(layer, experts, which + 1, 0)
    ensures Left(layer, experts, 0, 0) == AllOf(layer, experts) && Left(layer, experts, 3, 0) == {}
  {
  }

  lemma TakenOut<T>(name: Naming, pending: map<string, T>, es: set<Expert>, values: map<Expert, T>, e: Expert)
    requires Distinct(name) && Holds(name, pending, es, values) && e in es && AreWeights(es)
    ensures name(e) in pending && pending[name(e)] == values[e]
    ensures Holds(name, pending - {name(e)}, es - {e}, values)
  {
  }

  /** Takes the tensors of one weight of all experts out of those that wait; all of them are there. */
  method TakeWeight<T>(name: Naming, pending: map<string, T>, layer: nat, which: nat, experts: nat,
                       ghost values: map<Expert, T>)
    returns (datas: seq<T>, rest: map<string, T>)
    requires Distinct(name) && which < 3 && AllOf(layer, experts) <= values.Keys
    requires Holds(name, pending, Left(layer, experts, which, 0), values)
    ensures |datas| == experts && forall i :: 0 <= i < experts ==>
            Expert(layer, i, which) in values && datas[i] == values[Expert(layer, i, which)]
    ensures Holds(name, rest, Left(layer, experts, which + 1, 0), values)
  {
    datas, rest := [], pending;
    for i := 0 to experts
      invariant |datas| == i
      invariant forall j :: 0 <= j < i ==>
                Expert(layer, j, which) in values && datas[j] == values[Expert(layer, j, which)]
      invariant Holds(name, rest, Left(layer, experts, which, i), values)
    {
      var e := Expert(layer, i, which);
      LeftStep(layer, experts, which, i);
      TakenOut(name, rest, Left(layer, experts, which, i), values, e);
      datas := datas + [rest[name(e)]];
      rest := rest - {name(e)};
    }
    LeftEnds(layer, experts, which);
  }

  /** Takes a complete layer out, weight by weight. */
  method TakeLayer<T>(name: Naming, pending: map<string, T>, layer: nat, experts: nat, ghost values: map<Expert, T>)
    returns (merged: seq<Merged<T>>, rest: map<string, T>)
    requires Distinct(name) && Holds(name, pending, AllOf(layer, experts), values)
    ensures merged == LayerMerged(values, layer, experts) && rest == map[]
  {
    LeftEnds(layer, experts, 0);
    ghost var whole := LayerMerged(values, layer, experts);
    merged, rest := [], pending;
    for w := 0 to 3
      invariant Holds(name, rest, Left(layer, experts, w, 0), values)
      invariant merged == whole[..w]
    {
      var datas;
      datas, rest := TakeWeight(name, rest, layer, w, experts, values);
      assert datas == whole[w].datas;
      merged := merged + [Merged(layer, w, datas)];
    }
    assert rest.Keys == {};
  }

  lemma Enough(name: Naming, arrived: set<Expert>, layer: nat, experts: nat, layers: nat)
    requires Distinct(name) && forall e :: e in arrived ==> InRange(e, experts, layers)
    ensures |NamesOf(name, Of(arrived, layer))| >= 3 * experts <==> IsComplete(arrived, layer, experts)
    ensures IsComplete(arrived, layer, experts) ==> Of(arrived, layer) == AllOf(layer, experts)
  {
    var here, all := Of(arrived, layer), AllOf(layer, experts);
    NamesOfSize(name, here);
    AllOfSize(layer, experts);
    forall e | e in here
      ensures e in all
    {
      assert e == Expert(layer, e.index, e.which);
    }
    if |here| >= |all| {
      assert |all - here| == |all| - |here|;
      assert all - here == {};
    }
    if IsComplete(arrived, layer, experts) {
      assert all <= here;
    }
  }

  lemma PutIn<T>(name: Naming, pending: map<string, T>, es: set<Expert>, values: map<Expert, T>, e: Expert, data: T)
    requires Distinct(name) && Holds(name, pending, es, values) && e !in values && e.which < 3 && AreWeights(es)
    ensures Holds(name, pending[name(e) := data], es + {e}, values[e := data])
  {
  }

  /** The experts of a layer whose tensors wait: all that have come, until the layer is complete. */
  function WaitingOf(arrived: set<Expert>, layer: nat, experts: nat): set<Expert> {
    if IsComplete(arrived, layer, experts) then {} else Of(arrived, layer)
  }

  class ExpertGatherer<T> {
    const experts: nat
    const name: Naming
    /** The tensors of each layer that wait for the others. */
    var pending: seq<map<string, T>>
    /** Everything that has come. */
    ghost var values: map<Expert, T>

    ghost predicate Valid()
      reads this
    {
      && Distinct(name)
      && (forall e :: e in values ==> InRange(e, experts, |pending|))
      && forall b {:trigger Waits(b)} :: 0 <= b < |pending| ==> Waits(b)
    }

    ghost predicate Waits(b: nat)
      requires b < |pending|
      reads this
    {
      Holds(name, pending[b], WaitingOf(values.Keys, b, experts), values)
    }

    constructor (experts: nat, layers: nat)
      ensures this.experts == experts && |pending| == layers && values == map[] && name == TensorName
      ensures Valid()
    {
      this.experts := experts;
      name := TensorName;
      pending := seq(layers, _ => map[]);
      values := map[];
      new;
      TensorNamesDistinct();
    }

    /**
      Keeps the tensor of an expert that has not come before. When it is the last one of its layer the
      tensors of all of them are handed out, in the order of the experts, and kept no longer.
     */
    method ModifyTensors(e: Expert, data: T) returns (r: seq<Merged<T>>)
      requires Valid() && InRange(e, experts, |pending|) && e !in values
      modifies this
      ensures Valid() && |pending| == old(|pending|) && values == old(values)[e := data]
      ensures r == if IsComplete(values.Keys, e.layer, experts) then LayerMerged(values, e.layer, experts) else []
    {
      ghost var before, waitingBefore := values, pending;
      assert Waits(e.layer);
      var waiting;
      waiting, r := Keep(name, pending[e.layer], e, data, experts, |pending|, values);
      values := values[e := data];
      pending := pending[e.layer := waiting];
      forall c | 0 <= c < |pending|
        ensures Waits(c)
      {
        if c != e.layer {
          assert old(Waits(c));
          OthersWait(name, waitingBefore[c], before, e, data, c, experts);
        }
      }
    }

    /** Whether an error is raised at the end: exactly if some layer of which something has come is not complete. */
    method PrepareTensors() returns (raised: bool)
      requires Valid()
      ensures raised <==> exists e :: e in values && !IsComplete(values.Keys, e.layer, experts)
    {
      for b := 0 to |pending|
        invariant forall c :: 0 <= c < b ==> pending[c] == map[]
      {
        assert Waits(b);
        if pending[b] != map[] {
          StillWaiting(name, pending[b], WaitingOf(values.Keys, b, experts));
          return true;
        }
      }
      forall e | e in values
        ensures IsComplete(values.Keys, e.layer, experts)
      {
        assert Waits(e.layer);
        assert e in Of(values.Keys, e.layer);
        assert name(e) in NamesOf(name, Of(values.Keys, e.layer));
      }
      return false;
    }
  }

  /** Puts the tensor of an expert to those that wait, and takes all of them out if that was the last. */
  method Keep<T>(name: Naming, pending: map<string, T>, e: Expert, data: T, experts: nat, layers: nat,
                 ghost values: map<Expert, T>)
    returns (waiting: map<string, T>, r: seq<Merged<T>>)
    requires Distinct(name) && InRange(e, experts, layers) && e !in values
    requires forall d :: d in values ==> InRange(d, experts, layers)
    requires Holds(name, pending, WaitingOf(values.Keys, e.layer, experts), values)
    ensures var more := values[e := data];
            && Holds(name, waiting, WaitingOf(more.Keys, e.layer, experts), more)
            && r == if IsComplete(more.Keys, e.layer, experts) then LayerMerged(more, e.layer, experts) else []
  {
    ghost var more := values[e := data];
    NotYetComplete(values.Keys, e, experts, layers);
    PutIn(name, pending, Of(values.Keys, e.layer), values, e, data);
    assert Of(values.Keys, e.layer) + {e} == Of(more.Keys, e.layer);
    Enough(name, more.Keys, e.layer, experts, layers);
    waiting, r := pending[name(e) := data], [];
    assert |waiting| == |waiting.Keys|;
    if |waiting| >= 3 * experts {
      r, waiting := TakeLayer(name, waiting, e.layer, experts, more);
    }
  }

  lemma NotYetComplete(arrived: set<Expert>, e: Expert, experts: nat, layers: nat)
    requires InRange(e, experts, layers) && e !in arrived
    ensures !IsComplete(arrived, e.layer, experts)
  {
    assert e == Expert(e.layer, e.index, e.which) && e in AllOf(e.layer, experts);
  }

  /** A tensor of another layer changes nothing for a layer. */
  lemma OthersWait<T>(name: Naming, pending: map<string, T>, values: map<Expert, T>, e: Expert, data: T, layer: nat,
                      experts: nat)
    requires e.layer != layer && e !in values && Holds(name, pending, WaitingOf(values.Keys, layer, experts), values)
    ensures var more := values[e := data];
            Holds(name, pending, WaitingOf(more.Keys, layer, experts), more)
  {
    var more := values[e := data];
    assert Of(more.Keys, layer) == Of(values.Keys, layer);
    assert e !in AllOf(layer, experts);
    assert IsComplete(more.Keys, layer, experts) <==> IsComplete(values.Keys, layer, experts);
  }

  lemma StillWaiting<T>(name: Naming, pending: map<string, T>, es: set<Expert>)
    requires pending != map[] && pending.Keys == NamesOf(name, es)
    ensures exists e :: e in es
  {
    assert NamesOf(name, {}) == {};
    assert pending.Keys == {} ==> pending == map[];
  }
}
