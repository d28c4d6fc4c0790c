/**
 The small network built on the engine: neurons, layers and the multilayer
 perceptron, their forward passes and the squared-error loss. A forward pass
 only appends nodes to the arena; the functions below say exactly which, and
 the lemmas relate the data of the nodes they produce to plain arithmetic on
 the data of the inputs, weights and biases.
 */
module Network {
  import opened Values
  import opened Backprop

  /**
   A neuron: one weight node per input, the node holding its bias field and
   the rectification flag. Weights live in a slice's backing array and are
   shared by every copy of the neuron; the bias is a field of the struct,
   so a copy of the neuron holds a copy of it.
   */
  datatype Neuron = Neuron(weight: seq<nat>, bias: nat, nonlin: bool)

  datatype Layer = Layer(neurons: seq<Neuron>)

  datatype MLP = MLP(layers: seq<Layer>)

  // ---------------------------------------------------------------------
  // Reference arithmetic

  /** `bias + x[0]*w[0] + x[1]*w[1] + ...`, summed left to right. */
  function WeightedSum(bias: real, xs: seq<real>, ws: seq<real>): real
    requires |xs| <= |ws|
    decreases |xs|
  {
    if xs == [] then bias
    else WeightedSum(bias, xs[..|xs| - 1], ws) + Product(xs[|xs| - 1], ws[|xs| - 1])
  }

  /** Rectification when `on`: a negative value becomes 0. */
  function Rectify(on: bool, v: real): (r: real)
    ensures on ==> r >= 0.0
    ensures r == v || (on && v < 0.0 && r == 0.0)
  {
    if on && v < 0.0 then 0.0 else v
  }

  /** The data held by the nodes `ids`. */
  function Data(g: Arena, ids: seq<nat>): seq<real>
    requires AllBelow(ids, |g|)
  {
    seq(|ids|, k requires 0 <= k < |ids| => g[ids[k]].data)
  }

  /** The weights and bias of `n` are nodes of `g`. */
  ghost predicate NeuronIn(g: Arena, n: Neuron) {
    n.bias < |g| && AllBelow(n.weight, |g|)
  }

  /** What the neuron computes on input values `xs`, with the parameters stored in `g`. */
  function EvalNeuron(g: Arena, n: Neuron, xs: seq<real>): real
    requires NeuronIn(g, n) && |xs| <= |n.weight|
  {
    Rectify(n.nonlin, WeightedSum(g[n.bias].data, xs, Data(g, n.weight)))
  }

  /** Every neuron of `ns` is in `g` and has at least `width` weights. */
  ghost predicate LayerIn(g: Arena, ns: seq<Neuron>, width: nat) {
    forall k | 0 <= k < |ns| :: NeuronIn(g, ns[k]) && width <= |ns[k].weight|
  }

  function EvalLayer(g: Arena, ns: seq<Neuron>, xs: seq<real>): seq<real>
    requires LayerIn(g, ns, |xs|)
  {
    seq(|ns|, k requires 0 <= k < |ns| => EvalNeuron(g, ns[k], xs))
  }

  /** The number of values layer `k` receives: the input width, then the previous layer's size. */
  function InputWidth(ls: seq<Layer>, k: nat, width: nat): nat
    requires k <= |ls|
  {
    if k == 0 then width else |ls[k - 1].neurons|
  }

  /** The layers fit together: each neuron has a weight for every value its layer receives. */
  ghost predicate LayersIn(g: Arena, ls: seq<Layer>, width: nat) {
    forall k | 0 <= k < |ls| :: LayerIn(g, ls[k].neurons, InputWidth(ls, k, width))
  }

  function EvalMLP(g: Arena, ls: seq<Layer>, xs: seq<real>): (r: seq<real>)
    requires LayersIn(g, ls, |xs|)
    ensures |r| == InputWidth(ls, |ls|, |xs|)
    decreases |ls|
  {
    if ls == [] then xs
    else
      var m := |ls| - 1;
      assert LayersIn(g, ls[..m], |xs|) by {
        forall k | 0 <= k < m ensures InputWidth(ls[..m], k, |xs|) == InputWidth(ls, k, |xs|) { }
      }
      EvalLayer(g, ls[m].neurons, EvalMLP(g, ls[..m], xs))
  }

  /** `pow(d, 2)`: the square of a difference, as the loss computes it. */
  function Square(pow: PowFn, d: real): real {
    pow(d, 2.0)
  }

  /** `(a[0] + (-1)*t[0])^2 + ...`, summed left to right from 0. */
  function SquaredError(pow: PowFn, xs: seq<real>, ts: seq<real>): real
    requires |xs| <= |ts|
    decreases |xs|
  {
    if xs == [] then 0.0
    else
      var k := |xs| - 1;
      SquaredError(pow, xs[..k], ts) + Square(pow, xs[k] + -1.0 * ts[k])
  }

  lemma SquaredErrorLast(pow: PowFn, xs: seq<real>, ts: seq<real>, k: nat)
    requires |xs| <= |ts| && k == |xs| - 1
    ensures SquaredError(pow, xs, ts) == SquaredError(pow, xs[..k], ts) + Square(pow, xs[k] + -1.0 * ts[k])
  {
  }

  lemma WeightedSumLast(bias: real, xs: seq<real>, ws: seq<real>, k: nat)
    requires |xs| <= |ws| && k == |xs| - 1
    ensures WeightedSum(bias, xs, ws) == WeightedSum(bias, xs[..k], ws) + Product(xs[k], ws[k])
  {
  }

  // ---------------------------------------------------------------------
  // Initial parameters

  /** A parameter leaf of `NewNeuron`: a standard-normal draw `d`, scaled by 0.1. */
  function Param(d: real): Value {
    NewValue(d * 0.1)
  }

  /**
   `n` is what `NewNeuron` builds from the draws `ds`: one weight per draw but
   the last, the bias from the last draw, each a leaf of `g`, and rectifying.
   */
  ghost predicate Initialised(g: Arena, n: Neuron, ds: seq<real>) {
    && |ds| == |n.weight| + 1 && NeuronIn(g, n) && n.nonlin
    && (forall i | 0 <= i < |n.weight| :: g[n.weight[i]] == Param(ds[i]))
    && g[n.bias] == Param(ds[|n.weight|])
  }

  /** The leaves `NewNeuron` allocates from the draws `ds`, in order. */
  function Params(ds: seq<real>): seq<Value>
  {
    seq(|ds|, i requires 0 <= i < |ds| => Param(ds[i]))
  }

  /**
   The nodes `NewNeuron` allocates from the draws are fresh leaves: each has
   gradient 0, no operation and no operands, and reaches only itself, so the
   arena stays well formed and no parameter depends on another node.
   */
  lemma ParamsAreLeaves(g: Arena, ds: seq<real>)
    requires WellFormed(g)
    ensures WellFormed(g + Params(ds)) && |g + Params(ds)| == |g| + |ds|
    ensures forall j | |g| <= j < |g| + |ds| ::
      && (g + Params(ds))[j].data == ds[j - |g|] * 0.1
      && (g + Params(ds))[j].grad == 0.0 && (g + Params(ds))[j].op == NoOp
    ensures forall j | |g| <= j < |g| + |ds| :: Reach(g + Params(ds), Ptr(j)) == {j}
  {
    var h := g + Params(ds);
    forall j | 0 <= j < |h| ensures LinksOk(h[j], j) {
      if j < |g| {
        assert h[j] == g[j];
      } else {
        assert h[j] == Param(ds[j - |g|]);
      }
    }
    forall j | |g| <= j < |h| ensures h[j] == Param(ds[j - |g|]) && Reach(h, Ptr(j)) == {j} {
      assert h[j] == Params(ds)[j - |g|];
    }
  }

  /** The leaves allocated after `g` from the draws `ds`, read as weights and then a bias, form an initialised neuron. */
  lemma ParamsInitialised(g: Arena, w: seq<nat>, ds: seq<real>)
    requires |ds| == |w| + 1 && forall j | 0 <= j < |w| :: w[j] == |g| + j
    ensures Initialised(g + Params(ds), Neuron(w, |g| + |w|, true), ds)
  {
    var h := g + Params(ds);
    forall i | 0 <= i < |w| ensures h[w[i]] == Param(ds[i]) {
      assert h[|g| + i] == Params(ds)[i];
    }
    assert h[|g| + |w|] == Params(ds)[|w|];
  }

  /** The leaves `NewLayer` allocates, one neuron's draws after another. */
  function LayerParams(dss: seq<seq<real>>): seq<Value>
    decreases |dss|
  {
    if dss == [] then [] else LayerParams(dss[..|dss| - 1]) + Params(dss[|dss| - 1])
  }

  /** The leaves `NewMLP` allocates, one layer's draws after another. */
  function MLPParams(dsss: seq<seq<seq<real>>>): seq<Value>
    decreases |dsss|
  {
    if dsss == [] then [] else MLPParams(dsss[..|dsss| - 1]) + LayerParams(dsss[|dsss| - 1])
  }

  /** The leaves of one more neuron follow those of the neurons before it. */
  lemma LayerParamsNext(g: Arena, dss: seq<seq<real>>, i: nat)
    requires i < |dss|
    ensures g + LayerParams(dss[..i]) + Params(dss[i]) == g + LayerParams(dss[..i + 1])
  {
    assert dss[..i + 1][..i] == dss[..i];
  }

  /** The leaves of one more layer follow those of the layers before it. */
  lemma MLPParamsNext(g: Arena, dsss: seq<seq<seq<real>>>, i: nat)
    requires i < |dsss|
    ensures g + MLPParams(dsss[..i]) + LayerParams(dsss[i]) == g + MLPParams(dsss[..i + 1])
  {
    assert dsss[..i + 1][..i] == dsss[..i];
  }

  /** A neuron stays initialised when the arena grows. */
  lemma InitialisedGrow(g: Arena, h: Arena, n: Neuron, ds: seq<real>)
    requires Initialised(g, n, ds) && |g| <= |h| && h[..|g|] == g
    ensures Initialised(h, n, ds)
  {
    forall i | 0 <= i < |n.weight| ensures h[n.weight[i]] == g[n.weight[i]] {
      assert h[n.weight[i]] == h[..|g|][n.weight[i]];
    }
    assert h[n.bias] == h[..|g|][n.bias];
  }

  /** Every neuron of `l` has `nin` weights and was initialised from its draws in `dss`. */
  ghost predicate LayerInitialised(g: Arena, l: Layer, nin: nat, dss: seq<seq<real>>) {
    && |l.neurons| == |dss|
    && forall k | 0 <= k < |dss| :: |l.neurons[k].weight| == nin && Initialised(g, l.neurons[k], dss[k])
  }

  /** A layer stays initialised when the arena grows. */
  lemma LayerInitialisedGrow(g: Arena, h: Arena, l: Layer, nin: nat, dss: seq<seq<real>>)
    requires LayerInitialised(g, l, nin, dss) && |g| <= |h| && h[..|g|] == g
    ensures LayerInitialised(h, l, nin, dss)
  {
    forall k | 0 <= k < |dss| ensures Initialised(h, l.neurons[k], dss[k]) {
      InitialisedGrow(g, h, l.neurons[k], dss[k]);
    }
  }

  /** The number of inputs of layer `k` of `NewMLP(nin, sizes)`. */
  function LayerWidth(nin: nat, sizes: seq<nat>, k: nat): nat
    requires k < |sizes|
  {
    if k == 0 then nin else sizes[k - 1]
  }

  /** Draws for `NewMLP(nin, sizes)`: per layer, per neuron, one per weight plus one for the bias. */
  ghost predicate DrawsFit(nin: nat, sizes: seq<nat>, dsss: seq<seq<seq<real>>>) {
    && |dsss| == |sizes|
    && forall k | 0 <= k < |sizes| ::
         |dsss[k]| == sizes[k] && forall j | 0 <= j < sizes[k] :: |dsss[k][j]| == LayerWidth(nin, sizes, k) + 1
  }

  /** Layer `k` of `ls` has the width `NewMLP(nin, sizes)` gives it and was initialised from `dsss[k]`. */
  ghost predicate LayersInitialised(g: Arena, ls: seq<Layer>, nin: nat, sizes: seq<nat>, dsss: seq<seq<seq<real>>>)
    requires |ls| <= |sizes| && |ls| <= |dsss|
  {
    forall k | 0 <= k < |ls| :: LayerInitialised(g, ls[k], LayerWidth(nin, sizes, k), dsss[k])
  }

  /** One more initialised layer, allocated after the others. */
  lemma LayersInitialisedNext(g: Arena, h: Arena, ls: seq<Layer>, l: Layer, nin: nat, sizes: seq<nat>,
                              dsss: seq<seq<seq<real>>>)
    requires |ls| < |sizes| && |ls| < |dsss| && |g| <= |h| && h[..|g|] == g
    requires LayersInitialised(g, ls, nin, sizes, dsss)
    requires LayerInitialised(h, l, LayerWidth(nin, sizes, |ls|), dsss[|ls|])
    ensures LayersInitialised(h, ls + [l], nin, sizes, dsss)
  {
    forall k | 0 <= k < |ls| ensures LayerInitialised(h, ls[k], LayerWidth(nin, sizes, k), dsss[k]) {
      LayerInitialisedGrow(g, h, ls[k], LayerWidth(nin, sizes, k), dsss[k]);
    }
  }

  /**
   Layers initialised with the widths `NewMLP(nin, sizes)` uses fit
   together: the network can run on `nin` inputs.
   */
  lemma InitialisedLayersFit(g: Arena, ls: seq<Layer>, nin: nat, sizes: seq<nat>, dsss: seq<seq<seq<real>>>)
    requires DrawsFit(nin, sizes, dsss) && |ls| == |sizes|
    requires LayersInitialised(g, ls, nin, sizes, dsss)
    ensures LayersIn(g, ls, nin)
  {
    forall k | 0 <= k < |ls| ensures LayerIn(g, ls[k].neurons, InputWidth(ls, k, nin)) {
      assert LayerInitialised(g, ls[k], LayerWidth(nin, sizes, k), dsss[k]);
      if k > 0 {
        assert LayerInitialised(g, ls[k - 1], LayerWidth(nin, sizes, k - 1), dsss[k - 1]);
      }
    }
  }

  // ---------------------------------------------------------------------
  // The arena after each forward operation

  /** The inputs and parameters of `n` are nodes of a well-formed `g`, with a weight per input. */
  ghost predicate NeuronFits(g: Arena, n: Neuron, x: seq<nat>) {
    WellFormed(g) && NeuronIn(g, n) && AllBelow(x, |g|) && |x| <= |n.weight|
  }

  /** The node holding `Neuron.forward`'s running total once the inputs `x` are folded in. */
  function TotalAfter(g: Arena, b: nat, x: seq<nat>): nat {
    if x == [] then b else |g| + 2 * |x| - 1
  }

  /**
   The arena after the loop of `Neuron.forward` has folded the inputs `x`
   into the total that starts at `b`: one `Mult` node and one `Add` node per
   input.
   */
  function SumNodes(g: Arena, w: seq<nat>, b: nat, x: seq<nat>): (h: Arena)
    requires WellFormed(g) && b < |g| && AllBelow(w, |g|) && AllBelow(x, |g|) && |x| <= |w|
    ensures WellFormed(h) && |h| == |g| + 2 * |x| && h[..|g|] == g && TotalAfter(g, b, x) < |h|
    decreases |x|
  {
    if x == [] then g
    else
      var k := |x| - 1;
      var h := SumNodes(g, w, b, x[..k]);
      assert h[x[k]] == g[x[k]] && h[w[k]] == g[w[k]];
      var p := Mult(h, x[k], w[k]);
      AppendWellFormed(h, p);
      var h1 := h + [p];
      var s := Add(h1, TotalAfter(g, b, x[..k]), |h|);
      AppendWellFormed(h1, s);
      h1 + [s]
  }

  /**
   What `n.forward(x)` leaves in the arena and returns: the total, with its
   data clamped in place to 0 when `n` rectifies and the total is negative.
   */
  function NeuronForwardResult(g: Arena, n: Neuron, x: seq<nat>): (r: (Arena, Value))
    requires NeuronFits(g, n, x)
    ensures WellFormed(r.0) && |r.0| == |g| + 2 * |x| && LinksOk(r.1, |r.0|)
    ensures forall i | 0 <= i < |g| && i != n.bias :: r.0[i] == g[i]
  {
    var h := SumNodes(g, n.weight, n.bias, x);
    var t := TotalAfter(g, n.bias, x);
    var h' := if n.nonlin && h[t].data < 0.0 then h[t := h[t].(data := 0.0)] else h;
    SameLinksWellFormed(h, h');
    assert LinksOk(h'[t], t);
    assert forall i | 0 <= i < |g| :: h[i] == h[..|g|][i];
    (h', h'[t])
  }

  /** The inputs are nodes of a well-formed `g` and every neuron has a weight per input. */
  ghost predicate LayerFits(g: Arena, ns: seq<Neuron>, x: seq<nat>) {
    WellFormed(g) && AllBelow(x, |g|) && LayerIn(g, ns, |x|)
  }

  /** Nodes of a prefix of the arena are nodes of the whole arena. */
  lemma LayerInGrow(g: Arena, h: Arena, ns: seq<Neuron>, width: nat)
    requires LayerIn(g, ns, width) && |g| <= |h|
    ensures LayerIn(h, ns, width)
  {
  }

  /**
   What `l.forward(x)` leaves in the arena and returns. Each neuron is run
   on a loop copy whose bias field is a fresh node holding the stored bias;
   each returned total is stored in a fresh node of the result slice.
   */
  function LayerForwardResult(g: Arena, ns: seq<Neuron>, x: seq<nat>): (r: (Arena, seq<nat>))
    requires LayerFits(g, ns, x)
    ensures WellFormed(r.0) && |g| <= |r.0| && r.0[..|g|] == g
    ensures |r.1| == |ns| && AllBelow(r.1, |r.0|)
    decreases |ns|
  {
    if ns == [] then (g, [])
    else
      var m := |ns| - 1;
      LayerFitsPrefix(g, ns, x, m);
      var r := LayerForwardResult(g, ns[..m], x);
      var n := ns[m];
      CopyForward(g, r.0, n, x);
      var o := NeuronForwardResult(r.0 + [r.0[n.bias]], n.(bias := |r.0|), x);
      AllBelowPush(r.1, |r.0|, |o.0|);
      (o.0 + [o.1], r.1 + [|o.0|])
  }

  /** One more result node, allocated last, keeps the results among the arena's nodes. */
  lemma AllBelowPush(ids: seq<nat>, n: nat, m: nat)
    requires AllBelow(ids, n) && n <= m
    ensures AllBelow(ids + [m], m + 1)
  {
  }

  /** A prefix of the neurons fits wherever all of them do. */
  lemma LayerFitsPrefix(g: Arena, ns: seq<Neuron>, x: seq<nat>, j: nat)
    requires LayerFits(g, ns, x) && j <= |ns|
    ensures LayerFits(g, ns[..j], x)
  {
    forall k | 0 <= k < j ensures NeuronIn(g, ns[..j][k]) && |x| <= |ns[..j][k].weight| {
      assert ns[..j][k] == ns[k];
    }
  }

  /** One iteration of `Layer.forward`'s loop, at neuron `j`, as the loop body performs it. */
  lemma LayerForwardNext(g: Arena, ns: seq<Neuron>, x: seq<nat>, j: nat)
    requires LayerFits(g, ns, x) && j < |ns|
    ensures LayerFits(g, ns[..j], x) && LayerFits(g, ns[..j + 1], x)
    ensures var r := LayerForwardResult(g, ns[..j], x);
      var n := ns[j];
      && n.bias < |r.0| && LinksOk(r.0[n.bias], |r.0|)
      && NeuronFits(r.0 + [r.0[n.bias]], n.(bias := |r.0|), x)
      && var o := NeuronForwardResult(r.0 + [r.0[n.bias]], n.(bias := |r.0|), x);
         && LayerForwardResult(g, ns[..j + 1], x) == (o.0 + [o.1], r.1 + [|o.0|])
         && (o.0 + [o.1])[..|r.0|] == r.0
  {
    LayerFitsPrefix(g, ns, x, j);
    LayerFitsPrefix(g, ns, x, j + 1);
    assert ns[..j + 1][..j] == ns[..j];
    CopyForwardAt(g, LayerForwardResult(g, ns[..j], x).0, ns, x, j);
  }

  /**
   Running a loop copy of `n` whose bias is a fresh node holding the stored
   bias, then storing the returned total in a fresh node, only extends `h`.
   */
  lemma CopyForward(g: Arena, h: Arena, n: Neuron, x: seq<nat>)
    requires NeuronFits(g, n, x) && WellFormed(h) && |g| <= |h| && h[..|g|] == g
    ensures NeuronFits(h + [h[n.bias]], n.(bias := |h|), x)
    ensures var r := NeuronForwardResult(h + [h[n.bias]], n.(bias := |h|), x);
      && WellFormed(r.0 + [r.1]) && |r.0| == |h| + 1 + 2 * |x|
      && r.0[..|h|] == h && (r.0 + [r.1])[..|h|] == h && (r.0 + [r.1])[..|g|] == g
  {
    assert h[n.bias] == h[..|g|][n.bias];
    AppendWellFormed(h, h[n.bias]);
    var h1 := h + [h[n.bias]];
    var (h2, out) := NeuronForwardResult(h1, n.(bias := |h|), x);
    AppendWellFormed(h2, out);
    assert forall i | 0 <= i < |h| :: h2[i] == h1[i] == h[i];
    assert (h2 + [out])[..|g|] == (h2 + [out])[..|h|][..|g|];
  }

  /** `CopyForward` for neuron `m` of a layer. */
  lemma CopyForwardAt(g: Arena, h: Arena, ns: seq<Neuron>, x: seq<nat>, m: nat)
    requires LayerFits(g, ns, x) && m < |ns| && WellFormed(h) && |g| <= |h| && h[..|g|] == g
    ensures NeuronIn(g, ns[m]) && LinksOk(h[ns[m].bias], |h|)
    ensures NeuronFits(h + [h[ns[m].bias]], ns[m].(bias := |h|), x)
    ensures var r := NeuronForwardResult(h + [h[ns[m].bias]], ns[m].(bias := |h|), x);
      && WellFormed(r.0 + [r.1]) && |r.0| == |h| + 1 + 2 * |x|
      && r.0[..|h|] == h && (r.0 + [r.1])[..|h|] == h && (r.0 + [r.1])[..|g|] == g
  {
    assert NeuronIn(g, ns[m]);
    assert LinksOk(h[ns[m].bias], ns[m].bias);
    CopyForward(g, h, ns[m], x);
  }

  /** The layers fit together and take inputs `x`, all nodes of a well-formed `g`. */
  ghost predicate MLPFits(g: Arena, ls: seq<Layer>, x: seq<nat>) {
    WellFormed(g) && AllBelow(x, |g|) && LayersIn(g, ls, |x|)
  }

  /** The first `m` layers fit together when all do. */
  lemma LayersPrefix(g: Arena, ls: seq<Layer>, m: nat, width: nat)
    requires LayersIn(g, ls, width) && m <= |ls|
    ensures LayersIn(g, ls[..m], width)
  {
    forall k | 0 <= k < m ensures InputWidth(ls[..m], k, width) == InputWidth(ls, k, width) { }
  }

  /** What `mlp.forward(x)` leaves in the arena and returns: the layers applied in order. */
  function MLPForwardResult(g: Arena, ls: seq<Layer>, x: seq<nat>): (r: (Arena, seq<nat>))
    requires MLPFits(g, ls, x)
    ensures WellFormed(r.0) && |g| <= |r.0| && r.0[..|g|] == g
    ensures |r.1| == InputWidth(ls, |ls|, |x|) && AllBelow(r.1, |r.0|)
    decreases |ls|
  {
    if ls == [] then (g, x)
    else
      var m := |ls| - 1;
      LayersPrefix(g, ls, m, |x|);
      var r := MLPForwardResult(g, ls[..m], x);
      assert InputWidth(ls[..m], m, |x|) == InputWidth(ls, m, |x|);
      LayerInGrow(g, r.0, ls[m].neurons, |r.1|);
      var r' := LayerForwardResult(r.0, ls[m].neurons, r.1);
      assert r'.0[..|g|] == r'.0[..|r.0|][..|g|];
      r'
  }

  /** One iteration of `mlp.forward`'s loop: layer `k` runs on what the first `k` layers left. */
  lemma MLPForwardStep(g: Arena, ls: seq<Layer>, x: seq<nat>, k: nat)
    requires MLPFits(g, ls, x) && k < |ls|
    ensures MLPFits(g, ls[..k], x) && MLPFits(g, ls[..k + 1], x)
    ensures var r := MLPForwardResult(g, ls[..k], x);
      && LayerFits(r.0, ls[k].neurons, r.1)
      && MLPForwardResult(g, ls[..k + 1], x) == LayerForwardResult(r.0, ls[k].neurons, r.1)
  {
    LayersPrefix(g, ls, k, |x|);
    LayersPrefix(g, ls, k + 1, |x|);
    var (h, y) := MLPForwardResult(g, ls[..k], x);
    assert ls[..k + 1][..k] == ls[..k];
    assert InputWidth(ls[..k + 1], k, |x|) == InputWidth(ls, k, |x|);
    LayerInGrow(g, h, ls[k].neurons, |y|);
  }

  /** The operands of `Loss` are nodes of a well-formed `g`, with a target per actual value. */
  ghost predicate LossFits(g: Arena, actual: seq<nat>, target: seq<nat>) {
    WellFormed(g) && AllBelow(actual, |g|) && AllBelow(target, |g|) && |actual| <= |target|
  }

  /** The node holding `Loss`'s running loss once the elements of `actual` are handled. */
  function LossAfter(g: Arena, loss: nat, actual: seq<nat>): nat {
    if actual == [] then loss else |g| + 4 * |actual| - 1
  }

  /**
   The arena after the loop of `Loss` has handled `actual`: per element,
   `Mult(-1, target)`, `Add(actual, that)`, `Pow(that, 2)` and
   `Add(loss, that)`, where `neg1` and `pos2` hold -1 and 2.
   */
  function LossNodes(g: Arena, actual: seq<nat>, target: seq<nat>, loss: nat, neg1: nat, pos2: nat, pow: PowFn)
    : (h: Arena)
    requires LossFits(g, actual, target) && loss < |g| && neg1 < |g| && pos2 < |g|
    ensures WellFormed(h) && |h| == |g| + 4 * |actual| && h[..|g|] == g && LossAfter(g, loss, actual) < |h|
    decreases |actual|
  {
    if actual == [] then g
    else
      var k := |actual| - 1;
      var h := LossNodes(g, actual[..k], target, loss, neg1, pos2, pow);
      LossStepWellFormed(h, actual[k], target[k], LossAfter(g, loss, actual[..k]), neg1, pos2, pow);
      LossStep(h, actual[k], target[k], LossAfter(g, loss, actual[..k]), neg1, pos2, pow)
  }

  /** The three leaves `Loss` allocates first: the running loss 0, and the constants -1 and 2. */
  function LossLeaves(g: Arena): (h: Arena)
    requires WellFormed(g)
    ensures WellFormed(h) && |h| == |g| + 3 && h[..|g|] == g
  {
    AppendWellFormed(g, NewValue(0.0));
    AppendWellFormed(g + [NewValue(0.0)], NewValue(-1.0));
    AppendWellFormed(g + [NewValue(0.0), NewValue(-1.0)], NewValue(2.0));
    g + [NewValue(0.0), NewValue(-1.0), NewValue(2.0)]
  }

  /** The operands of `Loss` are still nodes of the arena after its three leaves. */
  lemma LossLeavesFit(g: Arena, actual: seq<nat>, target: seq<nat>)
    requires LossFits(g, actual, target)
    ensures LossFits(LossLeaves(g), actual, target)
  {
  }

  /** What `Loss(actual, target)` leaves in the arena and returns. */
  function LossResult(g: Arena, actual: seq<nat>, target: seq<nat>, pow: PowFn): (r: (Arena, Value))
    requires LossFits(g, actual, target)
    ensures WellFormed(r.0) && |r.0| == |g| + 3 + 4 * |actual| && r.0[..|g|] == g && LinksOk(r.1, |r.0|)
  {
    var g0 := LossLeaves(g);
    var h := LossNodes(g0, actual, target, |g|, |g| + 1, |g| + 2, pow);
    var l := LossAfter(g0, |g|, actual);
    assert LinksOk(h[l], l);
    assert h[..|g|] == h[..|g0|][..|g|];
    (h, h[l])
  }

  // ---------------------------------------------------------------------
  // What the forward operations compute

  /** The data of a sequence of nodes is read from a prefix they all lie in. */
  lemma DataPrefix(g: Arena, h: Arena, ids: seq<nat>)
    requires AllBelow(ids, |g|) && |g| <= |h| && h[..|g|] == g
    ensures AllBelow(ids, |h|) && Data(h, ids) == Data(g, ids)
  {
    forall k | 0 <= k < |ids| ensures h[ids[k]] == g[ids[k]] {
      assert h[ids[k]] == h[..|g|][ids[k]];
    }
  }

  lemma DataTake(g: Arena, ids: seq<nat>, k: nat)
    requires AllBelow(ids, |g|) && k <= |ids|
    ensures AllBelow(ids[..k], |g|) && Data(g, ids)[..k] == Data(g, ids[..k])
  {
  }

  /** One iteration of `Neuron.forward`'s loop appends a product node and a sum node. */
  lemma SumNodesUnfold(g: Arena, w: seq<nat>, b: nat, x: seq<nat>)
    requires WellFormed(g) && b < |g| && AllBelow(w, |g|) && AllBelow(x, |g|) && |x| <= |w| && x != []
    ensures var k := |x| - 1;
      var h := SumNodes(g, w, b, x[..k]);
      var h1 := h + [Mult(h, x[k], w[k])];
      && |g| <= |h| && h[..|g|] == g && TotalAfter(g, b, x[..k]) < |h|
      && SumNodes(g, w, b, x) == h1 + [Add(h1, TotalAfter(g, b, x[..k]), |h|)]
      && TotalAfter(g, b, x) == |h| + 1
  {
  }

  /** `SumNodesUnfold` for the prefix `x[..i + 1]`, as the loop of `Neuron.forward` extends it. */
  lemma SumNodesNext(g: Arena, w: seq<nat>, b: nat, x: seq<nat>, i: nat)
    requires WellFormed(g) && b < |g| && AllBelow(w, |g|) && AllBelow(x, |g|) && i < |x| <= |w|
    ensures AllBelow(x[..i], |g|) && AllBelow(x[..i + 1], |g|)
    ensures var h := SumNodes(g, w, b, x[..i]);
      var h1 := h + [Mult(h, x[i], w[i])];
      && |g| <= |h| && TotalAfter(g, b, x[..i]) < |h|
      && SumNodes(g, w, b, x[..i + 1]) == h1 + [Add(h1, TotalAfter(g, b, x[..i]), |h|)]
      && TotalAfter(g, b, x[..i + 1]) == |h| + 1
  {
    assert x[..i + 1][..i] == x[..i];
    SumNodesUnfold(g, w, b, x[..i + 1]);
  }

  /** The sum node of one loop iteration holds the running total plus `x[k] * w[k]`. */
  lemma SumNodeData(g: Arena, h: Arena, t: nat, x: seq<nat>, w: seq<nat>, k: nat)
    requires |g| <= |h| && h[..|g|] == g && t < |h|
    requires AllBelow(x, |g|) && AllBelow(w, |g|) && k < |x| <= |w|
    ensures var h1 := h + [Mult(h, x[k], w[k])];
      (h1 + [Add(h1, t, |h|)])[|h| + 1].data == h[t].data + Product(Data(g, x)[k], Data(g, w)[k])
  {
    assert h[x[k]] == h[..|g|][x[k]] && h[w[k]] == h[..|g|][w[k]];
  }

  /** One iteration of `Neuron.forward`'s loop adds `x[k] * w[k]` to the running total. */
  lemma SumNodesStep(g: Arena, w: seq<nat>, b: nat, x: seq<nat>, k: nat)
    requires WellFormed(g) && b < |g| && AllBelow(w, |g|) && AllBelow(x, |g|) && |x| <= |w| && k == |x| - 1
    ensures SumNodes(g, w, b, x)[TotalAfter(g, b, x)].data
      == SumNodes(g, w, b, x[..k])[TotalAfter(g, b, x[..k])].data + Product(Data(g, x)[k], Data(g, w)[k])
  {
    SumNodeData(g, SumNodes(g, w, b, x[..k]), TotalAfter(g, b, x[..k]), x, w, k);
  }

  /** The weighted sum of the inputs' data grows by the last input times its weight. */
  lemma WeightedSumDataLast(g: Arena, bias: real, x: seq<nat>, w: seq<nat>, k: nat)
    requires AllBelow(x, |g|) && AllBelow(w, |g|) && |x| <= |w| && k == |x| - 1
    ensures AllBelow(x[..k], |g|)
    ensures WeightedSum(bias, Data(g, x), Data(g, w))
      == WeightedSum(bias, Data(g, x[..k]), Data(g, w)) + Product(Data(g, x)[k], Data(g, w)[k])
  {
    WeightedSumLast(bias, Data(g, x), Data(g, w), k);
    DataTake(g, x, k);
  }

  /** The inductive step of `SumNodesData`. */
  lemma SumNodesDataStep(g: Arena, w: seq<nat>, b: nat, x: seq<nat>, k: nat)
    requires WellFormed(g) && b < |g| && AllBelow(w, |g|) && AllBelow(x, |g|) && |x| <= |w| && k == |x| - 1
    requires SumNodes(g, w, b, x[..k])[TotalAfter(g, b, x[..k])].data
      == WeightedSum(g[b].data, Data(g, x[..k]), Data(g, w))
    ensures SumNodes(g, w, b, x)[TotalAfter(g, b, x)].data == WeightedSum(g[b].data, Data(g, x), Data(g, w))
  {
    WeightedSumDataLast(g, g[b].data, x, w, k);
    SumNodesStep(g, w, b, x, k);
    AddSame(SumNodes(g, w, b, x)[TotalAfter(g, b, x)].data, SumNodes(g, w, b, x[..k])[TotalAfter(g, b, x[..k])].data,
            WeightedSum(g[b].data, Data(g, x), Data(g, w)), WeightedSum(g[b].data, Data(g, x[..k]), Data(g, w)),
            Product(Data(g, x)[k], Data(g, w)[k]));
  }

  /**
   The running total of `Neuron.forward` holds the bias plus the weighted sum
   of the inputs folded so far.
   */
  lemma {:induction false} SumNodesData(g: Arena, w: seq<nat>, b: nat, x: seq<nat>)
    requires WellFormed(g) && b < |g| && AllBelow(w, |g|) && AllBelow(x, |g|) && |x| <= |w|
    ensures SumNodes(g, w, b, x)[TotalAfter(g, b, x)].data == WeightedSum(g[b].data, Data(g, x), Data(g, w))
    decreases |x|
  {
    if x != [] {
      var k := |x| - 1;
      SumNodesData(g, w, b, x[..k]);
      SumNodesDataStep(g, w, b, x, k);
    } else {
      assert SumNodes(g, w, b, x) == g && Data(g, x) == [];
    }
  }

  /** Equals plus the same term are equal; a step the solver needs spelled out for reals. */
  lemma AddSame(a: real, b: real, c: real, d: real, e: real)
    requires a == b + e && c == d + e && b == d
    ensures a == c
  {
  }

  /**
   `n.forward(x)` returns `bias + Σ x[i]*w[i]`, rectified when `n.nonlin`.
   The returned node keeps the operation and operands of the total; only its
   data is clamped. With inputs, no node that existed before changes; with no
   inputs, the total is the bias node itself, which is clamped in place.
   */
  lemma NeuronForwardValue(g: Arena, n: Neuron, x: seq<nat>)
    requires NeuronFits(g, n, x)
    ensures var (h, out) := NeuronForwardResult(g, n, x);
      var h0 := SumNodes(g, n.weight, n.bias, x);
      var t := TotalAfter(g, n.bias, x);
      && out.data == EvalNeuron(g, n, Data(g, x))
      && out == h0[t].(data := out.data)
      && (x != [] ==> h[..|g|] == g && out.op == AddOp)
      && (x == [] ==>
            out == h[n.bias] && h == g[n.bias := g[n.bias].(data := Rectify(n.nonlin, g[n.bias].data))])
  {
    SumNodesData(g, n.weight, n.bias, x);
    var h0 := SumNodes(g, n.weight, n.bias, x);
    var t := TotalAfter(g, n.bias, x);
    if x != [] {
      assert h0[t] == Add(h0[..|h0| - 1], h0[t].child1.id, h0[t].child2.id);
    }
  }

  /** The value `n.forward(x)` returns holds what the neuron computes. */
  lemma NeuronForwardData(g: Arena, n: Neuron, x: seq<nat>)
    requires NeuronFits(g, n, x)
    ensures NeuronForwardResult(g, n, x).1.data == EvalNeuron(g, n, Data(g, x))
  {
    NeuronForwardValue(g, n, x);
  }

  /** An arena that extends `g` agrees with it on every neuron's output. */
  lemma EvalLayerGrow(g: Arena, h: Arena, ns: seq<Neuron>, xs: seq<real>)
    requires LayerIn(g, ns, |xs|) && |g| <= |h| && h[..|g|] == g
    ensures LayerIn(h, ns, |xs|) && EvalLayer(h, ns, xs) == EvalLayer(g, ns, xs)
  {
    forall k | 0 <= k < |ns| ensures EvalNeuron(h, ns[k], xs) == EvalNeuron(g, ns[k], xs) {
      DataPrefix(g, h, ns[k].weight);
      assert h[ns[k].bias] == h[..|g|][ns[k].bias];
    }
  }

  /** A loop copy of a neuron whose bias is a fresh node holding the stored bias computes the same. */
  lemma NeuronCopyEval(g: Arena, h: Arena, n: Neuron, xs: seq<real>)
    requires NeuronIn(g, n) && |xs| <= |n.weight| && |g| <= |h| && h[..|g|] == g
    ensures NeuronIn(h + [h[n.bias]], n.(bias := |h|))
    ensures EvalNeuron(h + [h[n.bias]], n.(bias := |h|), xs) == EvalNeuron(g, n, xs)
  {
    assert h[n.bias] == h[..|g|][n.bias];
    DataPrefix(g, h + [h[n.bias]], n.weight);
  }

  /** The node the last iteration of `Layer.forward`'s loop appends holds what its neuron computes. */
  lemma LayerForwardLast(g: Arena, ns: seq<Neuron>, x: seq<nat>)
    requires LayerFits(g, ns, x) && ns != []
    ensures var r := LayerForwardResult(g, ns, x);
      r.0[|r.0| - 1].data == EvalNeuron(g, ns[|ns| - 1], Data(g, x))
  {
    var m := |ns| - 1;
    var h := LayerForwardResult(g, ns[..m], x).0;
    assert NeuronIn(g, ns[m]);
    NeuronCopyData(g, h, ns[m], x);
  }

  /** A loop copy of `n` whose bias is a fresh node holding the stored bias returns what `n` computes. */
  lemma NeuronCopyData(g: Arena, h: Arena, n: Neuron, x: seq<nat>)
    requires NeuronFits(g, n, x) && WellFormed(h) && |g| <= |h| && h[..|g|] == g
    ensures NeuronFits(h + [h[n.bias]], n.(bias := |h|), x)
    ensures NeuronForwardResult(h + [h[n.bias]], n.(bias := |h|), x).1.data == EvalNeuron(g, n, Data(g, x))
  {
    var h1 := h + [h[n.bias]];
    CopyForward(g, h, n, x);
    NeuronForwardData(h1, n.(bias := |h|), x);
    DataPrefix(g, h1, x);
    NeuronCopyEval(g, h, n, Data(g, x));
  }

  /**
   `l.forward(x)` returns one node per neuron, holding what that neuron
   computes from the data of `x`.
   */
  lemma {:induction false} LayerForwardValue(g: Arena, ns: seq<Neuron>, x: seq<nat>)
    requires LayerFits(g, ns, x)
    ensures var (h, res) := LayerForwardResult(g, ns, x);
      Data(h, res) == EvalLayer(g, ns, Data(g, x))
    decreases |ns|
  {
    if ns != [] {
      var m := |ns| - 1;
      LayerForwardValue(g, ns[..m], x);
      LayerDataSplit(g, ns, x);
      EvalLayerLast(g, ns, Data(g, x));
    }
  }

  /** The data `l.forward(x)` returns: that of the earlier neurons, then that of the last one. */
  lemma LayerDataSplit(g: Arena, ns: seq<Neuron>, x: seq<nat>)
    requires LayerFits(g, ns, x) && ns != []
    ensures var r := LayerForwardResult(g, ns[..|ns| - 1], x);
      var r' := LayerForwardResult(g, ns, x);
      Data(r'.0, r'.1) == Data(r.0, r.1) + [EvalNeuron(g, ns[|ns| - 1], Data(g, x))]
  {
    var m := |ns| - 1;
    assert ns[..m + 1] == ns;
    LayerForwardNext(g, ns, x, m);
    var r := LayerForwardResult(g, ns[..m], x);
    var n := ns[m];
    var o := NeuronForwardResult(r.0 + [r.0[n.bias]], n.(bias := |r.0|), x);
    DataSplit(r.0, r.1, o.0 + [o.1], r.1 + [|o.0|]);
    LayerForwardLast(g, ns, x);
  }

  /** Data read after appending one more result node: the earlier data, then the new node's. */
  lemma DataSplit(h: Arena, res: seq<nat>, h': Arena, res': seq<nat>)
    requires AllBelow(res, |h|) && |h| < |h'| && h'[..|h|] == h && res' == res + [|h'| - 1]
    ensures AllBelow(res', |h'|) && Data(h', res') == Data(h, res) + [h'[|h'| - 1].data]
  {
    DataPrefix(h, h', res);
  }

  /** What a layer computes: what its first neurons compute, then what the last one does. */
  lemma EvalLayerLast(g: Arena, ns: seq<Neuron>, xs: seq<real>)
    requires LayerIn(g, ns, |xs|) && ns != []
    ensures LayerIn(g, ns[..|ns| - 1], |xs|)
    ensures EvalLayer(g, ns, xs) == EvalLayer(g, ns[..|ns| - 1], xs) + [EvalNeuron(g, ns[|ns| - 1], xs)]
  {
    var m := |ns| - 1;
    assert EvalLayer(g, ns, xs)[..m] == EvalLayer(g, ns[..m], xs);
    assert EvalLayer(g, ns, xs) == EvalLayer(g, ns, xs)[..m] + [EvalLayer(g, ns, xs)[m]];
  }

  /**
   `mlp.forward(x)` returns nodes holding what the layers compute in turn
   from the data of `x`; the arena is only extended, so the parameters the
   layers read are those stored before the call.
   */
  lemma {:induction false} MLPForwardValue(g: Arena, ls: seq<Layer>, x: seq<nat>)
    requires MLPFits(g, ls, x)
    ensures var (h, res) := MLPForwardResult(g, ls, x);
      Data(h, res) == EvalMLP(g, ls, Data(g, x))
    decreases |ls|
  {
    if ls != [] {
      var m := |ls| - 1;
      LayersPrefix(g, ls, m, |x|);
      var (h, y) := MLPForwardResult(g, ls[..m], x);
      MLPForwardValue(g, ls[..m], x);
      assert InputWidth(ls[..m], m, |x|) == InputWidth(ls, m, |x|);
      LayerInGrow(g, h, ls[m].neurons, |y|);
      LayerForwardValue(h, ls[m].neurons, y);
      EvalLayerGrow(g, h, ls[m].neurons, Data(h, y));
    }
  }

  /** One iteration of `Loss`'s loop appends the four nodes of one squared difference. */
  lemma LossNodesUnfold(g: Arena, actual: seq<nat>, target: seq<nat>, loss: nat, neg1: nat, pos2: nat, pow: PowFn)
    requires LossFits(g, actual, target) && loss < |g| && neg1 < |g| && pos2 < |g| && actual != []
    ensures var k := |actual| - 1;
      var h := LossNodes(g, actual[..k], target, loss, neg1, pos2, pow);
      && |g| <= |h| && h[..|g|] == g && LossAfter(g, loss, actual[..k]) < |h|
      && LossNodes(g, actual, target, loss, neg1, pos2, pow)
         == LossStep(h, actual[k], target[k], LossAfter(g, loss, actual[..k]), neg1, pos2, pow)
      && LossAfter(g, loss, actual) == |h| + 3
  {
  }

  /** `LossNodesUnfold` for the prefix `actual[..i + 1]`, as the loop of `Loss` extends it. */
  lemma LossNodesNext(g: Arena, actual: seq<nat>, target: seq<nat>, loss: nat, neg1: nat, pos2: nat, pow: PowFn, i: nat)
    requires LossFits(g, actual, target) && loss < |g| && neg1 < |g| && pos2 < |g| && i < |actual|
    ensures LossFits(g, actual[..i], target) && LossFits(g, actual[..i + 1], target)
    ensures var h := LossNodes(g, actual[..i], target, loss, neg1, pos2, pow);
      && |g| <= |h| && LossAfter(g, loss, actual[..i]) < |h|
      && LossNodes(g, actual[..i + 1], target, loss, neg1, pos2, pow)
         == LossStep(h, actual[i], target[i], LossAfter(g, loss, actual[..i]), neg1, pos2, pow)
      && LossAfter(g, loss, actual[..i + 1]) == |h| + 3
  {
    assert actual[..i + 1][..i] == actual[..i];
    LossNodesUnfold(g, actual[..i + 1], target, loss, neg1, pos2, pow);
  }

  /** The four nodes one iteration of `Loss`'s loop appends to `h`. */
  function LossStep(h: Arena, a: nat, t: nat, l: nat, neg1: nat, pos2: nat, pow: PowFn): (h': Arena)
    requires a < |h| && t < |h| && l < |h| && neg1 < |h| && pos2 < |h|
    ensures |h'| == |h| + 4
  {
    var h1 := h + [Mult(h, neg1, t)];
    var h2 := h1 + [Add(h1, a, |h|)];
    var h3 := h2 + [Pow(h2, |h1|, pos2, pow)];
    h3 + [Add(h3, l, |h2|)]
  }

  /** One iteration of `Loss`'s loop keeps the arena well formed and only appends to it. */
  lemma LossStepWellFormed(h: Arena, a: nat, t: nat, l: nat, neg1: nat, pos2: nat, pow: PowFn)
    requires WellFormed(h) && a < |h| && t < |h| && l < |h| && neg1 < |h| && pos2 < |h|
    ensures var h' := LossStep(h, a, t, l, neg1, pos2, pow);
      WellFormed(h') && h'[..|h|] == h
  {
    var h1 := h + [Mult(h, neg1, t)];
    AppendWellFormed(h, Mult(h, neg1, t));
    var h2 := h1 + [Add(h1, a, |h|)];
    AppendWellFormed(h1, Add(h1, a, |h|));
    var h3 := h2 + [Pow(h2, |h1|, pos2, pow)];
    AppendWellFormed(h2, Pow(h2, |h1|, pos2, pow));
    AppendWellFormed(h3, Add(h3, l, |h2|));
    assert (h3 + [Add(h3, l, |h2|)])[..|h|] == h;
  }

  /** The last node of one iteration holds the running loss plus `(a + (-1)*t)` squared. */
  lemma LossStepData(g: Arena, h: Arena, a: nat, t: nat, l: nat, neg1: nat, pos2: nat, pow: PowFn, x: real, y: real)
    requires |g| <= |h| && h[..|g|] == g && l < |h|
    requires a < |g| && t < |g| && neg1 < |g| && pos2 < |g| && g[neg1].data == -1.0 && g[pos2].data == 2.0
    requires g[a].data == x && g[t].data == y
    ensures LossStep(h, a, t, l, neg1, pos2, pow)[|h| + 3].data == h[l].data + Square(pow, x + -1.0 * y)
  {
    assert h[a] == h[..|g|][a] && h[t] == h[..|g|][t];
    assert h[neg1] == h[..|g|][neg1] && h[pos2] == h[..|g|][pos2];
  }

  /** One iteration of `Loss`'s loop adds the square of `actual[k] + (-1)*target[k]` to the running loss. */
  lemma LossNodesStep(g: Arena, actual: seq<nat>, target: seq<nat>, loss: nat, neg1: nat, pos2: nat, pow: PowFn, k: nat)
    requires LossFits(g, actual, target) && loss < |g| && neg1 < |g| && pos2 < |g| && k == |actual| - 1
    requires g[neg1].data == -1.0 && g[pos2].data == 2.0
    ensures LossNodes(g, actual, target, loss, neg1, pos2, pow)[LossAfter(g, loss, actual)].data
      == LossNodes(g, actual[..k], target, loss, neg1, pos2, pow)[LossAfter(g, loss, actual[..k])].data
         + Square(pow, g[actual[k]].data + -1.0 * g[target[k]].data)
  {
    LossNodesUnfold(g, actual, target, loss, neg1, pos2, pow);
    LossStepData(g, LossNodes(g, actual[..k], target, loss, neg1, pos2, pow), actual[k], target[k],
                 LossAfter(g, loss, actual[..k]), neg1, pos2, pow, g[actual[k]].data, g[target[k]].data);
  }

  /** The squared error of the inputs' data grows by the square of the last difference. */
  lemma SquaredErrorDataLast(g: Arena, pow: PowFn, actual: seq<nat>, target: seq<nat>, k: nat)
    requires AllBelow(actual, |g|) && AllBelow(target, |g|) && |actual| <= |target| && k == |actual| - 1
    ensures AllBelow(actual[..k], |g|)
    ensures SquaredError(pow, Data(g, actual), Data(g, target))
      == SquaredError(pow, Data(g, actual[..k]), Data(g, target))
         + Square(pow, g[actual[k]].data + -1.0 * g[target[k]].data)
  {
    SquaredErrorLast(pow, Data(g, actual), Data(g, target), k);
    DataTake(g, actual, k);
  }

  /**
   The running loss holds the sum of squared differences folded so far, when
   the loss starts at 0 and the constants hold -1 and 2.
   */
  lemma {:induction false} LossNodesData(g: Arena, actual: seq<nat>, target: seq<nat>, loss: nat, neg1: nat, pos2: nat, pow: PowFn)
    requires LossFits(g, actual, target) && loss < |g| && neg1 < |g| && pos2 < |g|
    requires g[loss].data == 0.0 && g[neg1].data == -1.0 && g[pos2].data == 2.0
    ensures LossNodes(g, actual, target, loss, neg1, pos2, pow)[LossAfter(g, loss, actual)].data
      == SquaredError(pow, Data(g, actual), Data(g, target))
    decreases |actual|
  {
    if actual != [] {
      var k := |actual| - 1;
      SquaredErrorDataLast(g, pow, actual, target, k);
      LossNodesData(g, actual[..k], target, loss, neg1, pos2, pow);
      LossNodesStep(g, actual, target, loss, neg1, pos2, pow, k);
      AddSame(LossNodes(g, actual, target, loss, neg1, pos2, pow)[LossAfter(g, loss, actual)].data,
              LossNodes(g, actual[..k], target, loss, neg1, pos2, pow)[LossAfter(g, loss, actual[..k])].data,
              SquaredError(pow, Data(g, actual), Data(g, target)),
              SquaredError(pow, Data(g, actual[..k]), Data(g, target)),
              Square(pow, g[actual[k]].data + -1.0 * g[target[k]].data));
    } else {
      assert Data(g, actual) == [];
    }
  }

  /**
   `Loss(actual, target)` returns a node holding the sum over `actual` of
   `(actual[i] + (-1)*target[i])` squared, and leaves every existing node
   unchanged.
   */
  lemma LossValue(g: Arena, actual: seq<nat>, target: seq<nat>, pow: PowFn)
    requires LossFits(g, actual, target)
    ensures var (h, out) := LossResult(g, actual, target, pow);
      && h[..|g|] == g
      && out.data == SquaredError(pow, Data(g, actual), Data(g, target))
      && (actual != [] ==> out.op == AddOp)
      && (actual == [] ==> out == NewValue(0.0))
  {
    var g0 := LossLeaves(g);
    assert g0[|g|] == NewValue(0.0) && g0[|g| + 1] == NewValue(-1.0) && g0[|g| + 2] == NewValue(2.0);
    DataPrefix(g, g0, actual);
    DataPrefix(g, g0, target);
    LossNodesData(g0, actual, target, |g|, |g| + 1, |g| + 2, pow);
  }
}
