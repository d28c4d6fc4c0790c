/**
 The engine as the program runs it: a graph of nodes that its operations
 update in place. Every node the program allocates (a local `Value`, a slice
 element, a struct field) is a fresh index of `nodes`; every pointer the
 program takes is that index. Each method is proved to leave exactly the
 state the corresponding function of `Backprop` or `Network` describes, so
 the lemmas proved there hold of what the methods do.
 */
module Autograd {
  import opened Values
  import opened Topo
  import opened Backprop
  import opened Network

  class Graph {
    /** The nodes allocated so far; index `i` is the node at address `i`. */
    var nodes: Arena

    /** Operands always point to earlier nodes. */
    ghost predicate Valid()
      reads this
    {
      WellFormed(nodes)
    }

    /** An empty heap. */
    constructor ()
      ensures Valid() && nodes == []
    {
      nodes := [];
    }

    /** Stores `v` in a fresh node and returns its address. */
    method Alloc(v: Value) returns (id: nat)
      modifies this
      requires Valid() && LinksOk(v, |nodes|)
      ensures Valid() && nodes == old(nodes) + [v] && id == |old(nodes)|
    {
      AppendWellFormed(nodes, v);
      id := |nodes|;
      nodes := nodes + [v];
    }

    /**
     `Backward(root)`: overwrite the root's gradient with 1, sort the nodes
     reachable from it, and walk them consumers first, each adding its local
     derivative times its gradient to the gradients of its operands.
     */
    method Backward(root: nat, pow: PowFn)
      modifies this
      requires Valid() && root < |nodes|
      ensures Valid() && nodes == BackwardResult(old(nodes), root, pow)
    {
      SeedWellFormed(nodes, root);
      nodes := nodes[root := nodes[root].(grad := 1.0)];
      ghost var s := nodes;
      var topo, visited := FindChildren(nodes, Ptr(root), [], {});
      OrderBelow(s, root);
      topo := Reversed(topo);
      Propagation(topo, pow);
    }

    /** The backward loop: `BackStep` on each node of `order`, in turn. */
    method Propagation(order: seq<nat>, pow: PowFn)
      modifies this
      requires Valid() && AllBelow(order, |nodes|)
      ensures Valid() && nodes == Propagate(old(nodes), order, pow)
    {
      ghost var s := nodes;
      var i := 0;
      while i < |order|
        invariant 0 <= i <= |order| && Valid() && |nodes| == |s|
        invariant nodes == Propagate(s, order[..i], pow)
      {
        assert order[..i + 1][..i] == order[..i];
        BackStep(order[i], pow);
        i := i + 1;
      }
      assert order[..|order|] == order;
    }

    /**
     The body of the backward loop for node `u`: each operand's gradient grows
     by the local derivative of `u` with respect to it times `u`'s gradient.
     */
    method BackStep(u: nat, pow: PowFn)
      modifies this
      requires Valid() && u < |nodes|
      ensures Valid() && nodes == Step(old(nodes), u, pow)
    {
      var v := nodes[u];
      if v.op == AddOp {
        StepAdd(nodes, u, pow);
        var a, b := v.child1.id, v.child2.id;
        nodes := nodes[a := nodes[a].(grad := nodes[a].grad + nodes[u].grad)];
        nodes := nodes[b := nodes[b].(grad := nodes[b].grad + nodes[u].grad)];
      } else if v.op == MultOp {
        StepMult(nodes, u, pow);
        var a, b := v.child1.id, v.child2.id;
        nodes := nodes[a := nodes[a].(grad := nodes[a].grad + Product(nodes[b].data, nodes[u].grad))];
        nodes := nodes[b := nodes[b].(grad := nodes[b].grad + Product(nodes[a].data, nodes[u].grad))];
      } else if v.op == PowOp {
        StepPow(nodes, u, pow);
        var a, b := v.child1.id, v.child2.id;
        nodes := nodes[a := nodes[a].(grad := nodes[a].grad + Product(PowSlope(pow, nodes[a].data, nodes[b].data), nodes[u].grad))];
      }
    }

    /**
     `ZeroGrad(root)`: clear the root's gradient, then recurse into both
     operands (a node shared by several paths is cleared once per path).
     */
    method ZeroGrad(root: Ref)
      modifies this
      requires Valid() && Below(root, |nodes|)
      ensures Valid() && nodes == ZeroGradResult(old(nodes), root)
      decreases Rank(root)
    {
      ghost var g := nodes;
      if root.Ptr? {
        var i := root.id;
        assert LinksOk(nodes[i], i);
        nodes := nodes[i := nodes[i].(grad := 0.0)];
        assert nodes == Zeroed(g, {i});
        ReachSameLinks(g, nodes, g[i].child1);
        ZeroGrad(nodes[i].child1);
        ghost var g1 := nodes;
        ZeroedUnion(g, {i}, Reach(g, g[i].child1));
        ReachSameLinks(g, g1, g[i].child2);
        ZeroGrad(nodes[i].child2);
        ZeroedUnion(g, {i} + Reach(g, g[i].child1), Reach(g, g[i].child2));
      } else {
        assert nodes == Zeroed(g, {});
      }
    }

    /**
     `NewNeuron(nin)`: `nin` weight leaves and a bias leaf, drawn in that
     order from `draws` (standard-normal samples) and scaled by 0.1; the
     neuron rectifies.
     */
    method NewNeuron(nin: nat, draws: seq<real>) returns (n: Neuron)
      modifies this
      requires Valid() && |draws| == nin + 1
      ensures Valid() && nodes == old(nodes) + Params(draws)
      ensures |n.weight| == nin && Initialised(nodes, n, draws)
    {
      ghost var g := nodes;
      var w: seq<nat> := [];
      for i := 0 to nin
        invariant Valid() && nodes == g + Params(draws[..i])
        invariant |w| == i && forall j | 0 <= j < i :: w[j] == |g| + j
      {
        var id := Alloc(Param(draws[i]));
        w := w + [id];
        assert Params(draws[..i + 1]) == Params(draws[..i]) + [Param(draws[i])];
      }
      var b := Alloc(Param(draws[nin]));
      assert draws[..nin] + [draws[nin]] == draws;
      ParamsInitialised(g, w, draws);
      n := Neuron(w, b, true);
    }

    /** `NewLayer(nin, nout)`: `nout` fresh neurons of `nin` weights each. */
    method NewLayer(nin: nat, nout: nat, draws: seq<seq<real>>) returns (l: Layer)
      modifies this
      requires Valid() && |draws| == nout && forall k | 0 <= k < nout :: |draws[k]| == nin + 1
      ensures Valid() && nodes == old(nodes) + LayerParams(draws)
      ensures LayerInitialised(nodes, l, nin, draws)
    {
      ghost var g := nodes;
      var neurons: seq<Neuron> := [];
      for i := 0 to nout
        invariant Valid() && nodes == g + LayerParams(draws[..i])
        invariant LayerInitialised(nodes, Layer(neurons), nin, draws[..i])
      {
        ghost var h := nodes;
        var n := NewNeuron(nin, draws[i]);
        LayerInitialisedGrow(h, nodes, Layer(neurons), nin, draws[..i]);
        LayerParamsNext(g, draws, i);
        neurons := neurons + [n];
        assert draws[..i + 1][..i] == draws[..i];
      }
      assert draws[..nout] == draws;
      l := Layer(neurons);
    }

    /**
     `NewMLP(nin, sizes)`: one layer per size, each taking as many inputs as
     the previous layer has neurons. The closing loop that clears `nonlin`
     on the last layer's neurons writes to loop copies, so every neuron of
     the result still rectifies.
     */
    method NewMLP(nin: nat, sizes: seq<nat>, draws: seq<seq<seq<real>>>) returns (mlp: MLP)
      modifies this
      requires Valid() && |sizes| > 0 && DrawsFit(nin, sizes, draws)
      ensures Valid() && nodes == old(nodes) + MLPParams(draws)
      ensures |mlp.layers| == |sizes|
      ensures LayersInitialised(nodes, mlp.layers, nin, sizes, draws)
      ensures LayersIn(nodes, mlp.layers, nin)
    {
      ghost var g := nodes;
      var layers: seq<Layer> := [];
      var first := NewLayer(nin, sizes[0], draws[0]);
      layers := layers + [first];
      assert draws[..1] == [draws[0]];
      for i := 1 to |sizes|
        invariant Valid() && nodes == g + MLPParams(draws[..i]) && |layers| == i
        invariant LayersInitialised(nodes, layers, nin, sizes, draws)
      {
        layers := AddLayer(g, nin, sizes, draws, layers);
      }
      assert draws[..|sizes|] == draws;
      var last := layers[|layers| - 1].neurons;
      for j := 0 to |last| {
        var v := last[j];
        v := v.(nonlin := false);
      }
      InitialisedLayersFit(nodes, layers, nin, sizes, draws);
      mlp := MLP(layers);
    }

    /** One iteration of `NewMLP`'s loop: layer `|layers|`, fed by the outputs of the layer before it. */
    method AddLayer(ghost g: Arena, nin: nat, sizes: seq<nat>, draws: seq<seq<seq<real>>>, layers: seq<Layer>)
      returns (grown: seq<Layer>)
      modifies this
      requires Valid() && DrawsFit(nin, sizes, draws) && 0 < |layers| < |sizes|
      requires nodes == g + MLPParams(draws[..|layers|]) && LayersInitialised(nodes, layers, nin, sizes, draws)
      ensures Valid() && nodes == g + MLPParams(draws[..|layers| + 1])
      ensures |grown| == |layers| + 1 && grown[..|layers|] == layers
      ensures LayersInitialised(nodes, grown, nin, sizes, draws)
    {
      ghost var h := nodes;
      var i := |layers|;
      var next := NewLayer(sizes[i - 1], sizes[i], draws[i]);
      LayersInitialisedNext(h, nodes, layers, next, nin, sizes, draws);
      MLPParamsNext(g, draws, i);
      grown := layers + [next];
    }

    /**
     `n.forward(x)`: fold `x[i] * weight[i]` into a running total that starts
     at the bias node, clamp the total's data to 0 in place when `n`
     rectifies and it is negative, and return a copy of the total.
     */
    method NeuronForward(n: Neuron, x: seq<nat>) returns (out: Value)
      modifies this
      requires Valid() && NeuronFits(nodes, n, x)
      ensures Valid() && (nodes, out) == NeuronForwardResult(old(nodes), n, x)
    {
      var total := WeightedTotal(n.weight, n.bias, x);
      if n.nonlin && nodes[total].data < 0.0 {
        ghost var h := nodes;
        nodes := nodes[total := nodes[total].(data := 0.0)];
        SameLinksWellFormed(h, nodes);
      }
      out := nodes[total];
    }

    /** The loop of `n.forward(x)`: returns the node holding the running total. */
    method WeightedTotal(w: seq<nat>, b: nat, x: seq<nat>) returns (total: nat)
      modifies this
      requires Valid() && b < |nodes| && AllBelow(w, |nodes|) && AllBelow(x, |nodes|) && |x| <= |w|
      ensures Valid() && nodes == SumNodes(old(nodes), w, b, x) && total == TotalAfter(old(nodes), b, x)
    {
      ghost var g := nodes;
      total := b;
      for i := 0 to |x|
        invariant Valid() && nodes == SumNodes(g, w, b, x[..i]) && total == TotalAfter(g, b, x[..i])
      {
        SumNodesNext(g, w, b, x, i);
        var temp := Alloc(Mult(nodes, x[i], w[i]));
        var newTotal := Alloc(Add(nodes, total, temp));
        total := newTotal;
      }
      assert x[..|x|] == x;
    }

    /**
     `l.forward(x)`: run a loop copy of each neuron on `x` (its bias field a
     fresh node holding the stored bias) and store each returned total in a
     fresh element of the result.
     */
    method LayerForward(l: Layer, x: seq<nat>) returns (res: seq<nat>)
      modifies this
      requires Valid() && LayerFits(nodes, l.neurons, x)
      ensures Valid() && (nodes, res) == LayerForwardResult(old(nodes), l.neurons, x)
    {
      ghost var g := nodes;
      res := [];
      for j := 0 to |l.neurons|
        invariant Valid() && LayerFits(g, l.neurons[..j], x)
        invariant nodes == LayerForwardResult(g, l.neurons[..j], x).0
        invariant res == LayerForwardResult(g, l.neurons[..j], x).1
      {
        LayerForwardNext(g, l.neurons, x, j);
        var v := l.neurons[j];
        var b := Alloc(nodes[v.bias]);
        var newX := NeuronForward(v.(bias := b), x);
        var id := Alloc(newX);
        res := res + [id];
      }
      assert l.neurons[..|l.neurons|] == l.neurons;
    }

    /** `mlp.forward(x)`: the layers applied in order, each to the previous one's output. */
    method MLPForward(mlp: MLP, x: seq<nat>) returns (y: seq<nat>)
      modifies this
      requires Valid() && MLPFits(nodes, mlp.layers, x)
      ensures Valid() && (nodes, y) == MLPForwardResult(old(nodes), mlp.layers, x)
    {
      ghost var g := nodes;
      var inp := x;
      for k := 0 to |mlp.layers|
        invariant Valid() && MLPFits(g, mlp.layers[..k], x)
        invariant nodes == MLPForwardResult(g, mlp.layers[..k], x).0
        invariant inp == MLPForwardResult(g, mlp.layers[..k], x).1
      {
        MLPForwardStep(g, mlp.layers, x, k);
        inp := LayerForward(mlp.layers[k], inp);
      }
      assert mlp.layers[..|mlp.layers|] == mlp.layers;
      y := inp;
    }

    /**
     `Loss(actual, target)`: leaves for the running loss 0 and the constants
     -1 and 2, then per element the nodes of `(actual[i] + (-1)*target[i])^2`
     added to the running loss; returns a copy of the final loss node.
     */
    method Loss(actual: seq<nat>, target: seq<nat>, pow: PowFn) returns (out: Value)
      modifies this
      requires Valid() && LossFits(nodes, actual, target)
      ensures Valid() && (nodes, out) == LossResult(old(nodes), actual, target, pow)
    {
      LossLeavesFit(nodes, actual, target);
      var loss, neg1, pos2 := LossConstants();
      var lossp := SumSquares(actual, target, loss, neg1, pos2, pow);
      out := nodes[lossp];
    }

    /** The three leaves `Loss` starts from: the running loss 0, and the constants -1 and 2. */
    method LossConstants() returns (loss: nat, neg1: nat, pos2: nat)
      modifies this
      requires Valid()
      ensures Valid() && nodes == LossLeaves(old(nodes))
      ensures loss == |old(nodes)| && neg1 == loss + 1 && pos2 == loss + 2
    {
      ghost var g := nodes;
      loss := Alloc(NewValue(0.0));
      neg1 := Alloc(NewValue(-1.0));
      pos2 := Alloc(NewValue(2.0));
      assert nodes == LossLeaves(g);
    }
    /**
     The loop of `Loss`: per element, `(actual[i] + neg1*target[i])^pos2`
     added to the running loss that starts at `loss`; returns the node
     holding the final loss.
     */
    method SumSquares(actual: seq<nat>, target: seq<nat>, loss: nat, neg1: nat, pos2: nat, pow: PowFn)
      returns (lossp: nat)
      modifies this
      requires Valid() && LossFits(nodes, actual, target) && loss < |nodes| && neg1 < |nodes| && pos2 < |nodes|
      ensures Valid() && nodes == LossNodes(old(nodes), actual, target, loss, neg1, pos2, pow)
      ensures lossp == LossAfter(old(nodes), loss, actual)
    {
      ghost var g := nodes;
      lossp := loss;
      for i := 0 to |actual|
        invariant Valid() && LossFits(g, actual[..i], target)
        invariant nodes == LossNodes(g, actual[..i], target, loss, neg1, pos2, pow)
        invariant lossp == LossAfter(g, loss, actual[..i])
      {
        LossNodesNext(g, actual, target, loss, neg1, pos2, pow, i);
        lossp := AddSquare(actual[i], target[i], lossp, neg1, pos2, pow);
      }
      assert actual[..|actual|] == actual;
    }

    /** One iteration of `Loss`'s loop: `lossp + (a + neg1*t)^pos2`, returning the new loss node. */
    method AddSquare(a: nat, t: nat, lossp: nat, neg1: nat, pos2: nat, pow: PowFn) returns (newLoss: nat)
      modifies this
      requires Valid() && a < |nodes| && t < |nodes| && lossp < |nodes| && neg1 < |nodes| && pos2 < |nodes|
      ensures Valid() && nodes == LossStep(old(nodes), a, t, lossp, neg1, pos2, pow) && newLoss == |old(nodes)| + 3
    {
      var negTarget := Alloc(Mult(nodes, neg1, t));
      var diff := Alloc(Add(nodes, a, negTarget));
      var squared := Alloc(Pow(nodes, diff, pos2, pow));
      newLoss := Alloc(Add(nodes, lossp, squared));
    }
  }
}
