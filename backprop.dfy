/**
 The gradient passes as functions on the arena: one step of the backward
 loop, the whole backward pass over the reversed topological order, and
 the gradient reset. The `Graph` class runs them in place; these functions
 say what the state is afterwards, and the lemmas say what that state means.
 */
module Backprop {
  import opened Values
  import opened Topo

  /** `Backward`'s first statement: the root's gradient is overwritten with 1. */
  function Seed(g: Arena, root: nat): Arena
    requires root < |g|
  {
    g[root := g[root].(grad := 1.0)]
  }

  /** `child.grad += d` for the node `child` points to. */
  function Bump(g: Arena, child: Ref, d: real): Arena
    requires child.Ptr? && child.id < |g|
  {
    g[child.id := g[child.id].(grad := g[child.id].grad + d)]
  }

  /** One iteration of the backward loop, applied to node `u`. */
  function Step(g: Arena, u: nat, pow: PowFn): (h: Arena)
    requires WellFormed(g) && u < |g|
    ensures WellFormed(h) && SameShape(g, h)
  {
    var v := g[u];
    assert LinksOk(v, u);
    match v.op
    case AddOp =>
      var g1 := Bump(g, v.child1, g[u].grad);
      Bump(g1, v.child2, g1[u].grad)
    case MultOp =>
      var g1 := Bump(g, v.child1, Product(g[v.child2.id].data, g[u].grad));
      Bump(g1, v.child2, Product(g1[v.child1.id].data, g1[u].grad))
    case PowOp =>
      Bump(g, v.child1, Product(PowSlope(pow, g[v.child1.id].data, g[v.child2.id].data), g[u].grad))
    case NoOp => g
  }

  /** `Step` at an addition node, as the loop body performs it. */
  lemma StepAdd(g: Arena, u: nat, pow: PowFn)
    requires WellFormed(g) && u < |g| && g[u].op == AddOp
    ensures g[u].child1.Ptr? && g[u].child1.id < |g| && g[u].child2.Ptr? && g[u].child2.id < |g|
    ensures var a, b := g[u].child1.id, g[u].child2.id;
      var g1 := g[a := g[a].(grad := g[a].grad + g[u].grad)];
      Step(g, u, pow) == g1[b := g1[b].(grad := g1[b].grad + g1[u].grad)]
  {
    assert LinksOk(g[u], u);
    var g1 := Bump(g, g[u].child1, g[u].grad);
    assert Step(g, u, pow) == Bump(g1, g[u].child2, g1[u].grad);
  }

  /** `Step` at a product node, as the loop body performs it. */
  lemma StepMult(g: Arena, u: nat, pow: PowFn)
    requires WellFormed(g) && u < |g| && g[u].op == MultOp
    ensures g[u].child1.Ptr? && g[u].child1.id < |g| && g[u].child2.Ptr? && g[u].child2.id < |g|
    ensures var a, b := g[u].child1.id, g[u].child2.id;
      var g1 := g[a := g[a].(grad := g[a].grad + Product(g[b].data, g[u].grad))];
      Step(g, u, pow) == g1[b := g1[b].(grad := g1[b].grad + Product(g1[a].data, g1[u].grad))]
  {
    assert LinksOk(g[u], u);
    var g1 := Bump(g, g[u].child1, Product(g[g[u].child2.id].data, g[u].grad));
    assert Step(g, u, pow) == Bump(g1, g[u].child2, Product(g1[g[u].child1.id].data, g1[u].grad));
  }

  /** `Step` at a power node, as the loop body performs it. */
  lemma StepPow(g: Arena, u: nat, pow: PowFn)
    requires WellFormed(g) && u < |g| && g[u].op == PowOp
    ensures g[u].child1.Ptr? && g[u].child1.id < |g| && g[u].child2.Ptr? && g[u].child2.id < |g|
    ensures var a, b := g[u].child1.id, g[u].child2.id;
      Step(g, u, pow) == g[a := g[a].(grad := g[a].grad + Product(PowSlope(pow, g[a].data, g[b].data), g[u].grad))]
  {
    assert LinksOk(g[u], u);
    assert Step(g, u, pow) == Bump(g, g[u].child1, Product(PowSlope(pow, g[g[u].child1.id].data, g[g[u].child2.id].data), g[u].grad));
  }

  /**
   The local derivative rule: how much node `u`, with its current gradient,
   contributes to the gradient of node `v`. An operand used twice receives
   both contributions; the exponent of a power receives none.
   */
  function Contribution(g: Arena, u: nat, v: nat, pow: PowFn): real
    requires WellFormed(g) && u < |g|
  {
    var n := g[u];
    assert LinksOk(n, u);
    match n.op
    case AddOp =>
      (if n.child1 == Ptr(v) then n.grad else 0.0) + (if n.child2 == Ptr(v) then n.grad else 0.0)
    case MultOp =>
      (if n.child1 == Ptr(v) then g[n.child2.id].data * n.grad else 0.0)
      + (if n.child2 == Ptr(v) then g[n.child1.id].data * n.grad else 0.0)
    case PowOp =>
      if n.child1 == Ptr(v) then PowSlope(pow, g[n.child1.id].data, g[n.child2.id].data) * n.grad
      else 0.0
    case NoOp => 0.0
  }

  /** `c` is one of the operands of node `u`. */
  ghost predicate IsChild(g: Arena, u: nat, c: nat)
    requires u < |g|
  {
    g[u].child1 == Ptr(c) || g[u].child2 == Ptr(c)
  }

  /**
   A step only accumulates: every node's gradient grows by what the rule of
   `u` contributes to it, and nothing is overwritten.
   */
  lemma StepAccumulates(g: Arena, u: nat, pow: PowFn)
    requires WellFormed(g) && u < |g|
    ensures forall v | 0 <= v < |g| :: Step(g, u, pow)[v].grad == g[v].grad + Contribution(g, u, v, pow)
  {
    assert LinksOk(g[u], u);
  }

  /** `Add(y, y)`: the operand used twice receives twice the node's gradient. */
  lemma StepAddSameOperand(g: Arena, u: nat, y: nat, pow: PowFn)
    requires WellFormed(g) && u < |g| && g[u].op == AddOp
    requires g[u].child1 == Ptr(y) && g[u].child2 == Ptr(y)
    ensures Step(g, u, pow)[y].grad == g[y].grad + 2.0 * g[u].grad
  {
    StepAccumulates(g, u, pow);
    assert LinksOk(g[u], u);
  }

  /** Every element of `s` is a node of `g`. */
  ghost predicate AllBelow(s: seq<nat>, bound: nat) {
    forall k | 0 <= k < |s| :: s[k] < bound
  }

  /** The backward loop over `order`, one `Step` per element. */
  function Propagate(g: Arena, order: seq<nat>, pow: PowFn): (h: Arena)
    requires WellFormed(g) && AllBelow(order, |g|)
    ensures WellFormed(h) && SameShape(g, h)
    decreases |order|
  {
    if order == [] then g
    else
      var prev := Propagate(g, order[..|order| - 1], pow);
      Step(prev, order[|order| - 1], pow)
  }

  function Reversed(s: seq<nat>): (r: seq<nat>)
    ensures |r| == |s| && forall k | 0 <= k < |s| :: r[k] == s[|s| - 1 - k]
    decreases |s|
  {
    if s == [] then [] else [s[|s| - 1]] + Reversed(s[..|s| - 1])
  }

  /** What `Backward(root)` leaves in the arena. */
  ghost function BackwardResult(g: Arena, root: nat, pow: PowFn): (h: Arena)
    requires WellFormed(g) && root < |g|
  {
    var s := Seed(g, root);
    SeedWellFormed(g, root);
    OrderBelow(s, root);
    Propagate(s, Reversed(Order(s, root)), pow)
  }

  lemma SeedWellFormed(g: Arena, root: nat)
    requires WellFormed(g) && root < |g|
    ensures WellFormed(Seed(g, root)) && SameShape(g, Seed(g, root))
  {
    SameLinksWellFormed(g, Seed(g, root));
  }

  /** The traversal order and its reverse name nodes of the arena. */
  lemma OrderBelow(g: Arena, root: nat)
    requires WellFormed(g) && root < |g|
    ensures AllBelow(Order(g, root), |g|) && AllBelow(Reversed(Order(g, root)), |g|)
  {
    var o := Order(g, root);
    assert o[0..] == o;
    assert forall k | 0 <= k < |o| :: o[k] in Elems(o);
  }

  /** Total contribution of the nodes of `s`, with the gradients of `h`, to node `v`. */
  function Inflow(h: Arena, s: seq<nat>, v: nat, pow: PowFn): real
    requires WellFormed(h) && AllBelow(s, |h|)
    decreases |s|
  {
    if s == [] then 0.0
    else Inflow(h, s[..|s| - 1], v, pow) + Contribution(h, s[|s| - 1], v, pow)
  }

  /** No node of `s` has an earlier node of `s` as operand: consumers come first. */
  ghost predicate ConsumersFirst(g: Arena, s: seq<nat>)
    requires AllBelow(s, |g|)
  {
    forall j, k | 0 <= j < k < |s| :: !IsChild(g, s[k], s[j])
  }

  /** The contribution of `u` reads only data and `u`'s own gradient. */
  lemma ContributionFrame(g: Arena, h: Arena, u: nat, v: nat, pow: PowFn)
    requires WellFormed(g) && SameShape(g, h) && u < |g| && g[u].grad == h[u].grad
    ensures WellFormed(h) && Contribution(g, u, v, pow) == Contribution(h, u, v, pow)
  {
    SameLinksWellFormed(g, h);
    assert LinksOk(g[u], u);
  }

  /** `Inflow` reads only data and the gradients of the nodes it sums over. */
  lemma {:induction false} InflowFrame(g: Arena, h: Arena, s: seq<nat>, v: nat, pow: PowFn)
    requires WellFormed(g) && SameShape(g, h) && AllBelow(s, |g|)
    requires forall k | 0 <= k < |s| :: g[s[k]].grad == h[s[k]].grad
    ensures WellFormed(h) && Inflow(g, s, v, pow) == Inflow(h, s, v, pow)
    decreases |s|
  {
    SameLinksWellFormed(g, h);
    if s != [] {
      var p := s[..|s| - 1];
      InflowFrame(g, h, p, v, pow);
      ContributionFrame(g, h, s[|s| - 1], v, pow);
    }
  }

  /** A step changes no gradient but those of the operands of `u`. */
  lemma StepFrame(g: Arena, u: nat, w: nat, pow: PowFn)
    requires WellFormed(g) && u < |g| && w < |g| && !IsChild(g, u, w)
    ensures Step(g, u, pow)[w].grad == g[w].grad
  {
    assert LinksOk(g[u], u);
  }

  /**
   The chain-rule equation of reverse mode. When every node is processed
   after all of its consumers, the final gradient of each node is its
   starting gradient plus the contributions of every processed node,
   computed with that node's FINAL gradient: a node's gradient is complete
   before it passes it on, and contributions from several consumers add up.
   */
  lemma {:induction false} PropagateAdjoint(g: Arena, s: seq<nat>, pow: PowFn)
    requires WellFormed(g) && AllBelow(s, |g|) && ConsumersFirst(g, s)
    ensures var h := Propagate(g, s, pow);
      forall v | 0 <= v < |g| :: h[v].grad == g[v].grad + Inflow(h, s, v, pow)
    decreases |s|
  {
    if s != [] {
      var p := s[..|s| - 1];
      var u := s[|s| - 1];
      var h' := Propagate(g, p, pow);
      var h := Propagate(g, s, pow);
      assert h == Step(h', u, pow);
      assert ConsumersFirst(g, p);
      PropagateAdjoint(g, p, pow);
      StepAccumulates(h', u, pow);
      forall k | 0 <= k < |p| ensures h'[p[k]].grad == h[p[k]].grad {
        assert !IsChild(g, u, p[k]);
        StepFrame(h', u, p[k], pow);
      }
      InflowFrame(h', h, p, 0, pow);
      forall v | 0 <= v < |g| ensures h[v].grad == g[v].grad + Inflow(h, s, v, pow) {
        InflowFrame(h', h, p, v, pow);
        assert u < |g|;
        assert !IsChild(g, u, u) by { assert LinksOk(g[u], u); }
        StepFrame(h', u, u, pow);
        ContributionFrame(h', h, u, v, pow);
      }
    }
  }

  /** `Zeroed(g, s)`: the gradient of every node in `s` set to 0. */
  ghost function Zeroed(g: Arena, s: set<nat>): Arena {
    seq(|g|, i requires 0 <= i < |g| => if i in s then g[i].(grad := 0.0) else g[i])
  }

  /** What `ZeroGrad(root)` leaves in the arena. */
  ghost function ZeroGradResult(g: Arena, root: Ref): Arena
    requires WellFormed(g) && Below(root, |g|)
  {
    Zeroed(g, Reach(g, root))
  }

  /** Zeroing `a` and then `b` is zeroing their union. */
  lemma ZeroedUnion(g: Arena, a: set<nat>, b: set<nat>)
    ensures Zeroed(Zeroed(g, a), b) == Zeroed(g, a + b)
  {
  }

  /**
   `ZeroGrad(root)` clears the gradient of every node reachable from `root`
   and changes nothing else: no data, no links, no gradient of another node.
   */
  lemma ZeroGradClears(g: Arena, root: Ref)
    requires WellFormed(g) && Below(root, |g|)
    ensures var h := ZeroGradResult(g, root);
      && WellFormed(h) && SameShape(g, h)
      && (forall v | 0 <= v < |g| && v in Reach(g, root) :: h[v].grad == 0.0)
      && (forall v | 0 <= v < |g| && v !in Reach(g, root) :: h[v] == g[v])
  {
    SameLinksWellFormed(g, ZeroGradResult(g, root));
  }

  /** Calling `ZeroGrad(root)` twice leaves the same state as calling it once. */
  lemma ZeroGradIdempotent(g: Arena, root: Ref)
    requires WellFormed(g) && Below(root, |g|)
    ensures WellFormed(ZeroGradResult(g, root))
    ensures ZeroGradResult(ZeroGradResult(g, root), root) == ZeroGradResult(g, root)
  {
    var h := ZeroGradResult(g, root);
    ZeroGradClears(g, root);
    ReachSameLinks(g, h, root);
    ZeroedUnion(g, Reach(g, root), Reach(g, root));
  }
}
