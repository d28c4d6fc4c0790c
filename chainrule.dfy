/**
 What a backward pass computes, stated for the order `Backward` really
 uses: the reverse of the post-order traversal from the root.
 */
module ChainRule {
  import opened Values
  import opened Topo
  import opened Backprop

  /** The order in which `Backward(root)` visits nodes: consumers first. */
  ghost function BackwardOrder(g: Arena, root: nat): (o: seq<nat>)
    requires WellFormed(g) && root < |g|
    ensures WellFormed(Seed(g, root)) && AllBelow(o, |g|)
  {
    SeedWellFormed(g, root);
    OrderBelow(Seed(g, root), root);
    Reversed(Order(Seed(g, root), root))
  }

  /** Reversing an order that lists children first gives one that lists consumers first. */
  lemma ReversedConsumersFirst(g: Arena, o: seq<nat>)
    requires ChildrenFirst(g, o) && Distinct(o)
    ensures AllBelow(Reversed(o), |g|) && ConsumersFirst(g, Reversed(o))
  {
    var r := Reversed(o);
    var n := |o|;
    forall j, k | 0 <= j < k < n ensures !IsChild(g, r[k], r[j]) {
      var m, q := n - 1 - k, n - 1 - j;
      assert r[k] == o[m] && r[j] == o[q] && m < q;
      assert ChildIn(g[o[m]].child1, o[..m]) && ChildIn(g[o[m]].child2, o[..m]);
      assert forall p | 0 <= p < m :: o[..m][p] != o[q];
      assert o[q] !in o[..m];
    }
  }

  /** Reversal keeps the elements and their distinctness. */
  lemma ReversedElems(t: seq<nat>)
    ensures forall k | 0 <= k < |t| :: Reversed(t)[k] in Elems(t)
    ensures forall v | v in Elems(t) :: v in Reversed(t)
    ensures Distinct(t) ==> Distinct(Reversed(t))
  {
    var r := Reversed(t);
    forall v | v in Elems(t) ensures v in r {
      var k :| 0 <= k < |t| && t[k] == v;
      assert r[|t| - 1 - k] == v;
    }
  }

  /** Facts about the backward order: its nodes are the reachable ones, each once, consumers first. */
  lemma BackwardOrderFacts(g: Arena, root: nat)
    requires WellFormed(g) && root < |g|
    ensures var o := BackwardOrder(g, root);
      && ConsumersFirst(Seed(g, root), o)
      && Distinct(o)
      && (forall k | 0 <= k < |o| :: o[k] in Reach(g, Ptr(root)))
      && (forall v | v in Reach(g, Ptr(root)) :: v in o)
  {
    var s := Seed(g, root);
    SeedWellFormed(g, root);
    OrderIsTopological(s, root);
    ReachSameLinks(g, s, Ptr(root));
    var t := Order(s, root);
    assert Elems(t) == Reach(g, Ptr(root));
    ReversedConsumersFirst(s, t);
    ReversedElems(t);
  }

  /**
   After `Backward(root)`: data, operations and links are unchanged; the
   root's gradient restarted at 1, every other node's gradient starts from
   whatever it held (nothing is zeroed first), and each node has received
   the contribution of every node of the traversal, computed with that
   node's final gradient.
   */
  lemma BackwardAdjoint(g: Arena, root: nat, pow: PowFn)
    requires WellFormed(g) && root < |g|
    ensures var h := BackwardResult(g, root, pow);
      && SameShape(g, h)
      && forall v | 0 <= v < |g| ::
           h[v].grad == (if v == root then 1.0 else g[v].grad) + Inflow(h, BackwardOrder(g, root), v, pow)
  {
    var h := BackwardResult(g, root, pow);
    forall v | 0 <= v < |g| ensures h[v].grad == (if v == root then 1.0 else g[v].grad) + Inflow(h, BackwardOrder(g, root), v, pow) {
      BackwardAdjointAt(g, root, pow, v);
    }
  }

  /** `Backward(root)` changes gradients only. */
  lemma BackwardShape(g: Arena, root: nat, pow: PowFn)
    requires WellFormed(g) && root < |g|
    ensures SameShape(g, BackwardResult(g, root, pow))
  {
    SeedWellFormed(g, root);
  }

  /** `BackwardAdjoint` at one node `v`. */
  lemma BackwardAdjointAt(g: Arena, root: nat, pow: PowFn, v: nat)
    requires WellFormed(g) && root < |g| && v < |g|
    ensures var h := BackwardResult(g, root, pow);
      |h| == |g| && h[v].grad == (if v == root then 1.0 else g[v].grad) + Inflow(h, BackwardOrder(g, root), v, pow)
  {
    var s := Seed(g, root);
    var o := BackwardOrder(g, root);
    BackwardOrderFacts(g, root);
    PropagateAdjoint(s, o, pow);
  }

  /** A contribution reaches only the operands of the contributing node. */
  lemma ContributionOnlyToChildren(g: Arena, u: nat, v: nat, pow: PowFn)
    requires WellFormed(g) && u < |g| && !IsChild(g, u, v)
    ensures Contribution(g, u, v, pow) == 0.0
  {
  }

  /** Nothing flows into a node that no node of the sequence consumes. */
  lemma {:induction false} InflowNoConsumer(h: Arena, s: seq<nat>, v: nat, pow: PowFn)
    requires WellFormed(h) && AllBelow(s, |h|)
    requires forall k | 0 <= k < |s| :: !IsChild(h, s[k], v)
    ensures Inflow(h, s, v, pow) == 0.0
    decreases |s|
  {
    if s != [] {
      InflowNoConsumer(h, s[..|s| - 1], v, pow);
      ContributionOnlyToChildren(h, s[|s| - 1], v, pow);
    }
  }

  /** Into a node consumed by a single node `z` of the sequence flows exactly `z`'s contribution. */
  lemma {:induction false} InflowOneConsumer(h: Arena, s: seq<nat>, v: nat, z: nat, pow: PowFn)
    requires WellFormed(h) && AllBelow(s, |h|) && Distinct(s) && z in s
    requires forall k | 0 <= k < |s| && s[k] != z :: !IsChild(h, s[k], v)
    ensures z < |h| && Inflow(h, s, v, pow) == Contribution(h, z, v, pow)
    decreases |s|
  {
    var p := s[..|s| - 1];
    var u := s[|s| - 1];
    if u == z {
      assert z !in p;
      InflowNoConsumer(h, p, v, pow);
    } else {
      assert z in p;
      InflowOneConsumer(h, p, v, z, pow);
      ContributionOnlyToChildren(h, u, v, pow);
    }
  }

  /** A node the root does not reach keeps its data, links and gradient. */
  lemma BackwardUnreachable(g: Arena, root: nat, v: nat, pow: PowFn)
    requires WellFormed(g) && root < |g| && v < |g| && v !in Reach(g, Ptr(root))
    ensures BackwardResult(g, root, pow)[v] == g[v]
  {
    var h := BackwardResult(g, root, pow);
    var o := BackwardOrder(g, root);
    BackwardAdjoint(g, root, pow);
    BackwardOrderFacts(g, root);
    forall k | 0 <= k < |o| ensures !IsChild(h, o[k], v) {
      var u := o[k];
      assert u in Reach(g, Ptr(root));
      if IsChild(h, u, v) {
        ReachClosed(g, root, u, v);
      }
    }
    InflowNoConsumer(h, o, v, pow);
  }

  /** An operand of a reachable node is reachable. */
  lemma {:induction false} ReachClosed(g: Arena, root: nat, u: nat, v: nat)
    requires WellFormed(g) && root < |g| && u in Reach(g, Ptr(root))
    requires u < |g| && (g[u].child1 == Ptr(v) || g[u].child2 == Ptr(v))
    ensures v in Reach(g, Ptr(root))
    decreases root
  {
    assert LinksOk(g[root], root);
    if u != root {
      var c1, c2 := g[root].child1, g[root].child2;
      if u in Reach(g, c1) {
        ReachClosed(g, c1.id, u, v);
      } else {
        ReachClosed(g, c2.id, u, v);
      }
    }
  }

  /** Nodes below `bound` never consume a node at or above it. */
  lemma NoConsumerBelow(g: Arena, u: nat, v: nat)
    requires WellFormed(g) && u < |g| && u <= v
    ensures !IsChild(g, u, v)
  {
    assert LinksOk(g[u], u);
  }

  /** The root of a backward pass ends with gradient 1: nothing it reaches consumes it. */
  lemma BackwardRootGrad(g: Arena, root: nat, pow: PowFn)
    requires WellFormed(g) && root < |g|
    ensures BackwardResult(g, root, pow)[root].grad == 1.0
  {
    var h := BackwardResult(g, root, pow);
    BackwardAdjointAt(g, root, pow, root);
    BackwardShape(g, root, pow);
    SameLinksWellFormed(g, h);
    RootUnconsumed(g, h, root);
    InflowNoConsumer(h, BackwardOrder(g, root), root, pow);
  }

  /** No node of the backward order consumes the root. */
  lemma RootUnconsumed(g: Arena, h: Arena, root: nat)
    requires WellFormed(g) && root < |g| && WellFormed(h) && |h| == |g|
    ensures var o := BackwardOrder(g, root);
      AllBelow(o, |h|) && forall k | 0 <= k < |o| :: !IsChild(h, o[k], root)
  {
    var o := BackwardOrder(g, root);
    BackwardOrderFacts(g, root);
    forall k | 0 <= k < |o| ensures !IsChild(h, o[k], root) {
      assert o[k] in Reach(g, Ptr(root));
      NoConsumerBelow(h, o[k], root);
    }
  }

  /**
   For `z = Add(y, y)`, a backward pass from `z` adds 2 to `y`'s gradient:
   the operand used twice gets both contributions.
   */
  lemma BackwardAddSameOperand(g: Arena, y: nat, pow: PowFn)
    requires WellFormed(g) && y < |g|
    ensures var g' := g + [Add(g, y, y)];
      WellFormed(g') && BackwardResult(g', |g|, pow)[y].grad == g[y].grad + 2.0
  {
    var z := |g|;
    var g' := g + [Add(g, y, y)];
    OperatorNode(g, Add(g, y, y), y, y, pow);
    var h := BackwardResult(g', z, pow);
    var o := BackwardOrder(g', z);
    BackwardAdjoint(g', z, pow);
    BackwardOrderFacts(g', z);
    BackwardRootGrad(g', z, pow);
    assert z in Reach(g', Ptr(z));
    forall k | 0 <= k < |o| && o[k] != z ensures !IsChild(h, o[k], y) {
      assert o[k] in Reach(g, Ptr(y));
      NoConsumerBelow(h, o[k], y);
    }
    InflowOneConsumer(h, o, y, z, pow);
  }

  /**
   A backward pass from a new node `v` over two independent operands: each
   operand receives exactly the new node's contribution.
   */
  lemma BackwardNewNode(g: Arena, v: Value, a: nat, b: nat, pow: PowFn)
    requires WellFormed(g) && a < |g| && b < |g|
    requires a !in Reach(g, Ptr(b)) && b !in Reach(g, Ptr(a))
    requires WellFormed(g + [v]) && (g + [v])[..|g|] == g
    requires Reach(g + [v], Ptr(|g|)) == {|g|} + Reach(g, Ptr(a)) + Reach(g, Ptr(b))
    ensures WellFormed(Seed(g + [v], |g|))
    ensures var h := BackwardResult(g + [v], |g|, pow);
      && h[a].grad == g[a].grad + Contribution(Seed(g + [v], |g|), |g|, a, pow)
      && h[b].grad == g[b].grad + Contribution(Seed(g + [v], |g|), |g|, b, pow)
  {
    OperandGrad(g, v, a, b, pow);
    OperandGrad(g, v, b, a, pow);
  }

  /** `BackwardNewNode` for the operand `a`, whatever the new node's operator. */
  lemma OperandGrad(g: Arena, v: Value, a: nat, b: nat, pow: PowFn)
    requires WellFormed(g) && a < |g| && b < |g| && a !in Reach(g, Ptr(b))
    requires WellFormed(g + [v]) && (g + [v])[..|g|] == g
    requires Reach(g + [v], Ptr(|g|)) == {|g|} + Reach(g, Ptr(a)) + Reach(g, Ptr(b))
    ensures WellFormed(Seed(g + [v], |g|))
    ensures BackwardResult(g + [v], |g|, pow)[a].grad == g[a].grad + Contribution(Seed(g + [v], |g|), |g|, a, pow)
  {
    NewNodeOrder(g, v, a, b);
    NewNodeAdjoint(g, v, a, pow);
    OperandGradCore(g, Seed(g + [v], |g|), BackwardResult(g + [v], |g|, pow), BackwardOrder(g + [v], |g|), a, b, pow);
  }

  /** The backward order from a new node over `a` and `b`: distinct nodes of the two subgraphs, the new node among them. */
  lemma NewNodeOrder(g: Arena, v: Value, a: nat, b: nat)
    requires WellFormed(g) && a < |g| && b < |g|
    requires WellFormed(g + [v]) && Reach(g + [v], Ptr(|g|)) == {|g|} + Reach(g, Ptr(a)) + Reach(g, Ptr(b))
    ensures var o := BackwardOrder(g + [v], |g|);
      && Distinct(o) && |g| in o
      && forall k | 0 <= k < |o| :: o[k] in {|g|} + Reach(g, Ptr(a)) + Reach(g, Ptr(b))
  {
    BackwardOrderFacts(g + [v], |g|);
  }

  /**
   After a backward pass from a new node, operand `a` holds its old gradient
   plus the inflow from the order; the new node keeps its seed gradient, and
   only gradients changed.
   */
  lemma NewNodeAdjoint(g: Arena, v: Value, a: nat, pow: PowFn)
    requires WellFormed(g) && a < |g| && WellFormed(g + [v]) && (g + [v])[..|g|] == g
    ensures var g' := g + [v];
      var s := Seed(g', |g|);
      var h := BackwardResult(g', |g|, pow);
      && WellFormed(s) && |s| == |g| + 1 && SameShape(s, h) && SameLinks(g, h[..|g|])
      && s[|g|].grad == h[|g|].grad && WellFormed(h) && AllBelow(BackwardOrder(g', |g|), |h|)
      && h[a].grad == g[a].grad + Inflow(h, BackwardOrder(g', |g|), a, pow)
  {
    var g' := g + [v];
    BackwardAdjointAt(g', |g|, pow, a);
    BackwardRootGrad(g', |g|, pow);
    NewNodeShape(g, g', pow);
  }

  /** The shape facts about a backward pass from a new node. */
  lemma NewNodeShape(g: Arena, g': Arena, pow: PowFn)
    requires WellFormed(g') && |g'| == |g| + 1 && g'[..|g|] == g
    ensures WellFormed(Seed(g', |g|)) && SameShape(Seed(g', |g|), BackwardResult(g', |g|, pow))
    ensures SameLinks(g, BackwardResult(g', |g|, pow)[..|g|])
  {
    SeedWellFormed(g', |g|);
    BackwardFacts(g, g', BackwardResult(g', |g|, pow), pow);
  }

  /** The shape facts `OperandGradCore` needs about the arena after a pass from a new node. */
  lemma BackwardFacts(g: Arena, g': Arena, h: Arena, pow: PowFn)
    requires WellFormed(g') && |g'| == |g| + 1 && g'[..|g|] == g && SameShape(g', h)
    ensures SameShape(Seed(g', |g|), h) && SameLinks(g, h[..|g|])
  {
    assert forall i | 0 <= i < |g| :: g[i] == g'[i];
  }

  /**
   The arena-free core of `OperandGrad`: with the order's nodes reachable
   from the new node `|g|`, the inflow into `a` is the new node's contribution.
   */
  lemma OperandGradCore(g: Arena, s: Arena, h: Arena, o: seq<nat>, a: nat, b: nat, pow: PowFn)
    requires WellFormed(g) && a < |g| && b < |g| && a !in Reach(g, Ptr(b))
    requires WellFormed(s) && |s| == |g| + 1 && SameShape(s, h) && SameLinks(g, h[..|g|])
    requires forall k | 0 <= k < |o| :: o[k] in {|g|} + Reach(g, Ptr(a)) + Reach(g, Ptr(b))
    requires Distinct(o) && |g| in o && s[|g|].grad == h[|g|].grad
    requires WellFormed(h) && AllBelow(o, |h|)
    requires h[a].grad == g[a].grad + Inflow(h, o, a, pow)
    ensures h[a].grad == g[a].grad + Contribution(s, |g|, a, pow)
  {
    SameLinksWellFormed(s, h);
    OnlyConsumerIsRoot(g, a, b, h, o, pow);
    InflowOneConsumer(h, o, a, |g|, pow);
    ContributionFrame(s, h, |g|, a, pow);
  }

  /**
   Within the subgraph of a new node over two independent operands, only the
   new node consumes operand `a`.
   */
  lemma OnlyConsumerIsRoot(g: Arena, a: nat, b: nat, h: Arena, o: seq<nat>, pow: PowFn)
    requires WellFormed(g) && a < |g| && b < |g|
    requires a !in Reach(g, Ptr(b))
    requires WellFormed(h) && |h| == |g| + 1 && SameLinks(g, h[..|g|])
    requires forall k | 0 <= k < |o| :: o[k] in {|g|} + Reach(g, Ptr(a)) + Reach(g, Ptr(b))
    ensures AllBelow(o, |h|)
    ensures forall k | 0 <= k < |o| && o[k] != |g| :: !IsChild(h, o[k], a)
  {
    forall k | 0 <= k < |o| && o[k] != |g| ensures !IsChild(h, o[k], a) {
      var u := o[k];
      assert h[u] == h[..|g|][u];
      if u in Reach(g, Ptr(a)) {
        NoConsumerBelow(h, u, a);
      } else if IsChild(h, u, a) {
        assert u in Reach(g, Ptr(b));
        ReachClosed(g, b, u, a);
      }
    }
  }

  /**
   Sum rule: for `z = Add(a, b)` with operands that do not depend on each
   other, a backward pass from `z` adds 1 to the gradient of each operand.
   */
  lemma BackwardSumRule(g: Arena, a: nat, b: nat, pow: PowFn)
    requires WellFormed(g) && a < |g| && b < |g|
    requires a !in Reach(g, Ptr(b)) && b !in Reach(g, Ptr(a))
    ensures var g' := g + [Add(g, a, b)];
      && WellFormed(g')
      && BackwardResult(g', |g|, pow)[a].grad == g[a].grad + 1.0
      && BackwardResult(g', |g|, pow)[b].grad == g[b].grad + 1.0
  {
    OperatorNode(g, Add(g, a, b), a, b, pow);
    BackwardNewNode(g, Add(g, a, b), a, b, pow);
    assert a != b by { assert a in Reach(g, Ptr(a)); }
  }

  /**
   Product rule: for `z = Mult(a, b)` with operands that do not depend on
   each other, a backward pass from `z` adds `b`'s data to `a`'s gradient
   and `a`'s data to `b`'s.
   */
  lemma BackwardProductRule(g: Arena, a: nat, b: nat, pow: PowFn)
    requires WellFormed(g) && a < |g| && b < |g|
    requires a !in Reach(g, Ptr(b)) && b !in Reach(g, Ptr(a))
    ensures var g' := g + [Mult(g, a, b)];
      && WellFormed(g')
      && BackwardResult(g', |g|, pow)[a].grad == g[a].grad + g[b].data
      && BackwardResult(g', |g|, pow)[b].grad == g[b].grad + g[a].data
  {
    var g' := g + [Mult(g, a, b)];
    OperatorNode(g, Mult(g, a, b), a, b, pow);
    BackwardNewNode(g, Mult(g, a, b), a, b, pow);
    assert a != b by { assert a in Reach(g, Ptr(a)); }
    var s := Seed(g', |g|);
    assert s[a].data == g[a].data && s[b].data == g[b].data;
  }

  /**
   Power rule: for `z = Pow(a, c)` with independent base and exponent, a
   backward pass from `z` adds `c * pow(a, c - 1)` to the base's gradient and
   nothing to the exponent's.
   */
  lemma BackwardPowerRule(g: Arena, a: nat, c: nat, pow: PowFn)
    requires WellFormed(g) && a < |g| && c < |g|
    requires a !in Reach(g, Ptr(c)) && c !in Reach(g, Ptr(a))
    ensures var g' := g + [Pow(g, a, c, pow)];
      && WellFormed(g')
      && BackwardResult(g', |g|, pow)[a].grad == g[a].grad + PowSlope(pow, g[a].data, g[c].data)
      && BackwardResult(g', |g|, pow)[c].grad == g[c].grad
  {
    var g' := g + [Pow(g, a, c, pow)];
    OperatorNode(g, Pow(g, a, c, pow), a, c, pow);
    BackwardNewNode(g, Pow(g, a, c, pow), a, c, pow);
    assert a != c by { assert a in Reach(g, Ptr(a)); }
    var s := Seed(g', |g|);
    assert s[a].data == g[a].data && s[c].data == g[c].data;
    PowContribution(s, |g|, a, c, g[a].data, g[c].data, pow);
  }

  /** What a power node passes to its base and to its exponent. */
  lemma PowContribution(h: Arena, z: nat, a: nat, c: nat, x: real, y: real, pow: PowFn)
    requires WellFormed(h) && z < |h| && a != c
    requires h[z].op == PowOp && h[z].child1 == Ptr(a) && h[z].child2 == Ptr(c)
    requires h[a].data == x && h[c].data == y && h[z].grad == 1.0
    ensures Contribution(h, z, a, pow) == PowSlope(pow, x, y)
    ensures Contribution(h, z, c, pow) == 0.0
  {
    assert LinksOk(h[z], z);
  }
}
