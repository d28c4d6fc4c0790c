/**
 The scalar node of the autodiff engine and the four constructors that build
 nodes. The heap of nodes is modelled as an arena: a sequence of values in
 which a node's identity is its index and every child pointer names a node
 allocated earlier, so the operand graph is acyclic by construction.
 */
module Values {

  /** The operation tag of a node; `NoOp` is the empty tag of a leaf. */
  datatype Op = NoOp | AddOp | MultOp | PowOp

  /** A possibly nil pointer to a node of the arena. */
  datatype Ref = Nil | Ptr(id: nat)

  datatype Value = Value(data: real, grad: real, op: Op, child1: Ref, child2: Ref)

  type Arena = seq<Value>

  /**
   Multiplication of two node values: exactly `x * y`. Every product the
   engine forms goes through this one function only to keep real products
   opaque to the solver, which otherwise fails to match the gradient step
   against its definition; it is not a modelling choice.
   */
  function Product(x: real, y: real): real {
    x * y
  }

  /** The floating-point power function the engine calls, left as a parameter. */
  type PowFn = (real, real) -> real

  /**
   The local derivative of `pow(x, y)` with respect to the base `x`, by the
   power rule: `y * pow(x, y - 1)`.
   */
  function PowSlope(pow: PowFn, x: real, y: real): real {
    y * pow(x, y - 1.0)
  }

  /** One more than the index a pointer names; 0 for nil. */
  function Rank(r: Ref): nat {
    match r
    case Nil => 0
    case Ptr(i) => i + 1
  }

  /** `r` is nil or points strictly below `bound`. */
  predicate Below(r: Ref, bound: nat) {
    Rank(r) <= bound
  }

  /** The links of `v` are those of a node stored at index `bound`. */
  predicate LinksOk(v: Value, bound: nat) {
    && Below(v.child1, bound)
    && Below(v.child2, bound)
    && (v.op == NoOp ==> v.child1 == Nil && v.child2 == Nil)
    && (v.op != NoOp ==> v.child1.Ptr? && v.child2.Ptr?)
  }

  /** Every node's operands were allocated before it. */
  ghost predicate WellFormed(g: Arena) {
    forall i | 0 <= i < |g| :: LinksOk(g[i], i)
  }

  /** Two arenas with the same nodes up to data and gradient. */
  ghost predicate SameLinks(g: Arena, h: Arena) {
    && |g| == |h|
    && forall i | 0 <= i < |g| ::
         g[i].op == h[i].op && g[i].child1 == h[i].child1 && g[i].child2 == h[i].child2
  }

  /** Two arenas that differ at most in gradients. */
  ghost predicate SameShape(g: Arena, h: Arena) {
    SameLinks(g, h) && forall i | 0 <= i < |g| :: g[i].data == h[i].data
  }

  /** The nodes reachable from `r` through child pointers, `r` included. */
  ghost function Reach(g: Arena, r: Ref): (s: set<nat>)
    requires WellFormed(g) && Below(r, |g|)
    ensures forall j | j in s :: j < Rank(r)
    decreases Rank(r)
  {
    match r
    case Nil => {}
    case Ptr(i) => {i} + Reach(g, g[i].child1) + Reach(g, g[i].child2)
  }

  /** A leaf: a literal or a trainable parameter. */
  function NewValue(x: real): Value {
    Value(x, 0.0, NoOp, Nil, Nil)
  }

  function Add(g: Arena, a: nat, b: nat): Value
    requires a < |g| && b < |g|
  {
    Value(g[a].data + g[b].data, 0.0, AddOp, Ptr(a), Ptr(b))
  }

  function Mult(g: Arena, a: nat, b: nat): Value
    requires a < |g| && b < |g|
  {
    Value(Product(g[a].data, g[b].data), 0.0, MultOp, Ptr(a), Ptr(b))
  }

  function Pow(g: Arena, a: nat, b: nat, pow: PowFn): Value
    requires a < |g| && b < |g|
  {
    Value(pow(g[a].data, g[b].data), 0.0, PowOp, Ptr(a), Ptr(b))
  }

  /** Arenas with the same links are both well formed or both not. */
  lemma SameLinksWellFormed(g: Arena, h: Arena)
    requires WellFormed(g) && SameLinks(g, h)
    ensures WellFormed(h)
  {
    forall i | 0 <= i < |h| ensures LinksOk(h[i], i) {
      assert LinksOk(g[i], i);
    }
  }

  /** Reachability depends only on the links, not on data or gradients. */
  lemma {:induction false} ReachSameLinks(g: Arena, h: Arena, r: Ref)
    requires WellFormed(g) && SameLinks(g, h) && Below(r, |g|)
    ensures WellFormed(h) && Reach(h, r) == Reach(g, r)
    decreases Rank(r)
  {
    SameLinksWellFormed(g, h);
    if r.Ptr? {
      assert LinksOk(g[r.id], r.id);
      ReachSameLinks(g, h, g[r.id].child1);
      ReachSameLinks(g, h, g[r.id].child2);
    }
  }

  /**
   Allocating a node whose links point into the arena keeps the arena well
   formed and leaves everything already reachable exactly as it was: the
   graph only ever grows.
   */
  lemma {:induction false} AppendKeepsReach(g: Arena, v: Value, r: Ref)
    requires WellFormed(g) && LinksOk(v, |g|) && Below(r, |g|)
    ensures WellFormed(g + [v])
    ensures Reach(g + [v], r) == Reach(g, r)
    decreases Rank(r)
  {
    var h := g + [v];
    assert forall i | 0 <= i < |g| :: h[i] == g[i];
    if r.Ptr? {
      assert LinksOk(g[r.id], r.id);
      AppendKeepsReach(g, v, g[r.id].child1);
      AppendKeepsReach(g, v, g[r.id].child2);
    }
  }

  /** Allocating a node whose links point into the arena keeps the arena well formed. */
  lemma AppendWellFormed(g: Arena, v: Value)
    requires WellFormed(g) && LinksOk(v, |g|)
    ensures WellFormed(g + [v]) && (g + [v])[..|g|] == g && (g + [v])[|g|] == v
  {
    AppendKeepsReach(g, v, Nil);
  }

  /**
   `Add`, `Mult` and `Pow` build a node with gradient 0 whose subgraph is the
   node itself plus the subgraphs of its two operands; the operands are not
   changed.
   */
  lemma OperatorNode(g: Arena, v: Value, a: nat, b: nat, pow: PowFn)
    requires WellFormed(g) && a < |g| && b < |g|
    requires v == Add(g, a, b) || v == Mult(g, a, b) || v == Pow(g, a, b, pow)
    ensures WellFormed(g + [v]) && (g + [v])[..|g|] == g
    ensures v.grad == 0.0 && v.op != NoOp
    ensures Reach(g + [v], Ptr(|g|)) == {|g|} + Reach(g, Ptr(a)) + Reach(g, Ptr(b))
  {
    AppendKeepsReach(g, v, Ptr(a));
    AppendKeepsReach(g, v, Ptr(b));
  }

  /** A fresh leaf reaches only itself and has gradient 0. */
  lemma LeafNode(g: Arena, x: real)
    requires WellFormed(g)
    ensures WellFormed(g + [NewValue(x)])
    ensures Reach(g + [NewValue(x)], Ptr(|g|)) == {|g|}
    ensures (g + [NewValue(x)])[|g|].data == x && (g + [NewValue(x)])[|g|].grad == 0.0
  {
    AppendKeepsReach(g, NewValue(x), Nil);
  }
}
