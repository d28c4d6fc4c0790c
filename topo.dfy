/**
 The topological sort used by the backward pass: a post-order depth-first
 traversal with a visited set keyed on node identity (the arena index).
 */
module Topo {
  import opened Values

  /** The set of elements of a sequence. */
  ghost function Elems(s: seq<nat>): set<nat> {
    set x | x in s
  }

  /** No element occurs twice. */
  ghost predicate Distinct(s: seq<nat>) {
    forall a, b | 0 <= a < b < |s| :: s[a] != s[b]
  }

  /** `r` is nil or names an element of `s`. */
  ghost predicate ChildIn(r: Ref, s: seq<nat>) {
    r.Nil? || r.id in s
  }

  /** Every element is a node whose children occur earlier in the sequence. */
  ghost predicate ChildrenFirst(g: Arena, s: seq<nat>) {
    forall k | 0 <= k < |s| ::
      s[k] < |g| && ChildIn(g[s[k]].child1, s[..k]) && ChildIn(g[s[k]].child2, s[..k])
  }

  /**
   What `FindChildren(node, &topo, &visited)` leaves in `topo` and `visited`.
   Whatever the starting state, it only appends to `topo`, appends nodes that
   are reachable from `node` and were not visited, never appends a node twice,
   and marks exactly the appended nodes as visited.
   */
  ghost function Dfs(g: Arena, node: Ref, topo: seq<nat>, visited: set<nat>): (r: (seq<nat>, set<nat>))
    requires WellFormed(g) && Below(node, |g|)
    ensures |r.0| >= |topo| && r.0[..|topo|] == topo
    ensures r.1 == visited + Elems(r.0[|topo|..])
    ensures Distinct(r.0[|topo|..]) && Elems(r.0[|topo|..]) !! visited
    ensures Elems(r.0[|topo|..]) <= Reach(g, node)
    decreases Rank(node)
  {
    if node.Nil? || node.id in visited then (topo, visited)
    else
      var i := node.id;
      assert LinksOk(g[i], i);
      var (t1, v1) := Dfs(g, g[i].child1, topo, visited + {i});
      var (t2, v2) := Dfs(g, g[i].child2, t1, v1);
      DfsStep(g, i, topo, visited, t1, v1, t2, v2);
      (t2 + [i], v2)
  }

  /** The contract of `Dfs` for a node from the contracts of its two recursive calls. */
  lemma DfsStep(g: Arena, i: nat, topo: seq<nat>, visited: set<nat>,
                t1: seq<nat>, v1: set<nat>, t2: seq<nat>, v2: set<nat>)
    requires WellFormed(g) && i < |g| && i !in visited
    requires |t1| >= |topo| && t1[..|topo|] == topo
    requires v1 == visited + {i} + Elems(t1[|topo|..])
    requires Distinct(t1[|topo|..]) && Elems(t1[|topo|..]) !! visited + {i}
    requires Elems(t1[|topo|..]) <= Reach(g, g[i].child1)
    requires |t2| >= |t1| && t2[..|t1|] == t1
    requires v2 == v1 + Elems(t2[|t1|..])
    requires Distinct(t2[|t1|..]) && Elems(t2[|t1|..]) !! v1
    requires Elems(t2[|t1|..]) <= Reach(g, g[i].child2)
    ensures |t2 + [i]| >= |topo| && (t2 + [i])[..|topo|] == topo
    ensures v2 == visited + Elems((t2 + [i])[|topo|..])
    ensures Distinct((t2 + [i])[|topo|..]) && Elems((t2 + [i])[|topo|..]) !! visited
    ensures Elems((t2 + [i])[|topo|..]) <= Reach(g, Ptr(i))
  {
    NewPartSplit(topo, t1, t2, i);
    var a, b := t1[|topo|..], t2[|t1|..];
    var n := a + b + [i];
    forall x, y | 0 <= x < y < |n| ensures n[x] != n[y] {
      if y < |a| {
      } else if y < |a| + |b| {
        if x >= |a| {
          assert n[x] == b[x - |a|] && n[y] == b[y - |a|];
        } else {
          assert n[x] in Elems(a) && n[y] in Elems(b);
        }
      } else {
        assert n[y] == i;
        if x < |a| {
          assert n[x] in Elems(a);
        } else {
          assert n[x] in Elems(b);
        }
      }
    }
  }

  /** How the part a call appends splits over the two recursive calls. */
  lemma NewPartSplit(topo: seq<nat>, t1: seq<nat>, t2: seq<nat>, i: nat)
    requires |topo| <= |t1| <= |t2| && t1[..|topo|] == topo && t2[..|t1|] == t1
    ensures (t2 + [i])[..|topo|] == topo
    ensures (t2 + [i])[|topo|..] == t1[|topo|..] + t2[|t1|..] + [i]
    ensures Elems((t2 + [i])[|topo|..]) == Elems(t1[|topo|..]) + Elems(t2[|t1|..]) + {i}
    ensures Elems(t2 + [i]) == Elems(t2) + {i}
  {
    assert t2 == t1 + t2[|t1|..];
    assert t1 == topo + t1[|topo|..];
    assert (t2 + [i])[|topo|..] == t1[|topo|..] + t2[|t1|..] + [i];
  }

  /** The traversal order `Backward` computes for `root`. */
  ghost function Order(g: Arena, root: nat): seq<nat>
    requires WellFormed(g) && root < |g|
  {
    Dfs(g, Ptr(root), [], {}).0
  }

  /** A sequence in which children come first holds everything reachable from its elements. */
  lemma {:induction false} ChildrenFirstClosed(g: Arena, s: seq<nat>, j: nat)
    requires WellFormed(g) && ChildrenFirst(g, s) && j in s
    ensures j < |g| && Reach(g, Ptr(j)) <= Elems(s)
    decreases j
  {
    var k :| 0 <= k < |s| && s[k] == j;
    assert LinksOk(g[j], j);
    var c1, c2 := g[j].child1, g[j].child2;
    assert ChildIn(c1, s[..k]) && ChildIn(c2, s[..k]);
    if c1.Ptr? {
      assert c1.id in s;
      ChildrenFirstClosed(g, s, c1.id);
    }
    if c2.Ptr? {
      assert c2.id in s;
      ChildrenFirstClosed(g, s, c2.id);
    }
  }

  /** Appending a node whose children are already listed keeps children first. */
  lemma ChildrenFirstAppend(g: Arena, t: seq<nat>, i: nat)
    requires ChildrenFirst(g, t) && i < |g|
    requires ChildIn(g[i].child1, t) && ChildIn(g[i].child2, t)
    ensures ChildrenFirst(g, t + [i])
  {
    var t' := t + [i];
    forall k | 0 <= k < |t'|
      ensures t'[k] < |g| && ChildIn(g[t'[k]].child1, t'[..k]) && ChildIn(g[t'[k]].child2, t'[..k])
    {
      if k < |t| {
        assert t'[..k] == t[..k];
      } else {
        assert t'[..k] == t;
      }
    }
  }

  /** The traversal invariant that `DfsCorrect` assumes of `topo` and `visited`. */
  ghost predicate DfsInvariant(g: Arena, node: Ref, topo: seq<nat>, visited: set<nat>) {
    && ChildrenFirst(g, topo)
    && Elems(topo) <= visited
    && forall j | j in visited && j < Rank(node) :: j in Elems(topo)
  }

  /**
   The depth-first traversal invariant: if `topo` already lists its children
   first, every visited node is listed in `topo` or is an ancestor of `node`
   still being expanded (so above it in the arena), then the traversal
   leaves a `topo` that lists its children first and holds exactly the old
   elements plus every node reachable from `node`.
   */
  lemma {:induction false} DfsCorrect(g: Arena, node: Ref, topo: seq<nat>, visited: set<nat>)
    requires WellFormed(g) && Below(node, |g|)
    requires DfsInvariant(g, node, topo, visited)
    ensures ChildrenFirst(g, Dfs(g, node, topo, visited).0)
    ensures Elems(Dfs(g, node, topo, visited).0) == Elems(topo) + Reach(g, node)
    decreases Rank(node)
  {
    if node.Nil? {
    } else if node.id in visited {
      ChildrenFirstClosed(g, topo, node.id);
    } else {
      var i := node.id;
      assert LinksOk(g[i], i);
      var c1, c2 := g[i].child1, g[i].child2;
      var (t1, v1) := Dfs(g, c1, topo, visited + {i});
      DfsDescend(g, i, c1, topo, visited);
      DfsCorrect(g, c1, topo, visited + {i});
      var (t2, v2) := Dfs(g, c2, t1, v1);
      DfsSecond(g, i, topo, visited, t1, v1);
      DfsCorrect(g, c2, t1, v1);
      DfsUnfold(g, node, topo, visited);
      DfsFinish(g, i, topo, t1, t2);
    }
  }

  /** Appending `i` after the traversals of both its children. */
  lemma DfsFinish(g: Arena, i: nat, topo: seq<nat>, t1: seq<nat>, t2: seq<nat>)
    requires WellFormed(g) && i < |g|
    requires ChildrenFirst(g, t2)
    requires Elems(t1) == Elems(topo) + Reach(g, g[i].child1)
    requires Elems(t2) == Elems(t1) + Reach(g, g[i].child2)
    ensures ChildrenFirst(g, t2 + [i])
    ensures Elems(t2 + [i]) == Elems(topo) + Reach(g, Ptr(i))
  {
    assert LinksOk(g[i], i);
    var c1, c2 := g[i].child1, g[i].child2;
    assert c1.Ptr? ==> c1.id in Reach(g, c1);
    assert c2.Ptr? ==> c2.id in Reach(g, c2);
    ChildrenFirstAppend(g, t2, i);
    calc {
      Elems(t2 + [i]);
      { assert (t2 + [i])[|t2|] == i; }
      Elems(t2) + {i};
      Elems(topo) + Reach(g, c1) + Reach(g, c2) + {i};
      { UnionShuffle(Elems(topo), Reach(g, c1), Reach(g, c2), i); }
      Elems(topo) + ({i} + Reach(g, c1) + Reach(g, c2));
    }
  }

  /** Regrouping a union of sets; a step the solver needs spelled out. */
  lemma UnionShuffle(a: set<nat>, b: set<nat>, c: set<nat>, i: nat)
    ensures a + b + c + {i} == a + ({i} + b + c)
  {
  }

  /** Marking `i` visited keeps the invariant for a child of `i`. */
  lemma DfsDescend(g: Arena, i: nat, c: Ref, topo: seq<nat>, visited: set<nat>)
    requires WellFormed(g) && i < |g| && i !in visited && Rank(c) <= i
    requires DfsInvariant(g, Ptr(i), topo, visited)
    ensures DfsInvariant(g, c, topo, visited + {i})
  {
  }

  /** After the first child is done, the invariant holds for the second. */
  lemma DfsSecond(g: Arena, i: nat, topo: seq<nat>, visited: set<nat>, t1: seq<nat>, v1: set<nat>)
    requires WellFormed(g) && i < |g| && i !in visited
    requires DfsInvariant(g, Ptr(i), topo, visited)
    requires (t1, v1) == Dfs(g, g[i].child1, topo, visited + {i})
    requires ChildrenFirst(g, t1)
    ensures DfsInvariant(g, g[i].child2, t1, v1)
  {
    assert LinksOk(g[i], i);
    DfsGrown(g, Rank(g[i].child2), i, topo, visited, t1, v1);
  }

  /** The invariant for a node of rank at most `i` after `topo` and `visited` grew by the same nodes. */
  lemma DfsGrown(g: Arena, rank: nat, i: nat, topo: seq<nat>, visited: set<nat>, t1: seq<nat>, v1: set<nat>)
    requires rank <= i && DfsInvariant(g, Ptr(i), topo, visited) && ChildrenFirst(g, t1)
    requires |t1| >= |topo| && t1[..|topo|] == topo && v1 == visited + {i} + Elems(t1[|topo|..])
    ensures Elems(t1) <= v1
    ensures forall j | j in v1 && j < rank :: j in Elems(t1)
  {
    var n := t1[|topo|..];
    assert t1 == topo + n;
    assert Elems(t1) == Elems(topo) + Elems(n);
  }

  /** One unfolding of `Dfs` at an unvisited node. */
  lemma DfsUnfold(g: Arena, node: Ref, topo: seq<nat>, visited: set<nat>)
    requires WellFormed(g) && Below(node, |g|) && node.Ptr? && node.id !in visited
    ensures var i := node.id;
      var (t1, v1) := Dfs(g, g[i].child1, topo, visited + {i});
      Dfs(g, node, topo, visited) == (Dfs(g, g[i].child2, t1, v1).0 + [i], Dfs(g, g[i].child2, t1, v1).1)
  {
    assert LinksOk(g[node.id], node.id);
  }

  /**
   The order `FindChildren` produces from empty `topo` and `visited`: every
   node reachable from the root exactly once, children before parents, and
   the root last.
   */
  lemma OrderIsTopological(g: Arena, root: nat)
    requires WellFormed(g) && root < |g|
    ensures var o := Order(g, root);
      && Distinct(o)
      && ChildrenFirst(g, o)
      && Elems(o) == Reach(g, Ptr(root))
      && |o| > 0 && o[|o| - 1] == root
  {
    DfsCorrect(g, Ptr(root), [], {});
    DfsUnfold(g, Ptr(root), [], {});
    var o := Order(g, root);
    assert o[0..] == o;
  }

  /**
   Models `FindChildren(node, topo, visited)`: `topo` and `visited` are passed
   by pointer in the source and are in-out parameters here.
   */
  method FindChildren(g: Arena, node: Ref, topo: seq<nat>, visited: set<nat>)
    returns (topo': seq<nat>, visited': set<nat>)
    requires WellFormed(g) && Below(node, |g|)
    ensures (topo', visited') == Dfs(g, node, topo, visited)
    ensures node.Nil? || node.id in visited ==> topo' == topo && visited' == visited
    decreases Rank(node)
  {
    topo', visited' := topo, visited;
    if node.Ptr? && node.id !in visited' {
      var i := node.id;
      assert LinksOk(g[i], i);
      visited' := visited' + {i};
      topo', visited' := FindChildren(g, g[i].child1, topo', visited');
      topo', visited' := FindChildren(g, g[i].child2, topo', visited');
      topo' := topo' + [i];
    }
  }
}
