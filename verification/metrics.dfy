/** The complement counts the test suites measure the passes by.

    Both count edges: the fanin signals of every node the network still
    lists (dead nodes are skipped; inputs and the constant have no fanins)
    plus the primary outputs. `complement_count` counts the complemented
    ones; `complement_count_except_pi` leaves out edges whose source is a
    primary input or the constant. */
module Metrics {
  import opened Signals
  import opened Counting
  import opened Network

  /** Fanin signals of `nd` satisfying `p`, none for a dead node. */
  function LiveEdges(nd: Node, p: Signal -> bool): (r: nat)
  {
    if nd.dead then 0 else CountIf(nd.children, p)
  }

  /** Fanin edges of live nodes in `nodes` that satisfy `p`. */
  function NodeEdges(nodes: seq<Node>, p: Signal -> bool): (r: int)
  {
    SumOf(nodes, nd => LiveEdges(nd, p))
  }

  /** Fanin edges of live nodes plus primary outputs that satisfy `p`. */
  function EdgeCount(g: Mig, p: Signal -> bool): (r: int)
  {
    NodeEdges(g.nodes, p) + CountIf(g.outputs, p)
  }

  predicate Complemented(s: Signal)
  {
    s.complement
  }

  /** A complemented edge whose source is a gate (neither an input nor the constant). */
  predicate ComplementedFromGate(g: Mig, s: Signal)
  {
    s.complement && !IsPi(g, s.index) && !IsConstant(s.index)
  }

  /** `complement_count` of both test suites: zero exactly when no live
      node and no primary output reads anything complemented. */
  function ComplementCount(g: Mig): (r: int)
    ensures r >= 0
    ensures r == 0 <==>
      && (forall i, j :: 0 <= i < |g.nodes| && !g.nodes[i].dead && 0 <= j < |g.nodes[i].children| ==>
            !g.nodes[i].children[j].complement)
      && (forall k :: 0 <= k < |g.outputs| ==> !g.outputs[k].complement)
  {
    SumOfNonNegative(g.nodes, nd => LiveEdges(nd, Complemented));
    EdgeCountZero(g, Complemented);
    EdgeCount(g, Complemented)
  }

  /** `complement_count_except_pi` of the propagation test suite: it never
      exceeds `complement_count`, and it is zero exactly when no live node and
      no primary output reads a gate through a complemented edge. */
  function ComplementCountExceptPi(g: Mig): (r: int)
    ensures 0 <= r <= ComplementCount(g)
    ensures r == 0 <==>
      && (forall i, j :: 0 <= i < |g.nodes| && !g.nodes[i].dead && 0 <= j < |g.nodes[i].children| ==>
            !ComplementedFromGate(g, g.nodes[i].children[j]))
      && (forall k :: 0 <= k < |g.outputs| ==> !ComplementedFromGate(g, g.outputs[k]))
  {
    SumOfNonNegative(g.nodes, nd => LiveEdges(nd, s => ComplementedFromGate(g, s)));
    EdgeCountMono(g, s => ComplementedFromGate(g, s), Complemented);
    EdgeCountZero(g, s => ComplementedFromGate(g, s));
    EdgeCount(g, s => ComplementedFromGate(g, s))
  }

  /** A gate the network still lists. */
  predicate LiveGateNode(nd: Node)
  {
    nd.kind == Gate && !nd.dead
  }

  /** The number of gates that are not dead: how `num_gates` is read here. */
  function LiveGates(g: Mig): (r: nat)
    ensures r <= |g.nodes|
    ensures r == 0 <==> forall k :: 0 <= k < |g.nodes| ==> !LiveGateNode(g.nodes[k])
  {
    if forall k :: 0 <= k < |g.nodes| ==> !LiveGateNode(g.nodes[k]) then
      CountIfNone(g.nodes, LiveGateNode); CountIf(g.nodes, LiveGateNode)
    else
      var k :| 0 <= k < |g.nodes| && LiveGateNode(g.nodes[k]);
      CountIfSome(g.nodes, LiveGateNode, k); CountIf(g.nodes, LiveGateNode)
  }

  /** A table that keeps the kind and liveness of every node but `n`, takes
      out the live gate `n` and appends one live gate has as many live gates. */
  lemma LiveGatesSwap(a: seq<Node>, b: seq<Node>, n: nat)
    requires |b| == |a| + 1 && n < |a|
    requires LiveGateNode(a[n]) && !LiveGateNode(b[n]) && LiveGateNode(b[|a|])
    requires forall k :: 0 <= k < |a| && k != n ==> b[k].kind == a[k].kind && b[k].dead == a[k].dead
    ensures CountIf(b, LiveGateNode) == CountIf(a, LiveGateNode)
  {
    CountIfReplaceAppend(a, b, n, LiveGateNode);
  }

  /** Counting with a weaker edge predicate counts at least as many edges. */
  lemma EdgeCountMono(g: Mig, p: Signal -> bool, q: Signal -> bool)
    requires forall s :: p(s) ==> q(s)
    ensures EdgeCount(g, p) <= EdgeCount(g, q)
  {
    forall nd: Node
      ensures LiveEdges(nd, p) <= LiveEdges(nd, q)
    {
      CountIfMono(nd.children, p, q);
    }
    SumOfMono(g.nodes, nd => LiveEdges(nd, p), nd => LiveEdges(nd, q));
    CountIfMono(g.outputs, p, q);
  }

  /** An edge count is zero exactly when no fanin of a live node and no
      primary output satisfies the predicate. */
  lemma EdgeCountZero(g: Mig, p: Signal -> bool)
    ensures EdgeCount(g, p) == 0 <==>
      && (forall i, j :: 0 <= i < |g.nodes| && !g.nodes[i].dead && 0 <= j < |g.nodes[i].children| ==>
            !p(g.nodes[i].children[j]))
      && (forall k :: 0 <= k < |g.outputs| ==> !p(g.outputs[k]))
  {
    var f := nd => LiveEdges(nd, p);
    SumOfZero(g.nodes, f);
    SumOfNonNegative(g.nodes, f);
    forall i, j | 0 <= i < |g.nodes| && !g.nodes[i].dead && 0 <= j < |g.nodes[i].children| && p(g.nodes[i].children[j])
      ensures f(g.nodes[i]) > 0
    {
      CountIfSome(g.nodes[i].children, p, j);
    }
    forall k | 0 <= k < |g.outputs| && p(g.outputs[k])
      ensures CountIf(g.outputs, p) > 0
    {
      CountIfSome(g.outputs, p, k);
    }
    if (forall i, j :: 0 <= i < |g.nodes| && !g.nodes[i].dead && 0 <= j < |g.nodes[i].children| ==>
          !p(g.nodes[i].children[j])) {
      forall i | 0 <= i < |g.nodes|
        ensures f(g.nodes[i]) == 0
      {
        if !g.nodes[i].dead {
          CountIfNone(g.nodes[i].children, p);
        }
      }
    }
    if forall k :: 0 <= k < |g.outputs| ==> !p(g.outputs[k]) {
      CountIfNone(g.outputs, p);
    }
  }

  // ---------------------------------------------------------------------
  // How node-table edits move the edge count
  // ---------------------------------------------------------------------

  /** Tables whose nodes have the same live edges position by position count the same. */
  lemma NodeEdgesSame(a: seq<Node>, b: seq<Node>, p: Signal -> bool)
    requires |a| == |b| && forall k :: 0 <= k < |a| ==> LiveEdges(a[k], p) == LiveEdges(b[k], p)
    ensures NodeEdges(a, p) == NodeEdges(b, p)
  {
    SumOfSame(a, b, nd => LiveEdges(nd, p));
  }

  /** Replacing one node moves the count by the difference of its live edges. */
  lemma NodeEdgesUpdate(a: seq<Node>, i: nat, nd: Node, p: Signal -> bool)
    requires i < |a|
    ensures NodeEdges(a[i := nd], p) == NodeEdges(a, p) - LiveEdges(a[i], p) + LiveEdges(nd, p)
  {
    SumOfUpdate(a, i, nd, nd => LiveEdges(nd, p));
  }

  /** Appending a node adds its live edges. */
  lemma NodeEdgesAppend(a: seq<Node>, nd: Node, p: Signal -> bool)
    ensures NodeEdges(a + [nd], p) == NodeEdges(a, p) + LiveEdges(nd, p)
  {
    assert (a + [nd])[..|a|] == a;
  }

  /** A table that differs from `a` at node `i` only, and elsewhere only in
      reference counts, counts the difference at `i`. */
  lemma NodeEdgesChangeOne(a: seq<Node>, b: seq<Node>, i: nat, p: Signal -> bool)
    requires |a| == |b| && i < |a|
    requires forall k :: 0 <= k < |a| && k != i ==> a[k].children == b[k].children && a[k].dead == b[k].dead
    ensures NodeEdges(b, p) == NodeEdges(a, p) - LiveEdges(a[i], p) + LiveEdges(b[i], p)
  {
    NodeEdgesUpdate(a, i, b[i], p);
    NodeEdgesSame(a[i := b[i]], b, p);
  }
}
