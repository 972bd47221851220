/** What one inversion does to `complement_count`.

    `one_level(n)` is meant as the number of complemented edges that
    inverting `n` removes. When the inverted gate maj(!a, !b, !c) is freshly
    allocated, `n` has no constant fanin, the inversion detaches `n` and its
    reference count is made up of its readers (so it is taken out), that is
    exactly what the minimization pass's `inv_node` achieves: each fanin
    edge changes polarity on the new gate, each consumer edge and each
    primary output on `n` flips, and the old gate's own fanins disappear. */
module Removal {
  import opened Signals
  import opened Counting
  import opened Network
  import opened Create
  import opened Metrics
  import opened Minimization
  import opened Inversion

  /** Entries of the consumer list `fos` whose edge from `n` has complement bit `comp`. */
  function CompEdges(g: Mig, n: nat, fos: seq<nat>, comp: bool): (r: nat)
  {
    CountIf(fos, (fo: nat) => fo < |g.nodes| && IsFanoutComp(g, n, fo) == comp)
  }

  /** Graphs that agree on the children of every listed consumer count its edges alike. */
  lemma CompEdgesAgree(g: Mig, h: Mig, n: nat, fos: seq<nat>, comp: bool)
    requires forall k :: 0 <= k < |fos| ==>
      fos[k] < |g.nodes| && fos[k] < |h.nodes| && h.nodes[fos[k]].children == g.nodes[fos[k]].children
    ensures CompEdges(h, n, fos, comp) == CompEdges(g, n, fos, comp)
  {
    CountIfCongruent(fos, (fo: nat) => fo < |g.nodes| && IsFanoutComp(g, n, fo) == comp,
                          (fo: nat) => fo < |h.nodes| && IsFanoutComp(h, n, fo) == comp);
  }

  /** For a gate reading `n` through one child only, `is_fanout_comp`
      answers with that child's complement bit. */
  lemma SingleReadingComplement(ch: seq<Signal>, n: nat)
    requires SingleReading(ch, n) && FirstReading(ch, n) < |ch|
    ensures LastComplement(ch, n, false) == ch[FirstReading(ch, n)].complement
  {
    var j := FirstReading(ch, n);
    LastComplementIff(ch, n, false);
    assert LastReading(ch, n, j);
  }

  /** `replace_in_node` with a complemented replacement on a consumer that
      reads `n` once flips that one edge: a complemented edge is gone, an
      uncomplemented one becomes complemented. */
  lemma ReplaceInConsumerEdges(g: Mig, fo: nat, n: nat, s: Signal)
    requires WellFormed(g) && n < |g.nodes| && s.index < |g.nodes| && s.complement
    requires IsLiveGate(g, fo) && HasChild(g.nodes[fo], n) && SingleReading(g.nodes[fo].children, n)
    ensures NodeEdges(ReplaceInNode(g, fo, n, s).nodes, Complemented) ==
      NodeEdges(g.nodes, Complemented) + (if IsFanoutComp(g, n, fo) then -1 else 1)
  {
    var r := ReplaceInNode(g, fo, n, s);
    var ch := g.nodes[fo].children;
    var j := FirstReading(ch, n);
    assert j < |ch|;
    ReplaceInNodeEffect(g, fo, n, s);
    SingleReadingComplement(ch, n);
    CountIfUpdate(ch, j, Redirect(ch[j], s), Complemented);
    NodeEdgesChangeOne(g.nodes, r.nodes, fo, Complemented);
  }

  /** Rewiring a consumer snapshot to a complemented replacement moves the
      complemented fanin edges by the uncomplemented consumer edges minus
      the complemented ones. */
  lemma {:induction false} RewireAllEdges(g: Mig, n: nat, s: Signal, fos: seq<nat>)
    requires WellFormed(g) && n < |g.nodes| && s.index < |g.nodes| && s.complement
    requires Consumers(g, n, fos)
    ensures NodeEdges(RewireAll(g, n, s, fos).nodes, Complemented) ==
      NodeEdges(g.nodes, Complemented) + CompEdges(g, n, fos, false) - CompEdges(g, n, fos, true)
    decreases |fos|
  {
    if |fos| > 0 {
      RewireFirstEdges(g, n, s, fos);
      RewireAllEdges(ReplaceInNode(g, fos[0], n, s), n, s, fos[1..]);
    }
  }

  /** The first turn of `RewireAll`: the first consumer edge flips, the
      rest of the snapshot stays a consumer snapshot with the same edges. */
  lemma RewireFirstEdges(g: Mig, n: nat, s: Signal, fos: seq<nat>)
    requires WellFormed(g) && n < |g.nodes| && s.index < |g.nodes| && s.complement
    requires Consumers(g, n, fos) && |fos| > 0
    ensures var g1 := ReplaceInNode(g, fos[0], n, s);
      && Consumers(g1, n, fos[1..])
      && NodeEdges(g1.nodes, Complemented) + CompEdges(g1, n, fos[1..], false) - CompEdges(g1, n, fos[1..], true)
         == NodeEdges(g.nodes, Complemented) + CompEdges(g, n, fos, false) - CompEdges(g, n, fos, true)
  {
    var fo := fos[0];
    var g1 := ReplaceInNode(g, fo, n, s);
    var rest := fos[1..];
    ReplaceInConsumerEdges(g, fo, n, s);
    ConsumersRest(g, n, s, fos);
    assert forall k :: 0 <= k < |rest| ==> rest[k] == fos[k + 1];
    CompEdgesAgree(g, g1, n, rest, false);
    CompEdgesAgree(g, g1, n, rest, true);
    CompEdgesFront(g, n, fos, false);
    CompEdgesFront(g, n, fos, true);
  }

  /** Counting the consumer edges from the front of the list. */
  lemma CompEdgesFront(g: Mig, n: nat, fos: seq<nat>, comp: bool)
    requires |fos| > 0 && fos[0] < |g.nodes|
    ensures CompEdges(g, n, fos, comp) == (if IsFanoutComp(g, n, fos[0]) == comp then 1 else 0) + CompEdges(g, n, fos[1..], comp)
  {
    CountIfFront(fos, (fo: nat) => fo < |g.nodes| && IsFanoutComp(g, n, fo) == comp);
  }

  /** The fresh gate over maj(!a, !b, !c) has one complemented fanin per
      uncomplemented fanin of `n`. */
  lemma InvertedFanins(ch: seq<Signal>, t: seq<Signal>)
    requires |ch| == 3 && forall j :: 0 <= j < 3 ==> !IsConstant(ch[j].index)
    requires IsPermutation3(t, Not(ch[0]), Not(ch[1]), Not(ch[2]))
    ensures CountIf(t, Complemented) == FaninCount(ch, false)
    ensures CountIf(ch, Complemented) == FaninCount(ch, true)
  {
    assert ch == [ch[0], ch[1], ch[2]];
    assert t == [t[0], t[1], t[2]];
    CountIfThree(t[0], t[1], t[2], Complemented);
    CountIfThree(ch[0], ch[1], ch[2], Complemented);
    CountIfThree(ch[0], ch[1], ch[2], (s: Signal) => !IsConstant(s.index) && s.complement == false);
    CountIfThree(ch[0], ch[1], ch[2], (s: Signal) => !IsConstant(s.index) && s.complement == true);
  }

  /** Redirecting every primary output on `n` to a complemented replacement
      flips the polarity of exactly those outputs. */
  lemma OutputsFlipped(g: Mig, outs: seq<Signal>, n: nat, s: Signal)
    requires s.complement && |outs| == |g.outputs|
    requires forall k :: 0 <= k < |g.outputs| ==>
      outs[k] == if Selected(g.outputs[k], n, true) then Redirect(g.outputs[k], s) else g.outputs[k]
    ensures CountIf(outs, Complemented) ==
      CountIf(g.outputs, Complemented) + OutputCount(g, n, false) - OutputCount(g, n, true)
  {
    var no, yes := false, true;
    CountIfToggle(g.outputs, outs, Complemented, (o: Signal) => o.index == n,
      (o: Signal) => o.index == n && o.complement == yes, (o: Signal) => o.index == n && o.complement == no);
  }

  /** `inv_node(n)` is fresh for `n`: the gate maj(!a, !b, !c) over the
      children of `n` is not in the hash table, its three inputs read
      different nodes, and none of them is the constant. */
  predicate FreshInversion(g: Mig, n: nat)
    requires n < |g.nodes|
  {
    var ch := g.nodes[n].children;
    && |ch| == 3
    && (forall j :: 0 <= j < 3 ==> !IsConstant(ch[j].index))
    && Distinct3(Not(ch[0]), Not(ch[1]), Not(ch[2]))
    && Order3(Not(ch[0]), Not(ch[1]), Not(ch[2])) !in g.hash
  }

  /** The steps of `inv_node` after the replacement exists, with a
      complemented replacement on another node, when they take out a
      detachable gate: each consumer edge flips and the gate's own fanins
      disappear from the count. */
  lemma SubstituteEdges(h: Mig, n: nat, s: Signal)
    requires WellFormed(h) && IsLiveGate(h, n) && Detachable(h, n)
    requires s.index < |h.nodes| && s.index != n && s.complement
    requires Substitute(h, n, s).nodes[n].dead
    ensures NodeEdges(Substitute(h, n, s).nodes, Complemented) ==
      NodeEdges(h.nodes, Complemented) + CompEdges(h, n, Fanout(h, n), false) - CompEdges(h, n, Fanout(h, n), true)
        - CountIf(h.nodes[n].children, Complemented)
  {
    var g1 := ReplaceInOutputsCondComp(h, n, s, true);
    FanoutAgree(h, g1, n);
    var fos := Fanout(g1, n);
    assert Consumers(g1, n, fos);
    var g2 := RewireAll(g1, n, s, fos);
    RewireAllEdges(g1, n, s, fos);
    CompEdgesAgree(h, g1, n, fos, false);
    CompEdgesAgree(h, g1, n, fos, true);
    assert n !in fos;
    assert IsLiveGate(g2, n) && g2.nodes[n].children == h.nodes[n].children;
    assert Substitute(h, n, s).nodes == g2.nodes[n := g2.nodes[n].(dead := true)];
    NodeEdgesUpdate(g2.nodes, n, g2.nodes[n].(dead := true), Complemented);
  }

  /** A fresh inversion of detachable gate `n` appends the gate over the
      ordered inverted triple, replaces `n` by its complement, and leaves
      `n` detachable. */
  lemma FreshInvertedGate(g: Mig, n: nat)
    requires WellFormed(g) && IsLiveGate(g, n) && Detachable(g, n) && FreshInversion(g, n)
    ensures var ch := g.nodes[n].children;
      var c := InvertedGate(g, n);
      && c.net.nodes == g.nodes + [Node(Gate, Order3(Not(ch[0]), Not(ch[1]), Not(ch[2])), false)]
      && InvertedSignal(g, n) == Signal(|g.nodes|, true)
      && Detachable(c.net, n)
  {
    InvertedGateFacts(g, n);
    var c := InvertedGate(g, n);
    assert forall k :: 0 <= k < |c.net.nodes| && IsLiveGate(c.net, k) && k != |g.nodes| ==> c.net.nodes[k] == g.nodes[k];
  }

  /** The consumer edges of `n` counted on the graph with the inverted
      gate are those of the graph before. */
  lemma InvertedConsumerEdges(g: Mig, n: nat, comp: bool)
    requires WellFormed(g) && IsLiveGate(g, n) && NoSelfLoop(g, n)
    ensures var c := InvertedGate(g, n);
      CompEdges(c.net, n, Fanout(c.net, n), comp) == FanoutCount(g, n, comp)
  {
    InvertedGateFacts(g, n);
    CompEdgesAgree(g, InvertedGate(g, n).net, n, Fanout(g, n), comp);
  }

  /** The edges of the node table after a fresh inversion that takes out
      detachable gate `n`: the new gate's fanins come in, every consumer
      edge flips, `n`'s fanins go. */
  lemma InvNodeNodeEdges(g: Mig, n: nat)
    requires WellFormed(g) && IsLiveGate(g, n) && Detachable(g, n) && FreshInversion(g, n)
    requires InvNode(g, n).net.nodes[n].dead
    ensures NodeEdges(InvNode(g, n).net.nodes, Complemented) ==
      NodeEdges(g.nodes, Complemented)
        + FaninCount(g.nodes[n].children, false) - FaninCount(g.nodes[n].children, true)
        + FanoutCount(g, n, false) - FanoutCount(g, n, true)
  {
    var ch := g.nodes[n].children;
    var t := Order3(Not(ch[0]), Not(ch[1]), Not(ch[2]));
    var c := InvertedGate(g, n);
    var s := InvertedSignal(g, n);
    FreshInvertedGate(g, n);
    assert InvNode(g, n).net == Substitute(c.net, n, s);
    SubstituteEdges(c.net, n, s);
    InvertedConsumerEdges(g, n, false);
    InvertedConsumerEdges(g, n, true);
    Order3Permutation(Not(ch[0]), Not(ch[1]), Not(ch[2]));
    InvertedFanins(ch, t);
    NodeEdgesAppend(g.nodes, Node(Gate, t, false), Complemented);
  }

  /** The primary outputs after the inversion of live gate `n` into a
      lookup or a fresh gate: every output on `n` flips polarity. */
  lemma InvNodeOutputEdges(g: Mig, n: nat)
    requires WellFormed(g) && IsLiveGate(g, n) && FreshInversion(g, n)
    ensures CountIf(InvNode(g, n).net.outputs, Complemented) ==
      CountIf(g.outputs, Complemented) + OutputCount(g, n, false) - OutputCount(g, n, true)
  {
    InvNodeRedirects(g, n);
    OutputsFlipped(g, InvNode(g, n).net.outputs, n, InvertedSignal(g, n));
  }

  /** The complement count falls by exactly `one_level(n)` when `inv_node`
      inverts a detachable live gate into a fresh gate and takes it out
      (its reference count is the number of its readers). */
  lemma InvNodeComplementCount(g: Mig, n: nat)
    requires WellFormed(g) && IsLiveGate(g, n) && Detachable(g, n) && FreshInversion(g, n)
    requires FanoutSize(g, n) == SelectedCount(g.outputs, n, true) + |Fanout(g, n)|
    ensures ComplementCount(InvNode(g, n).net) == ComplementCount(g) - OneLevel(g, n)
  {
    InvNodeRetires(g, n);
    InvNodeNodeEdges(g, n);
    InvNodeOutputEdges(g, n);
  }

  /** The sweep's visit of such a gate with a positive one-level gain: the
      gate is inverted and taken out, so the two-level test that follows
      finds a dead node and adds nothing. The statistic grows by exactly
      the fall of the complement count, which is positive. */
  lemma VisitComplementCount(g: Mig, n: nat, removed: int)
    requires WellFormed(g) && IsLiveGate(g, n) && Detachable(g, n) && FreshInversion(g, n)
    requires FanoutSize(g, n) == SelectedCount(g.outputs, n, true) + |Fanout(g, n)|
    requires OneLevel(g, n) > 0
    ensures var r := Visit(g, n, removed);
      && r.net == InvNode(g, n).net
      && r.removed == removed + OneLevel(g, n)
      && ComplementCount(r.net) == ComplementCount(g) - (r.removed - removed) < ComplementCount(g)
  {
    InvNodeRetires(g, n);
    InvNodeComplementCount(g, n);
    assert TwoLevel(InvNode(g, n).net, n) == 0;
  }
}
