/** The inverter-propagation pass: a work list seeded with the nodes of the
    primary outputs. A popped gate with a complemented consumer edge or a
    complemented primary output is inverted, but only its complemented
    consumers and complemented outputs are moved to the replacement, so
    complement bits are pushed from the outputs towards the inputs; the
    gate's fanins are queued in any case. */
module Propagation {
  import opened Signals
  import opened Network
  import opened Create
  import opened Minimization
  import opened Inversion
  import opened Metrics

  // ---------------------------------------------------------------------
  // Deciding whether to invert
  // ---------------------------------------------------------------------

  /** Some live gate among `i..` has a complemented edge from `n`. */
  function CompConsumerFrom(g: Mig, n: nat, i: nat): (r: bool)
    requires i <= |g.nodes|
    decreases |g.nodes| - i
  {
    if i == |g.nodes| then false
    else (IsLiveGate(g, i) && IsFanoutComp(g, n, i)) || CompConsumerFrom(g, n, i + 1)
  }

  lemma {:induction false} CompConsumerFromIff(g: Mig, n: nat, i: nat)
    requires i <= |g.nodes|
    ensures CompConsumerFrom(g, n, i) <==> exists fo :: i <= fo < |g.nodes| && IsLiveGate(g, fo) && IsFanoutComp(g, n, fo)
    decreases |g.nodes| - i
  {
    if i < |g.nodes| {
      CompConsumerFromIff(g, n, i + 1);
    }
  }

  /** Some signal of `outs` reads `n` complemented. */
  function CompOutput(outs: seq<Signal>, n: nat): (r: bool)
  {
    if |outs| == 0 then false
    else (outs[0].index == n && outs[0].complement) || CompOutput(outs[1..], n)
  }

  lemma {:induction false} CompOutputIff(outs: seq<Signal>, n: nat)
    ensures CompOutput(outs, n) <==> exists k :: 0 <= k < |outs| && outs[k].index == n && outs[k].complement
  {
    if |outs| > 0 {
      CompOutputIff(outs[1..], n);
      assert forall k :: 1 <= k < |outs| ==> outs[k] == outs[1..][k - 1];
    }
  }

  /** `has_comp_fanout(n)`: the scan of the live gates, then of the primary
      outputs. It holds exactly when some live gate reads `n` complemented
      (judged by the last of its fanins that reads `n`), or some primary
      output does. */
  function HasCompFanout(g: Mig, n: nat): (r: bool)
    ensures r <==>
      || (exists fo :: 0 <= fo < |g.nodes| && IsLiveGate(g, fo) && IsFanoutComp(g, n, fo))
      || (exists k :: 0 <= k < |g.outputs| && g.outputs[k].index == n && g.outputs[k].complement)
  {
    CompConsumerFromIff(g, n, 0);
    CompOutputIff(g.outputs, n);
    CompConsumerFrom(g, n, 0) || CompOutput(g.outputs, n)
  }

  // ---------------------------------------------------------------------
  // Inverting one node, moving only the complemented readers
  // ---------------------------------------------------------------------

  /** Node `nd` as its turn in the rewiring loop leaves it: a live gate
      reading `n` complemented (judged by its last fanin on `n`) has its
      first child on `n` redirected to `s`; any other node is left alone. */
  function CompRewired(nd: Node, n: nat, s: Signal): (r: Node)
  {
    if nd.kind == Gate && !nd.dead && LastComplement(nd.children, n, false)
    then nd.(children := Rewired(nd.children, n, s)) else nd
  }

  /** The `foreach_gate` loop of `inv_node` over node indices `i..stop-1`:
      a live gate is rewired with `replace_in_node` when its edge from `n`
      is complemented in the graph as it stands when its turn comes.
      Rewiring one gate never changes another, so the loop rewrites each
      node of the range as a snapshot of `g` decides and no node outside it. */
  function RewireComp(g: Mig, n: nat, s: Signal, i: nat, stop: nat): (r: Mig)
    requires WellFormed(g) && n < |g.nodes| && s.index < |g.nodes| && stop <= |g.nodes|
    ensures WellFormed(r) && r.outputs == g.outputs && |r.nodes| == |g.nodes|
    ensures RefSum(r.refs) == RefSum(g.refs)
    ensures forall k :: 0 <= k < |g.nodes| ==>
      r.nodes[k] == if i <= k < stop then CompRewired(g.nodes[k], n, s) else g.nodes[k]
    decreases stop - i
  {
    if i >= stop then g
    else
      RewireTurnEffect(g, n, s, i);
      RewireComp(RewireTurn(g, n, s, i), n, s, i + 1, stop)
  }

  /** The turn of gate `i` in the rewiring loop: rewired with
      `replace_in_node` when it is a live gate reading `n` complemented. */
  function RewireTurn(g: Mig, n: nat, s: Signal, i: nat): (r: Mig)
    requires WellFormed(g) && n < |g.nodes| && s.index < |g.nodes| && i < |g.nodes|
    ensures WellFormed(r) && r.outputs == g.outputs && |r.nodes| == |g.nodes|
    ensures RefSum(r.refs) == RefSum(g.refs)
  {
    if IsLiveGate(g, i) && IsFanoutComp(g, n, i) then ReplaceInNode(g, i, n, s) else g
  }

  /** A turn rewrites node `i` as `CompRewired` says and no other node. */
  lemma RewireTurnEffect(g: Mig, n: nat, s: Signal, i: nat)
    requires WellFormed(g) && n < |g.nodes| && s.index < |g.nodes| && i < |g.nodes|
    ensures RewireTurn(g, n, s, i).nodes == g.nodes[i := CompRewired(g.nodes[i], n, s)]
  {
    var r := RewireTurn(g, n, s, i);
    if IsLiveGate(g, i) && IsFanoutComp(g, n, i) {
      IsFanoutCompIff(g, n, i);
      assert HasChild(g.nodes[i], n);
      ReplaceInConsumer(g, i, n, s);
      assert r.nodes[i] == CompRewired(g.nodes[i], n, s);
    }
  }

  /** Steps of the propagation pass's `inv_node` after the replacement `s`
      of `n` exists: complemented primary outputs on `n` move to `s`, then
      every gate reading `n` complemented is rewired, then `n` is taken out
      when no reference to it is left. */
  function CondSubstitute(g: Mig, n: nat, s: Signal): (r: Mig)
    requires WellFormed(g) && n < |g.nodes| && s.index < |g.nodes|
    ensures WellFormed(r) && |r.nodes| == |g.nodes| && |r.outputs| == |g.outputs|
  {
    var g1 := ReplaceInOutputsCondComp(g, n, s, false);
    Retire(RewireComp(g1, n, s, 0, |g1.nodes|), n)
  }

  /** Every complemented primary output on live `n` reads `s` instead, every
      other output is as it was, every node keeps its kind and every node
      other than `n` its liveness. */
  lemma CondSubstituteEffect(g: Mig, n: nat, s: Signal)
    requires WellFormed(g) && n < |g.nodes| && s.index < |g.nodes|
    ensures var r := CondSubstitute(g, n, s);
      && (forall k :: 0 <= k < |g.outputs| ==>
            r.outputs[k] == if Selected(g.outputs[k], n, false) && !g.nodes[n].dead then Redirect(g.outputs[k], s) else g.outputs[k])
      && (forall k :: 0 <= k < |g.nodes| ==> r.nodes[k].kind == g.nodes[k].kind)
      && forall k :: 0 <= k < |g.nodes| && k != n ==> r.nodes[k].dead == g.nodes[k].dead
  {
    var g1 := ReplaceInOutputsCondComp(g, n, s, false);
    var g2 := RewireComp(g1, n, s, 0, |g1.nodes|);
    RetireEffect(g2, n);
  }

  /** `inv_node(n)` of the propagation pass, `have_comp_out` false. Inputs
      and the constant are returned as they are. Otherwise the complement
      of maj(!a, !b, !c) replaces `n` in the complemented primary outputs
      and consumer edges only. The node of the replacement is returned. */
  function PropInvNode(g: Mig, n: nat): (r: Inverted)
    requires WellFormed(g) && n < |g.nodes|
    ensures WellFormed(r.net) && r.node < |r.net.nodes|
    ensures |g.nodes| <= |r.net.nodes| <= |g.nodes| + 1 && |r.net.outputs| == |g.outputs|
    ensures IsPi(g, n) || IsConstant(n) ==> r == Inverted(g, n)
    ensures !IsPi(g, n) && !IsConstant(n) ==> r.node == InvertedSignal(g, n).index
  {
    if IsPi(g, n) || IsConstant(n) then Inverted(g, n)
    else
      var c := InvertedGate(g, n);
      var s := Not(c.signal);
      Inverted(CondSubstitute(c.net, n, s), s.index)
  }

  /** The conditional inversion redirects every complemented primary output
      on live gate `n` to the replacement, uncomplementing it, and leaves
      every other output alone. */
  lemma PropInvNodeRedirects(g: Mig, n: nat)
    requires WellFormed(g) && n < |g.nodes| && !IsPi(g, n) && !IsConstant(n)
    ensures var r := PropInvNode(g, n);
      forall k :: 0 <= k < |g.outputs| ==>
        r.net.outputs[k] == if Selected(g.outputs[k], n, false) && !g.nodes[n].dead
                            then Redirect(g.outputs[k], InvertedSignal(g, n)) else g.outputs[k]
  {
    var c := InvertedGate(g, n);
    InvertedGateKeeps(g, n);
    CondSubstituteEffect(c.net, n, Not(c.signal));
  }

  /** What the conditional inversion does to the gates of the graph: a live
      gate reading `n` complemented reads the replacement instead, every
      other gate keeps its children. */
  lemma PropInvNodeConsumers(g: Mig, n: nat)
    requires WellFormed(g) && n < |g.nodes| && !IsPi(g, n) && !IsConstant(n)
    ensures var r := PropInvNode(g, n).net;
      forall fo :: 0 <= fo < |g.nodes| ==>
        r.nodes[fo].children ==
          if IsLiveGate(g, fo) && IsFanoutComp(g, n, fo)
          then Rewired(g.nodes[fo].children, n, InvertedSignal(g, n)) else g.nodes[fo].children
  {
    var c := InvertedGate(g, n);
    var s := InvertedSignal(g, n);
    var g1 := ReplaceInOutputsCondComp(c.net, n, s, false);
    var g2 := RewireComp(g1, n, s, 0, |g1.nodes|);
    var r := Retire(g2, n);
    assert PropInvNode(g, n).net == r;
    InvertedGateKeeps(g, n);
    RetireEffect(g2, n);
    forall fo | 0 <= fo < |g.nodes|
      ensures r.nodes[fo].children ==
        if IsLiveGate(g, fo) && IsFanoutComp(g, n, fo) then Rewired(g.nodes[fo].children, n, s) else g.nodes[fo].children
    {
      assert g1.nodes[fo] == g.nodes[fo];
      assert g2.nodes[fo] == CompRewired(g.nodes[fo], n, s);
    }
  }

  /** After the conditional inversion of a live gate that does not read
      itself, no primary output reads it complemented: those that did read
      the replacement, uncomplemented whenever the inverted gate was looked
      up or allocated, and all others are as they were. */
  lemma PropInvNodeOutputs(g: Mig, n: nat)
    requires WellFormed(g) && IsLiveGate(g, n) && NoSelfLoop(g, n)
    ensures var r := PropInvNode(g, n);
      var ch := g.nodes[n].children;
      && r.node != n
      && (forall k :: 0 <= k < |g.outputs| && g.outputs[k].index == n && g.outputs[k].complement ==>
            && r.net.outputs[k].index == r.node
            && (Distinct3(Not(ch[0]), Not(ch[1]), Not(ch[2])) ==> !r.net.outputs[k].complement))
      && (forall k :: 0 <= k < |g.outputs| && !(g.outputs[k].index == n && g.outputs[k].complement) ==>
            r.net.outputs[k] == g.outputs[k])
      && forall k :: 0 <= k < |r.net.outputs| ==> !(r.net.outputs[k].index == n && r.net.outputs[k].complement)
  {
    InvertedGateFacts(g, n);
    PropInvNodeRedirects(g, n);
    assert NodeShape(g.nodes[n], n, |g.nodes|);
    var r := PropInvNode(g, n);
    forall k | 0 <= k < |r.net.outputs|
      ensures !(r.net.outputs[k].index == n && r.net.outputs[k].complement)
    {
      if g.outputs[k].index == n && g.outputs[k].complement {
        assert r.net.outputs[k] == Redirect(g.outputs[k], InvertedSignal(g, n));
      }
    }
  }

  /** A gate the conditional inversion appended does not read `n`. */
  lemma PropInvNodeNewReader(g: Mig, n: nat, fo: nat)
    requires WellFormed(g) && IsLiveGate(g, n) && NoSelfLoop(g, n)
    requires |g.nodes| <= fo < |PropInvNode(g, n).net.nodes|
    ensures !HasChild(PropInvNode(g, n).net.nodes[fo], n)
  {
    var c := InvertedGate(g, n);
    InvertedGateFacts(g, n);
    var s := Not(c.signal);
    var g1 := ReplaceInOutputsCondComp(c.net, n, s, false);
    var g2 := RewireComp(g1, n, s, 0, |g1.nodes|);
    RewiredNonReader(g1.nodes[fo], n, s);
    RetireEffect(g2, n);
    assert PropInvNode(g, n).net.nodes[fo] == c.net.nodes[fo];
  }

  /** The rewiring loop leaves a node that does not read `n` alone. */
  lemma RewiredNonReader(nd: Node, n: nat, s: Signal)
    requires !HasChild(nd, n)
    ensures CompRewired(nd, n, s) == nd
  {
    assert FirstReading(nd.children, n) == |nd.children|;
  }

  /** A gate the conditional inversion did not rewire keeps its children
      and, when live afterwards, was live before or is `n` itself. */
  lemma PropInvNodeOldReader(g: Mig, n: nat, fo: nat)
    requires WellFormed(g) && IsLiveGate(g, n) && fo < |g.nodes|
    requires IsLiveGate(PropInvNode(g, n).net, fo)
    ensures fo == n || IsLiveGate(g, fo)
  {
    var c := InvertedGate(g, n);
    InvertedGateKeeps(g, n);
    CondSubstituteEffect(c.net, n, InvertedSignal(g, n));
  }

  /** After the conditional inversion of a detachable live gate, no live
      gate reads it complemented: the complemented readers now read the
      replacement, the others were not rewired and read it uncomplemented,
      and a newly allocated gate does not read it at all. */
  lemma PropInvNodeReader(g: Mig, n: nat, fo: nat)
    requires WellFormed(g) && IsLiveGate(g, n) && Detachable(g, n)
    requires fo < |PropInvNode(g, n).net.nodes| && IsLiveGate(PropInvNode(g, n).net, fo)
    ensures !IsFanoutComp(PropInvNode(g, n).net, n, fo)
  {
    var r := PropInvNode(g, n).net;
    if fo >= |g.nodes| {
      PropInvNodeNewReader(g, n, fo);
    } else {
      PropInvNodeConsumers(g, n);
      if IsLiveGate(g, fo) && IsFanoutComp(g, n, fo) {
        InvertedGateFacts(g, n);
        RewiredDetaches(g.nodes[fo].children, n, InvertedSignal(g, n));
      } else {
        PropInvNodeOldReader(g, n, fo);
        IsFanoutCompIff(g, n, fo);
      }
    }
    IsFanoutCompIff(r, n, fo);
  }

  /** The purpose of the pass, one gate at a time: after the conditional
      inversion of a detachable live gate, `has_comp_fanout` no longer holds
      of it. */
  lemma PropInvNodeClears(g: Mig, n: nat)
    requires WellFormed(g) && IsLiveGate(g, n) && Detachable(g, n)
    ensures !HasCompFanout(PropInvNode(g, n).net, n)
  {
    var r := PropInvNode(g, n).net;
    forall fo | 0 <= fo < |r.nodes| && IsLiveGate(r, fo)
      ensures !IsFanoutComp(r, n, fo)
    {
      PropInvNodeReader(g, n, fo);
    }
    PropInvNodeOutputs(g, n);
  }

  // ---------------------------------------------------------------------
  // Conditional inversion keeps the function of the graph
  // ---------------------------------------------------------------------

  /** Rewiring a gate to a signal with the value of the node it read keeps
      the gate's value. */
  lemma CompRewiredValue(nd: Node, n: nat, s: Signal, v: seq<bool>, x: bool)
    requires s.index < |v| && n < |v| && SigValue(v, s) == v[n]
    requires GateHolds(v, nd, x)
    ensures GateHolds(v, CompRewired(nd, n, s), x)
  {
    var r := CompRewired(nd, n, s);
    if r != nd {
      var ch := nd.children;
      var j := FirstReading(ch, n);
      assert SigValue(v, Redirect(ch[j], s)) == SigValue(v, ch[j]);
      assert MajOf(v, r.children) == MajOf(v, ch);
    }
  }

  /** The rewiring loop keeps the function of the graph under any valuation
      in which the replacement carries the value of `n`. */
  lemma RewireCompBehaviour(g: Mig, n: nat, s: Signal, i: nat, stop: nat, v: seq<bool>)
    requires WellFormed(g) && n < |g.nodes| && s.index < |g.nodes| && stop <= |g.nodes|
    requires Consistent(g, v) && SigValue(v, s) == v[n]
    ensures SameBehaviour(g, v, RewireComp(g, n, s, i, stop), v)
  {
    var r := RewireComp(g, n, s, i, stop);
    forall k | 0 <= k < |r.nodes|
      ensures GateHolds(v, r.nodes[k], v[k])
    {
      assert GateHolds(v, g.nodes[k], v[k]);
      CompRewiredValue(g.nodes[k], n, s, v, v[k]);
    }
  }

  lemma CondSubstituteBehaviour(g: Mig, n: nat, s: Signal, v: seq<bool>)
    requires WellFormed(g) && n < |g.nodes| && s.index < |g.nodes|
    requires Consistent(g, v) && SigValue(v, s) == v[n]
    ensures SameBehaviour(g, v, CondSubstitute(g, n, s), v)
  {
    var g1 := ReplaceInOutputsCondComp(g, n, s, false);
    ReplaceInOutputsBehaviour(g, n, s, false, v);
    var g2 := RewireComp(g1, n, s, 0, |g1.nodes|);
    RewireCompBehaviour(g1, n, s, 0, |g1.nodes|, v);
    SameBehaviourTrans(g, v, g1, v, g2, v);
    if FanoutSize(g2, n) == 0 {
      TakeOutNodeBehaviour(g2, n, v);
      SameBehaviourTrans(g, v, g2, v, TakeOutNode(g2, n), v);
    }
  }

  /** The conditional inversion keeps the function of the graph, and the
      replacement carries the inverted node's value through a complemented edge. */
  lemma PropInvNodeBehaviour(g: Mig, n: nat, v: seq<bool>) returns (v': seq<bool>)
    requires WellFormed(g) && n < |g.nodes| && Consistent(g, v)
    ensures SameBehaviour(g, v, PropInvNode(g, n).net, v')
    ensures !IsPi(g, n) && !IsConstant(n) ==> SigValue(v', InvertedSignal(g, n)) == v[n]
  {
    if IsPi(g, n) || IsConstant(n) {
      v' := v;
    } else {
      assert NodeShape(g.nodes[n], n, |g.nodes|);
      var ch := g.nodes[n].children;
      var c := InvertedGate(g, n);
      v' := CreateMajValue(g, Not(ch[0]), Not(ch[1]), Not(ch[2]), v);
      assert GateHolds(v, g.nodes[n], v[n]);
      MajSelfDual(SigValue(v, ch[0]), SigValue(v, ch[1]), SigValue(v, ch[2]));
      var s := Not(c.signal);
      assert SigValue(v', s) == v'[n];
      CondSubstituteBehaviour(c.net, n, s, v');
      SameBehaviourTrans(g, v, c.net, v', CondSubstitute(c.net, n, s), v');
    }
  }

  // ---------------------------------------------------------------------
  // The work list
  // ---------------------------------------------------------------------

  /** The graph and the FIFO work list as the pass goes. */
  datatype Prop = Prop(net: Mig, queue: seq<nat>)

  /** Every queued index names a node of `g`. */
  predicate InRange(g: Mig, q: seq<nat>)
  {
    forall k :: 0 <= k < |q| ==> q[k] < |g.nodes|
  }

  /** The node indices of the signals `outs`, in order. */
  function Indices(outs: seq<Signal>): (r: seq<nat>)
    ensures |r| == |outs| && forall k :: 0 <= k < |outs| ==> r[k] == outs[k].index
  {
    if |outs| == 0 then [] else [outs[0].index] + Indices(outs[1..])
  }

  /** The initial work list: the node of every primary output, in output
      order, complemented or not. */
  function Seed(g: Mig): (q: seq<nat>)
    requires WellFormed(g)
    ensures InRange(g, q) && |q| == |g.outputs|
    ensures forall k :: 0 <= k < |q| ==> q[k] == g.outputs[k].index
  {
    Indices(g.outputs)
  }

  /** One turn of the work loop. The front node is popped; the constant,
      an input or a dead node is passed over. Any other node is inverted
      when it has a complemented reader, and its fanin nodes are queued. */
  function PropStep(g: Mig, q: seq<nat>): (r: Prop)
    requires WellFormed(g) && InRange(g, q) && |q| > 0
    ensures WellFormed(r.net) && |g.nodes| <= |r.net.nodes| && InRange(r.net, r.queue)
    ensures IsLiveGate(g, q[0]) && Detachable(g, q[0]) ==> !HasCompFanout(r.net, q[0])
  {
    var n := q[0];
    if IsConstant(n) || IsPi(g, n) || IsDead(g, n) then Prop(g, q[1..])
    else
      var h := Turn(g, n);
      assert NodeShape(h.nodes[n], n, |h.nodes|);
      Prop(h, q[1..] + Indices(h.nodes[n].children))
  }

  /** The graph after the turn on gate `n`: inverted when it has a
      complemented reader. Afterwards a detachable live gate has none. */
  function Turn(g: Mig, n: nat): (r: Mig)
    requires WellFormed(g) && n < |g.nodes|
    ensures WellFormed(r) && |g.nodes| <= |r.nodes|
    ensures IsLiveGate(g, n) && Detachable(g, n) ==> !HasCompFanout(r, n)
  {
    if HasCompFanout(g, n) then
      var h := PropInvNode(g, n).net;
      if IsLiveGate(g, n) && Detachable(g, n) then PropInvNodeClears(g, n); h else h
    else g
  }

  /** A popped constant, input or dead node changes nothing and queues nothing. */
  lemma PropStepSkips(g: Mig, q: seq<nat>)
    requires WellFormed(g) && InRange(g, q) && |q| > 0
    requires IsConstant(q[0]) || IsPi(g, q[0]) || IsDead(g, q[0])
    ensures PropStep(g, q) == Prop(g, q[1..])
  {
  }

  /** The turn on a queued live gate: the graph changes only when the gate
      has a complemented reader, and unless the gate reads itself
      complemented, its own fanins, which inversion leaves in place, are
      what is queued. */
  lemma PropStepQueue(g: Mig, q: seq<nat>)
    requires WellFormed(g) && InRange(g, q) && |q| > 0 && IsLiveGate(g, q[0])
    ensures var n := q[0]; var r := PropStep(g, q);
      && (!IsFanoutComp(g, n, n) ==> r.queue == q[1..] + Indices(g.nodes[n].children))
      && (!HasCompFanout(g, n) ==> r.net == g)
      && (HasCompFanout(g, n) ==> r.net == PropInvNode(g, n).net)
  {
    var n := q[0];
    assert !IsPi(g, n) && !IsConstant(n) && !IsDead(g, n);
    if HasCompFanout(g, n) {
      PropInvNodeConsumers(g, n);
    }
  }

  /** What the work loop needs of a turn: it accepts every well-formed
      graph with a non-empty work list in range, keeps the graph well formed
      without dropping nodes, and leaves a work list in range. */
  ghost predicate TurnOk(step: (Mig, seq<nat>) --> Prop)
  {
    forall g: Mig, q: seq<nat> | WellFormed(g) && InRange(g, q) && |q| > 0 ::
      && step.requires(g, q)
      && WellFormed(step(g, q).net)
      && |g.nodes| <= |step(g, q).net.nodes|
      && InRange(step(g, q).net, step(g, q).queue)
  }

  /** A turn that keeps the function of the graph. */
  ghost predicate TurnPreserves(step: (Mig, seq<nat>) --> Prop)
    requires TurnOk(step)
  {
    forall g: Mig, q: seq<nat>, v: seq<bool> | WellFormed(g) && InRange(g, q) && |q| > 0 && Consistent(g, v) ::
      Extends(g, v, step(g, q).net)
  }

  /** A FIFO work loop with turn `step`, for at most `fuel` turns; it stops
      early when the work list runs empty. */
  function WorkLoop(step: (Mig, seq<nat>) --> Prop, g: Mig, q: seq<nat>, fuel: nat): (r: Prop)
    requires TurnOk(step) && WellFormed(g) && InRange(g, q)
    ensures WellFormed(r.net) && |g.nodes| <= |r.net.nodes| && InRange(r.net, r.queue)
    ensures fuel == 0 || |q| == 0 ==> r == Prop(g, q)
    decreases fuel
  {
    if |q| == 0 || fuel == 0 then Prop(g, q)
    else
      var p := step(g, q);
      WorkLoop(step, p.net, p.queue, fuel - 1)
  }

  lemma PropStepIsOk()
    ensures TurnOk(PropStep)
  {
  }

  /** `run()` of the propagation pass, bounded by `fuel` turns of its loop.
      On a graph in which no gate is read complemented it changes nothing. */
  function Run(g: Mig, fuel: nat): (r: Prop)
    requires WellFormed(g)
    ensures WellFormed(r.net) && |g.nodes| <= |r.net.nodes|
    ensures ComplementCountExceptPi(g) == 0 ==> r.net == g
  {
    PropStepIsOk();
    var r := WorkLoop(PropStep, g, Seed(g), fuel);
    if ComplementCountExceptPi(g) == 0 then WorkLoopSettled(g, Seed(g), fuel); r else r
  }

  /** A gate that no live node and no primary output reads complemented has
      no complemented reader in the sense of `has_comp_fanout`. */
  lemma SettledGate(g: Mig, n: nat)
    requires WellFormed(g) && n < |g.nodes| && !IsPi(g, n) && !IsConstant(n)
    requires ComplementCountExceptPi(g) == 0
    ensures !HasCompFanout(g, n)
  {
    forall fo | 0 <= fo < |g.nodes| && IsLiveGate(g, fo)
      ensures !IsFanoutComp(g, n, fo)
    {
      IsFanoutCompIff(g, n, fo);
      forall j | 0 <= j < |g.nodes[fo].children| && g.nodes[fo].children[j].index == n
        ensures !g.nodes[fo].children[j].complement
      {
        assert !ComplementedFromGate(g, g.nodes[fo].children[j]);
      }
    }
    forall k | 0 <= k < |g.outputs| && g.outputs[k].index == n
      ensures !g.outputs[k].complement
    {
      assert !ComplementedFromGate(g, g.outputs[k]);
    }
  }

  /** A turn on a graph in which no gate is read complemented leaves the
      graph as it is, whatever it pops. */
  lemma PropStepSettled(g: Mig, q: seq<nat>)
    requires WellFormed(g) && InRange(g, q) && |q| > 0
    requires ComplementCountExceptPi(g) == 0
    ensures PropStep(g, q).net == g
  {
    var n := q[0];
    if !(IsConstant(n) || IsPi(g, n) || IsDead(g, n)) {
      SettledGate(g, n);
    }
  }

  /** A work loop whose turns all leave `g` as it is leaves `g` as it is. */
  lemma {:induction false} WorkLoopStill(step: (Mig, seq<nat>) --> Prop, g: Mig, q: seq<nat>, fuel: nat)
    requires TurnOk(step) && WellFormed(g) && InRange(g, q)
    requires forall q' | InRange(g, q') && |q'| > 0 :: step(g, q').net == g
    ensures WorkLoop(step, g, q, fuel).net == g
    decreases fuel
  {
    if |q| > 0 && fuel > 0 {
      WorkLoopStill(step, g, step(g, q).queue, fuel - 1);
    }
  }

  /** The work loop leaves a graph in which no gate is read complemented as
      it is. */
  lemma WorkLoopSettled(g: Mig, q: seq<nat>, fuel: nat)
    requires WellFormed(g) && InRange(g, q) && ComplementCountExceptPi(g) == 0
    ensures (PropStepIsOk(); WorkLoop(PropStep, g, q, fuel).net == g)
  {
    PropStepIsOk();
    forall q' | InRange(g, q') && |q'| > 0
      ensures PropStep(g, q').net == g
    {
      PropStepSettled(g, q');
    }
    WorkLoopStill(PropStep, g, q, fuel);
  }

  lemma PropStepBehaviour(g: Mig, q: seq<nat>, v: seq<bool>) returns (v': seq<bool>)
    requires WellFormed(g) && InRange(g, q) && |q| > 0 && Consistent(g, v)
    ensures SameBehaviour(g, v, PropStep(g, q).net, v')
  {
    var n := q[0];
    if !(IsConstant(n) || IsPi(g, n) || IsDead(g, n)) && HasCompFanout(g, n) {
      v' := PropInvNodeBehaviour(g, n, v);
    } else {
      v' := v;
    }
  }

  lemma PropStepPreserves()
    ensures TurnOk(PropStep) && TurnPreserves(PropStep)
  {
    PropStepIsOk();
    forall g: Mig, q: seq<nat>, v: seq<bool> | WellFormed(g) && InRange(g, q) && |q| > 0 && Consistent(g, v)
      ensures Extends(g, v, PropStep(g, q).net)
    {
      var v' := PropStepBehaviour(g, q, v);
    }
  }

  /** A work loop whose turns keep the function of the graph keeps it too. */
  lemma {:induction false} WorkLoopBehaviour(step: (Mig, seq<nat>) --> Prop, g: Mig, q: seq<nat>, fuel: nat, v: seq<bool>)
    returns (v': seq<bool>)
    requires TurnOk(step) && TurnPreserves(step)
    requires WellFormed(g) && InRange(g, q) && Consistent(g, v)
    ensures SameBehaviour(g, v, WorkLoop(step, g, q, fuel).net, v')
    decreases fuel
  {
    if |q| == 0 || fuel == 0 {
      v' := v;
    } else {
      var p := step(g, q);
      assert Extends(g, v, p.net);
      var v1 :| SameBehaviour(g, v, p.net, v1);
      v' := WorkLoopBehaviour(step, p.net, p.queue, fuel - 1, v1);
      SameBehaviourTrans(g, v, p.net, v1, WorkLoop(step, p.net, p.queue, fuel - 1).net, v');
    }
  }

  /** The propagation pass keeps the function of the graph: every valuation
      extends to the result with the same primary output values. */
  lemma RunBehaviour(g: Mig, fuel: nat, v: seq<bool>) returns (v': seq<bool>)
    requires WellFormed(g) && Consistent(g, v)
    ensures SameBehaviour(g, v, Run(g, fuel).net, v')
  {
    PropStepPreserves();
    v' := WorkLoopBehaviour(PropStep, g, Seed(g), fuel, v);
  }
}
