/** The inverter-minimization pass: local gain estimates and a single sweep
    that inverts every gate whose inversion is estimated to remove
    complemented edges.

    Inverting gate n means building n' = maj(!a, !b, !c) from n's children
    a, b, c and using !n' wherever n was used: by self-duality !n' computes
    the same function as n, while every complement bit on n's fanins, on
    its consumer edges and on the primary outputs that read it flips. */
module Minimization {
  import opened Signals
  import opened Counting
  import opened Network
  import opened Create

  // ---------------------------------------------------------------------
  // Gain estimates
  // ---------------------------------------------------------------------

  /** Nodes the gain estimates give 0: inputs, the constant, dead nodes. */
  predicate Skipped(g: Mig, n: nat)
  {
    IsPi(g, n) || IsConstant(n) || IsDead(g, n)
  }

  /** Fanins of a gate with complement bit `comp`, fanins on the constant not counted. */
  function FaninCount(ch: seq<Signal>, comp: bool): (r: nat)
  {
    CountIf(ch, (s: Signal) => !IsConstant(s.index) && s.complement == comp)
  }

  /** Consumers of `n` whose edge from `n` has complement bit `comp`. */
  function FanoutCount(g: Mig, n: nat, comp: bool): (r: nat)
  {
    CountIf(Fanout(g, n), (fo: nat) => fo < |g.nodes| && IsFanoutComp(g, n, fo) == comp)
  }

  /** Primary outputs reading `n` with complement bit `comp`. */
  function OutputCount(g: Mig, n: nat, comp: bool): (r: nat)
  {
    CountIf(g.outputs, (o: Signal) => o.index == n && o.complement == comp)
  }

  /** `one_level(n)`: complemented minus uncomplemented edges around `n`,
      counting its non-constant fanins, its consumer edges and the primary
      outputs reading it. This is the number of complemented edges that
      inverting `n` removes. */
  function OneLevel(g: Mig, n: nat): (r: int)
    requires n < |g.nodes|
    ensures Skipped(g, n) ==> r == 0
    ensures !Skipped(g, n) ==>
      -(|g.nodes[n].children| + |Fanout(g, n)| + |g.outputs|) <= r <= |g.nodes[n].children| + |Fanout(g, n)| + |g.outputs|
  {
    if Skipped(g, n) then 0
    else
      var ch := g.nodes[n].children;
      FaninCount(ch, true) + FanoutCount(g, n, true) + OutputCount(g, n, true)
        - FaninCount(ch, false) - FanoutCount(g, n, false) - OutputCount(g, n, false)
  }

  /** The contribution of consumer `fo` to the two-level estimate of `n`:
      its own one-level gain, corrected by two for the edge to `n` that
      inverting both nodes leaves in place; only positive terms count. */
  function ParentGain(g: Mig, n: nat, fo: nat): (r: int)
    ensures r >= 0
  {
    if fo < |g.nodes| then
      var gain := OneLevel(g, fo) + (if IsFanoutComp(g, n, fo) then -2 else 2);
      if gain > 0 then gain else 0
    else 0
  }

  /** `two_level(n)`: the one-level gain of `n` plus the positive gains of
      inverting its consumers as well. */
  function TwoLevel(g: Mig, n: nat): (r: int)
    requires n < |g.nodes|
    ensures Skipped(g, n) ==> r == 0
    ensures r >= OneLevel(g, n)
  {
    if Skipped(g, n) then 0
    else
      var fos := Fanout(g, n);
      SumOfNonNegative(fos, (fo: nat) => ParentGain(g, n, fo));
      OneLevel(g, n) + SumOf(fos, (fo: nat) => ParentGain(g, n, fo))
  }

  /** The two-level estimate exceeds the one-level one exactly when some
      consumer's corrected gain is positive. */
  lemma TwoLevelExceeds(g: Mig, n: nat)
    requires n < |g.nodes| && !Skipped(g, n)
    ensures TwoLevel(g, n) > OneLevel(g, n) <==>
      exists k :: 0 <= k < |Fanout(g, n)| && ParentGain(g, n, Fanout(g, n)[k]) > 0
  {
    var fos := Fanout(g, n);
    var f := (fo: nat) => ParentGain(g, n, fo);
    SumOfZero(fos, f);
    SumOfNonNegative(fos, f);
  }

  // ---------------------------------------------------------------------
  // Inverting one node
  // ---------------------------------------------------------------------

  /** The graph after an inversion and the node now standing for the inverted one. */
  datatype Inverted = Inverted(net: Mig, node: nat)

  /** `replace_in_node(fo, n, s)` for every consumer in the snapshot `fos`, in order. */
  function RewireAll(g: Mig, n: nat, s: Signal, fos: seq<nat>): (r: Mig)
    requires WellFormed(g) && n < |g.nodes| && s.index < |g.nodes|
    requires forall k :: 0 <= k < |fos| ==> fos[k] < |g.nodes|
    ensures WellFormed(r) && r.outputs == g.outputs && |r.nodes| == |g.nodes|
    ensures forall k :: 0 <= k < |g.nodes| ==> r.nodes[k].kind == g.nodes[k].kind && r.nodes[k].dead == g.nodes[k].dead
    ensures forall k :: 0 <= k < |g.nodes| && k !in fos ==> r.nodes[k].children == g.nodes[k].children
    ensures RefSum(r.refs) == RefSum(g.refs)
    decreases |fos|
  {
    if |fos| == 0 then g
    else RewireAll(ReplaceInNode(g, fos[0], n, s), n, s, fos[1..])
  }

  /** Steps of `inv_node` after the replacement `s` of `n` exists: `s`
      replaces `n` in every primary output and in every consumer of the
      snapshot taken after the outputs, and `n` is taken out when no
      reference to it is left. */
  function Substitute(g: Mig, n: nat, s: Signal): (r: Mig)
    requires WellFormed(g) && n < |g.nodes| && s.index < |g.nodes|
    ensures WellFormed(r) && |r.nodes| == |g.nodes| && |r.outputs| == |g.outputs|
  {
    var g1 := ReplaceInOutputsCondComp(g, n, s, true);
    Retire(RewireAll(g1, n, s, Fanout(g1, n)), n)
  }

  /** Every primary output that read live `n` reads `s` instead, every other
      output is as it was, every node keeps its kind and every node other
      than `n` its liveness. */
  lemma SubstituteEffect(g: Mig, n: nat, s: Signal)
    requires WellFormed(g) && n < |g.nodes| && s.index < |g.nodes|
    ensures var r := Substitute(g, n, s);
      && (forall k :: 0 <= k < |g.outputs| ==>
            r.outputs[k] == if g.outputs[k].index == n && !g.nodes[n].dead then Redirect(g.outputs[k], s) else g.outputs[k])
      && (forall k :: 0 <= k < |g.nodes| ==> r.nodes[k].kind == g.nodes[k].kind)
      && forall k :: 0 <= k < |g.nodes| && k != n ==> r.nodes[k].dead == g.nodes[k].dead
  {
    var g1 := ReplaceInOutputsCondComp(g, n, s, true);
    var g2 := RewireAll(g1, n, s, Fanout(g1, n));
    RetireEffect(g2, n);
  }

  /** The last step of `inv_node`: `n` is taken out when its fanout size is 0. */
  function Retire(g: Mig, n: nat): (r: Mig)
    requires WellFormed(g) && n < |g.nodes|
    ensures WellFormed(r) && |r.nodes| == |g.nodes| && r.outputs == g.outputs
    ensures r.nodes[n].dead <==> g.nodes[n].dead || (IsLiveGate(g, n) && FanoutSize(g, n) == 0)
  {
    if FanoutSize(g, n) == 0 then TakeOutNode(g, n) else g
  }

  /** Retiring `n` changes no node but `n`, and `n` only in its liveness. */
  lemma RetireEffect(g: Mig, n: nat)
    requires WellFormed(g) && n < |g.nodes|
    ensures var r := Retire(g, n);
      && (forall k :: 0 <= k < |g.nodes| && k != n ==> r.nodes[k] == g.nodes[k])
      && r.nodes[n].kind == g.nodes[n].kind && r.nodes[n].children == g.nodes[n].children
  {
  }

  /** `inv_node(n)` of the minimization pass. Inputs and the constant are
      returned as they are. Otherwise the gate maj(!a, !b, !c) is created
      (or found) from n's children a, b, c, and its complement replaces n
      in every primary output and in every consumer; n is taken out when no
      reference to it is left. The node of the replacement is returned. */
  function InvNode(g: Mig, n: nat): (r: Inverted)
    requires WellFormed(g) && n < |g.nodes|
    ensures WellFormed(r.net) && r.node < |r.net.nodes|
    ensures |g.nodes| <= |r.net.nodes| <= |g.nodes| + 1 && |r.net.outputs| == |g.outputs|
    ensures IsPi(g, n) || IsConstant(n) ==> r == Inverted(g, n)
    ensures !IsPi(g, n) && !IsConstant(n) ==> r.node == InvertedSignal(g, n).index
  {
    if IsPi(g, n) || IsConstant(n) then Inverted(g, n)
    else
      var c := InvertedGate(g, n);
      var s := Not(c.signal);
      Inverted(Substitute(c.net, n, s), s.index)
  }

  /** The inversion redirects every primary output that read live gate `n`
      to the replacement, with its polarity xored, and leaves every other
      output alone. */
  lemma InvNodeRedirects(g: Mig, n: nat)
    requires WellFormed(g) && n < |g.nodes| && !IsPi(g, n) && !IsConstant(n)
    ensures var r := InvNode(g, n);
      forall k :: 0 <= k < |g.outputs| ==>
        r.net.outputs[k] == if g.outputs[k].index == n && !g.nodes[n].dead
                            then Redirect(g.outputs[k], InvertedSignal(g, n)) else g.outputs[k]
  {
    var c := InvertedGate(g, n);
    InvertedGateKeeps(g, n);
    SubstituteEffect(c.net, n, Not(c.signal));
  }

  /** maj(!a, !b, !c) for the children a, b, c of gate `n`. */
  function InvertedGate(g: Mig, n: nat): (r: Created)
    requires WellFormed(g) && n < |g.nodes| && !IsPi(g, n) && !IsConstant(n)
    ensures WellFormed(r.net) && r.net.outputs == g.outputs && r.signal.index < |r.net.nodes|
    ensures |g.nodes| <= |r.net.nodes| <= |g.nodes| + 1
  {
    assert NodeShape(g.nodes[n], n, |g.nodes|);
    var ch := g.nodes[n].children;
    CreateMaj(g, Not(ch[0]), Not(ch[1]), Not(ch[2]))
  }

  /** Building the inverted gate leaves every existing node as it was. */
  lemma InvertedGateKeeps(g: Mig, n: nat)
    requires WellFormed(g) && n < |g.nodes| && !IsPi(g, n) && !IsConstant(n)
    ensures var c := InvertedGate(g, n);
      forall k :: 0 <= k < |g.nodes| ==> c.net.nodes[k] == g.nodes[k]
  {
  }

  /** The signal that replaces `n`: the complement of the inverted gate. */
  function InvertedSignal(g: Mig, n: nat): (r: Signal)
    requires WellFormed(g) && n < |g.nodes| && !IsPi(g, n) && !IsConstant(n)
  {
    Not(InvertedGate(g, n).signal)
  }

  // ---------------------------------------------------------------------
  // Inversion keeps the function of the graph
  // ---------------------------------------------------------------------

  lemma {:induction false} RewireAllBehaviour(g: Mig, n: nat, s: Signal, fos: seq<nat>, v: seq<bool>)
    requires WellFormed(g) && n < |g.nodes| && s.index < |g.nodes|
    requires forall k :: 0 <= k < |fos| ==> fos[k] < |g.nodes|
    requires Consistent(g, v) && SigValue(v, s) == v[n]
    ensures SameBehaviour(g, v, RewireAll(g, n, s, fos), v)
    decreases |fos|
  {
    if |fos| > 0 {
      var g1 := ReplaceInNode(g, fos[0], n, s);
      ReplaceInNodeBehaviour(g, fos[0], n, s, v);
      RewireAllBehaviour(g1, n, s, fos[1..], v);
      SameBehaviourTrans(g, v, g1, v, RewireAll(g1, n, s, fos[1..]), v);
    }
  }

  lemma SubstituteBehaviour(g: Mig, n: nat, s: Signal, v: seq<bool>)
    requires WellFormed(g) && n < |g.nodes| && s.index < |g.nodes|
    requires Consistent(g, v) && SigValue(v, s) == v[n]
    ensures SameBehaviour(g, v, Substitute(g, n, s), v)
  {
    var g1 := ReplaceInOutputsCondComp(g, n, s, true);
    ReplaceInOutputsBehaviour(g, n, s, true, v);
    var g2 := RewireAll(g1, n, s, Fanout(g1, n));
    RewireAllBehaviour(g1, n, s, Fanout(g1, n), v);
    SameBehaviourTrans(g, v, g1, v, g2, v);
    if FanoutSize(g2, n) == 0 {
      TakeOutNodeBehaviour(g2, n, v);
      SameBehaviourTrans(g, v, g2, v, TakeOutNode(g2, n), v);
    }
  }

  /** Inverting a node keeps the function of the graph: every valuation
      extends to the new graph with the same output values, and the
      replacement node carries the inverted node's value through a
      complemented edge. */
  lemma InvNodeBehaviour(g: Mig, n: nat, v: seq<bool>) returns (v': seq<bool>)
    requires WellFormed(g) && n < |g.nodes| && Consistent(g, v)
    ensures SameBehaviour(g, v, InvNode(g, n).net, v')
    ensures !IsPi(g, n) && !IsConstant(n) ==> SigValue(v', InvertedSignal(g, n)) == v[n]
  {
    if IsPi(g, n) || IsConstant(n) {
      v' := v;
    } else {
      assert NodeShape(g.nodes[n], n, |g.nodes|);
      var ch := g.nodes[n].children;
      var c := InvertedGate(g, n);
      v' := CreateMajValue(g, Not(ch[0]), Not(ch[1]), Not(ch[2]), v);
      assert GateHolds(v, g.nodes[n], v[n]);
      MajSelfDual(SigValue(v, ch[0]), SigValue(v, ch[1]), SigValue(v, ch[2]));
      var s := Not(c.signal);
      assert SigValue(v', s) == v'[n];
      SubstituteBehaviour(c.net, n, s, v');
      SameBehaviourTrans(g, v, c.net, v', Substitute(c.net, n, s), v');
    }
  }

  // ---------------------------------------------------------------------
  // The sweep
  // ---------------------------------------------------------------------

  /** The graph and `num_inverters_removed` as the sweep goes. */
  datatype Sweep = Sweep(net: Mig, removed: int)

  /** The parent step of the two-level branch: each consumer of the snapshot
      `fos` whose one-level gain is positive is inverted in turn. The gains
      are not added to the statistic. */
  function FlipParents(g: Mig, fos: seq<nat>): (r: Mig)
    requires WellFormed(g) && forall k :: 0 <= k < |fos| ==> fos[k] < |g.nodes|
    ensures WellFormed(r) && |g.nodes| <= |r.nodes|
    decreases |fos|
  {
    if |fos| == 0 then g
    else FlipParents(FlipParent(g, fos[0]), fos[1..])
  }

  /** One parent of the two-level branch: inverted when its one-level gain is positive. */
  function FlipParent(g: Mig, fo: nat): (r: Mig)
    requires WellFormed(g) && fo < |g.nodes|
    ensures WellFormed(r) && |g.nodes| <= |r.nodes|
    ensures OneLevel(g, fo) <= 0 ==> r == g
  {
    if OneLevel(g, fo) > 0 then InvNode(g, fo).net else g
  }

  /** The sweep's body for one live gate `n`: invert it when its one-level
      gain is positive; then, independently, when its two-level gain (on the
      graph as it now is) is positive, invert it and flip the parents of the
      replacement. Only the two gains are added to the statistic. */
  function Visit(g: Mig, n: nat, removed: int): (r: Sweep)
    requires WellFormed(g) && n < |g.nodes|
    ensures WellFormed(r.net) && |g.nodes| <= |r.net.nodes|
    ensures r.removed >= removed
    ensures r.removed == removed <==> OneLevel(g, n) <= 0 && TwoLevel(g, n) <= 0
    ensures r.removed == removed ==> r.net == g
  {
    var gain1 := OneLevel(g, n);
    var s1 := if gain1 > 0 then Sweep(InvNode(g, n).net, removed + gain1) else Sweep(g, removed);
    var gain2 := TwoLevel(s1.net, n);
    if gain2 > 0 then
      var inv := InvNode(s1.net, n);
      Sweep(FlipParents(inv.net, Fanout(inv.net, inv.node)), s1.removed + gain2)
    else s1
  }

  /** Node `k` is not a live gate or has no positive gain estimate. */
  predicate Settled(g: Mig, k: nat)
    requires k < |g.nodes|
  {
    !IsLiveGate(g, k) || (OneLevel(g, k) <= 0 && TwoLevel(g, k) <= 0)
  }

  /** No live gate among `i..stop-1` has a positive gain estimate. */
  predicate LocalOptimum(g: Mig, i: nat, stop: nat)
    requires stop <= |g.nodes|
    decreases stop - i
  {
    i >= stop || (Settled(g, i) && LocalOptimum(g, i + 1, stop))
  }

  lemma {:induction false} LocalOptimumAll(g: Mig, i: nat, stop: nat)
    requires stop <= |g.nodes|
    ensures LocalOptimum(g, i, stop) <==> forall k :: i <= k < stop ==> Settled(g, k)
    decreases stop - i
  {
    if i < stop {
      LocalOptimumAll(g, i + 1, stop);
    }
  }

  /** The sweep at index `i`: live gates are visited, anything else is
      passed over. The step changes the statistic exactly when node `i` is
      not settled, and a step that leaves it alone leaves the graph alone. */
  function Step(g: Mig, i: nat, removed: int): (r: Sweep)
    requires WellFormed(g) && i < |g.nodes|
    ensures WellFormed(r.net) && |g.nodes| <= |r.net.nodes|
    ensures r.removed >= removed
    ensures r.removed == removed <==> Settled(g, i)
    ensures r.removed == removed ==> r.net == g
  {
    if IsLiveGate(g, i) then Visit(g, i, removed) else Sweep(g, removed)
  }

  /** What a sweep needs of its step: it accepts every well-formed graph and
      index in range and keeps the graph well formed without dropping nodes. */
  ghost predicate StepOk(step: (Mig, nat, int) --> Sweep)
  {
    forall g: Mig, i: nat, removed: int | WellFormed(g) && i < |g.nodes| ::
      && step.requires(g, i, removed)
      && WellFormed(step(g, i, removed).net)
      && |g.nodes| <= |step(g, i, removed).net.nodes|
  }

  /** A step that never lowers the statistic. */
  ghost predicate StepGrows(step: (Mig, nat, int) --> Sweep)
    requires StepOk(step)
  {
    forall g: Mig, i: nat, removed: int | WellFormed(g) && i < |g.nodes| ::
      step(g, i, removed).removed >= removed
  }

  /** A step that leaves the statistic as it was exactly on a settled node,
      and then leaves the graph as it was. */
  ghost predicate StepCalm(step: (Mig, nat, int) --> Sweep)
    requires StepOk(step)
  {
    forall g: Mig, i: nat, removed: int | WellFormed(g) && i < |g.nodes| ::
      && (step(g, i, removed).removed == removed <==> Settled(g, i))
      && (step(g, i, removed).removed == removed ==> step(g, i, removed).net == g)
  }

  /** A step that keeps the function of the graph. */
  ghost predicate StepPreserves(step: (Mig, nat, int) --> Sweep)
    requires StepOk(step)
  {
    forall g: Mig, i: nat, removed: int, v: seq<bool> | WellFormed(g) && i < |g.nodes| && Consistent(g, v) ::
      Extends(g, v, step(g, i, removed).net)
  }

  /** A sweep with `step` over node indices `i..stop-1`, in increasing order. */
  function IndexSweep(step: (Mig, nat, int) --> Sweep, g: Mig, i: nat, stop: nat, removed: int): (r: Sweep)
    requires StepOk(step) && WellFormed(g) && stop <= |g.nodes|
    ensures WellFormed(r.net) && |g.nodes| <= |r.net.nodes|
    ensures StepGrows(step) ==> r.removed >= removed
    decreases stop - i
  {
    if i >= stop then Sweep(g, removed)
    else
      var s := step(g, i, removed);
      IndexSweep(step, s.net, i + 1, stop, s.removed)
  }

  /** `run()`: one sweep over the gates present when it starts (the loop
      ends with a `break` after the first pass), from a statistic of 0.
      The statistic ends at 0 exactly when no gate had a positive gain
      estimate, and then the graph is unchanged. */
  function Run(g: Mig): (r: Sweep)
    requires WellFormed(g)
    ensures WellFormed(r.net) && |g.nodes| <= |r.net.nodes|
    ensures r.removed >= 0
    ensures r.removed == 0 <==> LocalOptimum(g, 1, |g.nodes|)
    ensures r.removed == 0 ==> r.net == g
  {
    StepIsOk();
    StepIsCalm();
    IndexSweepStatistic(Step, g, 1, |g.nodes|, 0);
    IndexSweep(Step, g, 1, |g.nodes|, 0)
  }

  /** A range in which no live gate has a positive gain estimate is swept
      by a calm step without changing the graph or the statistic. */
  lemma {:induction false} IndexSweepSettled(step: (Mig, nat, int) --> Sweep, g: Mig, i: nat, stop: nat, removed: int)
    requires StepOk(step) && StepCalm(step)
    requires WellFormed(g) && stop <= |g.nodes| && LocalOptimum(g, i, stop)
    ensures IndexSweep(step, g, i, stop, removed) == Sweep(g, removed)
    decreases stop - i
  {
    if i < stop {
      IndexSweepSettled(step, g, i + 1, stop, removed);
    }
  }

  /** A sweep by a calm step that leaves the statistic as it was found no
      live gate with a positive gain estimate. */
  lemma {:induction false} IndexSweepUnchanged(step: (Mig, nat, int) --> Sweep, g: Mig, i: nat, stop: nat, removed: int)
    requires StepOk(step) && StepGrows(step) && StepCalm(step)
    requires WellFormed(g) && stop <= |g.nodes| && IndexSweep(step, g, i, stop, removed).removed == removed
    ensures LocalOptimum(g, i, stop)
    decreases stop - i
  {
    if i < stop {
      var s := step(g, i, removed);
      assert IndexSweep(step, g, i, stop, removed) == IndexSweep(step, s.net, i + 1, stop, s.removed);
      assert s.removed == removed && s.net == g;
      IndexSweepUnchanged(step, g, i + 1, stop, removed);
    }
  }

  /** For a calm step, the statistic is left as it was exactly when no live
      gate of the range had a positive gain estimate, and then the graph is
      unchanged. */
  lemma IndexSweepStatistic(step: (Mig, nat, int) --> Sweep, g: Mig, i: nat, stop: nat, removed: int)
    requires StepOk(step) && StepGrows(step) && StepCalm(step) && WellFormed(g) && stop <= |g.nodes|
    ensures IndexSweep(step, g, i, stop, removed).removed == removed <==> LocalOptimum(g, i, stop)
    ensures IndexSweep(step, g, i, stop, removed).removed == removed ==> IndexSweep(step, g, i, stop, removed).net == g
  {
    if LocalOptimum(g, i, stop) {
      IndexSweepSettled(step, g, i, stop, removed);
    }
    if IndexSweep(step, g, i, stop, removed).removed == removed {
      IndexSweepUnchanged(step, g, i, stop, removed);
      IndexSweepSettled(step, g, i, stop, removed);
    }
  }

  /** A sweep by a step that keeps the function of the graph keeps it too. */
  lemma {:induction false} IndexSweepBehaviour(step: (Mig, nat, int) --> Sweep, g: Mig, i: nat, stop: nat, removed: int, v: seq<bool>)
    returns (v': seq<bool>)
    requires StepOk(step) && StepPreserves(step)
    requires WellFormed(g) && stop <= |g.nodes| && Consistent(g, v)
    ensures SameBehaviour(g, v, IndexSweep(step, g, i, stop, removed).net, v')
    decreases stop - i
  {
    if i >= stop {
      v' := v;
    } else {
      var s := step(g, i, removed);
      assert Extends(g, v, s.net);
      var v1 :| SameBehaviour(g, v, s.net, v1);
      v' := IndexSweepBehaviour(step, s.net, i + 1, stop, s.removed, v1);
      SameBehaviourTrans(g, v, s.net, v1, IndexSweep(step, s.net, i + 1, stop, s.removed).net, v');
    }
  }

  lemma StepIsOk()
    ensures StepOk(Step) && StepGrows(Step)
  {
  }

  /** One step leaves the statistic as it was exactly when the node is not
      a live gate or has no positive gain estimate, and then the graph is
      unchanged. */
  lemma StepIsCalm()
    ensures StepOk(Step) && StepCalm(Step)
  {
  }

  lemma {:induction false} FlipParentsBehaviour(g: Mig, fos: seq<nat>, v: seq<bool>) returns (v': seq<bool>)
    requires WellFormed(g) && forall k :: 0 <= k < |fos| ==> fos[k] < |g.nodes|
    requires Consistent(g, v)
    ensures SameBehaviour(g, v, FlipParents(g, fos), v')
    decreases |fos|
  {
    if |fos| == 0 {
      v' := v;
    } else {
      var g1 := FlipParent(g, fos[0]);
      var v1 := FlipParentBehaviour(g, fos[0], v);
      v' := FlipParentsBehaviour(g1, fos[1..], v1);
      SameBehaviourTrans(g, v, g1, v1, FlipParents(g1, fos[1..]), v');
    }
  }

  lemma FlipParentBehaviour(g: Mig, fo: nat, v: seq<bool>) returns (v': seq<bool>)
    requires WellFormed(g) && fo < |g.nodes| && Consistent(g, v)
    ensures SameBehaviour(g, v, FlipParent(g, fo), v')
  {
    v' := v;
    if OneLevel(g, fo) > 0 {
      v' := InvNodeBehaviour(g, fo, v);
    }
  }

  lemma VisitBehaviour(g: Mig, n: nat, removed: int, v: seq<bool>) returns (v': seq<bool>)
    requires WellFormed(g) && n < |g.nodes| && Consistent(g, v)
    ensures SameBehaviour(g, v, Visit(g, n, removed).net, v')
  {
    var gain1 := OneLevel(g, n);
    var s1 := if gain1 > 0 then Sweep(InvNode(g, n).net, removed + gain1) else Sweep(g, removed);
    var v1 := v;
    if gain1 > 0 {
      v1 := InvNodeBehaviour(g, n, v);
    }
    v' := v1;
    if TwoLevel(s1.net, n) > 0 {
      var inv := InvNode(s1.net, n);
      var v2 := InvNodeBehaviour(s1.net, n, v1);
      SameBehaviourTrans(g, v, s1.net, v1, inv.net, v2);
      v' := FlipParentsBehaviour(inv.net, Fanout(inv.net, inv.node), v2);
      SameBehaviourTrans(g, v, inv.net, v2, FlipParents(inv.net, Fanout(inv.net, inv.node)), v');
    }
  }

  lemma StepBehaviour(g: Mig, i: nat, removed: int, v: seq<bool>) returns (v': seq<bool>)
    requires WellFormed(g) && i < |g.nodes| && Consistent(g, v)
    ensures SameBehaviour(g, v, Step(g, i, removed).net, v')
  {
    v' := v;
    if IsLiveGate(g, i) {
      v' := VisitBehaviour(g, i, removed, v);
    }
  }

  lemma StepPreservesBehaviour()
    ensures StepOk(Step) && StepPreserves(Step)
  {
    StepIsOk();
    forall g: Mig, i: nat, removed: int, v: seq<bool> | WellFormed(g) && i < |g.nodes| && Consistent(g, v)
      ensures Extends(g, v, Step(g, i, removed).net)
    {
      var v' := StepBehaviour(g, i, removed, v);
    }
  }

  /** The pass keeps the function of the graph: every valuation of the
      input graph extends to the output graph with the same output values. */
  lemma RunBehaviour(g: Mig, v: seq<bool>) returns (v': seq<bool>)
    requires WellFormed(g) && Consistent(g, v)
    ensures SameBehaviour(g, v, Run(g).net, v')
  {
    StepPreservesBehaviour();
    v' := IndexSweepBehaviour(Step, g, 1, |g.nodes|, 0, v);
  }
}
