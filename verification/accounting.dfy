// How `num_inverters_removed` relates to the fall of the complement count,
// branch by branch, for the sweep as written and for a sweep that adds the
// gains it realises instead of the two-level estimate.

module Accounting {
  import opened Signals
  import opened Counting
  import opened Network
  import opened Create
  import opened Metrics
  import opened Minimization
  import opened Inversion
  import opened Removal

  /** `inv_node(n)` on gate `n` removes exactly `one_level(n)` complemented
      edges (see `Removal.InvNodeComplementCount`). */
  predicate CleanInversion(g: Mig, n: nat)
    requires WellFormed(g) && n < |g.nodes|
  {
    && IsLiveGate(g, n) && Detachable(g, n) && FreshInversion(g, n)
    && FanoutSize(g, n) == SelectedCount(g.outputs, n, true) + |Fanout(g, n)|
  }

  /** The graph a clean `inv_node(n)` ends with, stage by stage. */
  function Stages(g: Mig, n: nat): (r: (Mig, Mig))
    requires WellFormed(g) && n < |g.nodes| && CleanInversion(g, n)
    ensures WellFormed(r.0) && WellFormed(r.1) && |r.0.nodes| == |r.1.nodes| == |g.nodes| + 1
    ensures InvNode(g, n).net == Retire(r.1, n)
  {
    FreshInvertedGate(g, n);
    var c := InvertedGate(g, n);
    var g1 := ReplaceInOutputsCondComp(c.net, n, InvertedSignal(g, n), true);
    (g1, RewireAll(g1, n, InvertedSignal(g, n), Fanout(g1, n)))
  }

  /** The new gate of a clean `inv_node(n)` sits at the end of the table. */
  lemma CleanInvNodeNew(g: Mig, n: nat)
    requires WellFormed(g) && n < |g.nodes| && CleanInversion(g, n)
    ensures var r := InvNode(g, n);
      var ch := g.nodes[n].children;
      && r.node == |g.nodes|
      && |r.net.nodes| == |g.nodes| + 1
      && r.net.nodes[|g.nodes|] == Node(Gate, Order3(Not(ch[0]), Not(ch[1]), Not(ch[2])), false)
  {
    FreshInvertedGate(g, n);
    var st := Stages(g, n);
    InvertedGateFacts(g, n);
    assert Fanout(st.0, n) == Fanout(g, n) by { SnapshotFacts(g, n); }
    RetireEffect(st.1, n);
  }

  /** A clean `inv_node(n)` marks `n` dead and changes nothing else about it. */
  lemma CleanInvNodeDead(g: Mig, n: nat)
    requires WellFormed(g) && n < |g.nodes| && CleanInversion(g, n)
    ensures InvNode(g, n).net.nodes[n] == g.nodes[n].(dead := true)
  {
    FreshInvertedGate(g, n);
    var st := Stages(g, n);
    SnapshotFacts(g, n);
    InvNodeRetires(g, n);
    RetireEffect(st.1, n);
    assert n !in Fanout(st.0, n);
  }

  /** A clean `inv_node(n)` leaves every node other than `n` and its
      consumers as it was. */
  lemma CleanInvNodeKeeps(g: Mig, n: nat, k: nat)
    requires WellFormed(g) && n < |g.nodes| && CleanInversion(g, n)
    requires k < |g.nodes| && k != n && k !in Fanout(g, n)
    ensures InvNode(g, n).net.nodes[k] == g.nodes[k]
  {
    FreshInvertedGate(g, n);
    var st := Stages(g, n);
    SnapshotFacts(g, n);
    RetireEffect(st.1, n);
  }

  /** A clean `inv_node(n)` leaves each consumer of `n` reading the
      complemented new gate where it read `n`. */
  lemma CleanInvNodeConsumer(g: Mig, n: nat, k: nat)
    requires WellFormed(g) && n < |g.nodes| && CleanInversion(g, n)
    requires k in Fanout(g, n)
    ensures k < |g.nodes| && k != n
    ensures InvNode(g, n).net.nodes[k] == g.nodes[k].(children := Rewired(g.nodes[k].children, n, Signal(|g.nodes|, true)))
  {
    FreshInvertedGate(g, n);
    var st := Stages(g, n);
    SnapshotFacts(g, n);
    var fos := Fanout(st.0, n);
    RewireAllChildren(st.0, n, InvertedSignal(g, n), fos);
    RetireEffect(st.1, n);
    var i :| 0 <= i < |fos| && fos[i] == k;
  }

  /** A clean `inv_node(n)` redirects the outputs that read `n` to the
      complemented new gate. */
  lemma CleanInvNodeOutputs(g: Mig, n: nat)
    requires WellFormed(g) && n < |g.nodes| && CleanInversion(g, n)
    ensures var r := InvNode(g, n).net;
      forall k :: 0 <= k < |g.outputs| ==>
        r.outputs[k] == if g.outputs[k].index == n then Redirect(g.outputs[k], Signal(|g.nodes|, true)) else g.outputs[k]
  {
    FreshInvertedGate(g, n);
    InvNodeRedirects(g, n);
  }

  /** A clean `inv_node(n)` keeps the kind and liveness of every old node but `n`. */
  lemma CleanInvNodeShape(g: Mig, n: nat, k: nat)
    requires WellFormed(g) && n < |g.nodes| && CleanInversion(g, n)
    requires k < |g.nodes| && k != n
    ensures InvNode(g, n).net.nodes[k].kind == g.nodes[k].kind
    ensures InvNode(g, n).net.nodes[k].dead == g.nodes[k].dead
  {
    if k in Fanout(g, n) {
      CleanInvNodeConsumer(g, n, k);
    } else {
      CleanInvNodeKeeps(g, n, k);
    }
  }

  /** A clean `inv_node(n)` takes out one gate and adds one: the number of
      live gates stays as it was. */
  lemma CleanInvNodeGates(g: Mig, n: nat)
    requires WellFormed(g) && n < |g.nodes| && CleanInversion(g, n)
    ensures LiveGates(InvNode(g, n).net) == LiveGates(g)
  {
    var h := InvNode(g, n).net;
    forall k | 0 <= k < |g.nodes| && k != n
      ensures h.nodes[k].kind == g.nodes[k].kind && h.nodes[k].dead == g.nodes[k].dead
    {
      CleanInvNodeShape(g, n, k);
    }
    CleanInvNodeDead(g, n);
    CleanInvNodeNew(g, n);
    LiveGatesSwap(g.nodes, h.nodes, n);
  }

  /** Taking out a gate whose count is zero keeps the count of every node
      other than the gate and its fanins. */
  lemma RetireRefs(h: Mig, n: nat, k: nat)
    requires WellFormed(h) && IsLiveGate(h, n) && FanoutSize(h, n) == 0
    requires k < |h.nodes| && k != n
    requires forall j :: 0 <= j < |h.nodes[n].children| ==> h.nodes[n].children[j].index != k
    ensures Retire(h, n).refs[k] == h.refs[k]
  {
    assert NodeShape(h.nodes[n], n, |h.nodes|);
  }

  /** Up to the retirement, a clean `inv_node(n)` keeps the reference count
      of every old node other than `n` and its fanins. */
  lemma StagesRefs(g: Mig, n: nat, k: nat)
    requires WellFormed(g) && n < |g.nodes| && CleanInversion(g, n)
    requires k < |g.nodes| && k != n
    requires forall j :: 0 <= j < |g.nodes[n].children| ==> g.nodes[n].children[j].index != k
    ensures Stages(g, n).1.refs[k] == g.refs[k]
  {
    var ch := g.nodes[n].children;
    FreshInvertedGate(g, n);
    var c := InvertedGate(g, n);
    assert c.net.refs[k] == g.refs[k];
    var st := Stages(g, n);
    SnapshotFacts(g, n);
    RewireAllRefs(st.0, n, InvertedSignal(g, n), Fanout(st.0, n));
  }

  /** A clean `inv_node(n)` keeps the reference count of every old node
      other than `n` and its fanins. */
  lemma CleanInvNodeRefs(g: Mig, n: nat, k: nat)
    requires WellFormed(g) && n < |g.nodes| && CleanInversion(g, n)
    requires k < |g.nodes| && k != n
    requires forall j :: 0 <= j < |g.nodes[n].children| ==> g.nodes[n].children[j].index != k
    ensures InvNode(g, n).net.refs[k] == g.refs[k]
  {
    var st := Stages(g, n);
    StagesRefs(g, n, k);
    InvNodeRetires(g, n);
    RetireEffect(st.1, n);
    assert st.1.nodes[n] == g.nodes[n] by {
      FreshInvertedGate(g, n);
      SnapshotFacts(g, n);
      assert n !in Fanout(st.0, n);
    }
    RetireRefs(st.1, n, k);
  }

  /** Every parent that the parent step of the two-level branch inverts is
      a clean inversion on the graph as it then is. */
  predicate CleanFlips(g: Mig, fos: seq<nat>)
    requires WellFormed(g) && forall k :: 0 <= k < |fos| ==> fos[k] < |g.nodes|
    decreases |fos|
  {
    |fos| == 0 ||
    ((OneLevel(g, fos[0]) > 0 ==> CleanInversion(g, fos[0])) && CleanFlips(FlipParent(g, fos[0]), fos[1..]))
  }

  /** The one-level gains the parent step realises: each parent's gain on
      the graph left by the parents before it, when positive. */
  function FlipGain(g: Mig, fos: seq<nat>): (r: int)
    requires WellFormed(g) && forall k :: 0 <= k < |fos| ==> fos[k] < |g.nodes|
    ensures r >= 0
    ensures |fos| == 0 ==> r == 0
    decreases |fos|
  {
    if |fos| == 0 then 0
    else
      var gain := OneLevel(g, fos[0]);
      (if gain > 0 then gain else 0) + FlipGain(FlipParent(g, fos[0]), fos[1..])
  }

  /** The parent step removes exactly the gains it realises. */
  lemma {:induction false} FlipParentsComplementCount(g: Mig, fos: seq<nat>)
    requires WellFormed(g) && forall k :: 0 <= k < |fos| ==> fos[k] < |g.nodes|
    requires CleanFlips(g, fos)
    ensures ComplementCount(FlipParents(g, fos)) == ComplementCount(g) - FlipGain(g, fos)
    decreases |fos|
  {
    if |fos| > 0 {
      if OneLevel(g, fos[0]) > 0 {
        InvNodeComplementCount(g, fos[0]);
      }
      FlipParentsComplementCount(FlipParent(g, fos[0]), fos[1..]);
    }
  }

  /** One parent of the parent step keeps the number of live gates. */
  lemma FlipParentGates(g: Mig, fo: nat)
    requires WellFormed(g) && fo < |g.nodes|
    requires OneLevel(g, fo) > 0 ==> CleanInversion(g, fo)
    ensures LiveGates(FlipParent(g, fo)) == LiveGates(g)
  {
    if OneLevel(g, fo) > 0 {
      CleanInvNodeGates(g, fo);
    }
  }

  /** The parent step keeps the number of live gates. */
  lemma {:induction false} FlipParentsGates(g: Mig, fos: seq<nat>)
    requires WellFormed(g) && forall k :: 0 <= k < |fos| ==> fos[k] < |g.nodes|
    requires CleanFlips(g, fos)
    ensures LiveGates(FlipParents(g, fos)) == LiveGates(g)
    decreases |fos|
  {
    if |fos| > 0 {
      var h := FlipParent(g, fos[0]);
      FlipParentGates(g, fos[0]);
      FlipParentsGates(h, fos[1..]);
      assert FlipParents(g, fos) == FlipParents(h, fos[1..]);
    }
  }

  /** The two-level branch of the visit as written, on a gate whose
      one-level gain is not positive: the statistic grows by the estimate
      `two_level(n)`, while the complement count falls by the one-level
      gain plus the gains the parent step realises. The two agree exactly
      when the parents together realise the gain `two_level(n) - one_level(n)`
      estimated for them on the graph before `n` was inverted. */
  lemma VisitTwoLevelComplementCount(g: Mig, n: nat, removed: int)
    requires WellFormed(g) && n < |g.nodes| && CleanInversion(g, n)
    requires OneLevel(g, n) <= 0 < TwoLevel(g, n)
    requires CleanFlips(InvNode(g, n).net, Fanout(InvNode(g, n).net, InvNode(g, n).node))
    ensures var r := Visit(g, n, removed);
      var inv := InvNode(g, n);
      && r.removed == removed + TwoLevel(g, n)
      && ComplementCount(r.net) == ComplementCount(g) - OneLevel(g, n) - FlipGain(inv.net, Fanout(inv.net, inv.node))
      && (ComplementCount(r.net) == ComplementCount(g) - (r.removed - removed) <==>
          FlipGain(inv.net, Fanout(inv.net, inv.node)) == TwoLevel(g, n) - OneLevel(g, n))
  {
    var inv := InvNode(g, n);
    InvNodeComplementCount(g, n);
    FlipParentsComplementCount(inv.net, Fanout(inv.net, inv.node));
  }

  // ---------------------------------------------------------------------
  // The visit that counts what it removes
  // ---------------------------------------------------------------------

  /** The visit with the same graph changes as `Visit`, whose two-level
      branch adds the one-level gain of `n` and the gains the parent step
      realises rather than the estimate `two_level(n)`. */
  function VisitCounted(g: Mig, n: nat, removed: int): (r: Sweep)
    requires WellFormed(g) && n < |g.nodes|
    ensures r.net == Visit(g, n, removed).net
  {
    var gain1 := OneLevel(g, n);
    var s1 := if gain1 > 0 then Sweep(InvNode(g, n).net, removed + gain1) else Sweep(g, removed);
    if TwoLevel(s1.net, n) > 0 then
      var inv := InvNode(s1.net, n);
      var fos := Fanout(inv.net, inv.node);
      Sweep(FlipParents(inv.net, fos), s1.removed + OneLevel(s1.net, n) + FlipGain(inv.net, fos))
    else s1
  }

  /** Every inversion a visit of `n` performs is clean. */
  predicate VisitClean(g: Mig, n: nat)
    requires WellFormed(g) && n < |g.nodes|
  {
    if OneLevel(g, n) > 0 then CleanInversion(g, n)
    else TwoLevel(g, n) > 0 ==>
      CleanInversion(g, n) && CleanFlips(InvNode(g, n).net, Fanout(InvNode(g, n).net, InvNode(g, n).node))
  }

  /** The counted visit's statistic grows by exactly the fall of the
      complement count, in both branches. */
  lemma VisitCountedComplementCount(g: Mig, n: nat, removed: int)
    requires WellFormed(g) && n < |g.nodes| && VisitClean(g, n)
    ensures var r := VisitCounted(g, n, removed);
      ComplementCount(r.net) == ComplementCount(g) - (r.removed - removed)
  {
    if OneLevel(g, n) > 0 {
      InvNodeRetires(g, n);
      InvNodeComplementCount(g, n);
      assert TwoLevel(InvNode(g, n).net, n) == 0;
    } else if TwoLevel(g, n) > 0 {
      var inv := InvNode(g, n);
      InvNodeComplementCount(g, n);
      FlipParentsComplementCount(inv.net, Fanout(inv.net, inv.node));
    }
  }

  /** A visit whose inversions are all clean keeps the number of live gates. */
  lemma VisitGates(g: Mig, n: nat, removed: int)
    requires WellFormed(g) && n < |g.nodes| && VisitClean(g, n)
    ensures LiveGates(Visit(g, n, removed).net) == LiveGates(g)
  {
    if OneLevel(g, n) > 0 {
      InvNodeRetires(g, n);
      CleanInvNodeGates(g, n);
      assert TwoLevel(InvNode(g, n).net, n) == 0;
    } else if TwoLevel(g, n) > 0 {
      var inv := InvNode(g, n);
      CleanInvNodeGates(g, n);
      FlipParentsGates(inv.net, Fanout(inv.net, inv.node));
    }
  }

  /** The visit as written keeps the account when its two-level branch,
      if taken, realises the estimate. */
  predicate VisitExact(g: Mig, n: nat)
    requires WellFormed(g) && n < |g.nodes|
  {
    VisitClean(g, n) &&
    (OneLevel(g, n) <= 0 < TwoLevel(g, n) ==>
      FlipGain(InvNode(g, n).net, Fanout(InvNode(g, n).net, InvNode(g, n).node)) == TwoLevel(g, n) - OneLevel(g, n))
  }

  lemma VisitExactComplementCount(g: Mig, n: nat, removed: int)
    requires WellFormed(g) && n < |g.nodes| && VisitExact(g, n)
    ensures var r := Visit(g, n, removed);
      ComplementCount(r.net) == ComplementCount(g) - (r.removed - removed)
  {
    if OneLevel(g, n) > 0 {
      VisitComplementCount(g, n, removed);
    } else if TwoLevel(g, n) > 0 {
      VisitTwoLevelComplementCount(g, n, removed);
    }
  }

  // ---------------------------------------------------------------------
  // Sweeps
  // ---------------------------------------------------------------------

  /** A step that, wherever `ok` holds, adds to the statistic exactly the
      fall of the complement count. */
  ghost predicate StepAccounts(step: (Mig, nat, int) --> Sweep, ok: (Mig, nat) -> bool)
    requires StepOk(step)
  {
    forall g: Mig, i: nat, removed: int | WellFormed(g) && i < |g.nodes| && ok(g, i) ::
      ComplementCount(step(g, i, removed).net) == ComplementCount(g) - (step(g, i, removed).removed - removed)
  }

  /** `ok` holds at every index of the sweep over `i..stop-1`, on the graph
      as the sweep finds it. */
  ghost predicate SweepClean(step: (Mig, nat, int) --> Sweep, ok: (Mig, nat) -> bool,
                             g: Mig, i: nat, stop: nat, removed: int)
    requires StepOk(step) && WellFormed(g) && stop <= |g.nodes|
    decreases stop - i
  {
    i >= stop ||
    (ok(g, i) && SweepClean(step, ok, step(g, i, removed).net, i + 1, stop, step(g, i, removed).removed))
  }

  lemma {:induction false} IndexSweepAccounts(step: (Mig, nat, int) --> Sweep, ok: (Mig, nat) -> bool,
                                              g: Mig, i: nat, stop: nat, removed: int)
    requires StepOk(step) && StepAccounts(step, ok)
    requires WellFormed(g) && stop <= |g.nodes| && SweepClean(step, ok, g, i, stop, removed)
    ensures var r := IndexSweep(step, g, i, stop, removed);
      ComplementCount(r.net) == ComplementCount(g) - (r.removed - removed)
    decreases stop - i
  {
    if i < stop {
      var s := step(g, i, removed);
      IndexSweepAccounts(step, ok, s.net, i + 1, stop, s.removed);
    }
  }

  /** Steps of the sweep as written that keep the account. */
  predicate StepExact(g: Mig, i: nat)
  {
    WellFormed(g) && i < |g.nodes| && (IsLiveGate(g, i) ==> VisitExact(g, i))
  }

  lemma StepAccountsExact()
    ensures StepOk(Step) && StepAccounts(Step, StepExact)
  {
    StepIsOk();
    forall g: Mig, i: nat, removed: int | WellFormed(g) && i < |g.nodes| && StepExact(g, i)
      ensures ComplementCount(Step(g, i, removed).net) == ComplementCount(g) - (Step(g, i, removed).removed - removed)
    {
      if IsLiveGate(g, i) {
        VisitExactComplementCount(g, i, removed);
      }
    }
  }

  /** `run()` as written reports the fall of the complement count when
      every visit is clean and every two-level branch it takes realises its
      estimate. */
  lemma RunComplementCount(g: Mig)
    requires WellFormed(g)
    requires (StepIsOk(); SweepClean(Step, StepExact, g, 1, |g.nodes|, 0))
    ensures ComplementCount(Run(g).net) == ComplementCount(g) - Run(g).removed
  {
    StepAccountsExact();
    IndexSweepAccounts(Step, StepExact, g, 1, |g.nodes|, 0);
  }

  /** A step that, wherever `ok` holds, keeps the number of live gates. */
  ghost predicate StepKeepsGates(step: (Mig, nat, int) --> Sweep, ok: (Mig, nat) -> bool)
    requires StepOk(step)
  {
    forall g: Mig, i: nat, removed: int | WellFormed(g) && i < |g.nodes| && ok(g, i) ::
      LiveGates(step(g, i, removed).net) == LiveGates(g)
  }

  lemma {:induction false} IndexSweepGates(step: (Mig, nat, int) --> Sweep, ok: (Mig, nat) -> bool,
                                           g: Mig, i: nat, stop: nat, removed: int)
    requires StepOk(step) && StepKeepsGates(step, ok)
    requires WellFormed(g) && stop <= |g.nodes| && SweepClean(step, ok, g, i, stop, removed)
    ensures LiveGates(IndexSweep(step, g, i, stop, removed).net) == LiveGates(g)
    decreases stop - i
  {
    if i < stop {
      var s := step(g, i, removed);
      IndexSweepGates(step, ok, s.net, i + 1, stop, s.removed);
    }
  }

  /** The step of the counted sweep. */
  function StepCounted(g: Mig, i: nat, removed: int): (r: Sweep)
    requires WellFormed(g) && i < |g.nodes|
    ensures r.net == Step(g, i, removed).net
    ensures WellFormed(r.net) && |g.nodes| <= |r.net.nodes|
  {
    if IsLiveGate(g, i) then VisitCounted(g, i, removed) else Sweep(g, removed)
  }

  lemma StepKeepsGatesClean()
    ensures StepOk(Step) && StepKeepsGates(Step, StepClean)
  {
    StepIsOk();
    forall g: Mig, i: nat, removed: int | WellFormed(g) && i < |g.nodes| && StepClean(g, i)
      ensures LiveGates(Step(g, i, removed).net) == LiveGates(g)
    {
      if IsLiveGate(g, i) {
        VisitGates(g, i, removed);
      }
    }
  }

  /** Steps of the counted sweep that keep the account. */
  predicate StepClean(g: Mig, i: nat)
  {
    WellFormed(g) && i < |g.nodes| && (IsLiveGate(g, i) ==> VisitClean(g, i))
  }

  lemma StepCountedAccounts()
    ensures StepOk(StepCounted) && StepAccounts(StepCounted, StepClean)
  {
    forall g: Mig, i: nat, removed: int | WellFormed(g) && i < |g.nodes| && StepClean(g, i)
      ensures ComplementCount(StepCounted(g, i, removed).net) == ComplementCount(g) - (StepCounted(g, i, removed).removed - removed)
    {
      if IsLiveGate(g, i) {
        VisitCountedComplementCount(g, i, removed);
      }
    }
  }

  /** Two sweeps whose steps make the same graph changes whatever the
      statistic make the same graph changes. */
  lemma {:induction false} IndexSweepSameNet(step: (Mig, nat, int) --> Sweep, step': (Mig, nat, int) --> Sweep,
                                             g: Mig, i: nat, stop: nat, removed: int, removed': int)
    requires StepOk(step) && StepOk(step')
    requires forall h: Mig, k: nat, x: int, y: int | WellFormed(h) && k < |h.nodes| ::
      step(h, k, x).net == step'(h, k, y).net
    requires WellFormed(g) && stop <= |g.nodes|
    ensures IndexSweep(step, g, i, stop, removed).net == IndexSweep(step', g, i, stop, removed').net
    decreases stop - i
  {
    if i < stop {
      var s := step(g, i, removed);
      var s' := step'(g, i, removed');
      IndexSweepSameNet(step, step', s.net, i + 1, stop, s.removed, s'.removed);
    }
  }

  /** `run()` with a statistic that counts what it removes: the same graph
      as `Run`, and under clean visits a statistic equal to the fall of the
      complement count. */
  function RunCounted(g: Mig): (r: Sweep)
    requires WellFormed(g)
    ensures r.net == Run(g).net
  {
    StepIsOk();
    StepCountedAccounts();
    IndexSweepSameNet(StepCounted, Step, g, 1, |g.nodes|, 0, 0);
    IndexSweep(StepCounted, g, 1, |g.nodes|, 0)
  }

  lemma RunCountedComplementCount(g: Mig)
    requires WellFormed(g)
    requires (StepCountedAccounts(); SweepClean(StepCounted, StepClean, g, 1, |g.nodes|, 0))
    ensures ComplementCount(RunCounted(g).net) == ComplementCount(g) - RunCounted(g).removed
  {
    StepCountedAccounts();
    IndexSweepAccounts(StepCounted, StepClean, g, 1, |g.nodes|, 0);
  }

  /** `run()` keeps `num_gates`, read as the number of live gates, when
      every visit along the sweep is clean; so does the counted run, which
      makes the same graph changes. */
  lemma RunGates(g: Mig)
    requires WellFormed(g)
    requires (StepIsOk(); SweepClean(Step, StepClean, g, 1, |g.nodes|, 0))
    ensures LiveGates(Run(g).net) == LiveGates(g)
    ensures LiveGates(RunCounted(g).net) == LiveGates(g)
  {
    StepKeepsGatesClean();
    IndexSweepGates(Step, StepClean, g, 1, |g.nodes|, 0);
  }
}
