/** What `inv_node` of the minimization pass achieves on a live gate n.

    When n does not read itself and no gate reads n through two children,
    the inversion detaches n completely: no primary output and no live gate
    reads it afterwards. It is taken out exactly when its reference count
    was made up of those readers. When in addition the inverted gate is
    fresh and n has no constant fanin, the complement count drops by
    exactly `one_level(n)`. */
module Inversion {
  import opened Signals
  import opened Counting
  import opened Network
  import opened Create
  import opened Metrics
  import opened Minimization

  /** Every child of `ch` reading `n` is the first one that does. */
  predicate SingleReading(ch: seq<Signal>, n: nat)
  {
    forall j :: 0 <= j < |ch| && ch[j].index == n ==> j == FirstReading(ch, n)
  }

  /** `ch` with its first child reading `n` redirected to `s`. */
  function Rewired(ch: seq<Signal>, n: nat, s: Signal): (r: seq<Signal>)
  {
    var j := FirstReading(ch, n);
    if j < |ch| then ch[j := Redirect(ch[j], s)] else ch
  }

  /** Gate `n` does not read itself. */
  predicate NoSelfLoop(g: Mig, n: nat)
    requires n < |g.nodes|
  {
    forall j :: 0 <= j < |g.nodes[n].children| ==> g.nodes[n].children[j].index != n
  }

  /** Gate `n` does not read itself, and no live gate reads it through two children. */
  predicate Detachable(g: Mig, n: nat)
    requires n < |g.nodes|
  {
    && NoSelfLoop(g, n)
    && forall k :: 0 <= k < |g.nodes| && IsLiveGate(g, k) ==> SingleReading(g.nodes[k].children, n)
  }

  /** A consumer snapshot as the rewiring loop receives it: increasing, and
      each entry a live gate reading `n` through exactly one child. */
  predicate Consumers(g: Mig, n: nat, fos: seq<nat>)
  {
    && (forall a, b :: 0 <= a < b < |fos| ==> fos[a] < fos[b])
    && forall k :: 0 <= k < |fos| ==>
         IsLiveGate(g, fos[k]) && HasChild(g.nodes[fos[k]], n) && SingleReading(g.nodes[fos[k]].children, n)
  }

  /** Redirecting the only child that reads `n` to another node leaves no child reading `n`. */
  lemma RewiredDetaches(ch: seq<Signal>, n: nat, s: Signal)
    requires SingleReading(ch, n) && s.index != n
    ensures forall j :: 0 <= j < |Rewired(ch, n, s)| ==> Rewired(ch, n, s)[j].index != n
  {
  }

  // ---------------------------------------------------------------------
  // The four stages of the inversion
  // ---------------------------------------------------------------------

  /** The hash table cannot answer the inverted triple of `n` with `n`
      itself: `n`'s children are not their own complements. */
  lemma InvertedKeyNotOwn(g: Mig, n: nat)
    requires WellFormed(g) && IsLiveGate(g, n)
    ensures var ch := g.nodes[n].children;
      |ch| == 3 &&
      var t := Order3(Not(ch[0]), Not(ch[1]), Not(ch[2]));
      Distinct3(Not(ch[0]), Not(ch[1]), Not(ch[2])) && t in g.hash ==> g.hash[t] != n
  {
    assert NodeShape(g.nodes[n], n, |g.nodes|);
    var ch := g.nodes[n].children;
    var t := Order3(Not(ch[0]), Not(ch[1]), Not(ch[2]));
    if Distinct3(Not(ch[0]), Not(ch[1]), Not(ch[2])) && t in g.hash {
      assert forall j :: 0 <= j < 3 ==> t[j] != ch[0];
      assert g.nodes[g.hash[t]].children == t;
    }
  }

  /** The gate maj(!a, !b, !c) built for live gate `n`: its complement is a
      signal on another node, no new node reads `n`, the reference count of
      `n` is untouched and so is its consumer list. */
  lemma InvertedGateFacts(g: Mig, n: nat)
    requires WellFormed(g) && IsLiveGate(g, n) && NoSelfLoop(g, n)
    ensures var c := InvertedGate(g, n);
      && InvertedSignal(g, n).index != n
      && c.net.refs[n] == g.refs[n]
      && (forall k :: |g.nodes| <= k < |c.net.nodes| ==> !HasChild(c.net.nodes[k], n))
      && Fanout(c.net, n) == Fanout(g, n)
  {
    assert NodeShape(g.nodes[n], n, |g.nodes|);
    var ch := g.nodes[n].children;
    InvertedKeyNotOwn(g, n);
    CreateMajElsewhere(g, Not(ch[0]), Not(ch[1]), Not(ch[2]), n);
    var c := InvertedGate(g, n);
    FanoutAgree(g, c.net, n);
  }

  /** `replace_in_node` on a consumer that reads `n` once: the consumer
      now reads the replacement, and one reference moves. */
  lemma ReplaceInConsumer(g: Mig, fo: nat, n: nat, s: Signal)
    requires WellFormed(g) && n < |g.nodes| && s.index < |g.nodes|
    requires IsLiveGate(g, fo) && HasChild(g.nodes[fo], n)
    ensures var g1 := ReplaceInNode(g, fo, n, s);
      && g1.nodes[fo].children == Rewired(g.nodes[fo].children, n, s)
      && RefsMoved(g.refs, g1.refs, n, s.index, 1)
  {
    var ch := g.nodes[fo].children;
    var j :| 0 <= j < |ch| && ch[j].index == n;
    assert FirstReading(ch, n) < |ch|;
    ReplaceInNodeEffect(g, fo, n, s);
  }

  /** The rest of a consumer snapshot stays one after its first entry is rewired. */
  lemma ConsumersRest(g: Mig, n: nat, s: Signal, fos: seq<nat>)
    requires WellFormed(g) && n < |g.nodes| && s.index < |g.nodes|
    requires Consumers(g, n, fos) && |fos| > 0
    ensures var g1 := ReplaceInNode(g, fos[0], n, s);
      && Consumers(g1, n, fos[1..])
      && forall k :: 1 <= k < |fos| ==> g1.nodes[fos[k]].children == g.nodes[fos[k]].children
  {
    var g1 := ReplaceInNode(g, fos[0], n, s);
    var rest := fos[1..];
    assert forall k :: 1 <= k < |fos| ==> fos[0] < fos[k];
    forall k | 0 <= k < |rest|
      ensures IsLiveGate(g1, rest[k]) && g1.nodes[rest[k]].children == g.nodes[rest[k]].children
    {
      assert rest[k] == fos[k + 1];
    }
  }

  /** `RewireAll` over a consumer snapshot moves one reference per consumer
      from `n` to the replacement. */
  lemma {:induction false} RewireAllRefs(g: Mig, n: nat, s: Signal, fos: seq<nat>)
    requires WellFormed(g) && n < |g.nodes| && s.index < |g.nodes|
    requires Consumers(g, n, fos)
    ensures RefsMoved(g.refs, RewireAll(g, n, s, fos).refs, n, s.index, |fos|)
    decreases |fos|
  {
    if |fos| > 0 {
      var g1 := ReplaceInNode(g, fos[0], n, s);
      ReplaceInConsumer(g, fos[0], n, s);
      ConsumersRest(g, n, s, fos);
      RewireAllRefs(g1, n, s, fos[1..]);
      RefsMovedCompose(g.refs, g1.refs, RewireAll(g1, n, s, fos[1..]).refs, n, s.index, 1, |fos| - 1);
    }
  }

  /** `RewireAll` over a consumer snapshot leaves its `k`-th consumer
      reading the replacement where it read `n`. */
  lemma {:induction false} RewireAllAt(g: Mig, n: nat, s: Signal, fos: seq<nat>, k: nat)
    requires WellFormed(g) && n < |g.nodes| && s.index < |g.nodes|
    requires Consumers(g, n, fos) && k < |fos|
    ensures RewireAll(g, n, s, fos).nodes[fos[k]].children == Rewired(g.nodes[fos[k]].children, n, s)
    decreases |fos|
  {
    var fo := fos[0];
    var g1 := ReplaceInNode(g, fo, n, s);
    var rest := fos[1..];
    ConsumersRest(g, n, s, fos);
    if k == 0 {
      ReplaceInConsumer(g, fo, n, s);
      assert fo !in rest by {
        assert forall i :: 0 <= i < |rest| ==> fo < rest[i];
      }
    } else {
      RewireAllAt(g1, n, s, rest, k - 1);
      assert fos[k] == rest[k - 1];
    }
  }

  /** `RewireAll` over a consumer snapshot leaves each consumer reading the
      replacement where it read `n`. */
  lemma RewireAllChildren(g: Mig, n: nat, s: Signal, fos: seq<nat>)
    requires WellFormed(g) && n < |g.nodes| && s.index < |g.nodes|
    requires Consumers(g, n, fos)
    ensures var r := RewireAll(g, n, s, fos);
      forall k :: 0 <= k < |fos| ==> r.nodes[fos[k]].children == Rewired(g.nodes[fos[k]].children, n, s)
  {
    forall k | 0 <= k < |fos|
      ensures RewireAll(g, n, s, fos).nodes[fos[k]].children == Rewired(g.nodes[fos[k]].children, n, s)
    {
      RewireAllAt(g, n, s, fos, k);
    }
  }

  /** The snapshot the inversion rewires is a consumer snapshot, and the
      same list as the consumers of `n` before the inversion. */
  lemma SnapshotFacts(g: Mig, n: nat)
    requires WellFormed(g) && IsLiveGate(g, n) && Detachable(g, n)
    ensures var c := InvertedGate(g, n);
      var g1 := ReplaceInOutputsCondComp(c.net, n, InvertedSignal(g, n), true);
      && Fanout(g1, n) == Fanout(g, n)
      && Consumers(g1, n, Fanout(g1, n))
  {
    InvertedGateFacts(g, n);
    var c := InvertedGate(g, n);
    var g1 := ReplaceInOutputsCondComp(c.net, n, InvertedSignal(g, n), true);
    FanoutAgree(c.net, g1, n);
    var fos := Fanout(g1, n);
    forall k | 0 <= k < |fos|
      ensures SingleReading(g1.nodes[fos[k]].children, n)
    {
      var fo := fos[k];
      assert fo < |g.nodes|;
      assert g1.nodes[fo].children == g.nodes[fo].children;
      assert IsLiveGate(g, fo);
    }
  }

  /** After the inversion of a live gate that does not read itself, no
      primary output reads it, and the node returned is another one. */
  lemma InvNodeOutputs(g: Mig, n: nat)
    requires WellFormed(g) && IsLiveGate(g, n) && NoSelfLoop(g, n)
    ensures var r := InvNode(g, n);
      && r.node != n
      && forall k :: 0 <= k < |r.net.outputs| ==> r.net.outputs[k].index != n
  {
    InvertedGateFacts(g, n);
    var r := InvNode(g, n);
    forall k | 0 <= k < |r.net.outputs|
      ensures r.net.outputs[k].index != n
    {
      if g.outputs[k].index == n {
        assert r.net.outputs[k] == Redirect(g.outputs[k], InvertedSignal(g, n));
      }
    }
  }

  /** After the inversion of a detachable live gate, no live gate reads it. */
  lemma InvNodeNoConsumers(g: Mig, n: nat)
    requires WellFormed(g) && IsLiveGate(g, n) && Detachable(g, n)
    ensures Fanout(InvNode(g, n).net, n) == []
  {
    InvertedGateFacts(g, n);
    SnapshotFacts(g, n);
    var c := InvertedGate(g, n);
    var s := InvertedSignal(g, n);
    var g1 := ReplaceInOutputsCondComp(c.net, n, s, true);
    var fos := Fanout(g1, n);
    RewireAllChildren(g1, n, s, fos);
    var g2 := RewireAll(g1, n, s, fos);
    var r := Retire(g2, n);
    assert InvNode(g, n).net == r;
    RetireEffect(g2, n);
    forall k | 0 <= k < |r.nodes| && IsLiveGate(r, k)
      ensures !HasChild(r.nodes[k], n)
    {
      if k in fos {
        var i :| 0 <= i < |fos| && fos[i] == k;
        assert k != n;
        RewiredDetaches(g1.nodes[k].children, n, s);
        assert r.nodes[k].children == Rewired(g1.nodes[k].children, n, s);
      } else if k != n {
        assert r.nodes[k].children == g1.nodes[k].children;
        assert IsLiveGate(g1, k);
      }
    }
    FanoutEmpty(r, n);
  }

  /** The inversion of a detachable live gate takes it out exactly when its
      reference count equals the number of primary outputs and consumers
      that read it. */
  lemma InvNodeRetires(g: Mig, n: nat)
    requires WellFormed(g) && IsLiveGate(g, n) && Detachable(g, n)
    ensures InvNode(g, n).net.nodes[n].dead <==>
      FanoutSize(g, n) == SelectedCount(g.outputs, n, true) + |Fanout(g, n)|
  {
    InvertedGateFacts(g, n);
    SnapshotFacts(g, n);
    var c := InvertedGate(g, n);
    var s := InvertedSignal(g, n);
    var g1 := ReplaceInOutputsCondComp(c.net, n, s, true);
    var fos := Fanout(g1, n);
    RewireAllRefs(g1, n, s, fos);
    var g2 := RewireAll(g1, n, s, fos);
    assert InvNode(g, n).net == Retire(g2, n);
    RefsMovedCompose(c.net.refs, g1.refs, g2.refs, n, s.index, SelectedCount(c.net.outputs, n, true), |fos|);
    assert IsLiveGate(g2, n);
  }
}
