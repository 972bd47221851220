/** A graph on which the two-level branch of the minimization sweep adds
    more to `num_inverters_removed` than the complement count falls.

    Inputs x1, x2, x3 are nodes 1-3. Gate 4 = maj(x1, x2, x3),
    gate 5 = maj(!x1, !x2, !4) and gate 6 = maj(!x3, !4, !5); the only
    primary output is !6. Gate 4 has one-level gain -1, and each of its two
    consumers 5 and 6 an estimated parent gain of 2, so `two_level(4)` is 3.
    Once 4 is inverted, inverting its consumer 5 turns the edge 5 -> 6
    uncomplemented, and 6 is then not worth inverting: the complement
    count falls by 1 while the statistic grows by 3. */
module Overcount {
  import opened Signals
  import opened Counting
  import opened Network
  import opened Create
  import opened Metrics
  import opened Minimization
  import opened Inversion
  import opened Removal
  import opened Accounting

  function G(): (r: Mig)
    ensures |r.nodes| == 7
  {
    Mig([Node(Constant, [], false), Node(Input, [], false), Node(Input, [], false), Node(Input, [], false),
         Node(Gate, [Signal(1, false), Signal(2, false), Signal(3, false)], false),
         Node(Gate, [Signal(1, true), Signal(2, true), Signal(4, true)], false),
         Node(Gate, [Signal(3, true), Signal(4, true), Signal(5, true)], false)],
        [0, 2, 2, 2, 2, 1, 1],
        map[[Signal(1, false), Signal(2, false), Signal(3, false)] := 4,
            [Signal(1, true), Signal(2, true), Signal(4, true)] := 5,
            [Signal(3, true), Signal(4, true), Signal(5, true)] := 6],
        [Signal(6, true)])
  }

  // ---------------------------------------------------------------------
  // Evaluation helpers
  // ---------------------------------------------------------------------

  lemma ReadsOf3(nd: Node, n: nat)
    requires |nd.children| == 3
    ensures HasChild(nd, n) <==> nd.children[0].index == n || nd.children[1].index == n || nd.children[2].index == n
  {
  }

  lemma FanoutFromSkip(g: Mig, n: nat, i: nat)
    requires i < |g.nodes| && !(IsLiveGate(g, i) && HasChild(g.nodes[i], n))
    ensures FanoutFrom(g, n, i) == FanoutFrom(g, n, i + 1)
  {
  }

  lemma FanoutFromTake(g: Mig, n: nat, i: nat)
    requires i < |g.nodes| && IsLiveGate(g, i) && HasChild(g.nodes[i], n)
    ensures FanoutFrom(g, n, i) == [i] + FanoutFrom(g, n, i + 1)
  {
  }

  lemma CountIfOne<T>(x: T, p: T -> bool)
    ensures CountIf([x], p) == if p(x) then 1 else 0
  {
    assert [x][..0] == [];
  }

  lemma CountIfTwo<T>(x: T, y: T, p: T -> bool)
    ensures CountIf([x, y], p) == (if p(x) then 1 else 0) + (if p(y) then 1 else 0)
  {
    assert [x, y][..1] == [x];
    CountIfOne(x, p);
  }

  lemma SumOfTwo<T>(x: T, y: T, f: T -> int)
    ensures SumOf([x, y], f) == f(x) + f(y)
  {
    assert [x, y][..1] == [x];
    assert [x][..0] == [];
    assert SumOf([x], f) == f(x);
  }

  /** The complement bit `is_fanout_comp` finds on a three-input gate. */
  lemma LastComplement3(a: Signal, b: Signal, c: Signal, n: nat)
    ensures LastComplement([a, b, c], n, false) ==
      if c.index == n then c.complement else if b.index == n then b.complement else if a.index == n then a.complement else false
  {
    var acc1 := if a.index == n then a.complement else false;
    var acc2 := if b.index == n then b.complement else acc1;
    var acc3 := if c.index == n then c.complement else acc2;
    assert [a, b, c][1..] == [b, c];
    assert [b, c][1..] == [c];
    assert [c][1..] == [];
    assert LastComplement([c], n, acc2) == LastComplement([], n, acc3);
    assert LastComplement([b, c], n, acc1) == LastComplement([c], n, acc2);
    assert LastComplement([a, b, c], n, false) == LastComplement([b, c], n, acc1);
  }

  // ---------------------------------------------------------------------
  // The graph before the visit of gate 4
  // ---------------------------------------------------------------------

  lemma GWellFormed(g: Mig)
    requires g == G()
    ensures WellFormed(g)
  {
  }

  lemma GFanout4(g: Mig)
    requires g == G()
    ensures Fanout(g, 4) == [5, 6]
  {
    assert FanoutFrom(g, 4, 7) == [];
    ReadsOf3(g.nodes[6], 4);
    FanoutFromTake(g, 4, 6);
    ReadsOf3(g.nodes[5], 4);
    FanoutFromTake(g, 4, 5);
    ReadsOf3(g.nodes[4], 4);
    FanoutFromSkip(g, 4, 4);
    FanoutFromSkip(g, 4, 3);
    FanoutFromSkip(g, 4, 2);
    FanoutFromSkip(g, 4, 1);
    FanoutFromSkip(g, 4, 0);
  }

  lemma GFanout5(g: Mig)
    requires g == G()
    ensures Fanout(g, 5) == [6]
  {
    assert FanoutFrom(g, 5, 7) == [];
    ReadsOf3(g.nodes[6], 5);
    FanoutFromTake(g, 5, 6);
    ReadsOf3(g.nodes[5], 5);
    FanoutFromSkip(g, 5, 5);
    ReadsOf3(g.nodes[4], 5);
    FanoutFromSkip(g, 5, 4);
    FanoutFromSkip(g, 5, 3);
    FanoutFromSkip(g, 5, 2);
    FanoutFromSkip(g, 5, 1);
    FanoutFromSkip(g, 5, 0);
  }

  lemma GFanout6(g: Mig)
    requires g == G()
    ensures Fanout(g, 6) == []
  {
    ReadsOf3(g.nodes[4], 6);
    ReadsOf3(g.nodes[5], 6);
    ReadsOf3(g.nodes[6], 6);
    FanoutEmpty(g, 6);
  }

  lemma GOneLevel4(g: Mig)
    requires g == G()
    ensures OneLevel(g, 4) == -1
  {
    GFanout4(g);
    var ch := g.nodes[4].children;
    CountIfThree(ch[0], ch[1], ch[2], (s: Signal) => !IsConstant(s.index) && s.complement == true);
    CountIfThree(ch[0], ch[1], ch[2], (s: Signal) => !IsConstant(s.index) && s.complement == false);
    LastComplement3(g.nodes[5].children[0], g.nodes[5].children[1], g.nodes[5].children[2], 4);
    LastComplement3(g.nodes[6].children[0], g.nodes[6].children[1], g.nodes[6].children[2], 4);
    CountIfTwo<nat>(5, 6, (fo: nat) => fo < |g.nodes| && IsFanoutComp(g, 4, fo) == true);
    CountIfTwo<nat>(5, 6, (fo: nat) => fo < |g.nodes| && IsFanoutComp(g, 4, fo) == false);
    CountIfOne(g.outputs[0], (o: Signal) => o.index == 4 && o.complement == true);
    CountIfOne(g.outputs[0], (o: Signal) => o.index == 4 && o.complement == false);
  }

  lemma GOneLevel5(g: Mig)
    requires g == G()
    ensures OneLevel(g, 5) == 4
  {
    GFanout5(g);
    var ch := g.nodes[5].children;
    CountIfThree(ch[0], ch[1], ch[2], (s: Signal) => !IsConstant(s.index) && s.complement == true);
    CountIfThree(ch[0], ch[1], ch[2], (s: Signal) => !IsConstant(s.index) && s.complement == false);
    LastComplement3(g.nodes[6].children[0], g.nodes[6].children[1], g.nodes[6].children[2], 5);
    CountIfOne<nat>(6, (fo: nat) => fo < |g.nodes| && IsFanoutComp(g, 5, fo) == true);
    CountIfOne<nat>(6, (fo: nat) => fo < |g.nodes| && IsFanoutComp(g, 5, fo) == false);
    CountIfOne(g.outputs[0], (o: Signal) => o.index == 5 && o.complement == true);
    CountIfOne(g.outputs[0], (o: Signal) => o.index == 5 && o.complement == false);
  }

  lemma GOneLevel6(g: Mig)
    requires g == G()
    ensures OneLevel(g, 6) == 4
  {
    GFanout6(g);
    var ch := g.nodes[6].children;
    CountIfThree(ch[0], ch[1], ch[2], (s: Signal) => !IsConstant(s.index) && s.complement == true);
    CountIfThree(ch[0], ch[1], ch[2], (s: Signal) => !IsConstant(s.index) && s.complement == false);
    CountIfOne(g.outputs[0], (o: Signal) => o.index == 6 && o.complement == true);
    CountIfOne(g.outputs[0], (o: Signal) => o.index == 6 && o.complement == false);
  }

  lemma GParentGain5(g: Mig)
    requires g == G()
    ensures ParentGain(g, 4, 5) == 2
  {
    GOneLevel5(g);
    LastComplement3(g.nodes[5].children[0], g.nodes[5].children[1], g.nodes[5].children[2], 4);
  }

  lemma GParentGain6(g: Mig)
    requires g == G()
    ensures ParentGain(g, 4, 6) == 2
  {
    GOneLevel6(g);
    LastComplement3(g.nodes[6].children[0], g.nodes[6].children[1], g.nodes[6].children[2], 4);
  }

  /** `two_level(4)` is 3: one-level gain -1 plus 2 for each consumer. */
  lemma GTwoLevel4(g: Mig)
    requires g == G()
    ensures TwoLevel(g, 4) == 3
  {
    GFanout4(g);
    GOneLevel4(g);
    GParentGain5(g);
    GParentGain6(g);
    SumOfTwo<nat>(5, 6, (fo: nat) => ParentGain(g, 4, fo));
  }

  lemma GDetachable4(g: Mig)
    requires g == G()
    ensures Detachable(g, 4)
  {
    assert forall k :: 0 <= k < 7 && IsLiveGate(g, k) ==> k == 4 || k == 5 || k == 6;
  }

  lemma GFresh4(g: Mig)
    requires g == G()
    ensures FreshInversion(g, 4)
  {
    assert Order3(Signal(1, true), Signal(2, true), Signal(3, true)) == [Signal(1, true), Signal(2, true), Signal(3, true)];
  }

  /** Inverting gate 4 is clean. */
  lemma GClean4(g: Mig)
    requires g == G()
    ensures WellFormed(g) && CleanInversion(g, 4)
  {
    GWellFormed(g);
    GFanout4(g);
    GDetachable4(g);
    GFresh4(g);
    CountIfOne(g.outputs[0], o => Selected(o, 4, true));
  }

  // ---------------------------------------------------------------------
  // After gate 4 is inverted
  // ---------------------------------------------------------------------

  /** The node table once gate 4 is inverted: gate 7 = maj(!x1, !x2, !x3)
      replaces it, read through complemented edges by 5 and 6. */
  function N1(): (r: seq<Node>)
    ensures |r| == 8
  {
    [Node(Constant, [], false), Node(Input, [], false), Node(Input, [], false), Node(Input, [], false),
     Node(Gate, [Signal(1, false), Signal(2, false), Signal(3, false)], true),
     Node(Gate, [Signal(1, true), Signal(2, true), Signal(7, false)], false),
     Node(Gate, [Signal(3, true), Signal(7, false), Signal(5, true)], false),
     Node(Gate, [Signal(1, true), Signal(2, true), Signal(3, true)], false)]
  }

  /** What `inv_node(4)` does to consumer `k` of gate 4. */
  lemma InvNode4Consumer(g: Mig, k: nat)
    requires g == G() && (k == 5 || k == 6)
    ensures InvNode(g, 4).net.nodes[k] == g.nodes[k].(children := Rewired(g.nodes[k].children, 4, Signal(7, true)))
  {
    GClean4(g);
    GFanout4(g);
    CleanInvNodeConsumer(g, 4, k);
  }

  lemma InvNode4Rewired(g: Mig)
    requires g == G()
    ensures Rewired(g.nodes[5].children, 4, Signal(7, true)) == N1()[5].children
    ensures Rewired(g.nodes[6].children, 4, Signal(7, true)) == N1()[6].children
  {
  }

  lemma InvNode4Kept(g: Mig, k: nat)
    requires g == G() && k < 4
    ensures InvNode(g, 4).net.nodes[k] == N1()[k]
  {
    GClean4(g);
    GFanout4(g);
    CleanInvNodeKeeps(g, 4, k);
  }

  lemma InvNode4New(g: Mig)
    requires g == G()
    ensures var h := InvNode(g, 4);
      h.node == 7 && |h.net.nodes| == 8 && h.net.nodes[7] == N1()[7]
  {
    GClean4(g);
    CleanInvNodeNew(g, 4);
    assert Order3(Signal(1, true), Signal(2, true), Signal(3, true)) == [Signal(1, true), Signal(2, true), Signal(3, true)];
  }

  lemma InvNode4Dead(g: Mig)
    requires g == G()
    ensures InvNode(g, 4).net.nodes[4] == N1()[4]
  {
    GClean4(g);
    CleanInvNodeDead(g, 4);
  }

  lemma InvNode4Outputs(g: Mig)
    requires g == G()
    ensures InvNode(g, 4).net.outputs == [Signal(6, true)]
  {
    GClean4(g);
    CleanInvNodeOutputs(g, 4);
  }

  lemma InvNode4Refs(g: Mig)
    requires g == G()
    ensures InvNode(g, 4).net.refs[5] == 1
  {
    GClean4(g);
    CleanInvNodeRefs(g, 4, 5);
  }

  lemma EightNodes(a: seq<Node>, b: seq<Node>)
    requires |a| == 8 && |b| == 8
    requires a[0] == b[0] && a[1] == b[1] && a[2] == b[2] && a[3] == b[3]
    requires a[4] == b[4] && a[5] == b[5] && a[6] == b[6] && a[7] == b[7]
    ensures a == b
  {
  }

  lemma InvNode4Nodes(g: Mig)
    requires g == G()
    ensures InvNode(g, 4).net.nodes == N1()
  {
    var h := InvNode(g, 4).net;
    InvNode4New(g);
    InvNode4Dead(g);
    InvNode4Kept(g, 0);
    InvNode4Kept(g, 1);
    InvNode4Kept(g, 2);
    InvNode4Kept(g, 3);
    InvNode4Rewired(g);
    InvNode4Consumer(g, 5);
    InvNode4Consumer(g, 6);
    EightNodes(h.nodes, N1());
  }

  /** The graph once gate 4 is inverted, as far as the rest of the visit
      looks at it. */
  predicate IsH1(h: Mig)
  {
    WellFormed(h) && h.nodes == N1() && h.outputs == [Signal(6, true)] && h.refs[5] == 1
  }

  lemma InvNode4IsH1(g: Mig)
    requires g == G()
    ensures WellFormed(g) && IsH1(InvNode(g, 4).net) && InvNode(g, 4).node == 7
  {
    GWellFormed(g);
    InvNode4Nodes(g);
    InvNode4Outputs(g);
    InvNode4Refs(g);
    InvNode4New(g);
  }

  /** The consumers of the new gate 7: the snapshot the parent step walks. */
  lemma H1Fanout7From5(h: Mig)
    requires IsH1(h)
    ensures FanoutFrom(h, 7, 5) == [5, 6]
  {
    assert FanoutFrom(h, 7, 8) == [];
    ReadsOf3(h.nodes[7], 7);
    FanoutFromSkip(h, 7, 7);
    ReadsOf3(h.nodes[6], 7);
    FanoutFromTake(h, 7, 6);
    ReadsOf3(h.nodes[5], 7);
    FanoutFromTake(h, 7, 5);
  }

  lemma H1Fanout7(h: Mig)
    requires IsH1(h)
    ensures Fanout(h, 7) == [5, 6]
  {
    H1Fanout7From5(h);
    FanoutFromSkip(h, 7, 4);
    FanoutFromSkip(h, 7, 3);
    FanoutFromSkip(h, 7, 2);
    FanoutFromSkip(h, 7, 1);
    FanoutFromSkip(h, 7, 0);
  }

  lemma H1Fanout5(h: Mig)
    requires IsH1(h)
    ensures Fanout(h, 5) == [6]
  {
    assert FanoutFrom(h, 5, 8) == [];
    ReadsOf3(h.nodes[7], 5);
    FanoutFromSkip(h, 5, 7);
    ReadsOf3(h.nodes[6], 5);
    FanoutFromTake(h, 5, 6);
    ReadsOf3(h.nodes[5], 5);
    FanoutFromSkip(h, 5, 5);
    FanoutFromSkip(h, 5, 4);
    FanoutFromSkip(h, 5, 3);
    FanoutFromSkip(h, 5, 2);
    FanoutFromSkip(h, 5, 1);
    FanoutFromSkip(h, 5, 0);
  }

  /** Parent 5 now reads 7 uncomplemented: its one-level gain is 2. */
  lemma H1OneLevel5(h: Mig)
    requires IsH1(h)
    ensures OneLevel(h, 5) == 2
  {
    H1Fanout5(h);
    var ch := h.nodes[5].children;
    CountIfThree(ch[0], ch[1], ch[2], (s: Signal) => !IsConstant(s.index) && s.complement == true);
    CountIfThree(ch[0], ch[1], ch[2], (s: Signal) => !IsConstant(s.index) && s.complement == false);
    LastComplement3(h.nodes[6].children[0], h.nodes[6].children[1], h.nodes[6].children[2], 5);
    CountIfOne<nat>(6, (fo: nat) => fo < |h.nodes| && IsFanoutComp(h, 5, fo) == true);
    CountIfOne<nat>(6, (fo: nat) => fo < |h.nodes| && IsFanoutComp(h, 5, fo) == false);
    CountIfOne(h.outputs[0], (o: Signal) => o.index == 5 && o.complement == true);
    CountIfOne(h.outputs[0], (o: Signal) => o.index == 5 && o.complement == false);
  }

  lemma H1Detachable5(h: Mig)
    requires IsH1(h)
    ensures Detachable(h, 5)
  {
    assert forall k :: 0 <= k < 8 && IsLiveGate(h, k) ==> k == 5 || k == 6 || k == 7;
  }

  lemma H1Fresh5(h: Mig)
    requires IsH1(h)
    ensures FreshInversion(h, 5)
  {
    var t := [Signal(1, false), Signal(2, false), Signal(7, true)];
    assert Order3(Signal(1, false), Signal(2, false), Signal(7, true)) == t;
  }

  /** Inverting parent 5 is clean. */
  lemma H1Clean5(h: Mig)
    requires IsH1(h)
    ensures CleanInversion(h, 5)
  {
    H1Fanout5(h);
    H1Detachable5(h);
    H1Fresh5(h);
    CountIfOne(h.outputs[0], o => Selected(o, 5, true));
  }

  // ---------------------------------------------------------------------
  // After parent 5 is inverted
  // ---------------------------------------------------------------------

  /** The node table once parent 5 is inverted as well: gate
      8 = maj(!x1, !x2, 7) replaces it, and 6 reads 8 uncomplemented. */
  function N2(): (r: seq<Node>)
    ensures |r| == 9
  {
    [Node(Constant, [], false), Node(Input, [], false), Node(Input, [], false), Node(Input, [], false),
     Node(Gate, [Signal(1, false), Signal(2, false), Signal(3, false)], true),
     Node(Gate, [Signal(1, true), Signal(2, true), Signal(7, false)], true),
     Node(Gate, [Signal(3, true), Signal(7, false), Signal(8, false)], false),
     Node(Gate, [Signal(1, true), Signal(2, true), Signal(3, true)], false),
     Node(Gate, [Signal(1, false), Signal(2, false), Signal(7, true)], false)]
  }

  lemma InvNode5Consumer(h: Mig)
    requires IsH1(h)
    ensures InvNode(h, 5).net.nodes[6] == N2()[6]
  {
    H1Clean5(h);
    H1Fanout5(h);
    CleanInvNodeConsumer(h, 5, 6);
    assert Rewired(h.nodes[6].children, 5, Signal(8, true)) == N2()[6].children;
  }

  lemma InvNode5Kept(h: Mig, k: nat)
    requires IsH1(h) && (k < 5 || k == 7)
    ensures InvNode(h, 5).net.nodes[k] == N2()[k]
  {
    H1Clean5(h);
    H1Fanout5(h);
    CleanInvNodeKeeps(h, 5, k);
  }

  lemma InvNode5New(h: Mig)
    requires IsH1(h)
    ensures |InvNode(h, 5).net.nodes| == 9 && InvNode(h, 5).net.nodes[8] == N2()[8]
  {
    H1Clean5(h);
    CleanInvNodeNew(h, 5);
    assert Order3(Signal(1, false), Signal(2, false), Signal(7, true)) == [Signal(1, false), Signal(2, false), Signal(7, true)];
  }

  lemma InvNode5Dead(h: Mig)
    requires IsH1(h)
    ensures InvNode(h, 5).net.nodes[5] == N2()[5]
  {
    H1Clean5(h);
    CleanInvNodeDead(h, 5);
  }

  lemma InvNode5Outputs(h: Mig)
    requires IsH1(h)
    ensures InvNode(h, 5).net.outputs == [Signal(6, true)]
  {
    H1Clean5(h);
    CleanInvNodeOutputs(h, 5);
  }

  lemma NineNodes(a: seq<Node>, b: seq<Node>)
    requires |a| == 9 && |b| == 9
    requires a[0] == b[0] && a[1] == b[1] && a[2] == b[2] && a[3] == b[3] && a[4] == b[4]
    requires a[5] == b[5] && a[6] == b[6] && a[7] == b[7] && a[8] == b[8]
    ensures a == b
  {
  }

  /** The graph once parent 5 is inverted, as far as the parent step looks at it. */
  predicate IsH2(h: Mig)
  {
    WellFormed(h) && h.nodes == N2() && h.outputs == [Signal(6, true)]
  }

  lemma InvNode5IsH2(h: Mig)
    requires IsH1(h)
    ensures IsH2(InvNode(h, 5).net)
  {
    InvNode5New(h);
    InvNode5Dead(h);
    InvNode5Consumer(h);
    InvNode5Kept(h, 0);
    InvNode5Kept(h, 1);
    InvNode5Kept(h, 2);
    InvNode5Kept(h, 3);
    InvNode5Kept(h, 4);
    InvNode5Kept(h, 7);
    InvNode5Outputs(h);
    NineNodes(InvNode(h, 5).net.nodes, N2());
  }

  /** Parent 6 on that graph: its edge from 8 is no longer complemented,
      and its one-level gain is 0. */
  lemma H2OneLevel6(h: Mig)
    requires IsH2(h)
    ensures OneLevel(h, 6) == 0
  {
    forall k | 0 <= k < |h.nodes| && IsLiveGate(h, k)
      ensures !HasChild(h.nodes[k], 6)
    {
      ReadsOf3(h.nodes[k], 6);
    }
    FanoutEmpty(h, 6);
    var ch := h.nodes[6].children;
    CountIfThree(ch[0], ch[1], ch[2], (s: Signal) => !IsConstant(s.index) && s.complement == true);
    CountIfThree(ch[0], ch[1], ch[2], (s: Signal) => !IsConstant(s.index) && s.complement == false);
    CountIfOne(h.outputs[0], (o: Signal) => o.index == 6 && o.complement == true);
    CountIfOne(h.outputs[0], (o: Signal) => o.index == 6 && o.complement == false);
  }

  // ---------------------------------------------------------------------
  // The visit of gate 4
  // ---------------------------------------------------------------------

  /** On the graph left by inverting 5, parent 6 is left alone. */
  lemma LastParent(h: Mig)
    requires IsH2(h)
    ensures CleanFlips(h, [6]) && FlipGain(h, [6]) == 0
  {
    H2OneLevel6(h);
    assert [6][1..] == [];
  }

  /** The parent step over consumers 5 and 6 of gate 7 inverts 5 cleanly,
      leaves 6 alone, and realises a gain of 2 where 4 was estimated. */
  lemma ParentStep(h: Mig)
    requires IsH1(h)
    ensures Fanout(h, 7) == [5, 6]
    ensures CleanFlips(h, [5, 6]) && FlipGain(h, [5, 6]) == 2
  {
    H1Fanout7(h);
    H1OneLevel5(h);
    H1Clean5(h);
    InvNode5IsH2(h);
    LastParent(FlipParent(h, 5));
    var fos: seq<nat> := [5, 6];
    assert fos[1..] == [6];
  }

  /** The visit of gate 4 takes the two-level branch and adds
      `two_level(4)` = 3 to the statistic, while the complement count falls
      by 1; the counted visit adds 1, the fall. */
  lemma TwoLevelOvercounts(g: Mig)
    requires g == G()
    ensures WellFormed(g) && OneLevel(g, 4) == -1 && TwoLevel(g, 4) == 3
    ensures var r := Visit(g, 4, 0);
      r.removed == 3 && ComplementCount(r.net) == ComplementCount(g) - 1
    ensures var r := VisitCounted(g, 4, 0);
      r.removed == 1 && ComplementCount(r.net) == ComplementCount(g) - 1
  {
    GClean4(g);
    GOneLevel4(g);
    GTwoLevel4(g);
    InvNode4IsH1(g);
    var inv := InvNode(g, 4);
    ParentStep(inv.net);
    VisitTwoLevelComplementCount(g, 4, 0);
    VisitCountedComplementCount(g, 4, 0);
  }
}
