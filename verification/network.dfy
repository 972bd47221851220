/** The majority-inverter graph the passes rewrite, and the host-network
    primitives they call.

    Node 0 is the constant-0 node; primary inputs are nodes without children;
    a gate has three child signals. Every node carries a dead flag, and the
    table `refs` beside the nodes holds each node's reference count (its
    fanout size, primary outputs included). The `hash` table maps a gate's
    child triple to the gate (structural hashing).

    `replace_in_node`, `take_out_node`, `fanout_size` and the fanout view are
    defined in files that are not part of this model; the bodies given to
    them here are the behaviour the two passes are modelled against. */
module Network {
  import opened Signals
  import opened Counting

  datatype Kind = Constant | Input | Gate

  datatype Node = Node(kind: Kind, children: seq<Signal>, dead: bool)

  datatype Mig = Mig(nodes: seq<Node>, refs: seq<int>, hash: map<seq<Signal>, nat>, outputs: seq<Signal>)

  predicate IsConstant(n: nat)
  {
    n == 0
  }

  predicate IsPi(g: Mig, n: nat)
  {
    n < |g.nodes| && g.nodes[n].kind == Input
  }

  predicate IsDead(g: Mig, n: nat)
  {
    n < |g.nodes| && g.nodes[n].dead
  }

  predicate IsLiveGate(g: Mig, n: nat)
  {
    n < |g.nodes| && g.nodes[n].kind == Gate && !g.nodes[n].dead
  }

  /** Some child of `nd` reads node `n`. */
  predicate HasChild(nd: Node, n: nat)
  {
    exists j :: 0 <= j < |nd.children| && nd.children[j].index == n
  }

  /** Node `nd` sits at index `i` of a table of `size` nodes. */
  predicate NodeShape(nd: Node, i: nat, size: nat)
  {
    && (nd.kind == Constant <==> i == 0)
    && (if nd.kind == Gate then |nd.children| == 3 else nd.children == [] && !nd.dead)
    && (forall j :: 0 <= j < |nd.children| ==> nd.children[j].index < size)
  }

  /** Every hash entry names a live gate whose children are exactly the key. */
  predicate HashSound(g: Mig)
  {
    forall k :: k in g.hash ==>
      && g.hash[k] < |g.nodes|
      && g.nodes[g.hash[k]].kind == Gate && !g.nodes[g.hash[k]].dead
      && g.nodes[g.hash[k]].children == k
  }

  predicate WellFormed(g: Mig)
  {
    && |g.nodes| > 0 && |g.refs| == |g.nodes|
    && (forall i :: 0 <= i < |g.nodes| ==> NodeShape(g.nodes[i], i, |g.nodes|))
    && (forall i :: 0 <= i < |g.outputs| ==> g.outputs[i].index < |g.nodes|)
    && HashSound(g)
  }

  /** Under `v`, gate `nd` computes `x` (vacuous for inputs and the constant). */
  predicate GateHolds(v: seq<bool>, nd: Node, x: bool)
  {
    nd.kind == Gate ==>
      && |nd.children| == 3
      && nd.children[0].index < |v| && nd.children[1].index < |v| && nd.children[2].index < |v|
      && x == MajOf(v, nd.children)
  }

  /** `v` gives every node a value: the constant is 0 and every gate, dead or
      alive, is the majority of its children. Input values are free. In an
      acyclic graph there is exactly one such valuation per input assignment. */
  predicate Consistent(g: Mig, v: seq<bool>)
  {
    && |v| == |g.nodes|
    && |v| > 0 && !v[0]
    && forall i :: 0 <= i < |g.nodes| ==> GateHolds(v, g.nodes[i], v[i])
  }

  /** `v1` and `v2` are valuations of well-formed `g1` and `g2`; `v2` agrees
      with `v1` on every node of `g1` (so on every primary input) and gives
      the outputs the same values. */
  predicate SameBehaviour(g1: Mig, v1: seq<bool>, g2: Mig, v2: seq<bool>)
  {
    && Consistent(g1, v1) && WellFormed(g1)
    && Consistent(g2, v2)
    && WellFormed(g2)
    && |v1| <= |v2|
    && (forall i :: 0 <= i < |v1| ==> v2[i] == v1[i])
    && |g2.outputs| == |g1.outputs|
    && forall k :: 0 <= k < |g1.outputs| ==> SigValue(v2, g2.outputs[k]) == SigValue(v1, g1.outputs[k])
  }

  /** The valuation `v` of `g` extends to a valuation of `h` with the same
      primary output values. */
  ghost predicate Extends(g: Mig, v: seq<bool>, h: Mig)
  {
    exists v': seq<bool> :: SameBehaviour(g, v, h, v')
  }

  lemma SameBehaviourTrans(g1: Mig, v1: seq<bool>, g2: Mig, v2: seq<bool>, g3: Mig, v3: seq<bool>)
    requires Consistent(g1, v1) && WellFormed(g1)
    requires SameBehaviour(g1, v1, g2, v2) && SameBehaviour(g2, v2, g3, v3)
    ensures SameBehaviour(g1, v1, g3, v3)
  {
  }

  /** The consumers of node `n` among nodes `i..`: live gates with a child
      reading `n`, in increasing index order. */
  function FanoutFrom(g: Mig, n: nat, i: nat): (r: seq<nat>)
    requires i <= |g.nodes|
    ensures forall k :: 0 <= k < |r| ==> i <= r[k] < |g.nodes| && IsLiveGate(g, r[k]) && HasChild(g.nodes[r[k]], n)
    ensures forall fo :: i <= fo < |g.nodes| && IsLiveGate(g, fo) && HasChild(g.nodes[fo], n) ==> fo in r
    ensures forall a, b :: 0 <= a < b < |r| ==> r[a] < r[b]
    decreases |g.nodes| - i
  {
    if i == |g.nodes| then []
    else if IsLiveGate(g, i) && HasChild(g.nodes[i], n) then [i] + FanoutFrom(g, n, i + 1)
    else FanoutFrom(g, n, i + 1)
  }

  /** The fanout view's consumer list of node `n`, as a full scan produces it. */
  function Fanout(g: Mig, n: nat): (r: seq<nat>)
  {
    FanoutFrom(g, n, 0)
  }

  /** A table that keeps kinds, children and dead flags of the nodes of `g`,
      and whose extra nodes do not consume `n`, lists the same consumers of `n`. */
  lemma {:induction false} FanoutFromAgree(g: Mig, h: Mig, n: nat, i: nat)
    requires i <= |g.nodes| <= |h.nodes|
    requires forall k :: 0 <= k < |g.nodes| ==>
      h.nodes[k].kind == g.nodes[k].kind && h.nodes[k].children == g.nodes[k].children && h.nodes[k].dead == g.nodes[k].dead
    requires forall k :: |g.nodes| <= k < |h.nodes| ==> !(IsLiveGate(h, k) && HasChild(h.nodes[k], n))
    ensures FanoutFrom(h, n, i) == FanoutFrom(g, n, i)
    decreases |g.nodes| - i
  {
    if i == |g.nodes| {
      FanoutFromNone(h, n, i);
    } else {
      FanoutFromAgree(g, h, n, i + 1);
      var here := IsLiveGate(g, i) && HasChild(g.nodes[i], n);
      assert here == (IsLiveGate(h, i) && HasChild(h.nodes[i], n));
      assert FanoutFrom(g, n, i) == if here then [i] + FanoutFrom(g, n, i + 1) else FanoutFrom(g, n, i + 1);
    }
  }

  /** No consumer of `n` from `i` on: the scan finds nothing. */
  lemma {:induction false} FanoutFromNone(g: Mig, n: nat, i: nat)
    requires i <= |g.nodes|
    requires forall k :: i <= k < |g.nodes| ==> !(IsLiveGate(g, k) && HasChild(g.nodes[k], n))
    ensures FanoutFrom(g, n, i) == []
    decreases |g.nodes| - i
  {
    if i < |g.nodes| {
      FanoutFromNone(g, n, i + 1);
    }
  }

  lemma FanoutAgree(g: Mig, h: Mig, n: nat)
    requires |g.nodes| <= |h.nodes|
    requires forall k :: 0 <= k < |g.nodes| ==>
      h.nodes[k].kind == g.nodes[k].kind && h.nodes[k].children == g.nodes[k].children && h.nodes[k].dead == g.nodes[k].dead
    requires forall k :: |g.nodes| <= k < |h.nodes| ==> !(IsLiveGate(h, k) && HasChild(h.nodes[k], n))
    ensures Fanout(h, n) == Fanout(g, n)
  {
    FanoutFromAgree(g, h, n, 0);
  }

  /** No live gate consumes `n` exactly when the consumer list is empty. */
  lemma FanoutEmpty(g: Mig, n: nat)
    ensures Fanout(g, n) == [] <==> forall k :: 0 <= k < |g.nodes| && IsLiveGate(g, k) ==> !HasChild(g.nodes[k], n)
  {
    if forall k :: 0 <= k < |g.nodes| && IsLiveGate(g, k) ==> !HasChild(g.nodes[k], n) {
      FanoutFromNone(g, n, 0);
    }
  }

  /** `fanout_size`: the reference count of node `n`. */
  function FanoutSize(g: Mig, n: nat): (r: int)
    requires n < |g.refs|
  {
    g.refs[n]
  }

  /** Adds `d` to the reference count of node `i`. */
  function AddRef(refs: seq<int>, i: nat, d: int): (r: seq<int>)
    requires i < |refs|
  {
    refs[i := refs[i] + d]
  }

  function Ident(x: int): (r: int)
  {
    x
  }

  /** Total of all reference counts. */
  function RefSum(refs: seq<int>): (r: int)
  {
    SumOf(refs, Ident)
  }

  lemma AddRefSum(refs: seq<int>, i: nat, d: int)
    requires i < |refs|
    ensures RefSum(AddRef(refs, i, d)) == RefSum(refs) + d
  {
    SumOfUpdate(refs, i, refs[i] + d, Ident);
  }

  /** `m` references moved from node `src` to node `dst` (nothing moves when
      they are the same node); every other count is unchanged. */
  predicate RefsMoved(a: seq<int>, b: seq<int>, src: nat, dst: nat, m: int)
  {
    && |a| == |b|
    && forall k :: 0 <= k < |a| ==>
         b[k] == a[k] + (if src != dst && k == dst then m else 0) - (if src != dst && k == src then m else 0)
  }

  lemma RefsMovedCompose(a: seq<int>, b: seq<int>, c: seq<int>, src: nat, dst: nat, m1: int, m2: int)
    requires RefsMoved(a, b, src, dst, m1) && RefsMoved(b, c, src, dst, m2)
    ensures RefsMoved(a, c, src, dst, m1 + m2)
  {
  }

  // ---------------------------------------------------------------------
  // Fanin complement of one consumer edge
  // ---------------------------------------------------------------------

  /** Scans `ch` front to back, remembering the complement bit of the last
      signal reading `n`; `acc` is the answer when there is none. */
  function LastComplement(ch: seq<Signal>, n: nat, acc: bool): (r: bool)
    decreases |ch|
  {
    if |ch| == 0 then acc
    else LastComplement(ch[1..], n, if ch[0].index == n then ch[0].complement else acc)
  }

  /** No signal after position `j` reads `n`. */
  predicate LastReading(ch: seq<Signal>, n: nat, j: nat)
  {
    forall k :: j < k < |ch| ==> ch[k].index != n
  }

  /** The scan answers with the complement bit of the last signal reading
      `n`, and with `acc` when no signal reads it. */
  lemma {:induction false} LastComplementIff(ch: seq<Signal>, n: nat, acc: bool)
    ensures LastComplement(ch, n, acc) <==>
      (exists j :: 0 <= j < |ch| && ch[j].index == n && ch[j].complement && LastReading(ch, n, j))
      || (acc && forall j :: 0 <= j < |ch| ==> ch[j].index != n)
    decreases |ch|
  {
    if |ch| > 0 {
      LastComplementIff(ch[1..], n, if ch[0].index == n then ch[0].complement else acc);
      assert forall j :: 1 <= j < |ch| ==> ch[j] == ch[1..][j - 1];
      assert forall j :: 1 <= j < |ch| && LastReading(ch[1..], n, j - 1) ==> LastReading(ch, n, j);
      assert forall j :: 0 <= j < |ch| - 1 && LastReading(ch, n, j + 1) ==> LastReading(ch[1..], n, j);
    }
  }

  /** `is_fanout_comp(in, out)`: the complement bit of the last fanin of
      `out` that reads `in`, false when no fanin reads it. */
  function IsFanoutComp(g: Mig, inNode: nat, out: nat): (r: bool)
    requires out < |g.nodes|
  {
    LastComplement(g.nodes[out].children, inNode, false)
  }

  /** `is_fanout_comp(in, out)` holds exactly when some fanin of `out`
      reads `in` complemented and no later fanin reads `in`. */
  lemma IsFanoutCompIff(g: Mig, inNode: nat, out: nat)
    requires out < |g.nodes|
    ensures IsFanoutComp(g, inNode, out) <==>
      exists j :: 0 <= j < |g.nodes[out].children|
                      && g.nodes[out].children[j].index == inNode
                      && g.nodes[out].children[j].complement
                      && LastReading(g.nodes[out].children, inNode, j)
  {
    LastComplementIff(g.nodes[out].children, inNode, false);
  }

  // ---------------------------------------------------------------------
  // Rewiring primary outputs
  // ---------------------------------------------------------------------

  /** The outputs a call rewires: those reading `oldNode`, and with
      `haveCompOut` false only the complemented ones. */
  predicate Selected(o: Signal, oldNode: nat, haveCompOut: bool)
  {
    o.index == oldNode && (haveCompOut || o.complement)
  }

  /** How many of `outs` a call with these arguments rewires. */
  function SelectedCount(outs: seq<Signal>, oldNode: nat, haveCompOut: bool): (r: nat)
  {
    CountIf(outs, o => Selected(o, oldNode, haveCompOut))
  }

  /** Where a selected output ends up: it reads `s`, polarity xored with `s`'s. */
  function Redirect(o: Signal, s: Signal): (r: Signal)
  {
    Signal(s.index, o.complement != s.complement)
  }

  /** Moves `m` references from node `src` to node `dst` (nothing when they are the same node). */
  function MoveRefs(refs: seq<int>, src: nat, dst: nat, m: int): (r: seq<int>)
    requires src < |refs| && dst < |refs|
  {
    if src == dst then refs else refs[dst := refs[dst] + m][src := refs[src] - m]
  }

  /** Moving references changes the two counts and keeps their total. */
  lemma MoveRefsFacts(refs: seq<int>, src: nat, dst: nat, m: int)
    requires src < |refs| && dst < |refs|
    ensures RefsMoved(refs, MoveRefs(refs, src, dst, m), src, dst, m)
    ensures RefSum(MoveRefs(refs, src, dst, m)) == RefSum(refs)
  {
    if src != dst {
      AddRefSum(refs, dst, m);
      AddRefSum(AddRef(refs, dst, m), src, -m);
      assert MoveRefs(refs, src, dst, m) == AddRef(AddRef(refs, dst, m), src, -m);
    }
  }

  /** `replace_in_outputs` with the pass's polarity condition. Nothing happens
      when `oldNode` is dead. Otherwise every selected output is redirected
      to `s`, and when the indices differ each redirection moves one
      reference from `oldNode` to `s.index`. With `haveCompOut` true this is
      the host network's unconditional `replace_in_outputs`. */
  function ReplaceInOutputsCondComp(g: Mig, oldNode: nat, s: Signal, haveCompOut: bool): (r: Mig)
    requires WellFormed(g) && oldNode < |g.nodes| && s.index < |g.nodes|
    ensures WellFormed(r) && r.nodes == g.nodes && r.hash == g.hash
    ensures g.nodes[oldNode].dead ==> r == g
    ensures |r.outputs| == |g.outputs|
    ensures !g.nodes[oldNode].dead ==> forall k :: 0 <= k < |g.outputs| ==>
      r.outputs[k] == if Selected(g.outputs[k], oldNode, haveCompOut) then Redirect(g.outputs[k], s) else g.outputs[k]
    ensures RefsMoved(g.refs, r.refs, oldNode, s.index,
      if g.nodes[oldNode].dead then 0 else SelectedCount(g.outputs, oldNode, haveCompOut))
    ensures RefSum(r.refs) == RefSum(g.refs)
  {
    if g.nodes[oldNode].dead then g
    else
      var outs := seq(|g.outputs|, k requires 0 <= k < |g.outputs| =>
        if Selected(g.outputs[k], oldNode, haveCompOut) then Redirect(g.outputs[k], s) else g.outputs[k]);
      var m := SelectedCount(g.outputs, oldNode, haveCompOut);
      MoveRefsFacts(g.refs, oldNode, s.index, m);
      Mig(g.nodes, MoveRefs(g.refs, oldNode, s.index, m), g.hash, outs)
  }

  /** Redirecting outputs to a signal with the value of `oldNode` keeps every
      valuation consistent and every output value. */
  lemma ReplaceInOutputsBehaviour(g: Mig, oldNode: nat, s: Signal, haveCompOut: bool, v: seq<bool>)
    requires WellFormed(g) && oldNode < |g.nodes| && s.index < |g.nodes|
    requires Consistent(g, v) && SigValue(v, s) == v[oldNode]
    ensures SameBehaviour(g, v, ReplaceInOutputsCondComp(g, oldNode, s, haveCompOut), v)
  {
    var r := ReplaceInOutputsCondComp(g, oldNode, s, haveCompOut);
    forall k | 0 <= k < |g.outputs|
      ensures SigValue(v, r.outputs[k]) == SigValue(v, g.outputs[k])
    {
    }
  }

  // ---------------------------------------------------------------------
  // Rewiring one consumer, retiring a node
  // ---------------------------------------------------------------------

  /** Position of the first signal of `ch` reading `n`, |ch| when none does. */
  function FirstReading(ch: seq<Signal>, n: nat): (j: nat)
    ensures j <= |ch|
    ensures j < |ch| ==> ch[j].index == n
    ensures forall k :: 0 <= k < j ==> ch[k].index != n
    decreases |ch|
  {
    if |ch| == 0 then 0
    else if ch[0].index == n then 0
    else
      var j := FirstReading(ch[1..], n);
      assert forall k :: 1 <= k < |ch| ==> ch[k] == ch[1..][k - 1];
      1 + j
  }

  /** The hash table after gate `fo` changes its children from `oldKey` to `newKey`:
      the entry for the old triple goes if it named `fo`; the new triple
      names `fo` unless another gate already has it. */
  function Rehash(hash: map<seq<Signal>, nat>, fo: nat, oldKey: seq<Signal>, newKey: seq<Signal>): (r: map<seq<Signal>, nat>)
  {
    var h := Unhash(hash, oldKey, fo);
    if newKey in h then h else h[newKey := fo]
  }

  /** `replace_in_node(fo, oldNode, s)`: the first child of live gate `fo`
      that reads `oldNode` is made to read `s` (its polarity xored with
      `s`'s), and one reference moves from `oldNode` to `s.index`. Dead
      consumers, non-gates and gates not reading `oldNode` are left alone. */
  function ReplaceInNode(g: Mig, fo: nat, oldNode: nat, s: Signal): (r: Mig)
    requires WellFormed(g) && fo < |g.nodes| && oldNode < |g.nodes| && s.index < |g.nodes|
    ensures WellFormed(r) && r.outputs == g.outputs && |r.nodes| == |g.nodes|
    ensures forall k :: 0 <= k < |g.nodes| && k != fo ==> r.nodes[k] == g.nodes[k]
    ensures r.nodes[fo].kind == g.nodes[fo].kind && r.nodes[fo].dead == g.nodes[fo].dead
    ensures RefSum(r.refs) == RefSum(g.refs)
  {
    var nd := g.nodes[fo];
    var j := FirstReading(nd.children, oldNode);
    if nd.kind != Gate || nd.dead || j == |nd.children| then g
    else
      var ch := nd.children[j := Redirect(nd.children[j], s)];
      ReplaceInNodeShape(g, fo, ch, MoveRefs(g.refs, oldNode, s.index, 1));
      MoveRefsFacts(g.refs, oldNode, s.index, 1);
      Mig(g.nodes[fo := nd.(children := ch)], MoveRefs(g.refs, oldNode, s.index, 1), Rehash(g.hash, fo, nd.children, ch), g.outputs)
  }

  /** Live gate `fo` given new children `ch` in range: the graph stays well
      formed, whatever the reference counts. */
  lemma ReplaceInNodeShape(g: Mig, fo: nat, ch: seq<Signal>, refs: seq<int>)
    requires WellFormed(g) && IsLiveGate(g, fo) && |refs| == |g.nodes|
    requires |ch| == 3 && forall j :: 0 <= j < 3 ==> ch[j].index < |g.nodes|
    ensures WellFormed(Mig(g.nodes[fo := g.nodes[fo].(children := ch)], refs, Rehash(g.hash, fo, g.nodes[fo].children, ch), g.outputs))
  {
    var nodes1 := g.nodes[fo := g.nodes[fo].(children := ch)];
    assert NodeShape(nodes1[fo], fo, |nodes1|);
    assert forall i :: 0 <= i < |nodes1| && i != fo ==> nodes1[i] == g.nodes[i];
  }

  /** What `replace_in_node` does to the consumer it is given: a live gate
      reading `oldNode` gets its first such child redirected and one
      reference moves; otherwise nothing changes. */
  lemma ReplaceInNodeEffect(g: Mig, fo: nat, oldNode: nat, s: Signal)
    requires WellFormed(g) && fo < |g.nodes| && oldNode < |g.nodes| && s.index < |g.nodes|
    ensures var r := ReplaceInNode(g, fo, oldNode, s);
      var ch := g.nodes[fo].children; var j := FirstReading(ch, oldNode);
      if IsLiveGate(g, fo) && j < |ch| then
        && r.nodes[fo].children == ch[j := Redirect(ch[j], s)]
        && RefsMoved(g.refs, r.refs, oldNode, s.index, 1)
      else r == g
  {
    MoveRefsFacts(g.refs, oldNode, s.index, 1);
  }

  /** Redirecting a consumer to a signal with the value of `oldNode` keeps every
      valuation consistent and every output value. */
  lemma ReplaceInNodeBehaviour(g: Mig, fo: nat, oldNode: nat, s: Signal, v: seq<bool>)
    requires WellFormed(g) && fo < |g.nodes| && oldNode < |g.nodes| && s.index < |g.nodes|
    requires Consistent(g, v) && SigValue(v, s) == v[oldNode]
    ensures SameBehaviour(g, v, ReplaceInNode(g, fo, oldNode, s), v)
  {
    var r := ReplaceInNode(g, fo, oldNode, s);
    var ch := g.nodes[fo].children;
    var j := FirstReading(ch, oldNode);
    ReplaceInNodeEffect(g, fo, oldNode, s);
    if IsLiveGate(g, fo) && j < |ch| {
      var ch' := ch[j := Redirect(ch[j], s)];
      assert SigValue(v, ch'[j]) == SigValue(v, ch[j]);
      assert MajOf(v, ch') == MajOf(v, ch);
      forall i | 0 <= i < |r.nodes|
        ensures GateHolds(v, r.nodes[i], v[i])
      {
        if i != fo {
          assert GateHolds(v, g.nodes[i], v[i]);
        }
      }
    }
  }

  /** `take_out_node(n)`: a live gate is marked dead with no references, its
      hash entry is dropped and each of its children loses one reference.
      Inputs, the constant and dead nodes are left alone. Retirement does
      not cascade to children whose count reaches zero. */
  function TakeOutNode(g: Mig, n: nat): (r: Mig)
    requires WellFormed(g) && n < |g.nodes|
    ensures WellFormed(r) && r.outputs == g.outputs && |r.nodes| == |g.nodes|
    ensures IsLiveGate(g, n) ==> r.nodes == g.nodes[n := g.nodes[n].(dead := true)]
    ensures !IsLiveGate(g, n) ==> r == g
  {
    if !IsLiveGate(g, n) then g
    else
      var ch := g.nodes[n].children;
      var refs := ReleaseChildren(g.refs[n := 0], ch);
      MarkDeadWellFormed(g, n, refs);
      Mig(g.nodes[n := g.nodes[n].(dead := true)], refs, Unhash(g.hash, ch, n), g.outputs)
  }

  /** One reference fewer for each child signal of a retired gate. */
  function ReleaseChildren(refs: seq<int>, ch: seq<Signal>): (r: seq<int>)
    requires |ch| == 3 && forall j :: 0 <= j < 3 ==> ch[j].index < |refs|
    ensures |r| == |refs|
  {
    AddRef(AddRef(AddRef(refs, ch[0].index, -1), ch[1].index, -1), ch[2].index, -1)
  }

  /** The hash table without the entry for `key` when that entry names `n`. */
  function Unhash(hash: map<seq<Signal>, nat>, key: seq<Signal>, n: nat): (r: map<seq<Signal>, nat>)
  {
    if key in hash && hash[key] == n then hash - {key} else hash
  }

  /** Live gate `n` marked dead and out of the hash table: the graph stays
      well formed, whatever the reference counts. */
  lemma MarkDeadWellFormed(g: Mig, n: nat, refs: seq<int>)
    requires WellFormed(g) && IsLiveGate(g, n) && |refs| == |g.nodes|
    ensures WellFormed(Mig(g.nodes[n := g.nodes[n].(dead := true)], refs, Unhash(g.hash, g.nodes[n].children, n), g.outputs))
  {
    var nodes := g.nodes[n := g.nodes[n].(dead := true)];
    assert NodeShape(nodes[n], n, |nodes|);
    assert forall i :: 0 <= i < |nodes| && i != n ==> nodes[i] == g.nodes[i];
  }

  lemma TakeOutNodeBehaviour(g: Mig, n: nat, v: seq<bool>)
    requires WellFormed(g) && n < |g.nodes| && Consistent(g, v)
    ensures SameBehaviour(g, v, TakeOutNode(g, n), v)
  {
  }
}
