/** `create_maj_without_changing_comp`: structural creation of a majority
    gate that keeps the complement bits it is given. Both passes carry an
    identical copy of it. Unlike the host network's `create_maj` it never
    moves complements from the children to the output. */
module Create {
  import opened Signals
  import opened Counting
  import opened Network

  /** The signal a compare-and-swap step leaves in front: `y` when `x` has
      the larger node index, `x` otherwise. */
  function Lo(x: Signal, y: Signal): (r: Signal)
  {
    if x.index > y.index then y else x
  }

  /** The signal a compare-and-swap step leaves behind. */
  function Hi(x: Signal, y: Signal): (r: Signal)
  {
    if x.index > y.index then x else y
  }

  /** The three compare-and-swap steps that order a triple by node index
      (positions 0-1, then 1-2, then 0-1 again); a swap moves the whole
      signal, so each complement bit stays with its index. */
  function Order3(a: Signal, b: Signal, c: Signal): (r: seq<Signal>)
    ensures |r| == 3
    ensures r[0].index <= r[1].index <= r[2].index
    ensures forall j :: 0 <= j < 3 ==> r[j] == a || r[j] == b || r[j] == c
  {
    var x, y := Lo(a, b), Hi(a, b);
    var y1, z := Lo(y, c), Hi(y, c);
    [Lo(x, y1), Hi(x, y1), z]
  }

  /** The ordered triple lists the three arguments, each exactly once. */
  lemma Order3Permutation(a: Signal, b: Signal, c: Signal)
    ensures IsPermutation3(Order3(a, b, c), a, b, c)
  {
  }

  /** On three distinct indices the order does not depend on the order of
      the arguments: every permutation of a triple has the same key. */
  lemma Order3Canonical(a: Signal, b: Signal, c: Signal, p: Signal, q: Signal, s: Signal)
    requires Distinct3(a, b, c) && IsPermutation3([p, q, s], a, b, c)
    ensures Order3(p, q, s) == Order3(a, b, c)
  {
    var t := Order3(a, b, c);
    var u := Order3(p, q, s);
    assert p in [a, b, c] && q in [a, b, c] && s in [a, b, c];
    assert forall j :: 0 <= j < 3 ==> u[j] in [a, b, c];
    assert t[0].index < t[1].index < t[2].index;
    assert u[0].index < u[1].index < u[2].index;
    SortedTriplesAgree(t, u, a, b, c);
  }

  /** Two index-ordered triples drawn from three signals on distinct nodes
      are the same triple. */
  lemma SortedTriplesAgree(t: seq<Signal>, u: seq<Signal>, a: Signal, b: Signal, c: Signal)
    requires Distinct3(a, b, c) && |t| == 3 && |u| == 3
    requires forall j :: 0 <= j < 3 ==> t[j] in [a, b, c] && u[j] in [a, b, c]
    requires t[0].index < t[1].index < t[2].index && u[0].index < u[1].index < u[2].index
    ensures t == u
  {
    assert t[0] in [a, b, c] && t[1] in [a, b, c] && t[2] in [a, b, c];
    assert u[0] in [a, b, c] && u[1] in [a, b, c] && u[2] in [a, b, c];
    assert t[0] == u[0] && t[1] == u[1] && t[2] == u[2];
  }

  datatype Created = Created(net: Mig, signal: Signal)

  /** The absorption rule for two signals `x`, `y` on the same node: equal
      polarity gives `x`, opposite polarity gives the third signal `z`
      (when `z` reads another node). */
  predicate Absorbs(x: Signal, y: Signal, z: Signal, r: Signal)
  {
    x.index == y.index ==>
      && (x.complement == y.complement ==> r == x)
      && (x.complement != y.complement && z.index != x.index ==> r == z)
  }

  /** The reference counts after a fresh gate reading a, b, c was appended:
      every old node has one more reference per child signal reading it. */
  predicate RefsBumped(before: seq<int>, after: seq<int>, a: Signal, b: Signal, c: Signal)
  {
    && |before| <= |after|
    && forall k :: 0 <= k < |before| ==>
         after[k] == before[k]
           + (if k == a.index then 1 else 0) + (if k == b.index then 1 else 0) + (if k == c.index then 1 else 0)
  }

  /** Appending a gate over the triple `t` (children in range, not yet
      hashed) keeps a graph well formed. */
  lemma AppendWellFormed(g: Mig, refs: seq<int>, t: seq<Signal>)
    requires WellFormed(g) && |refs| == |g.nodes| + 1
    requires |t| == 3 && t[0].index < |g.nodes| && t[1].index < |g.nodes| && t[2].index < |g.nodes|
    requires t !in g.hash
    ensures WellFormed(Mig(g.nodes + [Node(Gate, t, false)], refs, g.hash[t := |g.nodes|], g.outputs))
  {
    var r := Mig(g.nodes + [Node(Gate, t, false)], refs, g.hash[t := |g.nodes|], g.outputs);
    forall i | 0 <= i < |r.nodes|
      ensures NodeShape(r.nodes[i], i, |r.nodes|)
    {
      if i < |g.nodes| {
        assert NodeShape(g.nodes[i], i, |g.nodes|);
      }
    }
  }

  /** The signal absorption leaves for an ordered triple with a repeated index. */
  function Absorbed(t: seq<Signal>): (r: Signal)
    requires |t| == 3
  {
    if t[0].index == t[1].index then (if t[0].complement == t[1].complement then t[0] else t[2])
    else (if t[1].complement == t[2].complement then t[1] else t[0])
  }

  /** The absorption table, read on the unordered inputs. */
  lemma AbsorbedRule(a: Signal, b: Signal, c: Signal)
    requires !Distinct3(a, b, c)
    ensures var r := Absorbed(Order3(a, b, c));
      Absorbs(a, b, c, r) && Absorbs(a, c, b, r) && Absorbs(b, c, a, r)
  {
  }

  /** Appends a gate reading the ordered triple `t`, records it in the hash
      table and gives each child one more reference. */
  function AppendGate(g: Mig, t: seq<Signal>): (r: Created)
    requires WellFormed(g) && t !in g.hash
    requires |t| == 3 && t[0].index < |g.nodes| && t[1].index < |g.nodes| && t[2].index < |g.nodes|
    ensures WellFormed(r.net) && r.net.outputs == g.outputs
    ensures r.signal == Signal(|g.nodes|, false)
    ensures r.net.nodes == g.nodes + [Node(Gate, t, false)]
    ensures r.net.hash == g.hash[t := |g.nodes|]
    ensures |r.net.refs| == |g.refs| + 1 && r.net.refs[|g.nodes|] == 0
    ensures RefsBumped(g.refs, r.net.refs, t[0], t[1], t[2])
  {
    var index := |g.nodes|;
    var refs := AddRef(AddRef(AddRef(g.refs, t[0].index, 1), t[1].index, 1), t[2].index, 1) + [0];
    AppendWellFormed(g, refs, t);
    Created(Mig(g.nodes + [Node(Gate, t, false)], refs, g.hash[t := index], g.outputs), Signal(index, false))
  }

  lemma RefsBumpedPermutation(before: seq<int>, after: seq<int>, t: seq<Signal>, a: Signal, b: Signal, c: Signal)
    requires IsPermutation3(t, a, b, c) && RefsBumped(before, after, t[0], t[1], t[2])
    ensures RefsBumped(before, after, a, b, c)
  {
  }

  /** `create_maj_without_changing_comp(a, b, c)`.
      Two inputs on one node collapse by absorption, with no allocation.
      Otherwise the ordered triple is looked up: a hit returns the existing
      gate, a miss appends a gate at index |nodes|, records it in the hash
      table and gives each child one more reference. The result of a
      lookup or allocation is never complemented. */
  function CreateMaj(g: Mig, a: Signal, b: Signal, c: Signal): (r: Created)
    requires WellFormed(g)
    requires a.index < |g.nodes| && b.index < |g.nodes| && c.index < |g.nodes|
    ensures WellFormed(r.net) && r.net.outputs == g.outputs && r.signal.index < |r.net.nodes|
    ensures !Distinct3(a, b, c) ==>
      && r.net == g
      && (r.signal == a || r.signal == b || r.signal == c)
      && Absorbs(a, b, c, r.signal) && Absorbs(a, c, b, r.signal) && Absorbs(b, c, a, r.signal)
    ensures Distinct3(a, b, c) ==>
      && !r.signal.complement
      && IsLiveGate(r.net, r.signal.index)
      && r.net.nodes[r.signal.index].children == Order3(a, b, c)
      && (r.signal.index < |g.nodes| <==> Order3(a, b, c) in g.hash)
    ensures Distinct3(a, b, c) && Order3(a, b, c) in g.hash ==>
      r.net == g && r.signal.index == g.hash[Order3(a, b, c)]
    ensures Distinct3(a, b, c) && Order3(a, b, c) !in g.hash ==>
      && r.signal.index == |g.nodes|
      && r.net.nodes == g.nodes + [Node(Gate, Order3(a, b, c), false)]
      && |r.net.refs| == |g.refs| + 1 && r.net.refs[|g.nodes|] == 0
      && r.net.hash == g.hash[Order3(a, b, c) := |g.nodes|]
      && RefsBumped(g.refs, r.net.refs, a, b, c)
  {
    var t := Order3(a, b, c);
    if t[0].index == t[1].index || t[1].index == t[2].index then
      AbsorbedRule(a, b, c);
      Created(g, Absorbed(t))
    else if t in g.hash then
      Created(g, Signal(g.hash[t], false))
    else
      var r := AppendGate(g, t);
      Order3Permutation(a, b, c);
      RefsBumpedPermutation(g.refs, r.net.refs, t, a, b, c);
      r
  }

  /** Creating a gate over signals that do not read node `n`, when the
      hash table does not already give `n` for the ordered triple, yields
      a signal on another node, adds no reader of `n` and leaves its
      reference count as it was. */
  lemma CreateMajElsewhere(g: Mig, a: Signal, b: Signal, c: Signal, n: nat)
    requires WellFormed(g) && n < |g.nodes|
    requires a.index < |g.nodes| && b.index < |g.nodes| && c.index < |g.nodes|
    requires a.index != n && b.index != n && c.index != n
    requires Distinct3(a, b, c) && Order3(a, b, c) in g.hash ==> g.hash[Order3(a, b, c)] != n
    ensures var r := CreateMaj(g, a, b, c);
      && r.signal.index != n
      && r.net.refs[n] == g.refs[n]
      && forall k :: |g.nodes| <= k < |r.net.nodes| ==> !HasChild(r.net.nodes[k], n)
  {
    var r := CreateMaj(g, a, b, c);
    if Distinct3(a, b, c) && Order3(a, b, c) !in g.hash {
      var t := Order3(a, b, c);
      assert r.net.nodes[|g.nodes|].children == t;
      assert forall j :: 0 <= j < 3 ==> t[j].index != n;
      assert r.net.refs[n] == g.refs[n];
    }
  }

  /** Absorption as the sorted triple applies it: the signal returned for a
      triple with a repeated index carries the majority of the triple. */
  lemma TrivialValue(v: seq<bool>, t: seq<Signal>)
    requires |t| == 3 && t[0].index < |v| && t[1].index < |v| && t[2].index < |v|
    requires t[0].index == t[1].index || t[1].index == t[2].index
    ensures SigValue(v, Absorbed(t)) == MajOf(v, t)
  {
    var x, y, z := SigValue(v, t[0]), SigValue(v, t[1]), SigValue(v, t[2]);
    if t[0].index == t[1].index {
      if t[0].complement == t[1].complement {
        assert x == y;
        MajAbsorption(x, z);
      } else {
        assert y == !x;
        MajAbsorption(x, z);
      }
    } else {
      if t[1].complement == t[2].complement {
        assert y == z;
        MajAbsorption(y, x);
        MajSymmetric(y, y, x);
      } else {
        assert z == !y;
        MajAbsorption(y, x);
        MajSymmetric(y, !y, x);
        MajSymmetric(x, y, !y);
      }
    }
  }

  /** The created signal computes the majority of the three inputs: every
      valuation of the graph extends to the new graph, the new signal
      carrying maj(a, b, c). */
  lemma CreateMajValue(g: Mig, a: Signal, b: Signal, c: Signal, v: seq<bool>) returns (v': seq<bool>)
    requires WellFormed(g)
    requires a.index < |g.nodes| && b.index < |g.nodes| && c.index < |g.nodes|
    requires Consistent(g, v)
    ensures var r := CreateMaj(g, a, b, c);
      && SameBehaviour(g, v, r.net, v')
      && SigValue(v', r.signal) == Maj(SigValue(v, a), SigValue(v, b), SigValue(v, c))
  {
    var r := CreateMaj(g, a, b, c);
    var t := Order3(a, b, c);
    Order3Permutation(a, b, c);
    MajOfPermutation(v, t, a, b, c);
    if !Distinct3(a, b, c) {
      v' := v;
      TrivialValue(v, t);
    } else if t in g.hash {
      v' := v;
      assert GateHolds(v, g.nodes[g.hash[t]], v[g.hash[t]]);
    } else {
      v' := AppendGateValue(g, t, v);
    }
  }

  /** The fresh-node case of `CreateMajValue`: the new gate takes the
      majority of its children's values. */
  lemma AppendGateValue(g: Mig, t: seq<Signal>, v: seq<bool>) returns (v': seq<bool>)
    requires WellFormed(g) && t !in g.hash
    requires |t| == 3 && t[0].index < |g.nodes| && t[1].index < |g.nodes| && t[2].index < |g.nodes|
    requires Consistent(g, v)
    ensures v' == v + [MajOf(v, t)]
    ensures SameBehaviour(g, v, AppendGate(g, t).net, v')
  {
    var r := AppendGate(g, t);
    v' := v + [MajOf(v, t)];
    forall i | 0 <= i < |r.net.nodes|
      ensures GateHolds(v', r.net.nodes[i], v'[i])
    {
      if i < |g.nodes| {
        var nd := g.nodes[i];
        assert r.net.nodes[i] == nd;
        assert GateHolds(v, nd, v[i]);
        if nd.kind == Gate {
          assert MajOf(v', nd.children) == MajOf(v, nd.children);
        }
      }
    }
    forall k | 0 <= k < |g.outputs|
      ensures SigValue(v', r.net.outputs[k]) == SigValue(v, g.outputs[k])
    {
      assert g.outputs[k].index < |v|;
    }
  }

  /** Creating the same gate again, from any ordering of the same three
      signals, returns the same signal and changes nothing: structural
      hashing shares the node. */
  lemma CreateMajIdempotent(g: Mig, a: Signal, b: Signal, c: Signal, p: Signal, q: Signal, s: Signal)
    requires WellFormed(g)
    requires a.index < |g.nodes| && b.index < |g.nodes| && c.index < |g.nodes|
    requires IsPermutation3([p, q, s], a, b, c)
    ensures var r1 := CreateMaj(g, a, b, c);
      var r2 := CreateMaj(r1.net, p, q, s);
      r2.net == r1.net && r2.signal == r1.signal
  {
    if Distinct3(a, b, c) {
      Order3Canonical(a, b, c, p, q, s);
    }
  }
}
