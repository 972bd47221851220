/** Signals of a majority-inverter graph and the three-input majority function.

    A signal is an edge of the graph: the index of the node it reads and a
    complement bit saying whether that node's value is inverted on the way.
    The lemmas here are the Boolean identities the inverter passes rely on:
    order independence, absorption and self-duality of majority. */
module Signals {

  datatype Signal = Signal(index: nat, complement: bool)

  /** The signal with the opposite polarity (operator `!` on signals). */
  function Not(s: Signal): (r: Signal)
    ensures r.index == s.index && r.complement == !s.complement
  {
    Signal(s.index, !s.complement)
  }

  /** Majority of three Boolean values: true when at least two are true. */
  function Maj(x: bool, y: bool, z: bool): (r: bool)
  {
    (x && y) || (x && z) || (y && z)
  }

  /** The value a signal carries, given one value per node. */
  function SigValue(v: seq<bool>, s: Signal): (r: bool)
    requires s.index < |v|
  {
    v[s.index] != s.complement
  }

  lemma NotValue(v: seq<bool>, s: Signal)
    requires s.index < |v|
    ensures SigValue(v, Not(s)) == !SigValue(v, s)
  {
  }

  /** Majority does not depend on the order of its arguments. */
  lemma MajSymmetric(x: bool, y: bool, z: bool)
    ensures Maj(x, y, z) == Maj(y, x, z) == Maj(x, z, y) == Maj(z, y, x)
    ensures Maj(x, y, z) == Maj(y, z, x) == Maj(z, x, y)
  {
  }

  /** maj(x, x, y) = x and maj(x, !x, y) = y. */
  lemma MajAbsorption(x: bool, y: bool)
    ensures Maj(x, x, y) == x
    ensures Maj(x, !x, y) == y
  {
  }

  /** Complementing the output of a majority gate is the same as
      complementing all three of its inputs. */
  lemma MajSelfDual(x: bool, y: bool, z: bool)
    ensures !Maj(!x, !y, !z) == Maj(x, y, z)
  {
  }

  /** Three signals whose indices are pairwise different. */
  predicate Distinct3(a: Signal, b: Signal, c: Signal)
  {
    a.index != b.index && b.index != c.index && a.index != c.index
  }

  /** `r` lists the three signals a, b, c in some order. */
  predicate IsPermutation3(r: seq<Signal>, a: Signal, b: Signal, c: Signal)
  {
    || r == [a, b, c] || r == [a, c, b] || r == [b, a, c]
    || r == [b, c, a] || r == [c, a, b] || r == [c, b, a]
  }

  /** Majority of the values of a three-signal sequence. */
  function MajOf(v: seq<bool>, t: seq<Signal>): (r: bool)
    requires |t| == 3
    requires t[0].index < |v| && t[1].index < |v| && t[2].index < |v|
  {
    Maj(SigValue(v, t[0]), SigValue(v, t[1]), SigValue(v, t[2]))
  }

  /** Reordering the three signals of a gate does not change its value. */
  lemma MajOfPermutation(v: seq<bool>, r: seq<Signal>, a: Signal, b: Signal, c: Signal)
    requires IsPermutation3(r, a, b, c)
    requires a.index < |v| && b.index < |v| && c.index < |v|
    ensures MajOf(v, r) == Maj(SigValue(v, a), SigValue(v, b), SigValue(v, c))
  {
    MajSymmetric(SigValue(v, a), SigValue(v, b), SigValue(v, c));
  }
}
