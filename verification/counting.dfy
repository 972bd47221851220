/** Counting and summing over sequences, with the algebra the pass proofs use. */
module Counting {

  /** Number of elements of `s` that satisfy `p`. */
  function CountIf<T>(s: seq<T>, p: T -> bool): (r: nat)
    ensures r <= |s|
  {
    if |s| == 0 then 0 else CountIf(s[..|s| - 1], p) + (if p(s[|s| - 1]) then 1 else 0)
  }

  /** Sum of `f` over the elements of `s`. */
  function SumOf<T>(s: seq<T>, f: T -> int): (r: int)
  {
    if |s| == 0 then 0 else SumOf(s[..|s| - 1], f) + f(s[|s| - 1])
  }

  lemma {:induction false} CountIfAppend<T>(s: seq<T>, t: seq<T>, p: T -> bool)
    ensures CountIf(s + t, p) == CountIf(s, p) + CountIf(t, p)
    decreases |t|
  {
    if |t| == 0 {
      assert s + t == s;
    } else {
      var t' := t[..|t| - 1];
      assert (s + t)[..|s + t| - 1] == s + t';
      CountIfAppend(s, t', p);
    }
  }

  lemma {:induction false} SumOfAppend<T>(s: seq<T>, t: seq<T>, f: T -> int)
    ensures SumOf(s + t, f) == SumOf(s, f) + SumOf(t, f)
    decreases |t|
  {
    if |t| == 0 {
      assert s + t == s;
    } else {
      var t' := t[..|t| - 1];
      assert (s + t)[..|s + t| - 1] == s + t';
      SumOfAppend(s, t', f);
    }
  }

  /** Replacing one element changes the count by the difference of its two indicators. */
  lemma CountIfUpdate<T>(s: seq<T>, i: nat, x: T, p: T -> bool)
    requires i < |s|
    ensures CountIf(s[i := x], p) == CountIf(s, p) - (if p(s[i]) then 1 else 0) + (if p(x) then 1 else 0)
  {
    assert s == s[..i] + [s[i]] + s[i + 1..];
    assert s[i := x] == s[..i] + [x] + s[i + 1..];
    CountIfAppend(s[..i] + [s[i]], s[i + 1..], p);
    CountIfAppend(s[..i] + [x], s[i + 1..], p);
    CountIfAppend(s[..i], [s[i]], p);
    CountIfAppend(s[..i], [x], p);
  }

  /** Replacing one element changes the sum by the difference of its two terms. */
  lemma SumOfUpdate<T>(s: seq<T>, i: nat, x: T, f: T -> int)
    requires i < |s|
    ensures SumOf(s[i := x], f) == SumOf(s, f) - f(s[i]) + f(x)
  {
    assert s == s[..i] + [s[i]] + s[i + 1..];
    assert s[i := x] == s[..i] + [x] + s[i + 1..];
    SumOfAppend(s[..i] + [s[i]], s[i + 1..], f);
    SumOfAppend(s[..i] + [x], s[i + 1..], f);
    SumOfAppend(s[..i], [s[i]], f);
    SumOfAppend(s[..i], [x], f);
  }

  /** A weaker predicate counts at least as many elements. */
  lemma {:induction false} CountIfMono<T>(s: seq<T>, p: T -> bool, q: T -> bool)
    requires forall x :: p(x) ==> q(x)
    ensures CountIf(s, p) <= CountIf(s, q)
    decreases |s|
  {
    if |s| > 0 {
      CountIfMono(s[..|s| - 1], p, q);
    }
  }

  /** A pointwise smaller term gives a smaller sum. */
  lemma {:induction false} SumOfMono<T>(s: seq<T>, f: T -> int, h: T -> int)
    requires forall x :: f(x) <= h(x)
    ensures SumOf(s, f) <= SumOf(s, h)
    decreases |s|
  {
    if |s| > 0 {
      SumOfMono(s[..|s| - 1], f, h);
    }
  }

  /** Two functions that agree on the elements of `s` have the same sum over it. */
  lemma {:induction false} SumOfCongruent<T>(s: seq<T>, f: T -> int, h: T -> int)
    requires forall i :: 0 <= i < |s| ==> f(s[i]) == h(s[i])
    ensures SumOf(s, f) == SumOf(s, h)
    decreases |s|
  {
    if |s| > 0 {
      SumOfCongruent(s[..|s| - 1], f, h);
    }
  }

  /** Two predicates that agree on the elements of `s` count the same. */
  lemma {:induction false} CountIfCongruent<T>(s: seq<T>, p: T -> bool, q: T -> bool)
    requires forall i :: 0 <= i < |s| ==> p(s[i]) == q(s[i])
    ensures CountIf(s, p) == CountIf(s, q)
    decreases |s|
  {
    if |s| > 0 {
      CountIfCongruent(s[..|s| - 1], p, q);
    }
  }

  /** Two sequences whose elements satisfy `p` at the same positions count the same. */
  lemma {:induction false} CountIfPointwise<T>(s: seq<T>, t: seq<T>, p: T -> bool)
    requires |s| == |t| && forall i :: 0 <= i < |s| ==> p(s[i]) == p(t[i])
    ensures CountIf(s, p) == CountIf(t, p)
    decreases |s|
  {
    if |s| > 0 {
      CountIfPointwise(s[..|s| - 1], t[..|t| - 1], p);
    }
  }

  /** Replacing element `n` and appending one element moves the count by
      the three indicators involved. */
  lemma CountIfReplaceAppend<T>(a: seq<T>, b: seq<T>, n: nat, p: T -> bool)
    requires |b| == |a| + 1 && n < |a|
    requires forall k :: 0 <= k < |a| && k != n ==> p(b[k]) == p(a[k])
    ensures CountIf(b, p) ==
      CountIf(a, p) - (if p(a[n]) then 1 else 0) + (if p(b[n]) then 1 else 0) + (if p(b[|a|]) then 1 else 0)
  {
    var front := b[..|a|];
    CountIfUpdate(a, n, b[n], p);
    CountIfPointwise(a[n := b[n]], front, p);
  }

  /** Nothing satisfies `p`: the count is zero. */
  lemma {:induction false} CountIfNone<T>(s: seq<T>, p: T -> bool)
    requires forall i :: 0 <= i < |s| ==> !p(s[i])
    ensures CountIf(s, p) == 0
    decreases |s|
  {
    if |s| > 0 {
      CountIfNone(s[..|s| - 1], p);
    }
  }

  /** Something satisfies `p`: the count is positive. */
  lemma {:induction false} CountIfSome<T>(s: seq<T>, p: T -> bool, i: nat)
    requires i < |s| && p(s[i])
    ensures CountIf(s, p) > 0
    decreases |s|
  {
    if i < |s| - 1 {
      CountIfSome(s[..|s| - 1], p, i);
    }
  }

  /** A sum of non-negative terms is non-negative. */
  lemma {:induction false} SumOfNonNegative<T>(s: seq<T>, f: T -> int)
    requires forall x :: f(x) >= 0
    ensures SumOf(s, f) >= 0
    decreases |s|
  {
    if |s| > 0 {
      SumOfNonNegative(s[..|s| - 1], f);
    }
  }

  /** A sum of non-negative terms is zero exactly when every term is. */
  lemma {:induction false} SumOfZero<T>(s: seq<T>, f: T -> int)
    requires forall x :: f(x) >= 0
    ensures SumOf(s, f) == 0 <==> forall i :: 0 <= i < |s| ==> f(s[i]) == 0
    decreases |s|
  {
    if |s| > 0 {
      SumOfZero(s[..|s| - 1], f);
      SumOfNonNegative(s[..|s| - 1], f);
      assert forall i :: 0 <= i < |s| - 1 ==> s[..|s| - 1][i] == s[i];
    }
  }

  /** Sequences whose elements agree under `f` position by position have the same sum. */
  lemma {:induction false} SumOfSame<T>(s: seq<T>, t: seq<T>, f: T -> int)
    requires |s| == |t| && forall i :: 0 <= i < |s| ==> f(s[i]) == f(t[i])
    ensures SumOf(s, f) == SumOf(t, f)
    decreases |s|
  {
    if |s| > 0 {
      SumOfSame(s[..|s| - 1], t[..|t| - 1], f);
    }
  }

  /** Toggling `p` on the elements selected by `q` moves the count by the
      selected elements that did not satisfy `p` (those `off` picks) minus
      those that did (those `on` picks). */
  lemma {:induction false} CountIfToggle<T>(s: seq<T>, t: seq<T>, p: T -> bool, q: T -> bool, on: T -> bool, off: T -> bool)
    requires |s| == |t|
    requires forall i :: 0 <= i < |s| ==> p(t[i]) == (p(s[i]) != q(s[i]))
    requires forall i :: 0 <= i < |s| ==> on(s[i]) == (q(s[i]) && p(s[i])) && off(s[i]) == (q(s[i]) && !p(s[i]))
    ensures CountIf(t, p) == CountIf(s, p) + CountIf(s, off) - CountIf(s, on)
    decreases |s|
  {
    if |s| > 0 {
      CountIfToggle(s[..|s| - 1], t[..|t| - 1], p, q, on, off);
    }
  }

  /** The count over three elements. */
  lemma CountIfThree<T>(x: T, y: T, z: T, p: T -> bool)
    ensures CountIf([x, y, z], p) == (if p(x) then 1 else 0) + (if p(y) then 1 else 0) + (if p(z) then 1 else 0)
  {
    assert [x, y, z][..2] == [x, y];
    assert [x, y][..1] == [x];
    assert [x][..0] == [];
    assert CountIf([x], p) == (if p(x) then 1 else 0);
    assert CountIf([x, y], p) == CountIf([x], p) + (if p(y) then 1 else 0);
  }

  /** Counting a sequence from the front. */
  lemma CountIfFront<T>(s: seq<T>, p: T -> bool)
    requires |s| > 0
    ensures CountIf(s, p) == (if p(s[0]) then 1 else 0) + CountIf(s[1..], p)
  {
    var x := s[0];
    assert [x][..0] == [];
    assert CountIf([x], p) == (if p(x) then 1 else 0);
    assert s == [x] + s[1..];
    CountIfAppend([x], s[1..], p);
  }
}
