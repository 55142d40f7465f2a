/** Sequence helpers for reasoning about work that completes in an arbitrary order. */
module Seqs {
  import opened Common

  /** The indices 0, 1, ..., n - 1 in order. */
  function Range(n: nat): (r: seq<nat>)
    ensures |r| == n && forall i :: 0 <= i < n ==> r[i] == i
  {
    seq(n, i => i)
  }

  /** `order` lists every index below `n` exactly once, in some order: the order
      in which `n` submitted tasks complete. */
  predicate IsOrder(order: seq<nat>, n: nat) {
    multiset(order) == multiset(Range(n))
  }

  predicate Below(order: seq<nat>, n: nat) {
    forall k :: 0 <= k < |order| ==> order[k] < n
  }

  lemma OrderBelow(order: seq<nat>, n: nat)
    requires IsOrder(order, n)
    ensures |order| == n && Below(order, n)
  {
    assert |multiset(order)| == |multiset(Range(n))|;
    forall k | 0 <= k < |order| ensures order[k] < n {
      assert order[k] in multiset(Range(n));
    }
  }

  /** The elements of `s` in the order `order` visits them. */
  function Pick<T>(s: seq<T>, order: seq<nat>): (r: seq<T>)
    requires Below(order, |s|)
    ensures |r| == |order| && forall k :: 0 <= k < |order| ==> r[k] == s[order[k]]
  {
    seq(|order|, k requires 0 <= k < |order| => s[order[k]])
  }

  /** The values `f` keeps from `s`, in the order of `s` (a Python list
      comprehension with a filter). */
  function Collect<T, U>(s: seq<T>, f: T -> Option<U>): (r: seq<U>)
    ensures |r| <= |s|
  {
    if s == [] then []
    else Collect(s[..|s| - 1], f) + (match f(s[|s| - 1]) case Some(y) => [y] case None => [])
  }

  /** What `Collect` keeps is exactly the values `f` gives to elements of `s`. */
  lemma {:induction false} CollectMembers<T, U>(s: seq<T>, f: T -> Option<U>)
    ensures forall y :: y in Collect(s, f) ==> exists x :: x in s && f(x) == Some(y)
    ensures forall x :: x in s && f(x).Some? ==> f(x).value in Collect(s, f)
  {
    if s != [] {
      var init := s[..|s| - 1];
      CollectMembers(init, f);
      assert s == init + [s[|s| - 1]];
    }
  }

  /** Appending one element appends what `f` keeps of it. */
  lemma CollectSnoc<T, U>(s: seq<T>, x: T, f: T -> Option<U>)
    ensures Collect(s + [x], f) == Collect(s, f) + (if f(x).Some? then [f(x).value] else [])
  {
    assert (s + [x])[..|s|] == s;
  }

  /** Visiting one more index visits one more element. */
  lemma PickSnoc<T>(s: seq<T>, order: seq<nat>, k: nat)
    requires Below(order, |s|) && k < |order|
    ensures Pick(s, order[..k + 1]) == Pick(s, order[..k]) + [s[order[k]]]
  {
  }

  /** When `f` keeps every element, nothing is dropped. */
  lemma {:induction false} CollectKeepsAll<T, U>(s: seq<T>, f: T -> Option<U>)
    requires forall x :: x in s ==> f(x).Some?
    ensures |Collect(s, f)| == |s|
  {
    if s != [] {
      assert forall x :: x in s[..|s| - 1] ==> x in s;
      CollectKeepsAll(s[..|s| - 1], f);
    }
  }

  lemma {:induction false} CollectConcat<T, U>(a: seq<T>, b: seq<T>, f: T -> Option<U>)
    ensures Collect(a + b, f) == Collect(a, f) + Collect(b, f)
    decreases |b|
  {
    if b == [] {
      assert a + b == a;
    } else {
      var b' := b[..|b| - 1];
      assert (a + b)[..|a + b| - 1] == a + b';
      CollectConcat(a, b', f);
    }
  }

  /** Taking the same element out of two permutations of each other leaves two permutations. */
  lemma RemoveMatching<T>(a: seq<T>, x: T, b: seq<T>, j: nat)
    requires j < |b| && b[j] == x
    requires multiset(a + [x]) == multiset(b)
    ensures multiset(a) == multiset(b[..j] + b[j + 1..])
  {
    Around(b, j);
    assert multiset(b) == multiset(b[..j]) + multiset([x]) + multiset(b[j + 1..]);
    assert multiset(a) == multiset(a + [x]) - multiset([x]);
  }

  /** Taking one element out of the input takes what `f` keeps of it out of the output. */
  lemma CollectSplit<T, U>(b: seq<T>, j: nat, f: T -> Option<U>)
    requires j < |b|
    ensures multiset(Collect(b, f)) == multiset(Collect(b[..j] + b[j + 1..], f)) + multiset(Collect([b[j]], f))
  {
    var p, x, q := b[..j], [b[j]], b[j + 1..];
    var cp, cx, cq := Collect(p, f), Collect(x, f), Collect(q, f);
    assert Collect(b, f) == cp + cx + cq by {
      Around(b, j);
      assert Collect(b, f) == Collect(p + x, f) + cq by {
        CollectConcat(p + x, q, f);
      }
      assert Collect(p + x, f) == cp + cx by {
        CollectConcat(p, x, f);
      }
    }
    assert Collect(p + q, f) == cp + cq by {
      CollectConcat(p, q, f);
    }
    MultisetSwap(cp, cx, cq);
  }

  /** A sequence is what comes before position `j`, the element at `j`, and what comes after. */
  lemma Around<T>(b: seq<T>, j: nat)
    requires j < |b|
    ensures b == b[..j] + [b[j]] + b[j + 1..]
  {
  }

  /** An element of a sequence other than its last one is in the rest. */
  lemma InInit<T>(s: seq<T>, x: T)
    requires x in s && x != s[|s| - 1]
    ensures x in s[..|s| - 1]
  {
    assert s == s[..|s| - 1] + [s[|s| - 1]];
  }

  /** When `a` and `b` together are `c`, appending one element to either of
      them matches appending it to `c`. */
  lemma AddToBoth<T>(a: seq<T>, b: seq<T>, c: seq<T>, x: T)
    requires multiset(a) + multiset(b) == multiset(c)
    ensures multiset(a + [x]) + multiset(b) == multiset(c + [x])
    ensures multiset(a) + multiset(b + [x]) == multiset(c + [x])
  {
  }

  /** Moving the middle part of a sequence to the end keeps its multiset. */
  lemma MultisetSwap<U>(a: seq<U>, b: seq<U>, c: seq<U>)
    ensures multiset(a + b + c) == multiset(a + c) + multiset(b)
  {
    calc {
      multiset(a + b + c);
      multiset(a + b) + multiset(c);
      multiset(a) + multiset(b) + multiset(c);
      multiset(a + c) + multiset(b);
    }
  }

  /** Reordering the input reorders the output and changes nothing else. */
  lemma {:induction false} CollectPerm<T, U>(a: seq<T>, b: seq<T>, f: T -> Option<U>)
    requires multiset(a) == multiset(b)
    ensures multiset(Collect(a, f)) == multiset(Collect(b, f))
    decreases |a|
  {
    if a == [] {
      assert |b| == |multiset(b)| == 0;
    } else {
      var a' := a[..|a| - 1];
      var x := a[|a| - 1];
      assert a == a' + [x];
      assert x in multiset(b);
      var j :| 0 <= j < |b| && b[j] == x;
      var rest := b[..j] + b[j + 1..];
      assert multiset(Collect(a', f)) == multiset(Collect(rest, f)) by {
        RemoveMatching(a', x, b, j);
        CollectPerm(a', rest, f);
      }
      assert Collect(a, f) == Collect(a', f) + Collect([x], f) by {
        CollectConcat(a', [x], f);
      }
      CollectSplit(b, j, f);
    }
  }

  /** Taking one position out of a visiting order takes one element out of what it visits. */
  lemma PickSplit<T>(s: seq<T>, o: seq<nat>, j: nat)
    requires Below(o, |s|) && j < |o|
    ensures Below(o[..j] + o[j + 1..], |s|)
    ensures multiset(Pick(s, o)) == multiset(Pick(s, o[..j] + o[j + 1..])) + multiset{s[o[j]]}
  {
    var rest := o[..j] + o[j + 1..];
    assert Pick(s, o) == Pick(s, o[..j]) + [s[o[j]]] + Pick(s, o[j + 1..]);
    assert Pick(s, rest) == Pick(s, o[..j]) + Pick(s, o[j + 1..]);
  }

  /** Visiting the same indices in another order gives the same elements in another order. */
  lemma {:induction false} PickPerm<T>(s: seq<T>, o1: seq<nat>, o2: seq<nat>)
    requires Below(o1, |s|) && Below(o2, |s|)
    requires multiset(o1) == multiset(o2)
    ensures multiset(Pick(s, o1)) == multiset(Pick(s, o2))
    decreases |o1|
  {
    if o1 == [] {
      assert |o2| == |multiset(o2)| == 0;
    } else {
      var n := |o1| - 1;
      var o1' := o1[..n];
      var x := o1[n];
      assert o1 == o1' + [x];
      assert x in multiset(o2);
      var j :| 0 <= j < |o2| && o2[j] == x;
      RemoveMatching(o1', x, o2, j);
      PickPerm(s, o1', o2[..j] + o2[j + 1..]);
      PickSplit(s, o2, j);
      PickSplit(s, o1, n);
      assert o1[..n] + o1[n + 1..] == o1';
    }
  }

  /** Taking the submitted futures in any completion order yields a permutation of them. */
  lemma PickOrder<T>(s: seq<T>, order: seq<nat>)
    requires IsOrder(order, |s|)
    ensures Below(order, |s|) && multiset(Pick(s, order)) == multiset(s)
  {
    OrderBelow(order, |s|);
    PickPerm(s, order, Range(|s|));
    assert Pick(s, Range(|s|)) == s;
  }
}
