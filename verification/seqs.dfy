/** Sequence facts shared by the tree and editor models. */
module Seqs {

  /** `s` is an interleaving of `a` and `b`: both occur in `s` in their own order,
      and together they make up all of `s`. */
  ghost predicate Merge<T>(s: seq<T>, a: seq<T>, b: seq<T>)
    decreases |s|
  {
    if s == [] then a == [] && b == []
    else
      || (a != [] && s[0] == a[0] && Merge(s[1..], a[1..], b))
      || (b != [] && s[0] == b[0] && Merge(s[1..], a, b[1..]))
  }

  lemma {:induction false} MergeAllLeft<T>(s: seq<T>)
    ensures Merge(s, s, [])
    decreases |s|
  {
    if s != [] {
      MergeAllLeft(s[1..]);
    }
  }

  lemma {:induction false} MergeAllRight<T>(s: seq<T>)
    ensures Merge(s, [], s)
    decreases |s|
  {
    if s != [] {
      MergeAllRight(s[1..]);
    }
  }

  /** Interleavings compose under concatenation. */
  lemma {:induction false} MergeConcat<T>(s1: seq<T>, a1: seq<T>, b1: seq<T>, s2: seq<T>, a2: seq<T>, b2: seq<T>)
    requires Merge(s1, a1, b1) && Merge(s2, a2, b2)
    ensures Merge(s1 + s2, a1 + a2, b1 + b2)
    decreases |s1|
  {
    if s1 == [] {
      assert s1 + s2 == s2 && a1 + a2 == a2 && b1 + b2 == b2;
    } else if a1 != [] && s1[0] == a1[0] && Merge(s1[1..], a1[1..], b1) {
      MergeConcat(s1[1..], a1[1..], b1, s2, a2, b2);
      assert (s1 + s2)[1..] == s1[1..] + s2;
      assert (a1 + a2)[1..] == a1[1..] + a2;
    } else {
      MergeConcat(s1[1..], a1, b1[1..], s2, a2, b2);
      assert (s1 + s2)[1..] == s1[1..] + s2;
      assert (b1 + b2)[1..] == b1[1..] + b2;
    }
  }

  /** An interleaving conserves elements: nothing is lost and nothing is added. */
  lemma {:induction false} MergeMultiset<T>(s: seq<T>, a: seq<T>, b: seq<T>)
    requires Merge(s, a, b)
    ensures multiset(s) == multiset(a) + multiset(b)
    decreases |s|
  {
    if s != [] {
      if a != [] && s[0] == a[0] && Merge(s[1..], a[1..], b) {
        MergeMultiset(s[1..], a[1..], b);
        assert s == [s[0]] + s[1..] && a == [a[0]] + a[1..];
      } else {
        MergeMultiset(s[1..], a, b[1..]);
        assert s == [s[0]] + s[1..] && b == [b[0]] + b[1..];
      }
    }
  }

  /** The elements `x` of `s` with `p(x) == keep`, in order: `filter(p)` for
      `keep`, and the complementary filter otherwise. */
  function Select<T(!new)>(s: seq<T>, p: T -> bool, keep: bool): (r: seq<T>)
    ensures forall x :: x in r <==> x in s && p(x) == keep
    ensures |r| <= |s|
  {
    if s == [] then []
    else if p(s[0]) == keep then [s[0]] + Select(s[1..], p, keep)
    else Select(s[1..], p, keep)
  }

  /** A filter keeps order: what it keeps and what it drops interleave to the
      whole sequence. */
  lemma {:induction false} SelectInOrder<T(!new)>(s: seq<T>, p: T -> bool)
    ensures Merge(s, Select(s, p, false), Select(s, p, true))
    decreases |s|
  {
    if s != [] {
      SelectInOrder(s[1..], p);
    }
  }
}
