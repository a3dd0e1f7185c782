/** Sequence functions the pipeline's specifications are written with: mapping
    a sequence, counting occurrences, and the distinct elements in the order of
    their first occurrence. All recursion runs from the right end, the way the
    source's loops grow their results one element at a time. */
module Seqs {

  /** `f` applied to every element, in order. */
  function MapSeq<A, B>(f: A -> B, s: seq<A>): (r: seq<B>)
    ensures |r| == |s|
    ensures forall i | 0 <= i < |s| :: r[i] == f(s[i])
  {
    if s == [] then [] else MapSeq(f, s[..|s| - 1]) + [f(s[|s| - 1])]
  }

  /** Mapping by `g` after `f` gives the sequence back when `g` undoes `f`. */
  lemma MapSeqInverse<A, B>(f: A -> B, g: B -> A, s: seq<A>)
    requires forall x :: g(f(x)) == x
    ensures MapSeq(g, MapSeq(f, s)) == s
  {
    var r := MapSeq(g, MapSeq(f, s));
    assert |r| == |s|;
    forall i | 0 <= i < |s| ensures r[i] == s[i] { }
  }

  /** Mapping distributes over concatenation. */
  lemma MapSeqAppend<A, B>(f: A -> B, a: seq<A>, b: seq<A>)
    ensures MapSeq(f, a + b) == MapSeq(f, a) + MapSeq(f, b)
  {
    var l, r := MapSeq(f, a + b), MapSeq(f, a) + MapSeq(f, b);
    assert |l| == |r|;
    forall i | 0 <= i < |l| ensures l[i] == r[i] {
      if i >= |a| { assert (a + b)[i] == b[i - |a|]; }
    }
  }

  /** How many times `x` occurs in `s`. */
  function Occurrences<T(==)>(s: seq<T>, x: T): (n: nat)
    ensures n <= |s|
  {
    if s == [] then 0
    else Occurrences(s[..|s| - 1], x) + (if s[|s| - 1] == x then 1 else 0)
  }

  /** An element occurs zero times exactly when it is not in the sequence. */
  lemma {:induction false} OccurrencesZero<T>(s: seq<T>, x: T)
    ensures Occurrences(s, x) == 0 <==> x !in s
  {
    if s != [] {
      var init := s[..|s| - 1];
      OccurrencesZero(init, x);
      assert s == init + [s[|s| - 1]];
    }
  }

  /** One more element adds one occurrence of itself and of nothing else. */
  lemma OccurrencesSnoc<T>(s: seq<T>, x: T, y: T)
    ensures Occurrences(s + [x], y) == Occurrences(s, y) + if x == y then 1 else 0
  {
    assert (s + [x])[..|s|] == s;
  }

  /** Occurrences in a concatenation add up. */
  lemma {:induction false} OccurrencesAppend<T>(a: seq<T>, b: seq<T>, x: T)
    ensures Occurrences(a + b, x) == Occurrences(a, x) + Occurrences(b, x)
  {
    if b != [] {
      var init := b[..|b| - 1];
      assert a + b == (a + init) + [b[|b| - 1]];
      OccurrencesAppend(a, init, x);
      OccurrencesSnoc(a + init, b[|b| - 1], x);
      OccurrencesSnoc(init, b[|b| - 1], x);
      assert b == init + [b[|b| - 1]];
    } else {
      assert a + b == a;
    }
  }

  /** No element occurs twice. */
  predicate Distinct<T(==)>(s: seq<T>)
  {
    forall i, j | 0 <= i < j < |s| :: s[i] != s[j]
  }

  /** The distinct elements of `s`, each where it first occurs. */
  function FirstSeen<T(==, !new)>(s: seq<T>): (r: seq<T>)
    ensures Distinct(r)
    ensures forall x :: x in r <==> x in s
  {
    if s == [] then []
    else
      var earlier := FirstSeen(s[..|s| - 1]);
      if s[|s| - 1] in earlier then earlier else earlier + [s[|s| - 1]]
  }

  /** One more element is listed last if it is new, and changes nothing
      otherwise. */
  lemma FirstSeenSnoc<T(!new)>(s: seq<T>, x: T)
    ensures FirstSeen(s + [x]) == if x in FirstSeen(s) then FirstSeen(s) else FirstSeen(s) + [x]
  {
    assert (s + [x])[..|s|] == s;
  }

  /** The index of the first occurrence of `x` in `s`. */
  function FirstIndex<T(==)>(s: seq<T>, x: T): (i: nat)
    requires x in s
    ensures i < |s| && s[i] == x && x !in s[..i]
  {
    if s[0] == x then 0 else 1 + FirstIndex(s[1..], x)
  }

  /** `FirstSeen` lists the distinct elements in the order in which they are
      first met while walking `s` from the left. */
  lemma {:induction false} FirstSeenOrder<T(!new)>(s: seq<T>, j: nat, k: nat)
    requires j < k < |FirstSeen(s)|
    ensures FirstIndex(s, FirstSeen(s)[j]) < FirstIndex(s, FirstSeen(s)[k])
  {
    var init := s[..|s| - 1];
    var last := s[|s| - 1];
    var earlier := FirstSeen(init);
    var f := FirstSeen(s);
    assert s == init + [last];
    FirstIndexPrefix(init, last, f[j]);
    FirstIndexPrefix(init, last, f[k]);
    if last in earlier {
      FirstSeenOrder(init, j, k);
    } else if k < |earlier| {
      FirstSeenOrder(init, j, k);
    } else {
      assert f[k] == last && last !in init;
      assert f[j] == earlier[j] && f[j] in init;
    }
  }

  /** Appending an element does not move the first occurrence of anything
      already present. */
  lemma FirstIndexPrefix<T>(s: seq<T>, y: T, x: T)
    requires x in s + [y]
    ensures x in s ==> FirstIndex(s + [y], x) == FirstIndex(s, x)
    ensures x !in s ==> FirstIndex(s + [y], x) == |s|
  {
    var i := FirstIndex(s + [y], x);
    assert (s + [y])[..i] == if i <= |s| then s[..i] else s + [y];
    if x in s {
      var i' := FirstIndex(s, x);
      assert (s + [y])[i'] == x;
      assert s[..i'] == (s + [y])[..i'];
    }
  }

  /** Sum over `keys` of the number of times each key occurs in `s`. */
  function SumOccurrences<T(==)>(keys: seq<T>, s: seq<T>): nat
  {
    if keys == [] then 0
    else SumOccurrences(keys[..|keys| - 1], s) + Occurrences(s, keys[|keys| - 1])
  }

  /** One more element in `s` adds, to the sum over `keys`, the number of
      times that element is a key. */
  lemma {:induction false} SumOccurrencesSnoc<T>(keys: seq<T>, s: seq<T>, x: T)
    ensures SumOccurrences(keys, s + [x]) == SumOccurrences(keys, s) + Occurrences(keys, x)
  {
    if keys != [] {
      SumOccurrencesSnoc(keys[..|keys| - 1], s, x);
      assert (s + [x])[..|s|] == s;
    } else {
      assert (s + [x])[..|s|] == s;
    }
  }

  /** In a sequence without repetitions an element occurs at most once. */
  lemma {:induction false} DistinctOccursOnce<T>(s: seq<T>, x: T)
    requires Distinct(s)
    ensures Occurrences(s, x) == if x in s then 1 else 0
  {
    if s != [] {
      var init := s[..|s| - 1];
      DistinctOccursOnce(init, x);
      if s[|s| - 1] == x {
        assert x !in init;
      }
      assert x in s <==> x in init || s[|s| - 1] == x by { assert s == init + [s[|s| - 1]]; }
    }
  }

  /** Counting every distinct element of `s` once accounts for every position of
      `s` exactly once. */
  lemma {:induction false} SumOccurrencesFirstSeen<T(!new)>(s: seq<T>)
    ensures SumOccurrences(FirstSeen(s), s) == |s|
  {
    if s != [] {
      var init, last := s[..|s| - 1], s[|s| - 1];
      var earlier := FirstSeen(init);
      assert s == init + [last];
      SumOccurrencesFirstSeen(init);
      SumOccurrencesSnoc(earlier, init, last);
      DistinctOccursOnce(earlier, last);
      if last !in earlier {
        var f := earlier + [last];
        assert f[..|f| - 1] == earlier;
        assert Occurrences(s, last) == 1 by {
          OccurrencesZero(init, last);
          OccurrencesSnoc(init, last, last);
        }
      }
    }
  }
}
