/** Order-preserving selection from a sequence: the meaning of a stream
    `filter`, of `removeIf` on a list, and of each group of `groupingBy`. */
module Seqs {

  /** The elements of `s` that satisfy `keep`, in their order in `s`. */
  function Filter<T>(s: seq<T>, keep: T -> bool): (r: seq<T>)
    ensures |r| <= |s|
    ensures forall k :: 0 <= k < |r| ==> keep(r[k])
  {
    if s == [] then []
    else Filter(s[..|s| - 1], keep) + (if keep(s[|s| - 1]) then [s[|s| - 1]] else [])
  }

  /** `a` is `b` with some elements left out, the others in the same order. */
  predicate IsSubsequence<T(==)>(a: seq<T>, b: seq<T>)
    decreases |b|
  {
    if a == [] then true
    else if b == [] then false
    else if a[|a| - 1] == b[|b| - 1] then IsSubsequence(a[..|a| - 1], b[..|b| - 1])
    else IsSubsequence(a, b[..|b| - 1])
  }

  /** Filtering a concatenation filters each part. */
  lemma {:induction false} FilterAppend<T>(a: seq<T>, b: seq<T>, keep: T -> bool)
    ensures Filter(a + b, keep) == Filter(a, keep) + Filter(b, keep)
    decreases |b|
  {
    if b != [] {
      var b' := b[..|b| - 1];
      assert (a + b)[..|a + b| - 1] == a + b';
      FilterAppend(a, b', keep);
    } else {
      assert a + b == a;
    }
  }

  /** An element is selected exactly when it occurs in `s` and satisfies `keep`. */
  lemma {:induction false} FilterMembership<T>(s: seq<T>, keep: T -> bool, x: T)
    ensures x in Filter(s, keep) <==> x in s && keep(x)
  {
    if s != [] {
      var s' := s[..|s| - 1];
      FilterMembership(s', keep, x);
      assert s == s' + [s[|s| - 1]];
    }
  }

  /** Each element is selected as many times as it occurs in `s` when it
      satisfies `keep`, and never otherwise. */
  lemma {:induction false} FilterCount<T>(s: seq<T>, keep: T -> bool, x: T)
    ensures multiset(Filter(s, keep))[x] == if keep(x) then multiset(s)[x] else 0
  {
    if s != [] {
      var s' := s[..|s| - 1];
      FilterCount(s', keep, x);
      assert s == s' + [s[|s| - 1]];
    }
  }

  /** The selection keeps the relative order of the selected elements. */
  lemma {:induction false} FilterIsSubsequence<T>(s: seq<T>, keep: T -> bool)
    ensures IsSubsequence(Filter(s, keep), s)
  {
    if s != [] {
      var s' := s[..|s| - 1];
      FilterIsSubsequence(s', keep);
      if keep(s[|s| - 1]) {
        var r := Filter(s, keep);
        assert r[..|r| - 1] == Filter(s', keep);
      } else {
        SubsequenceExtend(Filter(s', keep), s', s[|s| - 1]);
        assert s == s' + [s[|s| - 1]];
        assert Filter(s, keep) == Filter(s', keep) + [];
        assert Filter(s', keep) + [] == Filter(s', keep);
      }
    }
  }

  /** A subsequence stays one when the larger sequence grows at its end. */
  lemma {:induction false} SubsequenceExtend<T>(a: seq<T>, b: seq<T>, x: T)
    requires IsSubsequence(a, b)
    ensures IsSubsequence(a, b + [x])
    decreases |b|, 1
  {
    assert (b + [x])[..|b|] == b;
    if a != [] && a[|a| - 1] == x {
      SubsequenceDropLast(a, b);
    }
  }

  /** Dropping the last element of a subsequence keeps it a subsequence. */
  lemma {:induction false} SubsequenceDropLast<T>(a: seq<T>, b: seq<T>)
    requires a != [] && IsSubsequence(a, b)
    ensures IsSubsequence(a[..|a| - 1], b)
    decreases |b|, 0
  {
    var b' := b[..|b| - 1];
    assert b == b' + [b[|b| - 1]];
    if a[|a| - 1] == b[|b| - 1] {
      SubsequenceExtend(a[..|a| - 1], b', b[|b| - 1]);
    } else {
      SubsequenceDropLast(a, b');
      SubsequenceExtend(a[..|a| - 1], b', b[|b| - 1]);
    }
  }

  /** Filtering keeps everything when every element satisfies `keep`. */
  lemma {:induction false} FilterAll<T>(s: seq<T>, keep: T -> bool)
    requires forall k :: 0 <= k < |s| ==> keep(s[k])
    ensures Filter(s, keep) == s
  {
    if s != [] {
      FilterAll(s[..|s| - 1], keep);
    }
  }

  /** Filtering keeps nothing when no element satisfies `keep`. */
  lemma {:induction false} FilterNone<T>(s: seq<T>, keep: T -> bool)
    requires forall k :: 0 <= k < |s| ==> !keep(s[k])
    ensures Filter(s, keep) == []
  {
    if s != [] {
      FilterNone(s[..|s| - 1], keep);
    }
  }

  /** No element occurs twice. */
  predicate Distinct<T(==)>(s: seq<T>) {
    forall i, j :: 0 <= i < j < |s| ==> s[i] != s[j]
  }

  /** Selecting from a sequence without repetitions gives one without repetitions. */
  lemma {:induction false} FilterDistinct<T>(s: seq<T>, keep: T -> bool)
    requires Distinct(s)
    ensures Distinct(Filter(s, keep))
  {
    if s != [] {
      var s', x := s[..|s| - 1], s[|s| - 1];
      FilterDistinct(s', keep);
      FilterMembership(s', keep, x);
      assert x !in s';
    }
  }

  /** Appending the next element of `s` to a prefix of it gives the longer prefix. */
  lemma ExtendPrefix<T>(front: seq<T>, s: seq<T>, k: nat)
    requires k < |s|
    ensures (front + s[..k]) + [s[k]] == front + s[..k + 1]
  {
    assert s[..k + 1] == s[..k] + [s[k]];
  }

  /** Filtering one more element of `s` adds it at the end when it is kept. */
  lemma FilterOfPrefix<T>(s: seq<T>, keep: T -> bool, k: nat)
    requires 0 < k <= |s|
    ensures Filter(s[..k], keep) == Filter(s[..k - 1], keep) + if keep(s[k - 1]) then [s[k - 1]] else []
  {
    assert s[..k][..k - 1] == s[..k - 1];
  }

  /** Filtering around one position: what is kept before it, then the
      element itself if it is kept, then what is kept after it. */
  lemma FilterAround<T>(s: seq<T>, keep: T -> bool, i: nat)
    requires i < |s|
    ensures Filter(s, keep)
      == Filter(s[..i], keep) + (if keep(s[i]) then [s[i]] else []) + Filter(s[i + 1..], keep)
  {
    TakeDrop(s, i + 1);
    FilterAppend(s[..i + 1], s[i + 1..], keep);
    FilterOfPrefix(s, keep, i + 1);
  }

  /** A non-empty sequence is its front followed by its last element. */
  lemma FrontLast<T>(s: seq<T>)
    requires s != []
    ensures s[..|s| - 1] + [s[|s| - 1]] == s
  {
  }

  /** A sequence is what comes before position `k`, the element there, and
      what comes after. */
  lemma SplitAt<T>(s: seq<T>, k: nat)
    requires k < |s|
    ensures s[..k] + [s[k]] + s[k + 1..] == s
  {
  }

  /** A sequence is its prefix followed by the rest. */
  lemma TakeDrop<T>(s: seq<T>, n: nat)
    requires n <= |s|
    ensures s[..n] + s[n..] == s
  {
  }

  /** Filtering a prefix around one of its positions. */
  lemma FilterAroundPrefix<T>(s: seq<T>, keep: T -> bool, i: nat, j: nat)
    requires i < j <= |s|
    ensures Filter(s[..j], keep)
      == Filter(s[..i], keep) + (if keep(s[i]) then [s[i]] else []) + Filter(s[i + 1..j], keep)
  {
    assert s[..j][..i] == s[..i] && s[..j][i] == s[i] && s[..j][i + 1..] == s[i + 1..j];
    FilterAround(s[..j], keep, i);
  }

  /** Nothing is kept from a prefix none of whose elements satisfy `keep`. */
  lemma FilterNoneBefore<T>(s: seq<T>, keep: T -> bool, hi: nat)
    requires hi <= |s| && forall k :: 0 <= k < hi ==> !keep(s[k])
    ensures Filter(s[..hi], keep) == []
  {
    FilterNone(s[..hi], keep);
  }

  /** Nothing is kept from a slice none of whose elements satisfy `keep`. */
  lemma FilterNoneBetween<T>(s: seq<T>, keep: T -> bool, lo: nat, hi: nat)
    requires lo <= hi <= |s| && forall k :: lo <= k < hi ==> !keep(s[k])
    ensures Filter(s[lo..hi], keep) == []
  {
    var t := s[lo..hi];
    forall k | 0 <= k < |t| ensures !keep(t[k]) { assert t[k] == s[lo + k]; }
    FilterNone(t, keep);
  }

  /** Nothing is kept from a suffix none of whose elements satisfy `keep`. */
  lemma FilterNoneAfter<T>(s: seq<T>, keep: T -> bool, lo: nat)
    requires lo <= |s| && forall k :: lo <= k < |s| ==> !keep(s[k])
    ensures Filter(s[lo..], keep) == []
  {
    var t := s[lo..];
    forall k | 0 <= k < |t| ensures !keep(t[k]) { assert t[k] == s[lo + k]; }
    FilterNone(t, keep);
  }

  /** Everything is kept from a prefix all of whose elements satisfy `keep`. */
  lemma FilterAllBefore<T>(s: seq<T>, keep: T -> bool, hi: nat)
    requires hi <= |s| && forall k :: 0 <= k < hi ==> keep(s[k])
    ensures Filter(s[..hi], keep) == s[..hi]
  {
    FilterAll(s[..hi], keep);
  }

  /** Everything is kept from a suffix all of whose elements satisfy `keep`. */
  lemma FilterAllAfter<T>(s: seq<T>, keep: T -> bool, lo: nat)
    requires lo <= |s| && forall k :: lo <= k < |s| ==> keep(s[k])
    ensures Filter(s[lo..], keep) == s[lo..]
  {
    var t := s[lo..];
    forall k | 0 <= k < |t| ensures keep(t[k]) { assert t[k] == s[lo + k]; }
    FilterAll(t, keep);
  }
}
