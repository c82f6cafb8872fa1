/**
 Sequences built by concatenating, in order, what a function yields for each
 element of another sequence. Each event stream written by the contact-reporting
 pass is such a sequence over the collision registry, so the facts proved here
 (splitting, membership, multiplicity, length, permutation) are shared by the
 three streams.
 */
module Sequences {

  /** f(s[0]) + f(s[1]) + ... + f(s[|s| - 1]). */
  function FlatMap<A, T>(s: seq<A>, f: A -> seq<T>): seq<T>
  {
    if s == [] then [] else FlatMap(s[..|s| - 1], f) + f(s[|s| - 1])
  }

  /** The number of elements of s that satisfy p. */
  function Count<A>(s: seq<A>, p: A -> bool): (n: nat)
    ensures n <= |s|
  {
    if s == [] then 0 else Count(s[..|s| - 1], p) + (if p(s[|s| - 1]) then 1 else 0)
  }

  lemma AppendAssociative<T>(a: seq<T>, b: seq<T>, c: seq<T>)
    ensures (a + b) + c == a + (b + c)
  {
  }

  lemma FlatMapSingleton<A, T>(x: A, f: A -> seq<T>)
    ensures FlatMap([x], f) == f(x)
  {
    assert [x][..0] == [];
  }

  /** FlatMap distributes over concatenation. */
  lemma {:induction false} FlatMapAppend<A, T>(a: seq<A>, b: seq<A>, f: A -> seq<T>)
    ensures FlatMap(a + b, f) == FlatMap(a, f) + FlatMap(b, f)
    decreases |b|
  {
    if b == [] {
      assert a + b == a;
    } else {
      var b' := b[..|b| - 1];
      assert (a + b)[..|a + b| - 1] == a + b';
      FlatMapAppend(a, b', f);
    }
  }

  /** What element i contributes sits between what the elements before it and
      the elements after it contribute. */
  lemma FlatMapSplit<A, T>(s: seq<A>, f: A -> seq<T>, i: nat)
    requires i < |s|
    ensures FlatMap(s, f) == FlatMap(s[..i], f) + f(s[i]) + FlatMap(s[i + 1..], f)
  {
    var pre, post := s[..i], s[i + 1..];
    assert s == (pre + [s[i]]) + post;
    FlatMapAppend(pre + [s[i]], post, f);
    FlatMapAppend(pre, [s[i]], f);
    FlatMapSingleton(s[i], f);
  }

  /** The contribution of element i starts at the position given by the length of
      everything contributed before it, and the contributions of every later
      element j come after it. */
  lemma FlatMapPosition<A, T>(s: seq<A>, f: A -> seq<T>, i: nat, j: nat)
    requires i < j <= |s|
    ensures |FlatMap(s[..i], f)| + |f(s[i])| <= |FlatMap(s[..j], f)| <= |FlatMap(s, f)|
    ensures f(s[i]) != [] ==> FlatMap(s, f)[|FlatMap(s[..i], f)|] == f(s[i])[0]
  {
    FlatMapSplit(s, f, i);
    FlatMapSplit(s[..j], f, i);
    assert s[..j][..i] == s[..i];
    assert s == s[..j] + s[j..];
    FlatMapAppend(s[..j], s[j..], f);
  }

  /** t occurs in the concatenation exactly when some element contributes it. */
  lemma {:induction false} FlatMapMember<A, T>(s: seq<A>, f: A -> seq<T>, t: T)
    ensures t in FlatMap(s, f) <==> exists j :: 0 <= j < |s| && t in f(s[j])
    decreases |s|
  {
    if s != [] {
      var s' := s[..|s| - 1];
      FlatMapMember(s', f, t);
      if t in FlatMap(s, f) {
        if t in FlatMap(s', f) {
          var j :| 0 <= j < |s'| && t in f(s'[j]);
          assert s[j] == s'[j];
        } else {
          assert t in f(s[|s| - 1]);
        }
      }
      if exists j :: 0 <= j < |s| && t in f(s[j]) {
        var j :| 0 <= j < |s| && t in f(s[j]);
        if j < |s| - 1 {
          assert s'[j] == s[j];
        }
      }
    }
  }

  /** When only element i can contribute t, t occurs in the concatenation exactly
      as often as it occurs in f(s[i]). */
  lemma FlatMapOnlyFrom<A, T>(s: seq<A>, f: A -> seq<T>, i: nat, t: T)
    requires i < |s|
    requires forall j :: 0 <= j < |s| && j != i ==> t !in f(s[j])
    ensures multiset(FlatMap(s, f))[t] == multiset(f(s[i]))[t]
  {
    FlatMapSplit(s, f, i);
    FlatMapMember(s[..i], f, t);
    FlatMapMember(s[i + 1..], f, t);
    forall j | 0 <= j < i
      ensures t !in f(s[..i][j])
    {
      assert s[..i][j] == s[j];
    }
    var post := s[i + 1..];
    forall j | 0 <= j < |post|
      ensures t !in f(post[j])
    {
      assert post[j] == s[i + 1 + j];
    }
    assert t !in FlatMap(s[..i], f);
    assert t !in FlatMap(s[i + 1..], f);
  }

  /** When every element contributes one item if it satisfies p and nothing
      otherwise, the concatenation has one item per element satisfying p. */
  lemma {:induction false} FlatMapLength<A, T>(s: seq<A>, f: A -> seq<T>, p: A -> bool)
    requires forall x :: |f(x)| == if p(x) then 1 else 0
    ensures |FlatMap(s, f)| == Count(s, p)
    decreases |s|
  {
    if s != [] {
      FlatMapLength(s[..|s| - 1], f, p);
    }
  }

  /** Removing the last element of a and one equal element of b keeps their
      multisets equal. */
  lemma MultisetRemoveMatching<A>(a: seq<A>, b: seq<A>, k: nat)
    requires multiset(a) == multiset(b)
    requires a != [] && k < |b| && b[k] == a[|a| - 1]
    ensures multiset(a[..|a| - 1]) == multiset(b[..k] + b[k + 1..])
  {
    var x, a', pre, post := a[|a| - 1], a[..|a| - 1], b[..k], b[k + 1..];
    assert a == a' + [x];
    assert b == (pre + post)[..k] + [x] + (pre + post)[k..];
    MultisetInsert(pre + post, k, x);
    forall y
      ensures multiset(a')[y] == multiset(pre + post)[y]
    {
      assert multiset(a)[y] == multiset(b)[y];
    }
  }

  /** Inserting x anywhere adds one x to the multiset. */
  lemma MultisetInsert<A>(s: seq<A>, k: nat, x: A)
    requires k <= |s|
    ensures multiset(s[..k] + [x] + s[k..]) == multiset(s) + multiset{x}
  {
    assert s == s[..k] + s[k..];
  }

  /** An element occurring at positions i and j occurs at least twice. */
  lemma Occurrences<A>(s: seq<A>, i: nat, j: nat)
    requires i < j < |s|
    ensures multiset(s)[s[i]] >= if s[i] == s[j] then 2 else 1
  {
    var pre := s[..j];
    assert s == pre + [s[j]] + s[j + 1..];
    assert s[i] == pre[i];
  }

  /** Reordering the elements reorders the concatenation and nothing more: the
      multiset of what is produced depends only on the multiset of elements. */
  lemma {:induction false} FlatMapPermutation<A, T>(a: seq<A>, b: seq<A>, f: A -> seq<T>)
    requires multiset(a) == multiset(b)
    ensures multiset(FlatMap(a, f)) == multiset(FlatMap(b, f))
    decreases |a|
  {
    if a == [] {
      assert |multiset(b)| == 0;
      assert b == [];
    } else {
      var x := a[|a| - 1];
      assert x in multiset(b);
      var k :| 0 <= k < |b| && b[k] == x;
      var a', pre, post := a[..|a| - 1], b[..k], b[k + 1..];
      MultisetRemoveMatching(a, b, k);
      FlatMapPermutation(a', pre + post, f);
      FlatMapAppend(pre, post, f);
      FlatMapSplit(b, f, k);
      assert multiset(FlatMap(a, f)) == multiset(FlatMap(a', f)) + multiset(f(x));
      assert multiset(FlatMap(b, f))
          == multiset(FlatMap(pre, f)) + multiset(f(x)) + multiset(FlatMap(post, f));
    }
  }
}
