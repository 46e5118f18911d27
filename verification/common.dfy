/** Shared building blocks: an optional value, an order-preserving filter and
    the subsequence relation that states what "order-preserving" means. */
module Common {

  /** A value that may be absent; stands for JavaScript's `null`/`undefined`
      (and, for strings, the empty string, which the source treats as false). */
  datatype Option<+T> = None | Some(value: T)

  /** `a` can be obtained from `b` by deleting elements (greedy matching). */
  predicate IsSubsequence<T(==)>(a: seq<T>, b: seq<T>)
    decreases |b|
  {
    if a == [] then true
    else if b == [] then false
    else if a[0] == b[0] then IsSubsequence(a[1..], b[1..])
    else IsSubsequence(a, b[1..])
  }

  /** `Array.prototype.filter`: keeps, in order, the elements satisfying `p`. */
  function Filter<T(==,!new)>(s: seq<T>, p: T -> bool): (r: seq<T>)
    ensures |r| <= |s|
    ensures forall x :: x in r <==> x in s && p(x)
    ensures IsSubsequence(r, s)
    decreases |s|
  {
    if s == [] then []
    else
      var rest := Filter(s[1..], p);
      assert forall x :: x in s <==> x == s[0] || x in s[1..];
      if p(s[0]) then [s[0]] + rest
      else
        SubsequenceSkip(rest, s, p);
        rest
  }

  /** Skipping a head that fails `p` keeps a `p`-only subsequence of the tail a
      subsequence of the whole list. */
  lemma {:induction false} SubsequenceSkip<T(!new)>(r: seq<T>, s: seq<T>, p: T -> bool)
    requires s != [] && !p(s[0])
    requires forall x :: x in r ==> p(x)
    requires IsSubsequence(r, s[1..])
    ensures IsSubsequence(r, s)
  {
    if r != [] {
      assert r[0] in r;
      assert r[0] != s[0];
    }
  }

  /** A filter keeps exactly the elements of the input that pass, counted
      with multiplicity. */
  lemma {:induction false} FilterCounts<T(!new)>(s: seq<T>, p: T -> bool, x: T)
    ensures multiset(Filter(s, p))[x] == if p(x) then multiset(s)[x] else 0
    decreases |s|
  {
    if s != [] {
      FilterCounts(s[1..], p, x);
      assert s == [s[0]] + s[1..];
    }
  }

  /** `FilterCounts` for every element at once. */
  lemma FilterCountsAll<T(!new)>(s: seq<T>, p: T -> bool)
    ensures forall x :: multiset(Filter(s, p))[x] == if p(x) then multiset(s)[x] else 0
  {
    forall x
      ensures multiset(Filter(s, p))[x] == if p(x) then multiset(s)[x] else 0
    {
      FilterCounts(s, p, x);
    }
  }

  /** Two lists with the same elements counted with multiplicity have the
      same members. */
  lemma SameMembers<T>(a: seq<T>, b: seq<T>)
    requires multiset(a) == multiset(b)
    ensures forall x :: x in a <==> x in b
  {
    forall x | x in a
      ensures x in b
    {
      assert x in multiset(a);
    }
    forall x | x in b
      ensures x in a
    {
      assert x in multiset(b);
    }
  }

  /** `Array.prototype.indexOf`: the position of the first occurrence of `x`,
      or -1 when `x` does not occur. */
  function IndexOf<T(==)>(s: seq<T>, x: T): (r: int)
    ensures -1 <= r < |s|
    ensures r == -1 <==> x !in s
    ensures 0 <= r ==> s[r] == x && x !in s[..r]
    decreases |s|
  {
    if s == [] then -1
    else if s[0] == x then 0
    else
      var k := IndexOf(s[1..], x);
      assert x in s[1..] ==> x in s;
      assert forall j :: 0 <= j < |s| && s[j] == x ==> 1 <= j && s[1..][j - 1] == x;
      if k == -1 then -1
      else
        assert s[..k + 1] == [s[0]] + s[1..][..k];
        k + 1
  }

  /** Two successive filters keep what passes both tests. */
  lemma {:induction false} FilterTwice<T(!new)>(s: seq<T>, p: T -> bool, q: T -> bool)
    ensures Filter(Filter(s, p), q) == Filter(s, x => p(x) && q(x))
    decreases |s|
  {
    if s != [] {
      FilterTwice(s[1..], p, q);
      if p(s[0]) {
        assert ([s[0]] + Filter(s[1..], p))[1..] == Filter(s[1..], p);
      }
    }
  }
}
