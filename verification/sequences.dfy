/** Generic operations the database performs on a collection: selecting the
    documents that satisfy a query, ordering them by a descending timestamp
    (`sort({ createdAt: -1 })`), and finding a document by its id. */
module Sequences {

  /** The elements of `s` that satisfy `p`, in their stored order. */
  function Filter<T(!new)>(s: seq<T>, p: T -> bool): (r: seq<T>)
    ensures |r| <= |s|
    ensures forall x :: x in r <==> x in s && p(x)
    ensures multiset(r) <= multiset(s)
  {
    if s == [] then []
    else
      assert s == [s[0]] + s[1..];
      if p(s[0]) then [s[0]] + Filter(s[1..], p) else Filter(s[1..], p)
  }

  /** A filter that every element passes keeps the whole sequence. */
  lemma {:induction false} FilterKeepsAll<T(!new)>(s: seq<T>, p: T -> bool)
    requires forall i :: 0 <= i < |s| ==> p(s[i])
    ensures Filter(s, p) == s
  {
    if s != [] {
      FilterKeepsAll(s[1..], p);
    }
  }

  /** A filter that no element passes selects nothing. */
  lemma {:induction false} FilterKeepsNone<T(!new)>(s: seq<T>, p: T -> bool)
    requires forall i :: 0 <= i < |s| ==> !p(s[i])
    ensures Filter(s, p) == []
  {
    if s != [] {
      FilterKeepsNone(s[1..], p);
    }
  }

  /** Two predicates that agree on every element select the same subsequence. */
  lemma {:induction false} FilterAgrees<T(!new)>(s: seq<T>, p: T -> bool, q: T -> bool)
    requires forall i :: 0 <= i < |s| ==> p(s[i]) == q(s[i])
    ensures Filter(s, p) == Filter(s, q)
  {
    if s != [] {
      FilterAgrees(s[1..], p, q);
    }
  }

  /** Filtering by a conjunction is filtering by one conjunct, then by the other. */
  lemma {:induction false} FilterConjoin<T(!new)>(s: seq<T>, both: T -> bool, p: T -> bool, q: T -> bool)
    requires forall i :: 0 <= i < |s| ==> both(s[i]) == (p(s[i]) && q(s[i]))
    ensures Filter(s, both) == Filter(Filter(s, p), q)
  {
    if s != [] {
      FilterConjoin(s[1..], both, p, q);
      if p(s[0]) {
        assert Filter(s, p) == [s[0]] + Filter(s[1..], p);
        assert Filter(s, p)[1..] == Filter(s[1..], p);
      }
    }
  }

  /** Newest first: timestamps never increase along the sequence. */
  predicate NewestFirstOrdered<T>(s: seq<T>, at: T -> int)
  {
    forall i, j :: 0 <= i < j < |s| ==> at(s[i]) >= at(s[j])
  }

  /** Places `x` into a newest-first sequence after every element newer than it. */
  function Insert<T>(x: T, s: seq<T>, at: T -> int): (r: seq<T>)
    requires NewestFirstOrdered(s, at)
    ensures NewestFirstOrdered(r, at)
    ensures multiset(r) == multiset(s) + multiset{x}
    ensures |r| == |s| + 1
    ensures at(r[0]) == at(x) || (s != [] && at(r[0]) == at(s[0]))
  {
    if s == [] then [x]
    else if at(x) > at(s[0]) then [x] + s
    else
      var rest := Insert(x, s[1..], at);
      ConsKeepsOrder(s[0], rest, at);
      assert s == [s[0]] + s[1..];
      assert multiset([s[0]] + rest) == multiset{s[0]} + multiset(rest);
      [s[0]] + rest
  }

  /** An element at least as new as the head of a newest-first sequence can precede it. */
  lemma ConsKeepsOrder<T>(h: T, t: seq<T>, at: T -> int)
    requires NewestFirstOrdered(t, at)
    requires t != [] ==> at(h) >= at(t[0])
    ensures NewestFirstOrdered([h] + t, at)
  {
    var r := [h] + t;
    forall i, j | 0 <= i < j < |r|
      ensures at(r[i]) >= at(r[j])
    {
      if i == 0 {
        assert r[j] == t[j - 1];
        if j > 1 {
          assert at(t[0]) >= at(t[j - 1]);
        }
      } else {
        assert r[i] == t[i - 1] && r[j] == t[j - 1];
      }
    }
  }

  /** `sort({ createdAt: -1 })`: the same elements, newest first. The database
      leaves the order of elements with equal timestamps open, and may choose it
      differently from one query to the next; this function fixes one choice
      (`Insert` places an element after the equal ones, so equal elements come
      out later-stored first). `NewestFirstIsTheOnlyOrder` shows the choice
      matters only when two timestamps are equal. */
  function NewestFirst<T>(s: seq<T>, at: T -> int): (r: seq<T>)
    ensures NewestFirstOrdered(r, at)
    ensures multiset(r) == multiset(s)
    ensures |r| == |s|
  {
    if s == [] then []
    else
      assert s == [s[0]] + s[1..];
      Insert(s[0], NewestFirst(s[1..], at), at)
  }

  /** No two elements share a timestamp. */
  predicate DistinctKeys<T>(s: seq<T>, at: T -> int)
  {
    forall i, j :: 0 <= i < j < |s| ==> at(s[i]) != at(s[j])
  }

  /** With distinct timestamps no element is stored twice. */
  lemma {:induction false} DistinctKeysAtMostOnce<T>(s: seq<T>, at: T -> int, x: T)
    requires DistinctKeys(s, at)
    ensures multiset(s)[x] <= 1
  {
    if s != [] {
      assert s == [s[0]] + s[1..];
      assert DistinctKeys(s[1..], at);
      DistinctKeysAtMostOnce(s[1..], at, x);
      if s[0] == x {
        assert x !in s[1..];
      }
    }
  }

  /** Reordering keeps timestamps distinct. */
  lemma PermutationKeepsDistinctKeys<T>(s: seq<T>, t: seq<T>, at: T -> int)
    requires DistinctKeys(s, at) && multiset(t) == multiset(s)
    ensures DistinctKeys(t, at)
  {
    forall i, j | 0 <= i < j < |t|
      ensures at(t[i]) != at(t[j])
    {
      if at(t[i]) == at(t[j]) {
        assert t[i] in multiset(s) && t[j] in multiset(s);
        var p :| 0 <= p < |s| && s[p] == t[i];
        var q :| 0 <= q < |s| && s[q] == t[j];
        assert p == q;
        assert t == t[..j] + [t[j]] + t[j + 1..];
        assert t[i] in t[..j];
        assert multiset(t)[t[j]] >= 2;
        DistinctKeysAtMostOnce(s, at, t[j]);
        assert false;
      }
    }
  }

  /** Removing an equal head from two permutations leaves permutations. */
  lemma DropSameHead<T>(a: seq<T>, b: seq<T>)
    requires a != [] && b != [] && a[0] == b[0] && multiset(a) == multiset(b)
    ensures multiset(a[1..]) == multiset(b[1..])
  {
    assert a == [a[0]] + a[1..] && b == [b[0]] + b[1..];
    assert multiset(a) == multiset{a[0]} + multiset(a[1..]);
    assert multiset(b) == multiset{a[0]} + multiset(b[1..]);
    forall x
      ensures multiset(a[1..])[x] == multiset(b[1..])[x]
    {
      assert multiset(a)[x] == multiset{a[0]}[x] + multiset(a[1..])[x];
      assert multiset(b)[x] == multiset{a[0]}[x] + multiset(b[1..])[x];
    }
  }

  /** Two newest-first permutations with distinct timestamps start with the same element. */
  lemma SameNewest<T>(a: seq<T>, b: seq<T>, at: T -> int)
    requires a != [] && multiset(a) == multiset(b)
    requires NewestFirstOrdered(a, at) && NewestFirstOrdered(b, at) && DistinctKeys(a, at)
    ensures b != [] && a[0] == b[0]
  {
    assert a[0] in multiset(b);
    var j :| 0 <= j < |b| && b[j] == a[0];
    assert b[0] in multiset(a);
    var i :| 0 <= i < |a| && a[i] == b[0];
    assert at(a[0]) >= at(a[i]) && at(b[0]) >= at(b[j]);
  }

  /** Two newest-first orderings of the same elements are equal when the
      timestamps are distinct. */
  lemma {:induction false} OrderedPermutationsAgree<T>(a: seq<T>, b: seq<T>, at: T -> int)
    requires multiset(a) == multiset(b)
    requires NewestFirstOrdered(a, at) && NewestFirstOrdered(b, at) && DistinctKeys(a, at)
    ensures a == b
  {
    if a == [] {
      assert |b| == |multiset(b)| == 0;
    } else {
      SameNewest(a, b, at);
      DropSameHead(a, b);
      OrderedPermutationsAgree(a[1..], b[1..], at);
      assert a == [a[0]] + a[1..] && b == [b[0]] + b[1..];
    }
  }

  /** When no two timestamps are equal, every order the database may return for
      `sort({ createdAt: -1 })` is exactly `NewestFirst`. */
  lemma NewestFirstIsTheOnlyOrder<T>(s: seq<T>, t: seq<T>, at: T -> int)
    requires DistinctKeys(s, at)
    requires multiset(t) == multiset(s) && NewestFirstOrdered(t, at)
    ensures t == NewestFirst(s, at)
  {
    PermutationKeepsDistinctKeys(s, t, at);
    OrderedPermutationsAgree(t, NewestFirst(s, at), at);
  }

  /** Position of the first element whose id is `id`, or `|s|` when there is none. */
  function IndexOf<T>(s: seq<T>, id: int, idOf: T -> int): (k: nat)
    ensures k <= |s|
    ensures k < |s| ==> idOf(s[k]) == id
    ensures forall j :: 0 <= j < k ==> idOf(s[j]) != id
  {
    if s == [] then 0
    else if idOf(s[0]) == id then 0
    else 1 + IndexOf(s[1..], id, idOf)
  }

  /** The sequence without its element at position `k`; the others keep their order. */
  function RemoveAt<T>(s: seq<T>, k: nat): (r: seq<T>)
    requires k < |s|
    ensures |r| == |s| - 1
    ensures forall i :: 0 <= i < |r| ==> r[i] == s[if i < k then i else i + 1]
    ensures multiset(r) + multiset{s[k]} == multiset(s)
  {
    assert s == s[..k] + [s[k]] + s[k + 1..];
    s[..k] + s[k + 1..]
  }
}
