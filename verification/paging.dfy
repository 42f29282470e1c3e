/** The pagination arithmetic shared by the book listing and the review list of
    a book: how the page and limit query parameters are read, the number of
    documents skipped, the total page count, and the slice of an ordered
    collection that one page shows. */
module Paging {
  import opened Sequences

  /** What JavaScript's `Number(v)` or `parseInt(v)` yields for a query-string
      value `v`: NaN for a missing or non-numeric value, otherwise an integer. */
  datatype JsNumber = NaN | Int(n: int)

  function Min(a: int, b: int): int
  {
    if a <= b then a else b
  }

  function Abs(x: int): nat
  {
    if x < 0 then -x else x
  }

  /** `Number(v) || d`: NaN and zero are falsy and give the default; every other
      value, a negative one included, is kept as it is. */
  function NumberOr(x: JsNumber, d: int): (r: int)
    ensures x.NaN? ==> r == d
    ensures x.Int? && x.n == 0 ==> r == d
    ensures x.Int? && x.n != 0 ==> r == x.n
  {
    if x.Int? && x.n != 0 then x.n else d
  }

  /** `Math.max(1, parseInt(v)) || d`: `Math.max` of NaN is NaN, which is
      falsy and gives the default; any integer is raised to at least one. */
  function AtLeastOneOr(x: JsNumber, d: int): (r: int)
    ensures x.NaN? ==> r == d
    ensures x.Int? ==> r >= 1 && r >= x.n && (r == x.n || r == 1)
  {
    match x
    case NaN => d
    case Int(n) => if n > 1 then n else 1
  }

  /** `Math.ceil(n / d)` for a document count `n` and a non-zero limit `d`:
      the least integer that is not below the quotient n / d. */
  function CeilDiv(n: nat, d: int): (r: int)
    requires d != 0
    ensures n == 0 ==> r == 0
    ensures d > 0 ==> (r - 1) * d < n <= r * d
    ensures d < 0 ==> r * d <= n < (r - 1) * d
  {
    if d > 0 then
      CeilingBounds(n, d);
      (n + d - 1) / d
    else
      FloorBounds(n, -d);
      -(n / -d)
  }

  lemma FloorBounds(n: nat, e: int)
    requires e > 0
    ensures (n / e) * e <= n < (n / e) * e + e
    ensures (-(n / e)) * -e == (n / e) * e
    ensures (-(n / e) - 1) * -e == (n / e) * e + e
  {
  }

  lemma CeilingBounds(n: nat, d: int)
    requires d > 0
    ensures ((n + d - 1) / d - 1) * d < n <= ((n + d - 1) / d) * d
  {
    var q := (n + d - 1) / d;
    assert q * d <= n + d - 1 < q * d + d;
    assert (q - 1) * d == q * d - d;
  }

  /** The documents on the pages before page `page`, `limit` to a page. */
  function SkipOf(page: nat, limit: nat): nat
    requires page >= 1
  {
    (page - 1) * limit
  }

  /** `.skip(skip).limit(lim)` applied to an ordered collection. The controllers
      never pass a zero limit, which the database would read as "no limit". */
  function Window<T>(s: seq<T>, skip: nat, lim: nat): (r: seq<T>)
    requires lim >= 1
    ensures |r| <= lim
    ensures |r| == if skip >= |s| then 0 else Min(lim, |s| - skip)
    ensures forall i :: 0 <= i < |r| ==> r[i] == s[skip + i]
  {
    if skip >= |s| then [] else s[skip..skip + Min(lim, |s| - skip)]
  }

  /** A page of a newest-first sequence is itself newest first, and holds only
      elements of the sequence it was cut from. */
  lemma WindowOfNewestFirst<T(!new)>(s: seq<T>, skip: nat, lim: nat, at: T -> int)
    requires lim >= 1
    ensures var w := Window(NewestFirst(s, at), skip, lim);
            NewestFirstOrdered(w, at) && forall x :: x in w ==> x in s
  {
    var sorted := NewestFirst(s, at);
    var w := Window(sorted, skip, lim);
    forall i, j | 0 <= i < j < |w|
      ensures at(w[i]) >= at(w[j])
    {
      assert w[i] == sorted[skip + i] && w[j] == sorted[skip + j];
    }
    forall x | x in w
      ensures x in s
    {
      var i :| 0 <= i < |w| && w[i] == x;
      assert x == sorted[skip + i] && x in multiset(sorted);
    }
  }

  /** Pages 1 to `count` of `s`, `lim` elements to a page, read one after another. */
  function PagesUpTo<T>(s: seq<T>, lim: nat, count: nat): seq<T>
    requires lim >= 1
  {
    if count == 0 then [] else PagesUpTo(s, lim, count - 1) + Window(s, SkipOf(count, lim), lim)
  }

  /** A reading of pages that starts empty and appends page `c` at step `c`
      is the reading `PagesUpTo` defines. */
  lemma {:induction false} PagesFromSteps<T>(read: nat -> seq<T>, s: seq<T>, lim: nat, count: nat)
    requires lim >= 1
    requires read(0) == []
    requires forall c: nat :: 1 <= c <= count ==> read(c) == read(c - 1) + Window(s, SkipOf(c, lim), lim)
    ensures read(count) == PagesUpTo(s, lim, count)
  {
    if count > 0 {
      PagesFromSteps(read, s, lim, count - 1);
    }
  }

  /** Reading the first `count` pages yields the first `count * lim` elements
      (or all of them): pages neither overlap nor leave gaps. */
  lemma {:induction false} PagesUpToIsPrefix<T>(s: seq<T>, lim: nat, count: nat)
    requires lim >= 1
    ensures PagesUpTo(s, lim, count) == s[..Min(count * lim, |s|)]
  {
    if count > 0 {
      PagesUpToIsPrefix(s, lim, count - 1);
      var a := SkipOf(count, lim);
      var b := count * lim;
      assert b == a + lim;
      var w := Window(s, a, lim);
      assert PagesUpTo(s, lim, count) == s[..Min(a, |s|)] + w;
      if a >= |s| {
        assert w == [];
        assert Min(b, |s|) == |s| == Min(a, |s|);
      } else {
        assert w == s[a..Min(b, |s|)];
        assert s[..a] + s[a..Min(b, |s|)] == s[..Min(b, |s|)];
      }
    }
  }

  /** Reading pages 1 to `totalPages` returns every element exactly once and in
      order, and the page after the last one is empty. */
  lemma AllPagesReassemble<T>(s: seq<T>, lim: nat)
    requires lim >= 1
    ensures CeilDiv(|s|, lim) >= 0
    ensures PagesUpTo(s, lim, CeilDiv(|s|, lim)) == s
    ensures Window(s, CeilDiv(|s|, lim) * lim, lim) == []
  {
    var k := CeilDiv(|s|, lim);
    PagesUpToIsPrefix(s, lim, k);
    assert Min(k * lim, |s|) == |s|;
  }
}
