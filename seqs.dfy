/** Sequence helpers shared by the table queries: an Option type, the rows a
    SQL `WHERE` keeps (`Filter`), and the `results[0]` the handlers read (`First`). */
module Seqs {

  datatype Option<T> = None | Some(value: T)

  /** The elements of `s` satisfying `p`, in their original order. */
  function Filter<T(!new)>(s: seq<T>, p: T -> bool): (r: seq<T>)
    ensures |r| <= |s|
  {
    if s == [] then []
    else (if p(s[0]) then [s[0]] else []) + Filter(s[1..], p)
  }

  /** The filter keeps exactly the elements of `s` that satisfy `p`. */
  lemma {:induction false} FilterMembers<T(!new)>(s: seq<T>, p: T -> bool)
    ensures forall x :: x in Filter(s, p) <==> x in s && p(x)
  {
    if s != [] {
      FilterMembers(s[1..], p);
      assert s == [s[0]] + s[1..];
    }
  }

  /** The filter keeps every element satisfying `p` as often as `s` holds it,
      and no other element. */
  lemma {:induction false} FilterCount<T(!new)>(s: seq<T>, p: T -> bool)
    ensures forall x :: multiset(Filter(s, p))[x] == if p(x) then multiset(s)[x] else 0
  {
    if s != [] {
      FilterCount(s[1..], p);
      assert s == [s[0]] + s[1..];
    }
  }

  /** The first row a query returns, if any (`results[0]` after a length check). */
  function First<T(!new)>(s: seq<T>, p: T -> bool): (r: Option<T>)
    ensures r.None? <==> forall x :: x in s ==> !p(x)
    ensures r.Some? ==> r.value in s && p(r.value)
  {
    FilterMembers(s, p);
    var hits := Filter(s, p);
    if hits == [] then None
    else
      assert hits[0] in hits;
      Some(hits[0])
  }

  /** `First` returns the earliest element that satisfies `p`. */
  lemma {:induction false} FirstIsEarliest<T(!new)>(s: seq<T>, p: T -> bool, k: nat)
    requires k < |s| && p(s[k])
    requires forall i :: 0 <= i < k ==> !p(s[i])
    ensures First(s, p) == Some(s[k])
  {
    FilterPrefixRejected(s, p, k);
  }

  /** Elements rejected at the front of `s` do not affect the filter. */
  lemma {:induction false} FilterPrefixRejected<T(!new)>(s: seq<T>, p: T -> bool, k: nat)
    requires k <= |s|
    requires forall i :: 0 <= i < k ==> !p(s[i])
    ensures Filter(s, p) == Filter(s[k..], p)
  {
    if k > 0 {
      assert !p(s[0]);
      FilterPrefixRejected(s[1..], p, k - 1);
      assert s[1..][k - 1..] == s[k..];
    }
  }

  /** A filter that accepts everything returns its input. */
  lemma {:induction false} FilterKeepsAll<T(!new)>(s: seq<T>, p: T -> bool)
    requires forall i :: 0 <= i < |s| ==> p(s[i])
    ensures Filter(s, p) == s
  {
    if s != [] {
      FilterKeepsAll(s[1..], p);
      assert [s[0]] + s[1..] == s;
    }
  }

  /** Filtering distributes over concatenation. */
  lemma {:induction false} FilterAppend<T(!new)>(a: seq<T>, b: seq<T>, p: T -> bool)
    ensures Filter(a + b, p) == Filter(a, p) + Filter(b, p)
  {
    if a != [] {
      FilterAppend(a[1..], b, p);
      assert (a + b)[1..] == a[1..] + b;
    } else {
      assert a + b == b;
    }
  }

  /** A filter that rejects exactly one position removes exactly that element
      and keeps the others in order. */
  lemma {:induction false} FilterDropsOne<T(!new)>(s: seq<T>, p: T -> bool, k: nat)
    requires k < |s| && !p(s[k])
    requires forall i :: 0 <= i < |s| && i != k ==> p(s[i])
    ensures Filter(s, p) == s[..k] + s[k + 1..]
  {
    var front, back := s[..k], s[k + 1..];
    assert s == front + ([s[k]] + back);
    forall i | 0 <= i < |front| ensures p(front[i]) {
      assert front[i] == s[i];
    }
    forall i | 0 <= i < |back| ensures p(back[i]) {
      assert back[i] == s[k + 1 + i];
    }
    FilterKeepsAll(front, p);
    FilterKeepsAll(back, p);
    FilterAppend([s[k]], back, p);
    FilterAppend(front, [s[k]] + back, p);
    assert Filter([s[k]], p) == [];
  }
}
