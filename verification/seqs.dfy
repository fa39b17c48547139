/** Small facts about sequences used by the set differ and the aggregator:
    order-preserving filtering, duplicate-freedom and counting. */
module Seqs {

  /** No element occurs twice. */
  predicate Distinct<T(==)>(s: seq<T>) {
    forall i, j :: 0 <= i < j < |s| ==> s[i] != s[j]
  }

  /** The elements of `s` that satisfy `p`, in their original order (a Python
      list comprehension with an `if`). */
  function Filter<T(==,!new)>(s: seq<T>, p: T -> bool): (r: seq<T>)
    ensures |r| <= |s|
    ensures forall x :: x in r <==> x in s && p(x)
    ensures Distinct(s) ==> Distinct(r)
  {
    if |s| == 0 then []
    else if p(s[0]) then [s[0]] + Filter(s[1..], p)
    else Filter(s[1..], p)
  }

  lemma {:induction false} FilterConcat<T(!new)>(a: seq<T>, b: seq<T>, p: T -> bool)
    ensures Filter(a + b, p) == Filter(a, p) + Filter(b, p)
  {
    if |a| > 0 {
      assert (a + b)[1..] == a[1..] + b;
      FilterConcat(a[1..], b, p);
    } else {
      assert a + b == b;
    }
  }

  /** Filtering keeps every occurrence of an element that satisfies `p`
      and none of one that does not. */
  lemma {:induction false} FilterCounts<T(!new)>(s: seq<T>, p: T -> bool)
    ensures forall x :: multiset(Filter(s, p))[x] == if p(x) then multiset(s)[x] else 0
  {
    if |s| > 0 {
      FilterCounts(s[1..], p);
      assert s == [s[0]] + s[1..];
    }
  }

  /** Putting the same element in front of two lists whose filters differ
      by a suffix keeps that difference. */
  lemma {:induction false} FilterConsSuffix<T(!new)>(h: T, a: seq<T>, b: seq<T>, extra: seq<T>, p: T -> bool)
    requires Filter(a, p) == Filter(b, p) + extra
    ensures Filter([h] + a, p) == Filter([h] + b, p) + extra
  {
    var hd := if p(h) then [h] else [];
    FilterCons(h, a, p);
    FilterCons(h, b, p);
    AppendAssociates(hd, Filter(b, p), extra);
  }

  lemma AppendAssociates<T>(x: seq<T>, y: seq<T>, z: seq<T>)
    ensures x + (y + z) == (x + y) + z
  {
  }

  lemma {:induction false} FilterCons<T(!new)>(h: T, a: seq<T>, p: T -> bool)
    ensures Filter([h] + a, p) == (if p(h) then [h] else []) + Filter(a, p)
  {
    assert ([h] + a)[1..] == a;
  }

  /** Filtering with a predicate that holds everywhere on `s` keeps `s`. */
  lemma {:induction false} FilterAll<T(!new)>(s: seq<T>, p: T -> bool)
    requires forall x :: x in s ==> p(x)
    ensures Filter(s, p) == s
  {
    if |s| > 0 {
      FilterAll(s[1..], p);
    }
  }

  /** Filtering with a predicate that holds nowhere on `s` leaves nothing. */
  lemma {:induction false} FilterNone<T(!new)>(s: seq<T>, p: T -> bool)
    requires forall x :: x in s ==> !p(x)
    ensures Filter(s, p) == []
  {
    if |s| > 0 {
      FilterNone(s[1..], p);
    }
  }

  /** Only the empty sequence can have every element satisfy a predicate
      that nothing satisfies. */
  lemma EmptyIfUnsatisfiable<T>(s: seq<T>, p: T -> bool)
    requires forall x :: x in s ==> p(x)
    ensures (forall x :: !p(x)) ==> s == []
  {
    if |s| > 0 {
      assert p(s[0]);
    }
  }

  /** The number of elements of `s` that satisfy `p`. */
  function Count<T>(s: seq<T>, p: T -> bool): (n: nat)
    ensures n <= |s|
  {
    if |s| == 0 then 0 else (if p(s[0]) then 1 else 0) + Count(s[1..], p)
  }

  lemma {:induction false} CountConcat<T>(a: seq<T>, b: seq<T>, p: T -> bool)
    ensures Count(a + b, p) == Count(a, p) + Count(b, p)
  {
    if |a| > 0 {
      assert (a + b)[1..] == a[1..] + b;
      CountConcat(a[1..], b, p);
    } else {
      assert a + b == b;
    }
  }

  lemma {:induction false} CountPositive<T>(s: seq<T>, p: T -> bool)
    ensures Count(s, p) > 0 <==> exists i :: 0 <= i < |s| && p(s[i])
  {
    if |s| > 0 {
      CountPositive(s[1..], p);
      if exists i :: 0 <= i < |s| && p(s[i]) {
        var i :| 0 <= i < |s| && p(s[i]);
        if i > 0 {
          assert p(s[1..][i - 1]);
        }
      }
      if exists i :: 0 <= i < |s[1..]| && p(s[1..][i]) {
        var i :| 0 <= i < |s[1..]| && p(s[1..][i]);
        assert p(s[i + 1]);
      }
    }
  }

  /** The set of elements of a sequence. */
  function Elements<T>(s: seq<T>): set<T> {
    set x | x in s
  }

  /** A duplicate-free sequence has as many elements as its set. */
  lemma {:induction false} DistinctCardinality<T>(s: seq<T>)
    requires Distinct(s)
    ensures |Elements(s)| == |s|
  {
    if |s| > 0 {
      DistinctCardinality(s[1..]);
      assert Elements(s) == Elements(s[1..]) + {s[0]};
      assert s[0] !in Elements(s[1..]);
    }
  }

  /** Dropping the first element keeps a sequence duplicate-free. */
  lemma DistinctTail<T>(s: seq<T>)
    requires |s| > 0 && Distinct(s)
    ensures Distinct(s[1..]) && s[0] !in s[1..]
  {
  }

  /** The members of `xs` that satisfy `p`. */
  function Select<T>(xs: set<T>, p: T -> bool): set<T> {
    set x | x in xs && p(x)
  }

  /** Over a duplicate-free sequence, the elements satisfying `p` are those
      of the tail plus the head when it satisfies `p`. */
  lemma SizeStep<T>(s: seq<T>, p: T -> bool)
    requires |s| > 0 && Distinct(s)
    ensures |Select(Elements(s), p)| == (if p(s[0]) then 1 else 0) + |Select(Elements(s[1..]), p)|
  {
    var all := Select(Elements(s), p);
    var later := Select(Elements(s[1..]), p);
    DistinctTail(s);
    if p(s[0]) {
      assert all == later + {s[0]};
    } else {
      assert all == later;
    }
  }
}
