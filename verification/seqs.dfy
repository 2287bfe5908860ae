/**
 Order-preserving filtering and LINQ-style Skip/Take over finite sequences,
 the building blocks of every query in the model.
 */
module Seqs {

  /** Enumerable.Where: keeps, in order, the elements satisfying `p`. */
  function Filter<T(!new)>(s: seq<T>, p: T -> bool): (r: seq<T>)
    ensures |r| <= |s|
    ensures forall x :: x in r <==> x in s && p(x)
  {
    if |s| == 0 then []
    else
      assert s == [s[0]] + s[1..];
      (if p(s[0]) then [s[0]] else []) + Filter(s[1..], p)
  }

  /** One step of Filter: the first element's verdict, then the filtered rest. */
  lemma FilterUnfold<T(!new)>(s: seq<T>, p: T -> bool)
    requires |s| > 0
    ensures Filter(s, p) == (if p(s[0]) then [s[0]] else []) + Filter(s[1..], p)
  {
  }

  lemma AppendAssoc<T>(x: seq<T>, y: seq<T>, z: seq<T>)
    ensures x + (y + z) == (x + y) + z
  {
  }

  /** Filtering distributes over concatenation. */
  lemma {:induction false} FilterAppend<T(!new)>(a: seq<T>, b: seq<T>, p: T -> bool)
    ensures Filter(a + b, p) == Filter(a, p) + Filter(b, p)
  {
    if |a| == 0 {
      assert a + b == b;
    } else {
      FilterAppend(a[1..], b, p);
      var head := if p(a[0]) then [a[0]] else [];
      var ab := a + b;
      assert ab[0] == a[0];
      assert ab[1..] == a[1..] + b;
      FilterUnfold(ab, p);
      FilterUnfold(a, p);
      AppendAssoc(head, Filter(a[1..], p), Filter(b, p));
    }
  }

  /** Filtering keeps every occurrence of a satisfying element and none of the others. */
  lemma {:induction false} FilterMultiset<T(!new)>(s: seq<T>, p: T -> bool)
    ensures forall x :: multiset(Filter(s, p))[x] == if p(x) then multiset(s)[x] else 0
  {
    if |s| != 0 {
      FilterMultiset(s[1..], p);
      assert s == [s[0]] + s[1..];
    }
  }

  /** Filtering by the same predicate twice is filtering once. */
  lemma FilterIdempotent<T(!new)>(s: seq<T>, p: T -> bool)
    ensures Filter(Filter(s, p), p) == Filter(s, p)
  {
    var r := Filter(s, p);
    assert forall i :: 0 <= i < |r| ==> p(r[i]) by {
      forall i | 0 <= i < |r| ensures p(r[i]) {
        assert r[i] in r;
      }
    }
    FilterAll(r, p);
  }

  /** A predicate every element already satisfies filters nothing out. */
  lemma {:induction false} FilterAll<T(!new)>(s: seq<T>, p: T -> bool)
    requires forall i :: 0 <= i < |s| ==> p(s[i])
    ensures Filter(s, p) == s
  {
    if |s| != 0 {
      FilterAll(s[1..], p);
      assert s == [s[0]] + s[1..];
    }
  }

  function Max0(n: int): nat
  {
    if n <= 0 then 0 else n
  }

  /** Enumerable.Skip: a non-positive count skips nothing, a count past the end leaves nothing. */
  function Skip<T>(s: seq<T>, n: int): (r: seq<T>)
    ensures |r| == if Max0(n) >= |s| then 0 else |s| - Max0(n)
    ensures forall i :: 0 <= i < |r| ==> r[i] == s[Max0(n) + i]
  {
    if n <= 0 then s else if n >= |s| then [] else s[n..]
  }

  /** Enumerable.Take: a non-positive count takes nothing, a count past the end takes everything. */
  function Take<T>(s: seq<T>, n: int): (r: seq<T>)
    ensures |r| == if n <= 0 then 0 else if n >= |s| then |s| else n
    ensures forall i :: 0 <= i < |r| ==> r[i] == s[i]
  {
    if n <= 0 then [] else if n >= |s| then s else s[..n]
  }

  /** Skip then Take: the window of at most `take` elements starting at `skip`. */
  function SkipTake<T>(s: seq<T>, skip: int, take: int): (r: seq<T>)
    ensures |r| <= |s|
    ensures take >= 0 ==> |r| <= take
    ensures |r| == if take <= 0 || Max0(skip) >= |s| then 0
                   else if |s| - Max0(skip) < take then |s| - Max0(skip) else take
    ensures forall i :: 0 <= i < |r| ==> Max0(skip) + i < |s| && r[i] == s[Max0(skip) + i]
  {
    Take(Skip(s, skip), take)
  }

  /** A window with a non-negative start and a positive size, stated without clamping. */
  lemma SkipTakeWindow<T>(s: seq<T>, skip: int, take: int)
    requires skip >= 0 && take >= 1
    ensures var r := SkipTake(s, skip, take);
      && |r| == (if skip >= |s| then 0 else if |s| - skip < take then |s| - skip else take)
      && (forall i :: 0 <= i < |r| ==> r[i] == s[skip + i])
  {
  }

  /** A window that starts at or after the end of the sequence is empty. */
  lemma SkipTakePastEnd<T>(s: seq<T>, skip: int, take: int)
    requires skip >= |s|
    ensures SkipTake(s, skip, take) == []
  {
  }

  /** Every element of a window is an element of the whole. */
  lemma SkipTakeElements<T>(s: seq<T>, skip: int, take: int)
    ensures forall x :: x in SkipTake(s, skip, take) ==> x in s
  {
    var r := SkipTake(s, skip, take);
    forall x | x in r ensures x in s {
      var i :| 0 <= i < |r| && r[i] == x;
      assert s[Max0(skip) + i] == x;
    }
  }
}
