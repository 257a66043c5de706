/** A stable sort over a caller-supplied ordering, the model of
    `Array.prototype.sort` with a comparator: JavaScript's sort is stable, so
    elements the comparator calls equal keep their relative order. */
module Sorting {

  /** `leq(a, b)` reads "a may be listed before b"; it must relate every pair
      one way or the other and be transitive. */
  ghost predicate TotalPreorder<T(!new)>(leq: (T, T) -> bool)
  {
    && (forall a, b :: leq(a, b) || leq(b, a))
    && (forall a, b, c :: leq(a, b) && leq(b, c) ==> leq(a, c))
  }

  ghost predicate SortedBy<T>(s: seq<T>, leq: (T, T) -> bool)
  {
    forall i, j :: 0 <= i < j < |s| ==> leq(s[i], s[j])
  }

  /** The comparator returns 0 for `a` and `b`: neither must precede the other. */
  predicate Tied<T>(a: T, b: T, leq: (T, T) -> bool)
  {
    leq(a, b) && leq(b, a)
  }

  /** The elements of `s` tied with `z`, in their order in `s`. */
  function TiedWith<T>(s: seq<T>, z: T, leq: (T, T) -> bool): seq<T>
  {
    if |s| == 0 then []
    else (if Tied(s[0], z, leq) then [s[0]] else []) + TiedWith(s[1..], z, leq)
  }

  /** Places `x` before the first element it may precede. */
  function Insert<T>(x: T, s: seq<T>, leq: (T, T) -> bool): (r: seq<T>)
    ensures |r| == |s| + 1
    ensures multiset(r) == multiset{x} + multiset(s)
  {
    if |s| == 0 then [x]
    else if leq(x, s[0]) then [x] + s
    else
      assert s == [s[0]] + s[1..];
      [s[0]] + Insert(x, s[1..], leq)
  }

  /** Insertion sort: the result is a rearrangement of the input. */
  function Sort<T>(s: seq<T>, leq: (T, T) -> bool): (r: seq<T>)
    ensures |r| == |s|
    ensures multiset(r) == multiset(s)
  {
    if |s| == 0 then []
    else
      assert s == [s[0]] + s[1..];
      Insert(s[0], Sort(s[1..], leq), leq)
  }

  /** Sorting neither adds nor drops an element. */
  lemma SortMembers<T>(s: seq<T>, leq: (T, T) -> bool)
    ensures forall x :: x in Sort(s, leq) <==> x in s
  {
    var r := Sort(s, leq);
    forall x
      ensures x in r <==> x in s
    {
      assert x in r <==> x in multiset(r);
      assert x in s <==> x in multiset(s);
    }
  }

  lemma {:induction false} InsertSorted<T(!new)>(x: T, s: seq<T>, leq: (T, T) -> bool)
    requires TotalPreorder(leq)
    requires SortedBy(s, leq)
    ensures SortedBy(Insert(x, s, leq), leq)
  {
    if |s| > 0 && !leq(x, s[0]) {
      var tail := Insert(x, s[1..], leq);
      InsertSorted(x, s[1..], leq);
      forall k | 0 <= k < |tail|
        ensures leq(s[0], tail[k])
      {
        assert tail[k] in multiset(tail);
        if tail[k] != x {
          assert tail[k] in multiset(s[1..]);
          var m :| 0 <= m < |s[1..]| && s[1..][m] == tail[k];
          assert s[1..][m] == s[m + 1];
        }
      }
    }
  }

  /** The sort orders its result. */
  lemma {:induction false} SortSorted<T(!new)>(s: seq<T>, leq: (T, T) -> bool)
    requires TotalPreorder(leq)
    ensures SortedBy(Sort(s, leq), leq)
  {
    if |s| > 0 {
      SortSorted(s[1..], leq);
      InsertSorted(s[0], Sort(s[1..], leq), leq);
    }
  }

  lemma {:induction false} TiedWithAppend<T>(a: seq<T>, b: seq<T>, z: T, leq: (T, T) -> bool)
    ensures TiedWith(a + b, z, leq) == TiedWith(a, z, leq) + TiedWith(b, z, leq)
  {
    if |a| == 0 {
      assert a + b == b;
    } else {
      var head := if Tied(a[0], z, leq) then [a[0]] else [];
      assert (a + b)[0] == a[0];
      assert (a + b)[1..] == a[1..] + b;
      TiedWithAppend(a[1..], b, z, leq);
      assert TiedWith(a + b, z, leq) == head + TiedWith(a[1..] + b, z, leq);
      assert TiedWith(a, z, leq) == head + TiedWith(a[1..], z, leq);
    }
  }

  lemma TiedWithSingle<T>(a: T, z: T, leq: (T, T) -> bool)
    ensures TiedWith([a], z, leq) == if Tied(a, z, leq) then [a] else []
  {
    assert [a][1..] == [];
  }

  /** Two elements tied with the same `z` may be listed in either order. */
  lemma TiedTransitive<T(!new)>(x: T, y: T, z: T, leq: (T, T) -> bool)
    requires TotalPreorder(leq)
    ensures Tied(x, z, leq) && Tied(y, z, leq) ==> leq(x, y)
  {
  }

  lemma SwapPastEmpty<T>(a: seq<T>, b: seq<T>, c: seq<T>)
    requires a == [] || b == []
    ensures a + (b + c) == b + (a + c)
  {
    if a == [] {
      assert a + (b + c) == b + c == b + (a + c);
    } else {
      assert a + (b + c) == a + c == b + (a + c);
    }
  }

  /** Inserting past the head keeps the head in front. */
  lemma InsertPastHead<T>(x: T, s: seq<T>, z: T, leq: (T, T) -> bool)
    requires |s| > 0 && !leq(x, s[0])
    ensures TiedWith(Insert(x, s, leq), z, leq)
         == TiedWith([s[0]], z, leq) + TiedWith(Insert(x, s[1..], leq), z, leq)
    ensures TiedWith(s, z, leq) == TiedWith([s[0]], z, leq) + TiedWith(s[1..], z, leq)
  {
    TiedWithAppend([s[0]], Insert(x, s[1..], leq), z, leq);
    TiedWithAppend([s[0]], s[1..], z, leq);
    assert s == [s[0]] + s[1..];
  }

  /** The step of `InsertTiedWith` past an element `x` may not precede. */
  lemma InsertTiedWithStep<T>(x: T, s: seq<T>, z: T, leq: (T, T) -> bool)
    requires |s| > 0 && !leq(x, s[0])
    requires !(Tied(x, z, leq) && Tied(s[0], z, leq))
    requires TiedWith(Insert(x, s[1..], leq), z, leq) == TiedWith([x], z, leq) + TiedWith(s[1..], z, leq)
    ensures TiedWith(Insert(x, s, leq), z, leq) == TiedWith([x], z, leq) + TiedWith(s, z, leq)
  {
    TiedWithSingle(x, z, leq);
    TiedWithSingle(s[0], z, leq);
    InsertPastHead(x, s, z, leq);
    SwapPastEmpty(TiedWith([s[0]], z, leq), TiedWith([x], z, leq), TiedWith(s[1..], z, leq));
  }

  lemma {:induction false} InsertTiedWith<T(!new)>(x: T, s: seq<T>, z: T, leq: (T, T) -> bool)
    requires TotalPreorder(leq)
    ensures TiedWith(Insert(x, s, leq), z, leq) == TiedWith([x], z, leq) + TiedWith(s, z, leq)
  {
    if |s| == 0 {
    } else if leq(x, s[0]) {
      TiedWithAppend([x], s, z, leq);
    } else {
      InsertTiedWith(x, s[1..], z, leq);
      // x and s[0] are not both tied with z, or x could precede s[0].
      TiedTransitive(x, s[0], z, leq);
      InsertTiedWithStep(x, s, z, leq);
    }
  }

  /** The sort is stable: the elements tied with any `z` appear in the result
      in the same order as in the input. */
  lemma {:induction false} SortStable<T(!new)>(s: seq<T>, z: T, leq: (T, T) -> bool)
    requires TotalPreorder(leq)
    ensures TiedWith(Sort(s, leq), z, leq) == TiedWith(s, z, leq)
  {
    if |s| > 0 {
      SortStable(s[1..], z, leq);
      InsertTiedWith(s[0], Sort(s[1..], leq), z, leq);
      TiedWithAppend([s[0]], s[1..], z, leq);
      assert s == [s[0]] + s[1..];
    }
  }

  /** The total weight of a sequence's elements. */
  function SumOf<T>(s: seq<T>, w: T -> int): int
  {
    if |s| == 0 then 0 else w(s[0]) + SumOf(s[1..], w)
  }

  lemma {:induction false} InsertSum<T>(x: T, s: seq<T>, leq: (T, T) -> bool, w: T -> int)
    ensures SumOf(Insert(x, s, leq), w) == w(x) + SumOf(s, w)
  {
    if |s| > 0 && !leq(x, s[0]) {
      InsertSum(x, s[1..], leq, w);
    }
  }

  /** Reordering keeps the total weight. */
  lemma {:induction false} SortSum<T>(s: seq<T>, leq: (T, T) -> bool, w: T -> int)
    ensures SumOf(Sort(s, leq), w) == SumOf(s, w)
  {
    if |s| > 0 {
      SortSum(s[1..], leq, w);
      InsertSum(s[0], Sort(s[1..], leq), leq, w);
    }
  }
}
