/** `POSTS.sort(key=lambda post: post[sort], reverse=...)`, modelled as an
    insertion sort. Each element is placed in front of the first element it
    may precede, which keeps equal keys in their original order for both
    directions, as Python's stable sort with `reverse=True` does. */
module Sorting {
  import opened Seqs
  import opened Posts

  /** Puts `x` in front of the first element it may precede. */
  function Insert(x: Post, s: Store, f: Field, d: Direction): (r: Store)
    ensures multiset(r) == multiset(s) + multiset{x}
    ensures |r| == |s| + 1
  {
    if |s| == 0 then [x]
    else if InOrder(x, s[0], f, d) then [x] + s
    else
      assert s == [s[0]] + s[1..];
      [s[0]] + Insert(x, s[1..], f, d)
  }

  /** Dropping the head of a sorted list leaves it sorted. */
  lemma SortedTail(s: Store, f: Field, d: Direction)
    requires |s| > 0 && Sorted(s, f, d)
    ensures Sorted(s[1..], f, d)
  {
  }

  /** A head that may precede every element of a sorted tail gives a sorted list. */
  lemma SortedCons(y: Post, rest: Store, f: Field, d: Direction)
    requires Sorted(rest, f, d)
    requires forall z :: z in rest ==> InOrder(y, z, f, d)
    ensures Sorted([y] + rest, f, d)
  {
  }

  lemma {:induction false} InsertSorted(x: Post, s: Store, f: Field, d: Direction)
    requires Sorted(s, f, d)
    ensures Sorted(Insert(x, s, f, d), f, d)
  {
    if |s| == 0 {
    } else if InOrder(x, s[0], f, d) {
      forall z | z in s ensures InOrder(x, z, f, d) {
        if z != s[0] { InOrderTransitive(x, s[0], z, f, d); }
      }
      SortedCons(x, s, f, d);
    } else {
      InOrderTotal(x, s[0], f, d);
      var rest := Insert(x, s[1..], f, d);
      SortedTail(s, f, d);
      InsertSorted(x, s[1..], f, d);
      forall z | z in rest ensures InOrder(s[0], z, f, d) {
        assert z in multiset(rest);
        if z != x {
          assert z in multiset(s[1..]);
          var k :| 0 <= k < |s[1..]| && s[1..][k] == z;
          assert s[k + 1] == z;
        }
      }
      SortedCons(s[0], rest, f, d);
    }
  }

  /** The store reordered by `f` in direction `d`: a sorted permutation. */
  function Sort(s: Store, f: Field, d: Direction): (r: Store)
    ensures multiset(r) == multiset(s)
    ensures |r| == |s|
    ensures Sorted(r, f, d)
  {
    if |s| == 0 then []
    else
      assert s == [s[0]] + s[1..];
      var rest := Sort(s[1..], f, d);
      InsertSorted(s[0], rest, f, d);
      Insert(s[0], rest, f, d)
  }

  /** Sorting an already sorted store leaves it as it is, so repeating a
      sorted listing does not shuffle posts with equal keys. */
  lemma {:induction false} SortSortedIsIdentity(s: Store, f: Field, d: Direction)
    requires Sorted(s, f, d)
    ensures Sort(s, f, d) == s
  {
    if |s| > 0 {
      SortedTail(s, f, d);
      SortSortedIsIdentity(s[1..], f, d);
      if |s| > 1 {
        assert InOrder(s[0], s[1..][0], f, d);
      }
      assert [s[0]] + s[1..] == s;
    }
  }

  /** Two sorted lists with the same elements and distinct keys are equal:
      the order is then forced. */
  lemma {:induction false} SortedDistinctUnique(a: Store, b: Store, f: Field, d: Direction)
    requires Sorted(a, f, d) && Sorted(b, f, d)
    requires multiset(a) == multiset(b)
    requires DistinctBy(a, (p: Post) => Key(p, f))
    ensures a == b
    decreases |a|
  {
    SubmultisetPreservesDistinctBy(a, b, (p: Post) => Key(p, f));
    assert |a| == |multiset(a)| == |multiset(b)| == |b|;
    if |a| > 0 {
      SortedDistinctSameHead(a, b, f, d);
      assert a == [a[0]] + a[1..] && b == [b[0]] + b[1..];
      assert multiset(a) == multiset{a[0]} + multiset(a[1..]);
      assert multiset(b) == multiset{b[0]} + multiset(b[1..]);
      SortedTail(a, f, d);
      SortedTail(b, f, d);
      SubmultisetPreservesDistinctBy(a, a[1..], (p: Post) => Key(p, f));
      SortedDistinctUnique(a[1..], b[1..], f, d);
    }
  }

  /** The first element of such a list is forced: both lists start alike. */
  lemma SortedDistinctSameHead(a: Store, b: Store, f: Field, d: Direction)
    requires |a| > 0 && |b| > 0
    requires Sorted(a, f, d) && Sorted(b, f, d)
    requires multiset(a) == multiset(b)
    requires DistinctBy(b, (p: Post) => Key(p, f))
    ensures a[0] == b[0]
  {
    assert a[0] in multiset(b) && b[0] in multiset(a);
    var k :| 0 <= k < |b| && b[k] == a[0];
    var m :| 0 <= m < |a| && a[m] == b[0];
    if k > 0 && m > 0 {
      assert InOrder(b[0], b[k], f, d) && InOrder(a[0], a[m], f, d);
      Text.LexLeAntisymmetric(Key(b[0], f), Key(b[k], f));
      assert false;
    }
  }

  /** Reversing an ascending list gives a descending one. */
  lemma ReverseAscIsDesc(s: Store, f: Field)
    requires Sorted(s, f, Asc)
    ensures Sorted(Reverse(s), f, Desc)
  {
  }

  /** With distinct keys, a descending sort of any permutation of `s` is the
      ascending sort of `s` reversed. */
  lemma SortDescReversesAsc(s: Store, t: Store, f: Field)
    requires multiset(t) == multiset(s)
    requires DistinctBy(s, (p: Post) => Key(p, f))
    ensures Sort(t, f, Desc) == Reverse(Sort(s, f, Asc))
  {
    var up := Sort(s, f, Asc);
    var down := Sort(t, f, Desc);
    ReverseAscIsDesc(up, f);
    SubmultisetPreservesDistinctBy(s, down, (p: Post) => Key(p, f));
    SortedDistinctUnique(down, Reverse(up), f, Desc);
  }
}
