/** Generic facts about sequences used by the post store: order-preserving
    filtering, subsequences, reversal and distinctness of a key. */
module Seqs {

  /** `xs` can be obtained from `ys` by deleting elements, keeping order. */
  predicate IsSubsequence<T(==)>(xs: seq<T>, ys: seq<T>)
    decreases |ys|
  {
    if |xs| == 0 then true
    else if |ys| == 0 then false
    else (xs[0] == ys[0] && IsSubsequence(xs[1..], ys[1..])) || IsSubsequence(xs, ys[1..])
  }

  /** No two positions of `s` carry the same key. */
  ghost predicate DistinctBy<T, K>(s: seq<T>, key: T -> K) {
    forall i, j :: 0 <= i < j < |s| ==> key(s[i]) != key(s[j])
  }

  /** The elements of `s` satisfying `keep`, in their original order
      (a Python list comprehension with an `if` clause). */
  function Filter<T(!new)>(keep: T -> bool, s: seq<T>): (r: seq<T>)
    ensures IsSubsequence(r, s)
    ensures forall x :: multiset(r)[x] == if keep(x) then multiset(s)[x] else 0
  {
    if |s| == 0 then []
    else
      assert s == [s[0]] + s[1..];
      if keep(s[0]) then [s[0]] + Filter(keep, s[1..])
      else Filter(keep, s[1..])
  }

  /** What the filter keeps: exactly the elements that pass, none added. */
  lemma FilterMembers<T(!new)>(keep: T -> bool, s: seq<T>)
    ensures forall x :: x in Filter(keep, s) <==> x in s && keep(x)
    ensures multiset(Filter(keep, s)) <= multiset(s)
  {
  }

  /** The filter drops nothing exactly when every element passes, and then
      it returns its input. */
  lemma {:induction false} FilterLength<T(!new)>(keep: T -> bool, s: seq<T>)
    ensures |Filter(keep, s)| <= |s|
    ensures |Filter(keep, s)| == |s| <==> forall i :: 0 <= i < |s| ==> keep(s[i])
    ensures (forall i :: 0 <= i < |s| ==> keep(s[i])) ==> Filter(keep, s) == s
  {
    if |s| > 0 {
      FilterLength(keep, s[1..]);
      if !keep(s[0]) {
        assert !forall i :: 0 <= i < |s| ==> keep(s[i]);
      } else if forall i :: 0 <= i < |s[1..]| ==> keep(s[1..][i]) {
        assert forall i :: 0 <= i < |s| ==> keep(s[i]) by {
          forall i | 0 <= i < |s| ensures keep(s[i]) {
            if i > 0 { assert s[i] == s[1..][i - 1]; }
          }
        }
      } else {
        var i :| 0 <= i < |s[1..]| && !keep(s[1..][i]);
        assert !keep(s[i + 1]);
      }
    }
  }

  /** Dropping the single element that fails shortens the sequence by one. */
  lemma {:induction false} FilterDropsOne<T(!new)>(keep: T -> bool, s: seq<T>, k: int)
    requires 0 <= k < |s| && !keep(s[k])
    requires forall i :: 0 <= i < |s| && i != k ==> keep(s[i])
    ensures |Filter(keep, s)| == |s| - 1
  {
    if k == 0 {
      FilterLength(keep, s[1..]);
    } else {
      FilterDropsOne(keep, s[1..], k - 1);
    }
  }

  /** Filters with the same verdicts give the same result. */
  lemma {:induction false} FilterExtensional<T(!new)>(f: T -> bool, g: T -> bool, s: seq<T>)
    requires forall i :: 0 <= i < |s| ==> f(s[i]) == g(s[i])
    ensures Filter(f, s) == Filter(g, s)
  {
    if |s| > 0 {
      FilterExtensional(f, g, s[1..]);
    }
  }

  /** Filtering by `f` and then by `g` is filtering by their conjunction `h`. */
  lemma {:induction false} FilterFilter<T(!new)>(f: T -> bool, g: T -> bool, h: T -> bool, s: seq<T>)
    requires forall x :: h(x) == (f(x) && g(x))
    ensures Filter(g, Filter(f, s)) == Filter(h, s)
  {
    if |s| > 0 {
      FilterFilter(f, g, h, s[1..]);
    }
  }

  lemma {:induction false} SubsequenceLength<T>(xs: seq<T>, ys: seq<T>)
    requires IsSubsequence(xs, ys)
    ensures |xs| <= |ys|
    decreases |ys|
  {
    if |xs| > 0 && |ys| > 0 {
      if xs[0] == ys[0] && IsSubsequence(xs[1..], ys[1..]) {
        SubsequenceLength(xs[1..], ys[1..]);
      } else {
        SubsequenceLength(xs, ys[1..]);
      }
    }
  }

  /** A subsequence as long as the sequence is the sequence itself. */
  lemma {:induction false} SubsequenceSameLength<T>(xs: seq<T>, ys: seq<T>)
    requires IsSubsequence(xs, ys) && |xs| == |ys|
    ensures xs == ys
    decreases |ys|
  {
    if |xs| > 0 {
      if xs[0] == ys[0] && IsSubsequence(xs[1..], ys[1..]) {
        SubsequenceSameLength(xs[1..], ys[1..]);
        assert xs == [xs[0]] + xs[1..] && ys == [ys[0]] + ys[1..];
      } else {
        SubsequenceLength(xs, ys[1..]);
      }
    }
  }

  lemma {:induction false} SubsequenceReflexive<T>(s: seq<T>)
    ensures IsSubsequence(s, s)
  {
    if |s| > 0 {
      SubsequenceReflexive(s[1..]);
    }
  }

  /** Deleting elements twice is deleting elements. */
  lemma {:induction false} SubsequenceTransitive<T>(a: seq<T>, b: seq<T>, c: seq<T>)
    requires IsSubsequence(a, b) && IsSubsequence(b, c)
    ensures IsSubsequence(a, c)
    decreases |c|
  {
    if |a| == 0 {
    } else if |b| == 0 {
    } else if |c| == 0 {
    } else if b[0] == c[0] && IsSubsequence(b[1..], c[1..]) {
      if a[0] == b[0] && IsSubsequence(a[1..], b[1..]) {
        SubsequenceTransitive(a[1..], b[1..], c[1..]);
      } else {
        SubsequenceTransitive(a, b[1..], c[1..]);
      }
    } else {
      SubsequenceTransitive(a, b, c[1..]);
    }
  }

  /** `s` backwards. */
  function Reverse<T>(s: seq<T>): (r: seq<T>)
    ensures |r| == |s|
    ensures forall i :: 0 <= i < |s| ==> r[i] == s[|s| - 1 - i]
    ensures multiset(r) == multiset(s)
  {
    if |s| == 0 then []
    else
      assert s == [s[0]] + s[1..];
      Reverse(s[1..]) + [s[0]]
  }

  /** Two equal elements at distinct positions make the element occur twice. */
  lemma CountTwo<T>(s: seq<T>, i: int, j: int)
    requires 0 <= i < j < |s| && s[i] == s[j]
    ensures multiset(s)[s[i]] >= 2
  {
    assert s == s[..j] + s[j..];
    assert s[i] in s[..j];
    assert s[j] in s[j..];
  }

  /** With distinct keys no element occurs twice. */
  lemma {:induction false} DistinctByCountAtMostOne<T, K>(s: seq<T>, key: T -> K, x: T)
    requires DistinctBy(s, key)
    ensures multiset(s)[x] <= 1
  {
    if |s| > 0 {
      assert s == [s[0]] + s[1..];
      assert DistinctBy(s[1..], key) by {
        forall i, j | 0 <= i < j < |s[1..]| ensures key(s[1..][i]) != key(s[1..][j]) {
          assert s[1..][i] == s[i + 1] && s[1..][j] == s[j + 1];
        }
      }
      if s[0] == x {
        assert x !in s[1..] by {
          forall k | 0 <= k < |s[1..]| ensures s[1..][k] != x {
            assert key(s[0]) != key(s[k + 1]);
          }
        }
      } else {
        DistinctByCountAtMostOne(s[1..], key, x);
      }
    }
  }

  /** Keeping a sub-multiset of the elements keeps keys distinct: this covers
      both filtering and permuting. */
  lemma SubmultisetPreservesDistinctBy<T, K>(a: seq<T>, b: seq<T>, key: T -> K)
    requires DistinctBy(a, key)
    requires multiset(b) <= multiset(a)
    ensures DistinctBy(b, key)
  {
    forall i, j | 0 <= i < j < |b| ensures key(b[i]) != key(b[j]) {
      if b[i] == b[j] {
        CountTwo(b, i, j);
        DistinctByCountAtMostOne(a, key, b[i]);
        assert false;
      } else {
        assert b[i] in multiset(b) && b[j] in multiset(b);
        assert b[i] in a && b[j] in a;
        var i' :| 0 <= i' < |a| && a[i'] == b[i];
        var j' :| 0 <= j' < |a| && a[j'] == b[j];
        if i' < j' {
          assert key(a[i']) != key(a[j']);
        } else {
          assert key(a[j']) != key(a[i']);
        }
      }
    }
  }
}
