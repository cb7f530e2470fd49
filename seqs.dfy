/** Selection and ordering over sequences: the meaning given here to a query's
    WHERE clause (Filter), its ORDER BY clause (Sort) and a page of its result (Page). */
module Seqs {

  /** The elements of `s` that satisfy `p`, in the order of `s`. */
  function Filter<T(!new)>(s: seq<T>, p: T -> bool): (r: seq<T>)
    ensures |r| <= |s|
    ensures forall x :: x in r <==> x in s && p(x)
    ensures forall i :: 0 <= i < |r| ==> p(r[i])
  {
    if s == [] then []
    else if p(s[0]) then [s[0]] + Filter(s[1..], p)
    else Filter(s[1..], p)
  }

  /** `r` is obtained from `s` by deleting elements, without reordering the rest. */
  ghost predicate Subsequence<T>(r: seq<T>, s: seq<T>)
    decreases |s|
  {
    if r == [] then true
    else if s == [] then false
    else (r[0] == s[0] && Subsequence(r[1..], s[1..])) || Subsequence(r, s[1..])
  }

  lemma {:induction false} FilterIsSubsequence<T(!new)>(s: seq<T>, p: T -> bool)
    ensures Subsequence(Filter(s, p), s)
    decreases |s|
  {
    if s != [] {
      FilterIsSubsequence(s[1..], p);
      if p(s[0]) {
        assert Filter(s, p)[1..] == Filter(s[1..], p);
      }
    }
  }

  lemma {:induction false} SubsequenceTransitive<T>(a: seq<T>, b: seq<T>, c: seq<T>)
    requires Subsequence(a, b) && Subsequence(b, c)
    ensures Subsequence(a, c)
    decreases |c|
  {
    if a != [] && c != [] {
      if b[0] == c[0] && Subsequence(b[1..], c[1..]) {
        if a[0] == b[0] && Subsequence(a[1..], b[1..]) {
          SubsequenceTransitive(a[1..], b[1..], c[1..]);
        } else {
          SubsequenceTransitive(a, b[1..], c[1..]);
        }
      } else {
        SubsequenceTransitive(a, b, c[1..]);
      }
    }
  }

  /** What a filter keeps and what it drops add up to the input. */
  lemma {:induction false} FilterSplit<T(!new)>(s: seq<T>, p: T -> bool)
    ensures |Filter(s, p)| + |Filter(s, x => !p(x))| == |s|
  {
    if s != [] {
      FilterSplit(s[1..], p);
    }
  }

  /** A filter whose predicate holds of every element keeps the sequence whole. */
  lemma {:induction false} FilterAll<T(!new)>(s: seq<T>, p: T -> bool)
    requires forall i :: 0 <= i < |s| ==> p(s[i])
    ensures Filter(s, p) == s
  {
    if s != [] {
      FilterAll(s[1..], p);
    }
  }

  /** Filters by two predicates that agree everywhere give the same sequence. */
  lemma {:induction false} FilterSamePredicate<T(!new)>(s: seq<T>, p: T -> bool, q: T -> bool)
    requires forall x :: p(x) == q(x)
    ensures Filter(s, p) == Filter(s, q)
  {
    if s != [] {
      FilterSamePredicate(s[1..], p, q);
    }
  }

  /** Two filters in a row keep what both predicates accept. */
  lemma {:induction false} FilterFilter<T(!new)>(s: seq<T>, p: T -> bool, q: T -> bool)
    ensures Filter(Filter(s, p), q) == Filter(s, x => p(x) && q(x))
  {
    if s != [] {
      FilterFilter(s[1..], p, q);
    }
  }

  /** No two elements of `s` share a key. */
  predicate DistinctBy<T, K(==)>(s: seq<T>, key: T -> K)
  {
    forall i, j :: 0 <= i < j < |s| ==> key(s[i]) != key(s[j])
  }

  /** Deleting elements keeps keys distinct. */
  lemma {:induction false} FilterKeepsDistinct<T(!new), K>(s: seq<T>, p: T -> bool, key: T -> K)
    requires DistinctBy(s, key)
    ensures DistinctBy(Filter(s, p), key)
  {
    if s != [] {
      var t := Filter(s[1..], p);
      FilterKeepsDistinct(s[1..], p, key);
      forall x | x in s[1..] ensures key(x) != key(s[0]) {
        var k :| 0 <= k < |s[1..]| && s[1..][k] == x;
        assert s[k + 1] == x;
      }
      if p(s[0]) {
        var r := [s[0]] + t;
        forall i, j | 0 <= i < j < |r| ensures key(r[i]) != key(r[j]) {
          if i == 0 {
            assert r[j] == t[j - 1] && t[j - 1] in t;
          } else {
            assert r[i] == t[i - 1] && r[j] == t[j - 1];
          }
        }
      }
    }
  }

  /** Filtering distributes over concatenation. */
  lemma {:induction false} FilterAppend<T(!new)>(a: seq<T>, b: seq<T>, p: T -> bool)
    ensures Filter(a + b, p) == Filter(a, p) + Filter(b, p)
  {
    if a == [] {
      assert a + b == b;
    } else {
      var ab := a + b;
      assert ab[0] == a[0] && ab[1..] == a[1..] + b;
      FilterAppend(a[1..], b, p);
    }
  }

  /** `le` orders every pair of values and is transitive: what ORDER BY needs. */
  ghost predicate TotalPreorder<T(!new)>(le: (T, T) -> bool)
  {
    && (forall a, b :: le(a, b) || le(b, a))
    && (forall a, b, c :: le(a, b) && le(b, c) ==> le(a, c))
  }

  predicate Sorted<T>(s: seq<T>, le: (T, T) -> bool)
  {
    forall i, j :: 0 <= i < j < |s| ==> le(s[i], s[j])
  }

  function Insert<T(!new)>(x: T, s: seq<T>, le: (T, T) -> bool): (r: seq<T>)
    ensures multiset(r) == multiset(s) + multiset{x}
  {
    if s == [] then [x]
    else if le(x, s[0]) then [x] + s
    else
      assert s == [s[0]] + s[1..];
      [s[0]] + Insert(x, s[1..], le)
  }

  lemma {:induction false} InsertSorted<T(!new)>(x: T, s: seq<T>, le: (T, T) -> bool)
    requires TotalPreorder(le) && Sorted(s, le)
    ensures Sorted(Insert(x, s, le), le)
  {
    if s == [] {
    } else if le(x, s[0]) {
      forall k | 0 <= k < |s| ensures le(x, s[k]) {
        if k > 0 {
          assert le(s[0], s[k]);
        }
      }
      ConsSorted(x, s, le);
    } else {
      var rest := Insert(x, s[1..], le);
      InsertSorted(x, s[1..], le);
      forall k | 0 <= k < |rest| ensures le(s[0], rest[k]) {
        assert rest[k] in multiset(s[1..]) + multiset{x};
        if rest[k] != x {
          assert rest[k] in s[1..];
        }
      }
      ConsSorted(s[0], rest, le);
    }
  }

  /** A head ranked no later than every element of a sorted tail keeps it sorted. */
  lemma ConsSorted<T>(h: T, t: seq<T>, le: (T, T) -> bool)
    requires Sorted(t, le)
    requires forall k :: 0 <= k < |t| ==> le(h, t[k])
    ensures Sorted([h] + t, le)
  {
    var r := [h] + t;
    forall i, j | 0 <= i < j < |r| ensures le(r[i], r[j]) {
      if i == 0 {
        assert r[j] == t[j - 1];
      } else {
        assert r[i] == t[i - 1] && r[j] == t[j - 1];
      }
    }
  }

  /** The rows of `s` rearranged in the order `le` (insertion sort); equal-ranking rows
      may come in any order in the source's queries, so only sortedness and being a
      permutation are promised. */
  function Sort<T(!new)>(s: seq<T>, le: (T, T) -> bool): (r: seq<T>)
    requires TotalPreorder(le)
    ensures multiset(r) == multiset(s)
    ensures |r| == |s|
    ensures Sorted(r, le)
  {
    if s == [] then []
    else
      assert s == [s[0]] + s[1..];
      InsertSorted(s[0], Sort(s[1..], le), le);
      Insert(s[0], Sort(s[1..], le), le)
  }

  /** The first page of `s` with at most `size` elements. */
  function Page<T>(s: seq<T>, size: nat): (r: seq<T>)
    ensures |r| <= size && |r| <= |s|
    ensures r <= s
    ensures |s| <= size ==> r == s
  {
    if |s| <= size then s else s[..size]
  }

  /** An element that occurs at most once in `s` occupies a single position. */
  lemma SingleOccurrence<T>(s: seq<T>, i: int, j: int)
    requires 0 <= i < j < |s| && multiset(s)[s[i]] <= 1
    ensures s[i] != s[j]
  {
    assert s == s[..i] + [s[i]] + s[i + 1..j] + [s[j]] + s[j + 1..];
  }

  /** A page keeps the order of what it was cut from and takes nothing that was not
      there. */
  lemma PageOfSorted<T>(s: seq<T>, size: nat, le: (T, T) -> bool)
    requires Sorted(s, le)
    ensures Sorted(Page(s, size), le)
    ensures multiset(Page(s, size)) <= multiset(s)
  {
    var r := Page(s, size);
    assert s == r + s[|r|..];
  }

  /** The positions below `k` whose element satisfies `p`. */
  ghost function Positions<T>(s: seq<T>, p: T -> bool, k: nat): set<nat>
    requires k <= |s|
  {
    set i: nat | i < k && p(s[i])
  }

  /** A filter keeps one element per position that satisfies the predicate, so its
      length counts those positions. */
  lemma {:induction false} FilterCountsPositions<T(!new)>(s: seq<T>, p: T -> bool, k: nat)
    requires k <= |s|
    ensures |Filter(s[..k], p)| == |Positions(s, p, k)|
  {
    if k == 0 {
      assert Positions(s, p, 0) == {};
    } else {
      FilterCountsPositions(s, p, k - 1);
      FilterExtends(s, p, k - 1);
      PositionsExtend(s, p, k - 1);
    }
  }

  /** One more element adds itself to the filter exactly when it satisfies `p`. */
  lemma FilterExtends<T(!new)>(s: seq<T>, p: T -> bool, k: nat)
    requires k < |s|
    ensures |Filter(s[..k + 1], p)| == |Filter(s[..k], p)| + if p(s[k]) then 1 else 0
  {
    var x := s[k];
    assert s[..k + 1] == s[..k] + [x];
    FilterAppend(s[..k], [x], p);
    assert [x][1..] == [];
  }

  /** One more position adds itself to the set exactly when its element satisfies `p`. */
  lemma PositionsExtend<T>(s: seq<T>, p: T -> bool, k: nat)
    requires k < |s|
    ensures |Positions(s, p, k + 1)| == |Positions(s, p, k)| + if p(s[k]) then 1 else 0
  {
    var before, after := Positions(s, p, k), Positions(s, p, k + 1);
    if p(s[k]) {
      assert k !in before;
      assert after == before + {k};
    } else {
      assert after == before;
    }
  }

  /** Whatever the first page of a sorted sequence leaves out ranks no earlier than
      anything on the page. */
  lemma TopOfSortedPage<T>(sorted: seq<T>, size: nat, le: (T, T) -> bool)
    requires Sorted(sorted, le)
    ensures forall s :: s in sorted && s !in Page(sorted, size) ==>
      forall t :: t in Page(sorted, size) ==> le(t, s)
  {
    var page := Page(sorted, size);
    forall s, t | s in sorted && s !in page && t in page ensures le(t, s) {
      var j :| 0 <= j < |sorted| && sorted[j] == s;
      var i :| 0 <= i < |page| && page[i] == t;
      assert sorted[i] == t;
      assert forall k :: 0 <= k < |page| ==> sorted[k] == page[k] && page[k] in page;
      assert j >= |page|;
    }
  }

  /** Ascending order on an integer key: a total preorder whatever the key. */
  lemma KeyOrderIsTotalPreorder<T(!new)>(key: T -> int)
    ensures TotalPreorder((a: T, b: T) => key(a) <= key(b))
  {
  }
}
