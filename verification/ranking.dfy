/** The ranking step: flatten the mapping, sort the posts by descending
    engagement key with a stable sort, and keep the first ten. */
module Ranking {
  import opened Posts
  import opened Communities

  /** How many ranked posts are kept. */
  const TopN: nat := 10

  function Min(a: nat, b: nat): nat {
    if a <= b then a else b
  }

  /** Every post ranks at least as high as every later one. */
  predicate Sorted(xs: seq<Post>) {
    forall i, j | 0 <= i < j < |xs| :: KeyAtLeast(xs[i], xs[j])
  }

  /** Every post ranks at least as high as the next one. */
  predicate AdjacentSorted(xs: seq<Post>) {
    forall i | 0 <= i < |xs| - 1 :: KeyAtLeast(xs[i], xs[i + 1])
  }

  /** Comparing neighbours is enough: the order is transitive. */
  lemma {:induction false} AdjacentSortedIffSorted(xs: seq<Post>)
    ensures AdjacentSorted(xs) <==> Sorted(xs)
  {
    if xs != [] && AdjacentSorted(xs) {
      assert AdjacentSorted(xs[1..]) by {
        forall i | 0 <= i < |xs[1..]| - 1 ensures KeyAtLeast(xs[1..][i], xs[1..][i + 1]) {
          assert xs[1..][i] == xs[i + 1] && xs[1..][i + 1] == xs[i + 2];
        }
      }
      AdjacentSortedIffSorted(xs[1..]);
      forall i, j | 0 <= i < j < |xs| ensures KeyAtLeast(xs[i], xs[j]) {
        if i == 0 && j > 1 {
          assert xs[1..][0] == xs[1] && xs[1..][j - 1] == xs[j];
          KeyAtLeastTransitive(xs[0], xs[1], xs[j]);
        } else if i > 0 {
          assert xs[1..][i - 1] == xs[i] && xs[1..][j - 1] == xs[j];
        }
      }
    }
  }

  /** The posts of `xs` whose key is `k`, in their order in `xs`. */
  function WithKey(xs: seq<Post>, k: Key): seq<Post> {
    if xs == [] then []
    else (if KeyOf(xs[0]) == k then [xs[0]] else []) + WithKey(xs[1..], k)
  }

  lemma {:induction false} WithKeyMembers(xs: seq<Post>, k: Key)
    ensures |WithKey(xs, k)| <= |xs|
    ensures forall p | p in WithKey(xs, k) :: KeyOf(p) == k && p in xs
  {
    if xs != [] {
      WithKeyMembers(xs[1..], k);
    }
  }

  lemma {:induction false} WithKeyAppend(a: seq<Post>, b: seq<Post>, k: Key)
    ensures WithKey(a + b, k) == WithKey(a, k) + WithKey(b, k)
  {
    if a == [] {
      assert a + b == b;
    } else {
      assert (a + b)[1..] == a[1..] + b;
      WithKeyAppend(a[1..], b, k);
    }
  }

  /** Inserts `x` before the first post it ranks at least as high as. The
      result is `ys` with one more `x`. */
  function Insert(x: Post, ys: seq<Post>): (r: seq<Post>)
    ensures |r| == |ys| + 1
    ensures multiset(r) == multiset(ys) + multiset{x}
  {
    if ys == [] then [x]
    else if KeyAtLeast(x, ys[0]) then [x] + ys
    else
      assert ys == [ys[0]] + ys[1..];
      [ys[0]] + Insert(x, ys[1..])
  }

  /** Inserting into a sorted sequence keeps it sorted. */
  lemma {:induction false} InsertSorted(x: Post, ys: seq<Post>)
    requires Sorted(ys)
    ensures Sorted(Insert(x, ys))
  {
    if ys != [] && !KeyAtLeast(x, ys[0]) {
      var rest := Insert(x, ys[1..]);
      InsertSorted(x, ys[1..]);
      forall p | p in rest ensures KeyAtLeast(ys[0], p) {
        assert p in multiset(rest);
        if p != x {
          var j :| 0 <= j < |ys[1..]| && ys[1..][j] == p;
          assert ys[j + 1] == p;
        }
      }
      var r := [ys[0]] + rest;
      forall i, j | 0 <= i < j < |r| ensures KeyAtLeast(r[i], r[j]) {
        assert r[j] == rest[j - 1];
        if i > 0 {
          assert r[i] == rest[i - 1];
        }
      }
    }
  }

  /** `x` goes in front of every post with its own key, so each key's
      subsequence gains `x` at its head. */
  lemma {:induction false} InsertStable(x: Post, ys: seq<Post>, k: Key)
    ensures WithKey(Insert(x, ys), k) == (if KeyOf(x) == k then [x] else []) + WithKey(ys, k)
  {
    if ys == [] {
      assert WithKey([x], k) == (if KeyOf(x) == k then [x] else []) + WithKey([], k);
    } else if KeyAtLeast(x, ys[0]) {
      assert ([x] + ys)[1..] == ys;
    } else {
      var rest := Insert(x, ys[1..]);
      assert ([ys[0]] + rest)[1..] == rest;
      InsertStable(x, ys[1..], k);
      KeyAtLeastAntisymmetric(x, ys[0]);
      SwapKeyHeads(ys[0], x, WithKey(ys[1..], k), k);
    }
  }

  /** Heads drawn from posts with different keys can be swapped: at most
      one of them is non-empty. */
  lemma SwapKeyHeads(y: Post, x: Post, t: seq<Post>, k: Key)
    requires KeyOf(x) != KeyOf(y)
    ensures (if KeyOf(y) == k then [y] else []) + ((if KeyOf(x) == k then [x] else []) + t)
         == (if KeyOf(x) == k then [x] else []) + ((if KeyOf(y) == k then [y] else []) + t)
  {
  }

  /** Stable insertion sort by descending engagement key. */
  function SortPosts(xs: seq<Post>): (r: seq<Post>)
    ensures |r| == |xs|
    ensures multiset(r) == multiset(xs)
    ensures Sorted(r)
  {
    if xs == [] then []
    else
      assert xs == [xs[0]] + xs[1..];
      InsertSorted(xs[0], SortPosts(xs[1..]));
      Insert(xs[0], SortPosts(xs[1..]))
  }

  /** Sorting keeps, for every key, the posts with that key in their input
      order. */
  lemma {:induction false} SortIsStable(xs: seq<Post>)
    ensures forall k :: WithKey(SortPosts(xs), k) == WithKey(xs, k)
  {
    if xs != [] {
      SortIsStable(xs[1..]);
      forall k ensures WithKey(SortPosts(xs), k) == WithKey(xs, k) {
        InsertStable(xs[0], SortPosts(xs[1..]), k);
      }
    }
  }

  lemma HeadRanksHighest(xs: seq<Post>, p: Post)
    requires Sorted(xs) && p in xs
    ensures KeyAtLeast(xs[0], p)
  {
  }

  /** Two sorted sequences with the same per-key subsequences start alike. */
  lemma {:induction false} HeadDetermined(a: seq<Post>, b: seq<Post>)
    requires Sorted(a) && Sorted(b)
    requires forall k :: WithKey(a, k) == WithKey(b, k)
    ensures a != [] <==> b != []
    ensures a != [] ==> a[0] == b[0]
  {
    if b != [] {
      var k := KeyOf(b[0]);
      assert WithKey(b, k) == [b[0]] + WithKey(b[1..], k);
      WithKeyMembers(a, k);
      assert |WithKey(a, k)| > 0;
    }
    if a != [] {
      var k := KeyOf(a[0]);
      assert WithKey(a, k) == [a[0]] + WithKey(a[1..], k);
      WithKeyMembers(b, k);
      var q := WithKey(b, k)[0];
      HeadRanksHighest(b, q);
      var k' := KeyOf(b[0]);
      assert WithKey(b, k') == [b[0]] + WithKey(b[1..], k');
      WithKeyMembers(a, k');
      var q' := WithKey(a, k')[0];
      HeadRanksHighest(a, q');
      KeyAtLeastAntisymmetric(a[0], b[0]);
      assert k' == k;
    }
  }

  /** A sorted sequence is determined by its per-key subsequences. */
  lemma {:induction false} SortedStableUnique(a: seq<Post>, b: seq<Post>)
    requires Sorted(a) && Sorted(b)
    requires forall k :: WithKey(a, k) == WithKey(b, k)
    ensures a == b
    decreases |a|
  {
    HeadDetermined(a, b);
    if a != [] {
      forall k ensures WithKey(a[1..], k) == WithKey(b[1..], k) {
        var h := if KeyOf(a[0]) == k then [a[0]] else [];
        assert WithKey(a, k) == h + WithKey(a[1..], k);
        assert WithKey(b, k) == h + WithKey(b[1..], k);
        assert (h + WithKey(a[1..], k))[|h|..] == WithKey(a[1..], k);
        assert (h + WithKey(b[1..], k))[|h|..] == WithKey(b[1..], k);
      }
      SortedStableUnique(a[1..], b[1..]);
      assert a == [a[0]] + a[1..] && b == [b[0]] + b[1..];
    }
  }

  /** `r` is a stable descending sort of `xs`: sorted, and for every key the
      posts with that key are those of `xs`, in the same order. */
  ghost predicate IsStableSortOf(xs: seq<Post>, r: seq<Post>) {
    Sorted(r) && forall k :: WithKey(r, k) == WithKey(xs, k)
  }

  /** `SortPosts` is the stable sort: its result is the one sorted sequence
      that keeps every key's posts in their input order. Any stable sort,
      whatever its algorithm, returns the same sequence. */
  lemma {:induction false} SortCharacterized(xs: seq<Post>, r: seq<Post>)
    ensures r == SortPosts(xs) <==> IsStableSortOf(xs, r)
  {
    SortIsStable(xs);
    if IsStableSortOf(xs, r) {
      SortedStableUnique(r, SortPosts(xs));
    }
  }

  /** Sorting an already sorted sequence changes nothing. */
  lemma {:induction false} SortedIsFixpoint(xs: seq<Post>)
    requires Sorted(xs)
    ensures SortPosts(xs) == xs
  {
    SortCharacterized(xs, xs);
  }

  /** The first `n` elements, or all of them when there are fewer. */
  function Take<T>(xs: seq<T>, n: nat): (r: seq<T>)
    ensures |r| == Min(n, |xs|)
    ensures r == xs[..|r|]
  {
    if |xs| <= n then xs else xs[..n]
  }

  /** Sort a flat sequence of posts and keep the best `TopN`. */
  function RankPosts(xs: seq<Post>): (r: seq<Post>)
    ensures |r| == Min(TopN, |xs|)
    ensures Sorted(r)
    ensures multiset(r) <= multiset(xs)
  {
    var s := SortPosts(xs);
    var r := Take(s, TopN);
    assert s == r + s[|r|..];
    r
  }

  /** Every copy of a post that the cut-off drops ranks no higher than every
      kept post, and copies are dropped only when `TopN` are kept. */
  lemma {:induction false} RankKeepsBest(xs: seq<Post>)
    ensures forall p | multiset(RankPosts(xs))[p] < multiset(xs)[p] ::
              |RankPosts(xs)| == TopN && forall q | q in RankPosts(xs) :: KeyAtLeast(q, p)
  {
    var s := SortPosts(xs);
    var r := RankPosts(xs);
    assert s == r + s[|r|..];
    assert multiset(xs) == multiset(r) + multiset(s[|r|..]);
    forall p | multiset(r)[p] < multiset(xs)[p]
      ensures |r| == TopN && forall q | q in r :: KeyAtLeast(q, p)
    {
      assert p in multiset(s[|r|..]);
      var j :| 0 <= j < |s[|r|..]| && s[|r|..][j] == p;
      assert s[|r| + j] == p;
      forall q | q in r ensures KeyAtLeast(q, p) {
        var i :| 0 <= i < |r| && r[i] == q;
        assert s[i] == q;
      }
    }
  }

  /** Within each key, the ranked posts are the first ones of that key in
      the input, in input order. */
  lemma {:induction false} RankStable(xs: seq<Post>)
    ensures forall k :: WithKey(RankPosts(xs), k) <= WithKey(xs, k)
  {
    var s := SortPosts(xs);
    var r := RankPosts(xs);
    SortIsStable(xs);
    assert s == r + s[|r|..];
    forall k ensures WithKey(r, k) <= WithKey(xs, k) {
      WithKeyAppend(r, s[|r|..], k);
    }
  }

  /** Ranking an already ranked list returns it unchanged. */
  lemma {:induction false} RankIdempotent(xs: seq<Post>)
    ensures RankPosts(RankPosts(xs)) == RankPosts(xs)
  {
    SortedIsFixpoint(RankPosts(xs));
  }

  /** The ranking step of the trend analysis: all posts of all communities,
      best first, at most `TopN` of them, none invented. */
  function TopPosts(m: seq<Community>): (r: seq<Post>)
    ensures |r| == Min(TopN, TotalPosts(m))
    ensures Sorted(r)
    ensures multiset(r) <= multiset(Flatten(m))
  {
    RankPosts(Flatten(m))
  }

  /** Every ranked post is, field for field, a post of some community's
      listing. */
  lemma {:induction false} TopPostsFromListings(m: seq<Community>)
    ensures forall p | p in TopPosts(m) :: exists c | c in m :: p in c.posts
  {
    FlattenMembers(m);
    forall p | p in TopPosts(m) ensures p in Flatten(m) {
      assert p in multiset(TopPosts(m));
    }
  }

  /** No copy of a post that misses the cut ranks above a kept post. */
  lemma {:induction false} TopPostsKeepBest(m: seq<Community>)
    ensures forall p | multiset(TopPosts(m))[p] < multiset(Flatten(m))[p] ::
              |TopPosts(m)| == TopN && forall q | q in TopPosts(m) :: KeyAtLeast(q, p)
  {
    RankKeepsBest(Flatten(m));
  }

  /** Posts with equal keys keep their flattened order. */
  lemma {:induction false} TopPostsStable(m: seq<Community>)
    ensures forall k :: WithKey(TopPosts(m), k) <= WithKey(Flatten(m), k)
  {
    RankStable(Flatten(m));
  }

  /** Ranking the ranked posts again, as the only community, changes
      nothing. */
  lemma {:induction false} TopPostsIdempotent(m: seq<Community>, name: string)
    ensures TopPosts([Community(name, TopPosts(m))]) == TopPosts(m)
  {
    var r := TopPosts(m);
    assert Flatten([Community(name, r)]) == r by {
      assert [Community(name, r)][1..] == [];
    }
    RankIdempotent(Flatten(m));
  }

  /** A higher score wins over more comments. */
  lemma ExampleScoreBeforeComments()
    ensures
      var a := Post("A", "https://example.org/a", 100, 5);
      var b := Post("B", "https://example.org/b", 50, 200);
      TopPosts([Community("a", [a]), Community("b", [b])]) == [a, b]
  {
  }

  /** On equal scores, more comments rank first. */
  lemma ExampleCommentsBreakTie()
    ensures
      var x := Post("X", "https://example.org/x", 10, 3);
      var y := Post("Y", "https://example.org/y", 10, 7);
      TopPosts([Community("s", [x, y])]) == [y, x]
  {
  }
}
