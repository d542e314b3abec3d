/** The mapping from community name to its hot posts, as built by the fetch
    loop, and its flattening into one sequence of posts. The mapping is an
    insertion-ordered dictionary, modelled as a sequence of entries. */
module Communities {
  import opened Posts

  /** One entry of the mapping: a community name and the posts of its hot
      listing, in the order the listing returned them. */
  datatype Community = Community(name: string, posts: seq<Post>)

  /** The keys of the mapping, in mapping order. */
  function Names(m: seq<Community>): seq<string> {
    if m == [] then [] else [m[0].name] + Names(m[1..])
  }

  /** The names of entry `i` is the `i`-th key. */
  lemma {:induction false} NamesIndex(m: seq<Community>)
    ensures |Names(m)| == |m|
    ensures forall i | 0 <= i < |m| :: Names(m)[i] == m[i].name
  {
    if m != [] {
      NamesIndex(m[1..]);
    }
  }

  predicate Distinct(s: seq<string>) {
    forall i, j | 0 <= i < j < |s| :: s[i] != s[j]
  }

  /** Prepending keeps a sequence distinct exactly when the new element is
      not already in it. */
  lemma DistinctCons(x: string, s: seq<string>)
    ensures Distinct([x] + s) <==> x !in s && Distinct(s)
  {
    var t := [x] + s;
    assert t[0] == x;
    assert forall i | 0 <= i < |s| :: t[i + 1] == s[i];
    if x !in s && Distinct(s) {
      forall i, j | 0 <= i < j < |t| ensures t[i] != t[j] {
        if i > 0 {
          assert t[i] == s[i - 1];
        }
      }
    }
    if Distinct(t) {
      forall i | 0 <= i < |s| ensures s[i] != x {
        assert t[0] != t[i + 1];
      }
      forall i, j | 0 <= i < j < |s| ensures s[i] != s[j] {
        assert t[i + 1] != t[j + 1];
      }
    }
  }

  /** Appending keeps a sequence distinct exactly when the new element is
      not already in it. */
  lemma DistinctSnoc(s: seq<string>, x: string)
    ensures Distinct(s + [x]) <==> x !in s && Distinct(s)
  {
    var t := s + [x];
    assert t[|s|] == x;
    assert forall i | 0 <= i < |s| :: t[i] == s[i];
    if Distinct(t) {
      forall i | 0 <= i < |s| ensures s[i] != x {
        assert t[i] != t[|s|];
      }
      forall i, j | 0 <= i < j < |s| ensures s[i] != s[j] {
        assert t[i] != t[j];
      }
    }
  }

  /** The distinct elements of `s`, each at the position of its first
      occurrence. */
  function Dedup(s: seq<string>): (r: seq<string>)
    ensures |r| <= |s|
    ensures Distinct(r)
    ensures forall x :: x in r <==> x in s
  {
    if s == [] then []
    else if s[|s| - 1] in s[..|s| - 1] then Dedup(s[..|s| - 1])
    else
      DistinctSnoc(Dedup(s[..|s| - 1]), s[|s| - 1]);
      assert s == s[..|s| - 1] + [s[|s| - 1]];
      Dedup(s[..|s| - 1]) + [s[|s| - 1]]
  }

  /** The position of the first occurrence of `x` in `s`. */
  function FirstIndex(s: seq<string>, x: string): (i: nat)
    requires x in s
    ensures i < |s| && s[i] == x && x !in s[..i]
  {
    if s[0] == x then 0
    else
      assert s == [s[0]] + s[1..];
      var i := FirstIndex(s[1..], x);
      assert s[..i + 1] == [s[0]] + s[1..][..i];
      i + 1
  }

  /** Appending to `s` does not move the first occurrence of anything
      already in it. */
  lemma FirstIndexSnoc(s: seq<string>, y: string, x: string)
    requires x in s
    ensures FirstIndex(s + [y], x) == FirstIndex(s, x)
  {
    var i, j := FirstIndex(s + [y], x), FirstIndex(s, x);
    assert (s + [y])[j] == x;
    assert (s + [y])[..j] == s[..j];
  }

  /** `Dedup` lists the names in the order of their first occurrence. */
  lemma {:induction false} DedupFirstOccurrenceOrder(s: seq<string>)
    ensures forall i, j | 0 <= i < j < |Dedup(s)| :: FirstIndex(s, Dedup(s)[i]) < FirstIndex(s, Dedup(s)[j])
  {
    if s != [] {
      var s', y := s[..|s| - 1], s[|s| - 1];
      assert s == s' + [y];
      DedupFirstOccurrenceOrder(s');
      var d := Dedup(s');
      forall x | x in d ensures FirstIndex(s, x) == FirstIndex(s', x) {
        FirstIndexSnoc(s', y, x);
      }
      if y !in s' {
        assert FirstIndex(s, y) == |s'| by {
          assert s[..|s'|] == s';
        }
        forall i, j | 0 <= i < j < |Dedup(s)|
          ensures FirstIndex(s, Dedup(s)[i]) < FirstIndex(s, Dedup(s)[j])
        {
          assert Dedup(s)[i] == d[i];
          if j < |d| {
            assert Dedup(s)[j] == d[j];
          }
        }
      }
    }
  }

  /** No element of `s` after position `i` and before `k` equals `s[i]`. */
  predicate LastBefore(s: seq<string>, i: int, k: int)
    requires 0 <= i < k <= |s|
  {
    forall j | i < j < k :: s[j] != s[i]
  }

  /** No later element of `s` equals `s[i]`. */
  predicate LastOccurrence(s: seq<string>, i: int)
    requires 0 <= i < |s|
  {
    LastBefore(s, i, |s|)
  }

  /** Assigning `posts` to key `name` in an insertion-ordered dictionary: an
      existing key keeps its position and gets the new value, a new key is
      appended. */
  function Put(m: seq<Community>, name: string, posts: seq<Post>): (r: seq<Community>)
    ensures Community(name, posts) in r
  {
    if m == [] then [Community(name, posts)]
    else if m[0].name == name then [Community(name, posts)] + m[1..]
    else [m[0]] + Put(m[1..], name, posts)
  }

  /** `Put` leaves the keys and their order alone, except that a new key is
      appended. */
  lemma {:induction false} PutNames(m: seq<Community>, name: string, posts: seq<Post>)
    ensures Names(Put(m, name, posts)) == if name in Names(m) then Names(m) else Names(m) + [name]
  {
    if m == [] {
      assert Names([Community(name, posts)]) == [name];
    } else {
      assert Names(m) == [m[0].name] + Names(m[1..]);
      if m[0].name == name {
        assert Names([Community(name, posts)] + m[1..]) == [name] + Names(m[1..]);
      } else {
        var rest := Put(m[1..], name, posts);
        PutNames(m[1..], name, posts);
        assert Names([m[0]] + rest) == [m[0].name] + Names(rest);
        assert name in Names(m) <==> name in Names(m[1..]);
        if name !in Names(m[1..]) {
          assert [m[0].name] + (Names(m[1..]) + [name]) == Names(m) + [name];
        }
      }
    }
  }

  /** `Put` keeps every entry under another key and adds none. */
  lemma {:induction false} PutKeepsOthers(m: seq<Community>, name: string, posts: seq<Post>)
    ensures forall c | c in m && c.name != name :: c in Put(m, name, posts)
    ensures forall c | c in Put(m, name, posts) && c.name != name :: c in m
  {
    if m != [] && m[0].name != name {
      PutKeepsOthers(m[1..], name, posts);
      assert forall c | c in m :: c == m[0] || c in m[1..];
    }
  }

  /** On a mapping whose keys are distinct, `Put` keeps them distinct. */
  lemma {:induction false} PutDistinct(m: seq<Community>, name: string, posts: seq<Post>)
    requires Distinct(Names(m))
    ensures Distinct(Names(Put(m, name, posts)))
  {
    PutNames(m, name, posts);
    if name !in Names(m) {
      DistinctSnoc(Names(m), name);
    }
  }

  /** On a mapping whose keys are distinct, `Put` leaves exactly one value
      under `name`: the new one. */
  lemma {:induction false} PutReplaces(m: seq<Community>, name: string, posts: seq<Post>)
    requires Distinct(Names(m))
    ensures forall c | c in Put(m, name, posts) && c.name == name :: c.posts == posts
  {
    if m != [] {
      assert Names(m) == [m[0].name] + Names(m[1..]);
      DistinctCons(m[0].name, Names(m[1..]));
      if m[0].name == name {
        forall c | c in m[1..] ensures c.name != name {
          var j :| 0 <= j < |m[1..]| && m[1..][j] == c;
          NamesIndex(m[1..]);
          assert Names(m[1..])[j] == c.name;
        }
      } else {
        PutReplaces(m[1..], name, posts);
      }
    }
  }

  /** `m` is the mapping the fetch loop has built after its first `k`
      iterations: one entry per distinct name among `names[..k]`, in order of
      first request, each name holding the listing of its last request. */
  predicate Built(names: seq<string>, fetched: seq<seq<Post>>, k: nat, m: seq<Community>)
    requires |fetched| == |names| && k <= |names|
  {
    && Names(m) == Dedup(names[..k])
    && Distinct(Names(m))
    && (forall i | 0 <= i < k && LastBefore(names, i, k) :: Community(names[i], fetched[i]) in m)
    && (forall c | c in m :: exists i | 0 <= i < k && LastBefore(names, i, k) :: c == Community(names[i], fetched[i]))
  }

  /** One iteration of the fetch loop keeps `Built`. */
  lemma {:induction false} BuiltStep(names: seq<string>, fetched: seq<seq<Post>>, m: seq<Community>, k: nat)
    requires |fetched| == |names| && k < |names|
    requires Built(names, fetched, k, m)
    ensures Built(names, fetched, k + 1, Put(m, names[k], fetched[k]))
  {
    NamesStep(names, m, k, fetched[k]);
    PutDistinct(m, names[k], fetched[k]);
    PutKeepsOthers(m, names[k], fetched[k]);
    StoredStep(names, fetched, m, k);
    OriginStep(names, fetched, m, k);
  }

  /** After an iteration, the keys are the distinct names requested so far,
      in order of first request. */
  lemma {:induction false} NamesStep(names: seq<string>, m: seq<Community>, k: nat, posts: seq<Post>)
    requires k < |names|
    requires Names(m) == Dedup(names[..k])
    ensures Names(Put(m, names[k], posts)) == Dedup(names[..k + 1])
  {
    PutNames(m, names[k], posts);
    assert names[..k + 1][..k] == names[..k];
    assert names[..k + 1][k] == names[k];
    assert names[k] in Names(m) <==> names[k] in names[..k];
  }

  /** After an iteration, each name's last request so far is stored. */
  lemma {:induction false} StoredStep(names: seq<string>, fetched: seq<seq<Post>>, m: seq<Community>, k: nat)
    requires |fetched| == |names| && k < |names|
    requires forall i | 0 <= i < k && LastBefore(names, i, k) :: Community(names[i], fetched[i]) in m
    ensures forall i | 0 <= i < k + 1 && LastBefore(names, i, k + 1) ::
              Community(names[i], fetched[i]) in Put(m, names[k], fetched[k])
  {
    PutKeepsOthers(m, names[k], fetched[k]);
    forall i | 0 <= i < k + 1 && LastBefore(names, i, k + 1)
      ensures Community(names[i], fetched[i]) in Put(m, names[k], fetched[k])
    {
      if i < k {
        assert names[k] != names[i];
        assert LastBefore(names, i, k);
      }
    }
  }

  /** After an iteration, every entry is some name's last request so far. */
  lemma {:induction false} OriginStep(names: seq<string>, fetched: seq<seq<Post>>, m: seq<Community>, k: nat)
    requires |fetched| == |names| && k < |names|
    requires Distinct(Names(m))
    requires forall c | c in m :: exists i | 0 <= i < k && LastBefore(names, i, k) :: c == Community(names[i], fetched[i])
    ensures forall c | c in Put(m, names[k], fetched[k]) ::
              exists i | 0 <= i < k + 1 && LastBefore(names, i, k + 1) :: c == Community(names[i], fetched[i])
  {
    PutReplaces(m, names[k], fetched[k]);
    PutKeepsOthers(m, names[k], fetched[k]);
    forall c | c in Put(m, names[k], fetched[k])
      ensures exists i | 0 <= i < k + 1 && LastBefore(names, i, k + 1) :: c == Community(names[i], fetched[i])
    {
      if c.name == names[k] {
        assert c == Community(names[k], fetched[k]);
        assert LastBefore(names, k, k + 1);
      } else {
        var i :| 0 <= i < k && LastBefore(names, i, k) && c == Community(names[i], fetched[i]);
        assert LastBefore(names, i, k + 1);
      }
    }
  }

  /** The fetch loop. `fetched[i]` is the listing returned for the i-th
      requested name. The result has one entry per distinct name, in order of
      first request, and each name maps to the listing of its last request. */
  method GetTrendingPosts(names: seq<string>, fetched: seq<seq<Post>>) returns (m: seq<Community>)
    requires |fetched| == |names|
    ensures |m| <= |names|
    ensures names != [] ==> m != []
    ensures Names(m) == Dedup(names)
    ensures Distinct(Names(m))
    ensures forall i | 0 <= i < |names| && LastOccurrence(names, i) :: Community(names[i], fetched[i]) in m
    ensures forall c | c in m :: exists i | 0 <= i < |names| && LastOccurrence(names, i) :: c == Community(names[i], fetched[i])
  {
    m := [];
    for k := 0 to |names|
      invariant Built(names, fetched, k, m)
    {
      BuiltStep(names, fetched, m, k);
      m := Put(m, names[k], fetched[k]);
    }
    assert names[..|names|] == names;
    NamesIndex(m);
    if names != [] {
      assert names[0] in Dedup(names);
    }
  }

  /** The total number of posts over all communities. */
  function TotalPosts(m: seq<Community>): nat {
    if m == [] then 0 else |m[0].posts| + TotalPosts(m[1..])
  }

  /** All posts of all communities: communities in mapping order, and within
      a community its posts in listing order. */
  function Flatten(m: seq<Community>): (r: seq<Post>)
    ensures |r| == TotalPosts(m)
  {
    if m == [] then [] else m[0].posts + Flatten(m[1..])
  }

  /** Where community `i`'s posts start in the flattened sequence. */
  function Offset(m: seq<Community>, i: nat): nat
    requires i <= |m|
  {
    TotalPosts(m[..i])
  }

  lemma {:induction false} FlattenAppend(a: seq<Community>, b: seq<Community>)
    ensures Flatten(a + b) == Flatten(a) + Flatten(b)
    ensures TotalPosts(a + b) == TotalPosts(a) + TotalPosts(b)
  {
    if a == [] {
      assert a + b == b;
    } else {
      assert (a + b)[1..] == a[1..] + b;
      FlattenAppend(a[1..], b);
    }
  }

  /** Community `i`'s posts occupy the slice of the flattened sequence that
      starts at its offset, and the next community starts right after them. */
  lemma {:induction false} FlattenLayout(m: seq<Community>, i: nat)
    requires i < |m|
    ensures Offset(m, i + 1) == Offset(m, i) + |m[i].posts|
    ensures Offset(m, i + 1) <= |Flatten(m)|
    ensures Flatten(m)[Offset(m, i)..Offset(m, i + 1)] == m[i].posts
  {
    assert m[..i + 1] == m[..i] + [m[i]];
    assert m == m[..i + 1] + m[i + 1..];
    FlattenAppend(m[..i], [m[i]]);
    FlattenAppend(m[..i + 1], m[i + 1..]);
    assert Flatten([m[i]]) == m[i].posts by {
      assert [m[i]][1..] == [];
    }
  }

  /** A post occurs in the flattened sequence exactly when it occurs in the
      listing of some community. */
  lemma {:induction false} FlattenMembers(m: seq<Community>)
    ensures forall p :: p in Flatten(m) <==> exists c | c in m :: p in c.posts
  {
    if m != [] {
      FlattenMembers(m[1..]);
      assert forall c | c in m :: c == m[0] || c in m[1..];
    }
  }
}
