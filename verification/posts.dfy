/** A post as fetched from a community's hot listing, and the engagement order
    on posts: the key (score, num_comments) compared lexicographically. */
module Posts {

  /** One post record. `score` is net upvotes and may be negative; title and
      url are opaque text carried through unchanged. */
  datatype Post = Post(title: string, url: string, score: int, numComments: nat)

  /** The engagement key of a post; posts with equal keys are the ones the
      stable sort must keep in input order. */
  datatype Key = Key(score: int, numComments: nat) {

    /** Lexicographic order: higher score, or equal score and at least as
        many comments. */
    predicate AtLeast(other: Key) {
      score > other.score || (score == other.score && numComments >= other.numComments)
    }
  }

  function KeyOf(p: Post): Key {
    Key(p.score, p.numComments)
  }

  /** `a`'s engagement key is at least `b`'s. */
  predicate KeyAtLeast(a: Post, b: Post) {
    KeyOf(a).AtLeast(KeyOf(b))
  }

  lemma KeyAtLeastTransitive(a: Post, b: Post, c: Post)
    requires KeyAtLeast(a, b) && KeyAtLeast(b, c)
    ensures KeyAtLeast(a, c)
  {
  }

  /** The order is antisymmetric up to keys: it only identifies posts with
      equal keys. */
  lemma KeyAtLeastAntisymmetric(a: Post, b: Post)
    ensures KeyAtLeast(a, b) && KeyAtLeast(b, a) <==> KeyOf(a) == KeyOf(b)
  {
  }
}
