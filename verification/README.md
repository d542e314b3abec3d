# Trend monitor: post aggregation and ranking

The program fetches the hot posts of a few discussion-forum communities,
ranks them by engagement, and hands the best ten to a language model that
picks the most interesting ones. This project models the part of it that is
pure logic, in `trends.py`:

- the mapping built by `get_trending_posts`: an insertion-ordered dictionary
  from community name to that community's posts, in listing order
  (`communities.dfy`). The network read for each name is a parameter: the
  i-th element of `fetched` is the listing returned for the i-th requested
  name;
- the ranking step of `analyze_trends` (`ranking.dfy`): flatten the mapping
  in mapping order, sort the posts in descending order of the key
  `(score, num_comments)` with a stable sort, keep the first ten.

A post (`posts.dfy`) is an immutable record `Post(title, url, score,
numComments)`; `score` is an unbounded integer (net upvotes can be negative)
and `numComments` a natural number. `KeyAtLeast(a, b)` is Python's tuple
comparison `(a.score, a.num_comments) >= (b.score, b.num_comments)`.

The sort is written as an insertion sort (`SortPosts`). Python's `sorted` is a
different algorithm, but `SortCharacterized` proves that `SortPosts(xs)` is
the only sequence that is sorted and keeps, for every key, the posts with that
key in their input order; Python documents exactly these two properties for
`sorted(..., reverse=True)`, so both return the same list.

Two facts about the code shape the model:

- Every post record is built by the code itself with all four fields
  (trends.py:25-30), so a post missing a field cannot arise; the `Post`
  datatype makes it unrepresentable.
- The mapping is a dictionary assigned one name at a time (trends.py:24), so a
  name requested twice yields one entry, at the position of its first request,
  holding the listing of its last request. `GetTrendingPosts` states exactly
  that.

## Model

| member | source | states |
|---|---|---|
| Communities.Dedup | trends.py:21-24 | the dictionary's keys: each requested name exactly once, no name that was not requested, never more keys than requests |
| Communities.DedupFirstOccurrenceOrder | trends.py:21-24 | the dictionary's keys appear in the order of each name's first request |
| Communities.Put | trends.py:24 | after assigning a listing to a name, the mapping holds that name with that listing |
| Communities.PutNames | trends.py:24 | assignment keeps the keys and their order when the name is already a key, and otherwise appends the name as the last key |
| Communities.PutKeepsOthers | trends.py:24 | assignment keeps every entry under another key and adds no entry under another key |
| Communities.PutDistinct | trends.py:24 | assignment keeps the keys distinct |
| Communities.PutReplaces | trends.py:24 | on distinct keys, the only listing left under the assigned name is the new one |
| Communities.BuiltStep | trends.py:22-32 | one loop iteration extends the mapping for the first k requests to the mapping for the first k+1 |
| Communities.NamesStep | trends.py:22-24 | after an iteration, the keys are the distinct names requested so far, in order of first request |
| Communities.StoredStep | trends.py:22-32 | after an iteration, every name's last request so far is stored |
| Communities.OriginStep | trends.py:22-32 | after an iteration, every entry is some name's last request so far |
| Communities.GetTrendingPosts | trends.py:20-33 | the result has one entry per distinct name in first-request order (so no more entries than requests, and at least one when a name was requested), each name maps to the listing of its last request, and every entry is some name's last request |
| Communities.Flatten | trends.py:37 | the flattened list has as many posts as all communities together |
| Communities.FlattenAppend | trends.py:37 | flattening two consecutive parts of the mapping gives the first part's posts followed by the second's |
| Communities.FlattenLayout | trends.py:37 | community i's posts sit, in listing order, in the slice starting at the total size of the communities before it, and the next community starts right after |
| Communities.FlattenMembers | trends.py:37 | a post is in the flattened list exactly when it is in some community's listing |
| Ranking.AdjacentSortedIffSorted | trends.py:40 | each post ranking at least as high as the next is the same as each ranking at least as high as every later one |
| Ranking.Insert | trends.py:40 | inserting a post gives the old list plus that one post, as a multiset |
| Ranking.InsertSorted | trends.py:40 | insertion into a sorted list keeps it sorted |
| Ranking.InsertStable | trends.py:40 | the inserted post lands ahead of every other post with its key, and the other posts with each key keep their relative order |
| Ranking.SortPosts | trends.py:40 | the sorted list is a permutation of the input and is in descending key order |
| Ranking.SortIsStable | trends.py:40 | for every key, the posts with that key appear in the sorted list in their input order |
| Ranking.SortedStableUnique | trends.py:40 | two sorted lists with the same posts per key, in the same order, are equal |
| Ranking.SortCharacterized | trends.py:40 | a list equals the sort of the input if and only if it is sorted and keeps every key's posts in input order |
| Ranking.SortedIsFixpoint | trends.py:40 | sorting a list that is already sorted returns it unchanged |
| Ranking.Take | trends.py:43 | the slice `[:n]` has length min(n, length) and is a prefix of the list |
| Ranking.RankPosts | trends.py:40-43 | the ranked list has min(10, n) posts, is sorted, and holds no post more often than the input does |
| Ranking.RankKeepsBest | trends.py:40-43 | every copy of a post that the cut drops ranks no higher than any kept post, and copies are dropped only when ten are kept |
| Ranking.RankStable | trends.py:40-43 | for every key, the kept posts with that key are the first ones with that key in the input, in input order |
| Ranking.RankIdempotent | trends.py:40-43 | ranking the ranked list again returns it unchanged |
| Ranking.TopPosts | trends.py:36-43 | the result has min(10, total posts) posts, is sorted, and is a sub-multiset of the flattened posts |
| Ranking.TopPostsFromListings | trends.py:37-43 | every ranked post equals, field for field, a post of some community's listing |
| Ranking.TopPostsKeepBest | trends.py:36-43 | no copy of a community's post that misses the cut ranks above a kept post, and copies miss the cut only when ten are kept |
| Ranking.TopPostsStable | trends.py:36-43 | posts with equal score and comment count keep their flattened order |
| Ranking.TopPostsIdempotent | trends.py:36-43 | ranking the ranked posts again, as the only community, returns them unchanged |
| Ranking.ExampleScoreBeforeComments | trends.py:40 | a post with score 100 and 5 comments ranks above one with score 50 and 200 comments |
| Ranking.ExampleCommentsBreakTie | trends.py:40 | with equal scores of 10, the post with 7 comments ranks above the one with 3 |

## Left out

- The forum client (trends.py:14-18, 23, 31): network reads through a library
  that is not part of this model. Each listing is an input (`fetched`).
- GetTrendingPosts: does not bound each listing by the `limit` argument
  (trends.py:20, 31); the bound is enforced by the forum library, which is not
  part of this model, and the ranking does not depend on it.
- Loading credentials and configuration from the environment (trends.py:8,
  11, 15-16): ambient I/O.
- Building the prompt and the chat-completion call (trends.py:45-58): a
  foreign service whose output has no specification. The prompt asks for 3
  posts in one sentence and "the top 5" in another; that is text, not
  behaviour.
- Parsing the model's reply with `json.loads` (trends.py:60) and printing in
  `main` (trends.py:67): free-form external text and output I/O.
- The fixed community list and fetch limit in `main` (trends.py:63-64):
  configuration.
- Errors raised by the forum or language-model services (authentication,
  unavailability, unknown community, unparsable reply): they originate in
  external code and are not caught by the program.
