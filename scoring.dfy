/** Interaction aggregation: folds one user's interaction records into a signed
    score per movie and orders the scored movie ids by that score
    (backend/controllers/movieController.js, the personalised branch of
    `getAllMovies`). */
module Scoring {
  import opened Models
  import opened Sequences

  /** Weight of one interaction of the given type; a type the switch does not
      recognise weighs nothing. */
  function Weight(t: string): (w: int)
    ensures -1 <= w <= 2
    ensures w != 0 <==> IsSchemaType(t)
    ensures w < 0 <==> t == Dislike
  {
    if t == SeeMore then 1
    else if t == AddToWatch then 2
    else if t == Dislike then -1
    else 0
  }

  /** What one record adds to the score of movie `id`. */
  function Contribution(r: Interaction, id: ObjectId): int {
    if r.movieId == id then r.interactionCount * Weight(r.interactionType) else 0
  }

  /** The score of movie `id`: the sum, over the records for that movie, of
      count times weight. */
  function ScoreOf(xs: seq<Interaction>, id: ObjectId): int
    decreases |xs|
  {
    if xs == [] then 0
    else ScoreOf(xs[..|xs| - 1], id) + Contribution(xs[|xs| - 1], id)
  }

  function MovieIds(xs: seq<Interaction>): (r: seq<ObjectId>)
    ensures |r| == |xs|
    ensures forall i :: 0 <= i < |xs| ==> r[i] == xs[i].movieId
  {
    seq(|xs|, i requires 0 <= i < |xs| => xs[i].movieId)
  }

  /** The keys of the score table in the order they were created: the ids of
      the interacted movies, each once, in order of first appearance. */
  function ScoredIds(xs: seq<Interaction>): seq<ObjectId> {
    Distinct(MovieIds(xs))
  }

  /** `sortedMovies`: the scored ids, stably sorted by score, highest first. */
  function SortedMovies(xs: seq<Interaction>): seq<ObjectId> {
    SortByKey(ScoredIds(xs), id => ScoreOf(xs, id))
  }

  /** One record folded into the table: a movie with no entry yet first gets
      the entry 0, then count times weight is added to its entry. */
  function AddRecord(table: map<ObjectId, int>, r: Interaction): map<ObjectId, int> {
    var created := if r.movieId in table then table else table[r.movieId := 0];
    created[r.movieId := created[r.movieId] + r.interactionCount * Weight(r.interactionType)]
  }

  /** The score table after the fold over `xs`. */
  function ScoreTable(xs: seq<Interaction>): map<ObjectId, int>
    decreases |xs|
  {
    if xs == [] then map[] else AddRecord(ScoreTable(xs[..|xs| - 1]), xs[|xs| - 1])
  }

  lemma ScoreTableStep(xs: seq<Interaction>, i: nat)
    requires i < |xs|
    ensures ScoreTable(xs[..i + 1]) == AddRecord(ScoreTable(xs[..i]), xs[i])
  {
    assert xs[..i + 1][..i] == xs[..i];
  }

  /** The table has an entry for exactly the interacted movies, holding the
      movie's score. */
  lemma {:induction false} ScoreTableMeaning(xs: seq<Interaction>)
    ensures forall id :: id in ScoreTable(xs) <==> id in ScoredIds(xs)
    ensures forall id :: id in ScoreTable(xs) ==> ScoreTable(xs)[id] == ScoreOf(xs, id)
    decreases |xs|
  {
    if xs != [] {
      var n := |xs| - 1;
      var id := xs[n].movieId;
      ScoreTableMeaning(xs[..n]);
      var before := ScoreTable(xs[..n]);
      var keysBefore := ScoredIds(xs[..n]);
      var keysAfter := if id in before then keysBefore else keysBefore + [id];
      FoldStep(xs, n, before, keysBefore, keysAfter);
      assert xs[..n + 1] == xs;
    }
  }

  lemma ScoreTableHas(xs: seq<Interaction>, id: ObjectId)
    ensures id in ScoreTable(xs) <==> id in ScoredIds(xs)
  {
    ScoreTableMeaning(xs);
  }

  /** The fold over the interaction records (the `forEach` that fills
      `interactionScores`). `keys` is the key order of the resulting object. */
  method AggregateScores(xs: seq<Interaction>) returns (scores: map<ObjectId, int>, keys: seq<ObjectId>)
    ensures keys == ScoredIds(xs)
    ensures forall id :: id in scores <==> id in keys
    ensures forall id :: id in scores ==> scores[id] == ScoreOf(xs, id)
  {
    scores, keys := map[], [];
    var i := 0;
    while i < |xs|
      invariant 0 <= i <= |xs|
      invariant scores == ScoreTable(xs[..i])
      invariant keys == ScoredIds(xs[..i])
    {
      ScoreTableHas(xs[..i], xs[i].movieId);
      ScoredIdsStep(xs, i);
      ScoreTableStep(xs, i);
      scores, keys := Accumulate(scores, keys, xs[i]);
      i := i + 1;
    }
    assert xs[..i] == xs;
    ScoreTableMeaning(xs);
  }

  /** The body of the `forEach` for one record `r`. */
  method Accumulate(scores: map<ObjectId, int>, keys: seq<ObjectId>, r: Interaction)
    returns (scores': map<ObjectId, int>, keys': seq<ObjectId>)
    ensures scores' == AddRecord(scores, r)
    ensures keys' == if r.movieId in scores then keys else keys + [r.movieId]
  {
    var id := r.movieId;
    var weight := Weight(r.interactionType);
    scores', keys' := scores, keys;
    if id !in scores' {
      scores' := scores'[id := 0];
      keys' := keys' + [id];
    }
    scores' := scores'[id := scores'[id] + r.interactionCount * weight];
  }

  /** One iteration of the fold keeps the key order equal to the first
      appearances so far and every entry equal to the score so far. */
  lemma FoldStep(xs: seq<Interaction>, i: nat,
                 before: map<ObjectId, int>, keysBefore: seq<ObjectId>, keysAfter: seq<ObjectId>)
    requires i < |xs| && keysBefore == ScoredIds(xs[..i])
    requires forall id :: id in before <==> id in keysBefore
    requires forall id :: id in before ==> before[id] == ScoreOf(xs[..i], id)
    requires keysAfter == if xs[i].movieId in before then keysBefore else keysBefore + [xs[i].movieId]
    ensures keysAfter == ScoredIds(xs[..i + 1])
    ensures forall id :: id in AddRecord(before, xs[i]) <==> id in keysAfter
    ensures forall id :: id in AddRecord(before, xs[i]) ==> AddRecord(before, xs[i])[id] == ScoreOf(xs[..i + 1], id)
  {
    var id := xs[i].movieId;
    var after := AddRecord(before, xs[i]);
    assert forall k :: k != id ==> (k in after <==> k in before);
    assert forall k :: k != id && k in before ==> after[k] == before[k];
    if id !in before {
      assert id !in MovieIds(xs[..i]);
      ScoreOfUninteracted(xs[..i], id);
    }
    FoldValuesStep(xs, i, before, after);
    FoldKeysStep(xs, i, before, keysBefore, after, keysAfter);
  }

  /** The key order after one iteration, given the one before it. */
  lemma FoldKeysStep(xs: seq<Interaction>, i: nat,
                     before: map<ObjectId, int>, keysBefore: seq<ObjectId>,
                     after: map<ObjectId, int>, keysAfter: seq<ObjectId>)
    requires i < |xs| && keysBefore == ScoredIds(xs[..i])
    requires forall k :: k in before <==> k in keysBefore
    requires keysAfter == if xs[i].movieId in before then keysBefore else keysBefore + [xs[i].movieId]
    requires forall k :: k in after <==> k in before || k == xs[i].movieId
    ensures keysAfter == ScoredIds(xs[..i + 1])
    ensures forall k :: k in after <==> k in keysAfter
  {
    ScoredIdsStep(xs, i);
    forall k ensures k in after <==> k in keysAfter {
      if xs[i].movieId !in before {
        SnocMembers(keysBefore, xs[i].movieId, k);
      }
    }
  }

  /** The score entries after one iteration, given those before it. */
  lemma FoldValuesStep(xs: seq<Interaction>, i: nat, before: map<ObjectId, int>, after: map<ObjectId, int>)
    requires i < |xs|
    requires forall id :: id in before ==> before[id] == ScoreOf(xs[..i], id)
    requires xs[i].movieId !in before ==> ScoreOf(xs[..i], xs[i].movieId) == 0
    requires xs[i].movieId in after
    requires after[xs[i].movieId] == (if xs[i].movieId in before then before[xs[i].movieId] else 0)
      + xs[i].interactionCount * Weight(xs[i].interactionType)
    requires forall id :: id != xs[i].movieId && id in after ==> id in before && after[id] == before[id]
    ensures forall id :: id in after ==> after[id] == ScoreOf(xs[..i + 1], id)
  {
    forall other | other in after ensures after[other] == ScoreOf(xs[..i + 1], other) {
      ScoreOfStep(xs, i, other);
    }
  }

  lemma ScoreOfStep(xs: seq<Interaction>, i: nat, id: ObjectId)
    requires i < |xs|
    ensures ScoreOf(xs[..i + 1], id) == ScoreOf(xs[..i], id) + Contribution(xs[i], id)
  {
    assert xs[..i + 1][..i] == xs[..i];
  }

  lemma ScoredIdsStep(xs: seq<Interaction>, i: nat)
    requires i < |xs|
    ensures ScoredIds(xs[..i + 1]) ==
      if xs[i].movieId in ScoredIds(xs[..i]) then ScoredIds(xs[..i])
      else ScoredIds(xs[..i]) + [xs[i].movieId]
  {
    assert MovieIds(xs[..i + 1])[..i] == MovieIds(xs[..i]);
  }

  // ---------------------------------------------------------------------
  // Properties of the aggregation.

  /** Scores of a concatenation add up: records of several kinds for one
      movie combine additively, whatever their order of arrival. */
  lemma {:induction false} ScoreOfAppend(a: seq<Interaction>, b: seq<Interaction>, id: ObjectId)
    ensures ScoreOf(a + b, id) == ScoreOf(a, id) + ScoreOf(b, id)
    decreases |b|
  {
    if b == [] {
      assert a + b == a;
    } else {
      var n := |b| - 1;
      assert (a + b)[..|a + b| - 1] == a + b[..n];
      ScoreOfAppend(a, b[..n], id);
    }
  }

  /** A movie with no record scores 0, and a record for another movie adds nothing. */
  lemma {:induction false} ScoreOfUninteracted(xs: seq<Interaction>, id: ObjectId)
    requires id !in MovieIds(xs)
    ensures ScoreOf(xs, id) == 0
    decreases |xs|
  {
    if xs != [] {
      var n := |xs| - 1;
      assert MovieIds(xs[..n]) == MovieIds(xs)[..n];
      ScoreOfUninteracted(xs[..n], id);
    }
  }

  /** A single record scores its count times the weight of its type; an
      unknown type contributes 0. */
  lemma ScoreOfSingle(r: Interaction)
    ensures ScoreOf([r], r.movieId) == r.interactionCount * Weight(r.interactionType)
    ensures !IsSchemaType(r.interactionType) ==> ScoreOf([r], r.movieId) == 0
  {
    assert [r][..0] == [];
  }

  /** `sortedMovies` lists every interacted movie exactly once, whatever its
      total (zero and negative totals included), and nothing else. */
  lemma SortedMoviesArePermutation(xs: seq<Interaction>)
    ensures multiset(SortedMovies(xs)) == multiset(ScoredIds(xs))
    ensures NoDuplicates(SortedMovies(xs))
    ensures forall id :: id in SortedMovies(xs) <==> id in MovieIds(xs)
  {
    var r := SortedMovies(xs);
    var d := ScoredIds(xs);
    forall id ensures id in r <==> id in d {
      assert id in r <==> id in multiset(r);
      assert id in d <==> id in multiset(d);
    }
    PermutationKeepsNoDuplicates(d, r);
  }

  /** `sortedMovies` is ordered by score, highest first. */
  lemma SortedMoviesDescending(xs: seq<Interaction>)
    ensures forall i, j :: 0 <= i < j < |SortedMovies(xs)| ==>
      ScoreOf(xs, SortedMovies(xs)[i]) >= ScoreOf(xs, SortedMovies(xs)[j])
  {
  }

  /** Ties keep the order in which the movies first appear in the records. */
  lemma SortedMoviesTiesKeepFirstAppearance(xs: seq<Interaction>, k: int)
    ensures KeyEquals(SortedMovies(xs), id => ScoreOf(xs, id), k)
         == KeyEquals(ScoredIds(xs), id => ScoreOf(xs, id), k)
  {
    SortByKeyStable(ScoredIds(xs), id => ScoreOf(xs, id), k);
  }
}
