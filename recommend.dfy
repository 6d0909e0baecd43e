/** The recommendation composer and the fallback path of `getAllMovies`
    (backend/controllers/movieController.js): score the user's interactions,
    fetch the scored movies, expand each by content similarity, merge and
    deduplicate, and cut one page; without interactions, search the catalog
    by term and cut one page. */
module MovieController {
  import opened Models
  import opened Sequences
  import opened Scoring
  import opened Similarity
  import opened Pagination
  import opened Search
  import opened InteractionController

  /** `Movie.find({ _id: { $in: ids } })`: the catalog movies whose id is
      listed, in catalog order (the order of `ids` is not used); listed ids
      with no catalog movie are skipped. */
  function FetchByIds(catalog: seq<Movie>, ids: seq<ObjectId>): (r: seq<Movie>)
    ensures |r| <= |catalog|
    ensures forall m :: m in r <==> m in catalog && m.id in ids
    decreases |catalog|
  {
    if catalog == [] then []
    else
      var n := |catalog| - 1;
      assert catalog == catalog[..n] + [catalog[n]];
      FetchByIds(catalog[..n], ids) + (if catalog[n].id in ids then [catalog[n]] else [])
  }

  /** The fetch filters each movie on its own: it distributes over
      concatenation, so the result keeps the catalog's order. */
  lemma {:induction false} FetchByIdsAppend(a: seq<Movie>, b: seq<Movie>, ids: seq<ObjectId>)
    ensures FetchByIds(a + b, ids) == FetchByIds(a, ids) + FetchByIds(b, ids)
    decreases |b|
  {
    if b == [] {
      assert a + b == a;
    } else {
      var n := |b| - 1;
      assert (a + b)[..|a + b| - 1] == a + b[..n];
      assert (a + b)[|a + b| - 1] == b[n];
      FetchByIdsAppend(a, b[..n], ids);
    }
  }

  /** A single movie is fetched exactly when its id is listed. */
  lemma FetchByIdsSingle(m: Movie, ids: seq<ObjectId>)
    ensures FetchByIds([m], ids) == if m.id in ids then [m] else []
  {
    assert [m][..0] == [];
  }

  /** The expansions of the base movies, one after another, in base order. */
  function Expansions(base: seq<Movie>, catalog: seq<Movie>): seq<Movie>
    decreases |base|
  {
    if base == [] then []
    else Expansions(base[..|base| - 1], catalog) + SimilarMovies(base[|base| - 1], catalog)
  }

  /** The loop that appends each base movie's similar movies to
      `contentBasedRecommendations`. */
  method ExpandAll(recommendedMovies: seq<Movie>, allMovies: seq<Movie>) returns (contentBased: seq<Movie>)
    ensures contentBased == Expansions(recommendedMovies, allMovies)
  {
    contentBased := [];
    for i := 0 to |recommendedMovies|
      invariant contentBased == Expansions(recommendedMovies[..i], allMovies)
    {
      var similar := ContentBasedRecommendations(recommendedMovies[i], allMovies);
      assert recommendedMovies[..i + 1][..i] == recommendedMovies[..i];
      contentBased := contentBased + similar;
    }
    assert recommendedMovies[..|recommendedMovies|] == recommendedMovies;
  }

  /** `mergedMovies.find(a => a._id.toString() === id)`: the first movie with that id. */
  function FindById(ms: seq<Movie>, id: ObjectId): (m: Movie)
    requires id in Ids(ms)
    ensures m == ms[FirstIndex(Ids(ms), id)] && m.id == id
  {
    ms[FirstIndex(Ids(ms), id)]
  }

  /** `Array.from(new Set(ids)).map(find)`: one movie per distinct id, in order
      of first occurrence, each being the first movie with that id. */
  function UniqueMovies(merged: seq<Movie>): (r: seq<Movie>)
    ensures Ids(r) == Distinct(Ids(merged))
  {
    var ids := Distinct(Ids(merged));
    seq(|ids|, i requires 0 <= i < |ids| => FindById(merged, ids[i]))
  }

  /** The whole personalised list before the page cut. */
  function Recommendations(catalog: seq<Movie>, interactions: seq<Interaction>): seq<Movie> {
    var recommended := FetchByIds(catalog, SortedMovies(interactions));
    UniqueMovies(recommended + Expansions(recommended, catalog))
  }

  /** The query parameters; `page` and `limit` already parsed to integers. */
  datatype Query = Query(page: int, limit: int, term: string, userId: Option<string>)

  /** The JSON body of the reply. */
  datatype Listing = Listing(totalMovies: nat, totalPages: nat, currentPage: int, movies: seq<Movie>)

  function Paginate(list: seq<Movie>, page: int, limit: int): Listing
    requires page >= 1 && limit >= 1
  {
    Listing(|list|, TotalPages(|list|, limit), page, Page(list, page, limit))
  }

  /** The user's records when a user id is given, none otherwise. */
  function InteractionsFor(table: seq<Interaction>, userId: Option<string>): seq<Interaction> {
    if Truthy(userId) then UserRecords(table, userId.value) else []
  }

  /** `getAllMovies`. `table` is the interaction store and `catalog` the
      movie store, both read once. */
  method GetAllMovies(catalog: seq<Movie>, table: seq<Interaction>, q: Query) returns (res: Listing)
    requires q.page >= 1 && q.limit >= 1
    ensures |InteractionsFor(table, q.userId)| > 0 ==>
      res == Paginate(Recommendations(catalog, InteractionsFor(table, q.userId)), q.page, q.limit)
    ensures |InteractionsFor(table, q.userId)| == 0 ==>
      res == Paginate(FallbackSearch(catalog, q.term), q.page, q.limit)
  {
    var interactions: seq<Interaction> := [];
    if Truthy(q.userId) {
      interactions := UserRecords(table, q.userId.value);
    }
    if Truthy(q.userId) && |interactions| > 0 {
      var scores, keys := AggregateScores(interactions);
      var entries := seq(|keys|, i requires 0 <= i < |keys| => Scored(keys[i], scores[keys[i]]));
      assert entries == WithKeys(ScoredIds(interactions), id => ScoreOf(interactions, id));
      var sortedMovies := Items(SortDesc(entries));
      var recommendedMovies := FetchByIds(catalog, sortedMovies);
      var contentBased := ExpandAll(recommendedMovies, catalog);
      var mergedMovies := recommendedMovies + contentBased;
      var uniqueMovies := UniqueMovies(mergedMovies);
      res := Listing(|uniqueMovies|, TotalPages(|uniqueMovies|, q.limit), q.page,
                     Page(uniqueMovies, q.page, q.limit));
    } else {
      var movies := FallbackSearch(catalog, q.term);
      res := Listing(|movies|, TotalPages(|movies|, q.limit), q.page, Page(movies, q.page, q.limit));
    }
  }

  // ---------------------------------------------------------------------
  // Properties of the deduplication.

  /** The deduplicated list repeats no id. */
  lemma UniqueMoviesNoRepeatedIds(merged: seq<Movie>)
    ensures NoDuplicates(Ids(UniqueMovies(merged)))
  {
  }

  /** It holds exactly the ids of the merged list, in order of first
      occurrence, and each entry is the first movie with its id. */
  lemma UniqueMoviesKeepFirstOccurrence(merged: seq<Movie>)
    ensures forall id :: id in Ids(UniqueMovies(merged)) <==> id in Ids(merged)
    ensures forall i, j :: 0 <= i < j < |UniqueMovies(merged)| ==>
      FirstIndex(Ids(merged), UniqueMovies(merged)[i].id) < FirstIndex(Ids(merged), UniqueMovies(merged)[j].id)
    ensures forall i :: 0 <= i < |UniqueMovies(merged)| ==>
      UniqueMovies(merged)[i] == merged[FirstIndex(Ids(merged), UniqueMovies(merged)[i].id)]
  {
    var r := UniqueMovies(merged);
    DistinctFirstOccurrenceOrder(Ids(merged));
    assert forall i :: 0 <= i < |r| ==> r[i].id == Distinct(Ids(merged))[i];
  }

  /** Deduplicating again changes nothing. */
  lemma UniqueMoviesIdempotent(merged: seq<Movie>)
    ensures UniqueMovies(UniqueMovies(merged)) == UniqueMovies(merged)
  {
    var r := UniqueMovies(merged);
    var r2 := UniqueMovies(r);
    DistinctIdempotent(Ids(merged));
    assert Ids(r2) == Ids(r);
    forall i | 0 <= i < |r| ensures r2[i] == r[i] {
      var id := r[i].id;
      assert Ids(r)[i] == id;
      FirstIndexUnique(Ids(r), id, i) by {
        assert NoDuplicates(Ids(r));
        forall j | 0 <= j < i ensures Ids(r)[..i][j] != id {
          assert Ids(r)[j] != Ids(r)[i];
        }
      }
    }
  }

  /** Base movies with distinct ids keep their place at the head of the
      merged list: an expansion never moves or repeats them. */
  lemma UniqueMoviesKeepBase(base: seq<Movie>, expansion: seq<Movie>)
    requires NoDuplicates(Ids(base))
    ensures |UniqueMovies(base + expansion)| >= |base|
    ensures UniqueMovies(base + expansion)[..|base|] == base
  {
    var merged := base + expansion;
    var r := UniqueMovies(merged);
    assert Ids(merged) == Ids(base) + Ids(expansion);
    DistinctKeepsPrefix(Ids(base), Ids(expansion));
    forall i | 0 <= i < |base| ensures r[i] == base[i] {
      BaseMovieKept(base, expansion, i);
    }
  }

  lemma BaseMovieKept(base: seq<Movie>, expansion: seq<Movie>, i: nat)
    requires NoDuplicates(Ids(base)) && i < |base|
    requires i < |UniqueMovies(base + expansion)| && Ids(UniqueMovies(base + expansion))[i] == base[i].id
    ensures UniqueMovies(base + expansion)[i] == base[i]
  {
    var merged := base + expansion;
    var id := base[i].id;
    assert Ids(merged)[i] == id;
    assert id !in Ids(merged)[..i] by {
      forall j | 0 <= j < i ensures Ids(merged)[..i][j] != id {
        assert Ids(base)[j] != Ids(base)[i];
      }
    }
    FirstIndexUnique(Ids(merged), id, i);
  }

  // ---------------------------------------------------------------------
  // Properties of the composed list.

  /** The personalised list repeats no id and holds only catalog movies. */
  lemma RecommendationsWellFormed(catalog: seq<Movie>, interactions: seq<Interaction>)
    ensures NoDuplicates(Ids(Recommendations(catalog, interactions)))
    ensures forall m :: m in Recommendations(catalog, interactions) ==> m in catalog
  {
    var base := FetchByIds(catalog, SortedMovies(interactions));
    var merged := base + Expansions(base, catalog);
    ExpansionsFromCatalog(base, catalog);
    UniqueMoviesFromMerged(merged);
    forall m | m in UniqueMovies(merged) ensures m in catalog {
      ConcatMembers(base, Expansions(base, catalog), m);
    }
  }

  lemma UniqueMoviesFromMerged(merged: seq<Movie>)
    ensures forall m :: m in UniqueMovies(merged) ==> m in merged
  {
    var r := UniqueMovies(merged);
    forall m | m in r ensures m in merged {
      var i :| 0 <= i < |r| && r[i] == m;
      assert r[i] == merged[FirstIndex(Ids(merged), r[i].id)];
    }
  }

  /** A movie is in the expansions exactly when it is in the expansion of
      some base movie. */
  lemma {:induction false} ExpansionsMembers(base: seq<Movie>, catalog: seq<Movie>, m: Movie)
    ensures m in Expansions(base, catalog) <==> exists b :: b in base && m in SimilarMovies(b, catalog)
    decreases |base|
  {
    if base != [] {
      var n := |base| - 1;
      var init, last := base[..n], base[n];
      assert base == init + [last];
      ExpansionsMembers(init, catalog, m);
      ConcatMembers(Expansions(init, catalog), SimilarMovies(last, catalog), m);
      forall b ensures b in base <==> b in init || b == last {
        SnocMembers(init, last, b);
      }
    }
  }

  lemma {:induction false} ExpansionsFromCatalog(base: seq<Movie>, catalog: seq<Movie>)
    ensures forall m :: m in Expansions(base, catalog) ==> m in catalog
    decreases |base|
  {
    if base != [] {
      var n := |base| - 1;
      ExpansionsFromCatalog(base[..n], catalog);
      SimilarMembers(base[n], catalog);
    }
  }

  /** Every catalog movie the user interacted with heads the list, in catalog
      order, whatever its score: disliked movies with a negative total are
      not filtered out. */
  lemma InteractedMoviesLead(catalog: seq<Movie>, interactions: seq<Interaction>)
    requires NoDuplicates(Ids(catalog))
    ensures var base := FetchByIds(catalog, SortedMovies(interactions));
      && (forall m :: m in base <==> m in catalog && m.id in MovieIds(interactions))
      && |base| <= |Recommendations(catalog, interactions)|
      && Recommendations(catalog, interactions)[..|base|] == base
  {
    var sorted := SortedMovies(interactions);
    var base := FetchByIds(catalog, sorted);
    SortedMoviesArePermutation(interactions);
    forall m ensures m in base <==> m in catalog && m.id in MovieIds(interactions) {
      assert m.id in sorted <==> m.id in MovieIds(interactions);
    }
    FetchByIdsKeepsNoDuplicates(catalog, sorted);
    UniqueMoviesKeepBase(base, Expansions(base, catalog));
    assert Recommendations(catalog, interactions) == UniqueMovies(base + Expansions(base, catalog));
  }

  lemma {:induction false} FetchByIdsKeepsNoDuplicates(catalog: seq<Movie>, ids: seq<ObjectId>)
    requires NoDuplicates(Ids(catalog))
    ensures NoDuplicates(Ids(FetchByIds(catalog, ids)))
    decreases |catalog|
  {
    if catalog != [] {
      var n := |catalog| - 1;
      var last := catalog[n];
      assert Ids(catalog[..n]) == Ids(catalog)[..n];
      FetchByIdsKeepsNoDuplicates(catalog[..n], ids);
      var prefix := FetchByIds(catalog[..n], ids);
      if last.id in ids {
        LastIdIsNew(catalog, ids);
        NoDuplicatesSnoc(Ids(prefix), last.id);
        assert Ids(prefix + [last]) == Ids(prefix) + [last.id];
      }
    }
  }

  /** The id of the last catalog movie is not among those fetched from the
      movies before it. */
  lemma LastIdIsNew(catalog: seq<Movie>, ids: seq<ObjectId>)
    requires NoDuplicates(Ids(catalog)) && |catalog| > 0
    ensures catalog[|catalog| - 1].id !in Ids(FetchByIds(catalog[..|catalog| - 1], ids))
  {
    var n := |catalog| - 1;
    var prefix := FetchByIds(catalog[..n], ids);
    forall k | 0 <= k < |prefix| ensures prefix[k].id != catalog[n].id {
      assert prefix[k] in catalog[..n];
      var c :| 0 <= c < n && catalog[..n][c] == prefix[k];
      assert Ids(catalog)[c] != Ids(catalog)[n];
    }
  }

  /** The fetched base list follows the catalog, not the score order: in a
      catalog [a, b] where the user disliked `a` and added `b` to the watch
      list, `sortedMovies` is [b, a] but the base list is [a, b]. */
  lemma BaseListIgnoresScoreOrder(a: Movie, b: Movie, user: ObjectId, t: int)
    requires a.id != b.id
    ensures var xs := [Interaction(user, a.id, Dislike, 1, t), Interaction(user, b.id, AddToWatch, 1, t)];
      && SortedMovies(xs) == [b.id, a.id]
      && FetchByIds([a, b], SortedMovies(xs)) == [a, b]
  {
    var xs := [Interaction(user, a.id, Dislike, 1, t), Interaction(user, b.id, AddToWatch, 1, t)];
    ExampleSorted(xs, a.id, b.id);
    FetchBoth(a, b, [b.id, a.id]);
  }

  lemma ExampleSorted(xs: seq<Interaction>, a: ObjectId, b: ObjectId)
    requires a != b && |xs| == 2
    requires xs[0].movieId == a && xs[0].interactionType == Dislike && xs[0].interactionCount == 1
    requires xs[1].movieId == b && xs[1].interactionType == AddToWatch && xs[1].interactionCount == 1
    ensures SortedMovies(xs) == [b, a]
  {
    ExampleScores(xs, a, b);
    SortByKeyTwo(ScoredIds(xs), id => ScoreOf(xs, id));
  }

  lemma FetchBoth(a: Movie, b: Movie, ids: seq<ObjectId>)
    requires a.id in ids && b.id in ids
    ensures FetchByIds([a, b], ids) == [a, b]
  {
    assert [a, b][..1] == [a];
    assert [a][..0] == [];
  }

  lemma ExampleScores(xs: seq<Interaction>, a: ObjectId, b: ObjectId)
    requires a != b && |xs| == 2
    requires xs[0].movieId == a && xs[0].interactionType == Dislike && xs[0].interactionCount == 1
    requires xs[1].movieId == b && xs[1].interactionType == AddToWatch && xs[1].interactionCount == 1
    ensures ScoredIds(xs) == [a, b]
    ensures ScoreOf(xs, a) == -1 && ScoreOf(xs, b) == 2
  {
    assert xs == [xs[0]] + [xs[1]];
    assert xs[..1] == [xs[0]];
    assert MovieIds(xs) == [a, b];
    assert MovieIds(xs)[..1] == [a];
    assert [xs[0]][..0] == [] && [xs[1]][..0] == [];
    ScoreOfAppend([xs[0]], [xs[1]], a);
    ScoreOfAppend([xs[0]], [xs[1]], b);
  }
}
