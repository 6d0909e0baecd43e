# Movie recommendation backend — a verified model of its ranking engine and interaction log

The backend serves a movie catalog. It records how each user interacts with
movies ("see more", "add to watch list", "dislike"), and answers movie-list
requests with one page of movies:

- **Personalised path.** A logged-in user with at least one recorded
  interaction gets a personalised list. Their records are folded into a
  signed score per movie: see_more +1, add_to_watch +2, dislike −1, anything
  else 0, each times the record's count. The movie ids are sorted by score,
  descending and stably. The scored movies are fetched from the catalog. Each
  one is expanded with every other catalog movie that shares something with
  it, scored +1 for a shared genre, +1 for the same director and +1 for a
  shared actor from the ", " separated actor string. Candidates with score 0
  are dropped, and the rest are sorted stably by score, descending. The fetched movies and all
  expansions are merged and deduplicated by id, keeping each id's first
  occurrence, and one page is cut out.
- **Fallback path.** Everyone else gets the catalog filtered by a
  case-insensitive search term over seven text fields (all of it when the
  term is empty), one page at a time, with `totalPages = ceil(total / limit)`.
- **Interaction log.** Logging an interaction is an upsert-increment on a
  table keyed by (user, movie, interaction type). A request missing a field
  is rejected. An existing record of the triple has its count raised by one.
  Otherwise a record with count 1 is created. A user's records are read back
  by user id.

The project is organised by module:

- `models.dfy` (`Models`): the two stored record kinds, as datatypes.
- `sequences.dfy` (`Sequences`): the list semantics the JavaScript relies
  on. `Distinct` is the insertion order of a `Set`, and of an object's keys
  when no key is an array index (Mongo ids are 24 hex digits, which never
  are).
  `SortDesc`/`SortByKey` is the stable `Array.prototype.sort` with a
  `b - a` comparator.
- `scoring.dfy` (`Scoring`): the score fold and `sortedMovies`.
- `similarity.dfy` (`Similarity`): `getContentBasedRecommendations`.
- `pagination.dfy` (`Pagination`): the page cut of both paths.
- `search.dfy` (`Search`): the term filter of the fallback path.
- `recommend.dfy` (`MovieController`): `getAllMovies`, composed from the modules above.
- `interactions.dfy` (`InteractionController`): `logInteraction` as the
  class `InteractionStore`, whose method `Log` updates the table in place and
  is proved equal to the pure step `LogStep`, plus `getUserInteractions`.

The imperative parts of the source are written as methods. These have loops:

- the score fold over a dictionary (`Scoring.AggregateScores`);
- the push-and-sort of similar movies (`Similarity.ContentBasedRecommendations`);
- the accumulation of expansions (`MovieController.ExpandAll`);
- the record lookup (`InteractionStore.FindOne`).

The in-place increment or insert (`InteractionStore.Log`) has no loop; it
updates the store's table field.

Each method except `FindOne` is proved equal to a function; `FindOne` states
its result outright. The properties of the source are proved about those
functions.

Where the code and the intended design differ, the model follows the code:

- **The base list follows catalog order, not score order.** The scored ids
  are sorted by score, but the movies are then fetched with an `$in` query,
  which returns them in catalog order. The sort therefore does not decide
  the order of the interacted movies in the reply. `FetchByIds` keeps
  catalog order. `BaseListIgnoresScoreOrder` exhibits the effect: a
  disliked movie listed before a watch-listed one stays ahead of it. The
  score ordering is proved separately, about `SortedMovies`.
- **Negative totals are kept.** Disliked movies with negative totals are
  not filtered out. Every interacted catalog movie heads the personalised
  list (`InteractedMoviesLead`).
- **The timestamp is set once.** A record's `timestamp` comes from the schema
  default at creation and is not touched when the count is incremented.
- **The term is ignored on the personalised path.** The search term only
  filters the fallback path.
- **Out-of-enum types.** On the insert path of `logInteraction`, a request
  whose interaction type is outside the schema enum reaches `save`, which the
  schema refuses (a 500 reply). The table is unchanged (`SaveRejected`).
  An existing record can never have such a type, so the increment path is
  unaffected.

## Model

| member | source | states |
|---|---|---|
| Models.Ids | backend/controllers/movieController.js:89 | the id list has one entry per movie, position by position |
| Scoring.ScoreOf | backend/controllers/movieController.js:41-62 | defines a movie's score as the sum of count × weight over its records, an independent reference for the fold (no contract of its own; see ScoreTableMeaning) |
| Scoring.AddRecord | backend/controllers/movieController.js:57-61 | defines one iteration of the fold on the table (no contract of its own; Accumulate is proved equal to it) |
| Scoring.ScoreTable | backend/controllers/movieController.js:39-62 | defines the table after the whole fold (no contract of its own; see ScoreTableMeaning) |
| Scoring.SortedMovies | backend/controllers/movieController.js:65-67 | defines `sortedMovies` as the scored ids sorted stably by score (no contract of its own; see the three SortedMovies lemmas) |
| Scoring.Weight | backend/controllers/movieController.js:43-55 | the weight is within -1..2, non-zero exactly for the three schema types, and negative exactly for dislike |
| Scoring.AggregateScores | backend/controllers/movieController.js:39-62 | the dictionary holds exactly the interacted movie ids; each one's value is the sum of count × weight over that movie's records; the keys come in first-appearance order |
| Scoring.Accumulate | backend/controllers/movieController.js:42-61 | one loop iteration: a missing key is created at 0 and appended to the key order, then the record's count × weight is added |
| Scoring.ScoreTableMeaning | backend/controllers/movieController.js:39-62 | the folded dictionary's keys are the interacted ids and each value is the per-movie sum, zero or negative totals included |
| Scoring.ScoreOfAppend | backend/controllers/movieController.js:41-62 | a movie's score over two record lists is the sum of its scores over each |
| Scoring.ScoreOfUninteracted | backend/controllers/movieController.js:57-61 | a movie with no record scores 0 |
| Scoring.ScoreOfSingle | backend/controllers/movieController.js:43-61 | one record contributes count × weight; a type outside the enum contributes 0 |
| Scoring.SortedMoviesArePermutation | backend/controllers/movieController.js:65-67 | `sortedMovies` is a permutation of the scored ids, repeats no id, and holds every interacted movie id |
| Scoring.SortedMoviesDescending | backend/controllers/movieController.js:65-67 | `sortedMovies` is ordered by score, non-increasing |
| Scoring.SortedMoviesTiesKeepFirstAppearance | backend/controllers/movieController.js:65-67 | ids with equal score keep their first-appearance order (the sort is stable) |
| Sequences.Distinct | backend/controllers/movieController.js:88-89 | `Array.from(new Set(xs))` has no repeats and holds exactly the elements of xs |
| Sequences.DistinctFirstOccurrenceOrder | backend/controllers/movieController.js:88-89 | the distinct elements come in order of their first occurrence |
| Sequences.DistinctOfNoDuplicates | backend/controllers/movieController.js:88-89 | a list without repeats is left as it is |
| Sequences.DistinctIdempotent | backend/controllers/movieController.js:88-89 | deduplicating twice is deduplicating once |
| Sequences.DistinctKeepsPrefix | backend/controllers/movieController.js:87-89 | a repeat-free prefix survives deduplication in place |
| Sequences.SortDesc | backend/controllers/movieController.js:159 | the stable descending sort returns a permutation of its input, ordered by score |
| Sequences.SortDescStable | backend/controllers/movieController.js:159 | for each score, the entries with that score keep their relative order |
| Sequences.SortDescItems | backend/controllers/movieController.js:159-161 | the sort permutes the items too |
| Sequences.InsertDescPerm | backend/controllers/movieController.js:159 | one insertion step adds exactly the inserted entry |
| Sequences.InsertDescKeepsSorted | backend/controllers/movieController.js:159 | one insertion step keeps a descending list descending |
| Sequences.InsertDescWithScore | backend/controllers/movieController.js:159 | one insertion step puts the new entry first among its equal-score entries, which keeps the sort stable for a back-to-front insertion sort |
| Sequences.SortByKey | backend/controllers/movieController.js:65-67 | `entries.sort((a, b) => b[1] - a[1]).map(e => e[0])` is a permutation ordered by key, non-increasing |
| Sequences.SortByKeyStable | backend/controllers/movieController.js:65-67 | elements with equal key keep their relative order |
| Sequences.SortByKeyTwo | backend/controllers/movieController.js:65-67 | two elements in ascending key order are swapped |
| Sequences.PermutationKeepsNoDuplicates | backend/controllers/movieController.js:65-67 | a permutation of a repeat-free list is repeat-free |
| Similarity.SplitActors | backend/controllers/movieController.js:146-147 | `split(", ")` yields at least one piece, and the first piece is a prefix of the string |
| Similarity.JoinSplitActors | backend/controllers/movieController.js:146-147 | joining the pieces with ", " gives back the actor string |
| Similarity.SplitActorsPiecesClean | backend/controllers/movieController.js:146-147 | no piece contains the separator |
| Similarity.SharesGenre | backend/controllers/movieController.js:136-139 | defines the genre test: some genre of the reference is a genre of the other movie (no contract of its own) |
| Similarity.SharesActor | backend/controllers/movieController.js:145-147 | defines the actor test on the ", " split pieces (no contract of its own) |
| Similarity.SimilarityScore | backend/controllers/movieController.js:133-148 | the score is within 0..3 |
| Similarity.SimilarityZeroIff | backend/controllers/movieController.js:133-150 | the score is 0 exactly when the movies share no genre, no director and no actor |
| Similarity.SimilaritySymmetric | backend/controllers/movieController.js:133-148 | the score does not depend on which movie is the reference |
| Similarity.Candidates | backend/controllers/movieController.js:130-156 | the pushed candidates are exactly the other catalog movies with a positive score |
| Similarity.SimilarMovies | backend/controllers/movieController.js:158-161 | defines the expansion as the candidates sorted stably by score (no contract of its own; see SimilarMembers, SimilarDescending, SimilarTiesKeepCatalogOrder) |
| Similarity.ContentBasedRecommendations | backend/controllers/movieController.js:127-162 | the loop and sort compute the candidates, sorted stably by score |
| Similarity.SimilarExcludesReference | backend/controllers/movieController.js:131 | the expansion never contains a movie with the reference's id |
| Similarity.SimilarMembers | backend/controllers/movieController.js:133-155 | the expansion is a permutation of the candidates; each member scores 1..3; a movie is in it exactly when it is in the catalog, is not the reference and scores above 0 |
| Similarity.SimilarDescending | backend/controllers/movieController.js:159-161 | the expansion is ordered by score, non-increasing |
| Similarity.SimilarTiesKeepCatalogOrder | backend/controllers/movieController.js:130-161 | movies of equal score keep catalog order |
| Pagination.Page | backend/controllers/movieController.js:95-98 | a page has at most `limit` items; its length is clamped to the end of the list; item i is item `(page-1)*limit + i` of the list |
| Pagination.TotalPages | backend/controllers/movieController.js:102 | `ceil(total / limit)`: 0 for no items, otherwise the least page count covering every item |
| Pagination.PagePastLastIsEmpty | backend/controllers/movieController.js:95-102 | a page beyond `totalPages` is empty |
| Pagination.FirstPagesArePrefix | backend/controllers/movieController.js:95-98 | pages 1..n together are the first `n * limit` items |
| Pagination.PagesRebuildList | backend/controllers/movieController.js:95-102 | pages 1..totalPages together rebuild the whole list |
| Search.Fold | backend/controllers/movieController.js:14 | case folding keeps the length and folds each character |
| Search.ContainsFoldedIff | backend/controllers/movieController.js:14 | the case-insensitive test succeeds exactly when the term occurs at some offset of the text, ignoring case |
| Search.ContainsFoldedTermCase | backend/controllers/movieController.js:14 | the case of the term does not matter |
| Search.ContainsFolded | backend/controllers/movieController.js:14 | defines the case-insensitive substring scan (no contract of its own; see ContainsFoldedIff) |
| Search.MatchesTerm | backend/controllers/movieController.js:15-23 | defines the `$or` over the seven fields, an array field matching when one element does (no contract of its own) |
| Search.FallbackSearch | backend/controllers/movieController.js:11-24 | `Movie.find(query)` keeps a catalog movie exactly when the term is empty or one of the seven fields matches, and is no longer than the catalog (the order is stated by FallbackSearchAppend) |
| Search.FallbackSearchAppend | backend/controllers/movieController.js:108-109 | the search distributes over concatenation, so it keeps catalog order and multiplicity |
| Search.FallbackSearchSingle | backend/controllers/movieController.js:15-23 | one movie is kept exactly when the term is empty or matches it |
| Search.EmptyTermReturnsCatalog | backend/controllers/movieController.js:13-24 | with an empty term the whole catalog is returned, in order |
| Search.EmptyTermMatchesEverything | backend/controllers/movieController.js:13-24 | the empty pattern matches every movie, so skipping the filter for it changes nothing |
| MovieController.FetchByIds | backend/controllers/movieController.js:70-72 | the `$in` query returns exactly the catalog movies whose id is listed, and is no longer than the catalog (the order is stated by FetchByIdsAppend) |
| MovieController.FetchByIdsAppend | backend/controllers/movieController.js:70-72 | the fetch distributes over concatenation, so it keeps catalog order and multiplicity |
| MovieController.FetchByIdsSingle | backend/controllers/movieController.js:70-72 | one movie is fetched exactly when its id is listed |
| MovieController.Expansions | backend/controllers/movieController.js:76-84 | defines the accumulated expansions, one after another, in base order (no contract of its own; see ExpansionsMembers) |
| MovieController.ExpansionsMembers | backend/controllers/movieController.js:76-84 | a movie is in the expansions exactly when it is in the expansion of some base movie |
| MovieController.FindById | backend/controllers/movieController.js:91 | `find` returns the first merged movie with that id, and it has that id |
| MovieController.ExpandAll | backend/controllers/movieController.js:76-84 | the accumulated list is the base movies' expansions, one after another, in base order |
| MovieController.Recommendations | backend/controllers/movieController.js:70-92 | defines the personalised list before the page cut (no contract of its own; see RecommendationsWellFormed, InteractedMoviesLead) |
| MovieController.UniqueMovies | backend/controllers/movieController.js:87-92 | the deduplicated ids are the distinct merged ids |
| MovieController.UniqueMoviesNoRepeatedIds | backend/controllers/movieController.js:87-92 | the deduplicated list repeats no id |
| MovieController.UniqueMoviesKeepFirstOccurrence | backend/controllers/movieController.js:87-92 | it holds exactly the merged ids, in order of first occurrence, each entry being the first merged movie with its id |
| MovieController.UniqueMoviesIdempotent | backend/controllers/movieController.js:87-92 | deduplicating again changes nothing |
| MovieController.UniqueMoviesKeepBase | backend/controllers/movieController.js:87-92 | base movies with distinct ids stay at the head, in place, whatever the expansions hold |
| MovieController.RecommendationsWellFormed | backend/controllers/movieController.js:70-92 | the personalised list repeats no id and holds only catalog movies |
| MovieController.InteractedMoviesLead | backend/controllers/movieController.js:65-92 | the base list is exactly the interacted catalog movies, negative totals included, and heads the personalised list |
| MovieController.FetchByIdsKeepsNoDuplicates | backend/controllers/movieController.js:70-72 | a catalog with distinct ids yields a base list with distinct ids |
| MovieController.BaseListIgnoresScoreOrder | backend/controllers/movieController.js:65-72 | a catalog [a, b] with a disliked and b watch-listed gives `sortedMovies` [b, a] but the base list [a, b] |
| MovieController.GetAllMovies | backend/controllers/movieController.js:5-119 | a user with records gets a page of the deduplicated recommendations; anyone else gets a page of the term search; both report the list length, `ceil(length / limit)` pages and the requested page |
| InteractionController.IndexOfTriple | backend/controllers/interactionController.js:13-17 | the lookup finds the first record with the triple, or reports that none has it |
| InteractionController.UserRecords | backend/controllers/interactionController.js:43-46 | exactly the records of the requested user, no more than the table holds (the order is stated by UserRecordsAppend) |
| InteractionController.UserRecordsAppend | backend/controllers/interactionController.js:46 | the lookup distributes over concatenation, so it keeps table order and multiplicity |
| InteractionController.UserRecordsSingle | backend/controllers/interactionController.js:46 | one record is returned exactly when it belongs to the user |
| InteractionController.LogStep | backend/controllers/interactionController.js:4-40 | one call as an atomic step: `MissingField` exactly when a field is falsy; the table is unchanged on `MissingField` and `SaveRejected`; it grows by one record exactly on `Logged`; `SaveRejected` only for a type outside the enum |
| InteractionController.LogRejectsMissingField | backend/controllers/interactionController.js:8-10 | a request missing any field is rejected and the table is unchanged |
| InteractionController.LogIncrementsExisting | backend/controllers/interactionController.js:13-23 | an existing triple's count rises by exactly one and no record is added |
| InteractionController.LogAppendsNew | backend/controllers/interactionController.js:26-35 | a new triple appends exactly one record with count 1 (the save fails, leaving the table unchanged, for a type outside the enum) |
| InteractionController.LogPreservesTable | backend/controllers/interactionController.js:12-33 | at most one record per triple is kept, the table never shrinks, and records of other triples are unchanged |
| InteractionController.LogCounts | backend/controllers/interactionController.js:12-33 | an accepted call raises its triple's count by one and leaves every other triple's count alone |
| InteractionController.RepeatedLogCounts | backend/controllers/interactionController.js:19-33 | n calls for one triple on an empty table leave one record with count n, stamped at the first call |
| InteractionController.InteractionStore.constructor | backend/models/interactionModel.js:3-9 | an empty table satisfies the store invariant |
| InteractionController.InteractionStore.FindOne | backend/controllers/interactionController.js:13-17 | `findOne` returns the index of a record with the triple, or none exists |
| InteractionController.InteractionStore.Log | backend/controllers/interactionController.js:4-40 | the in-place update keeps the store invariant and leaves exactly the table and reply of `LogStep` |

## Left out

- Regular-expression semantics: the search term is a literal substring with ASCII case folding; metacharacters and Unicode case folding are not modelled.
- Query defaults: `page = 1` and `limit = 5` when absent are applied before parsing; the model takes the parsed values as given.
- Object keys that are array indices: JavaScript lists such keys first, in ascending order; the score table keeps first-appearance order for every key, which matches only because Mongo ids are never array indices.
- Casting a malformed id to an ObjectId (a query error) is not modelled; ids are strings compared for equality.
- The read-then-save race in `logInteraction`: each call is one atomic step on the table.
- HTTP: status codes, JSON shaping and the 500 catch for store errors are not modelled; the replies of `logInteraction` are the outcomes `MissingField`, `CountUpdated`, `Logged` and `SaveRejected`.
- `parseInt` of the query string: `page >= 1` and `limit >= 1` are preconditions (with `limit = 0` the page count would divide by zero).
- `populate("movieId", "title posterUrl")` in `getUserInteractions`: the model returns the records without the joined movie fields.
- The second read of the user's interactions in `getAllMovies`: both reads are the same single input.
- Scores and counts are unbounded integers, not floating-point numbers.
- The clock: the creation time is a parameter of the log step; `createdAt`/`updatedAt` of movies are not modelled.
- The CRUD handlers (`getMovieById`, `createMovie`, `updateMovie`, `deleteMovie`), the user controller, the server, router and routes, and the frontend are not part of this model.
