/** Content-based similarity: scores every other catalog movie against a
    reference movie by shared genre, director and actor, and lists the ones
    that share something, best first (`getContentBasedRecommendations` in
    backend/controllers/movieController.js). */
module Similarity {
  import opened Models
  import opened Sequences

  const Separator: string := ", "

  predicate SeparatorAt(s: string, i: int) {
    0 <= i && i + 1 < |s| && s[i] == ',' && s[i + 1] == ' '
  }

  ghost predicate HasSeparator(s: string) {
    exists i :: SeparatorAt(s, i)
  }

  /** `s.split(", ")`: the pieces between the leftmost non-overlapping
      occurrences of the separator; the empty string gives one empty piece. */
  function SplitActors(s: string): (parts: seq<string>)
    ensures |parts| >= 1
    ensures |parts[0]| <= |s| && parts[0] == s[..|parts[0]|]
    decreases |s|
  {
    if |s| < 2 then [s]
    else if s[0] == ',' && s[1] == ' ' then [""] + SplitActors(s[2..])
    else
      var rest := SplitActors(s[1..]);
      [[s[0]] + rest[0]] + rest[1..]
  }

  /** `parts.join(", ")`. */
  function JoinActors(parts: seq<string>): string
    requires |parts| >= 1
  {
    if |parts| == 1 then parts[0] else parts[0] + Separator + JoinActors(parts[1..])
  }

  /** Joining the pieces again gives back the actor string. */
  lemma {:induction false} JoinSplitActors(s: string)
    ensures JoinActors(SplitActors(s)) == s
    decreases |s|
  {
    if |s| < 2 {
    } else if s[0] == ',' && s[1] == ' ' {
      JoinSplitActors(s[2..]);
      assert s == Separator + s[2..];
    } else {
      JoinSplitActors(s[1..]);
      JoinExtendsFirst(s[0], SplitActors(s[1..]));
      assert s == [s[0]] + s[1..];
    }
  }

  /** Putting a character in front of the first piece puts it in front of the join. */
  lemma {:induction false} JoinExtendsFirst(c: char, parts: seq<string>)
    requires |parts| >= 1
    ensures JoinActors([[c] + parts[0]] + parts[1..]) == [c] + JoinActors(parts)
  {
    var ext := [[c] + parts[0]] + parts[1..];
    assert |ext| == |parts| && ext[0] == [c] + parts[0];
    if |parts| == 1 {
      assert JoinActors(ext) == ext[0];
    } else {
      assert ext[1..] == parts[1..];
      var tail := JoinActors(parts[1..]);
      assert JoinActors(ext) == ext[0] + Separator + tail;
      assert JoinActors(parts) == parts[0] + Separator + tail;
      assert ([c] + parts[0]) + Separator + tail == [c] + (parts[0] + Separator + tail);
    }
  }

  /** No piece contains the separator. */
  lemma {:induction false} SplitActorsPiecesClean(s: string)
    ensures forall k :: 0 <= k < |SplitActors(s)| ==> !HasSeparator(SplitActors(s)[k])
    decreases |s|
  {
    if |s| < 2 {
      assert forall i :: !SeparatorAt(s, i);
    } else if s[0] == ',' && s[1] == ' ' {
      SplitActorsPiecesClean(s[2..]);
      assert forall i :: !SeparatorAt("", i);
      assert SplitActors(s)[1..] == SplitActors(s[2..]);
    } else {
      var rest := SplitActors(s[1..]);
      SplitActorsPiecesClean(s[1..]);
      var first := [s[0]] + rest[0];
      assert !HasSeparator(first) by {
        forall i ensures !SeparatorAt(first, i) {
          if i >= 1 {
            assert SeparatorAt(first, i) ==> SeparatorAt(rest[0], i - 1);
          } else if i == 0 && |rest[0]| > 0 {
            assert rest[0][0] == s[1];
          }
        }
      }
      assert SplitActors(s)[1..] == rest[1..];
    }
  }

  /** `movie.genres.some(g => otherMovie.genres.includes(g))` */
  predicate SharesGenre(a: Movie, b: Movie) {
    exists g :: g in a.genres && g in b.genres
  }

  /** Some actor name, after splitting both actor strings on ", ", is in both. */
  predicate SharesActor(a: Movie, b: Movie) {
    exists x :: x in SplitActors(a.actors) && x in SplitActors(b.actors)
  }

  /** The similarity of `b` to the reference `a`: one point each for a shared
      genre, an equal director and a shared actor. */
  function SimilarityScore(a: Movie, b: Movie): (s: int)
    ensures 0 <= s <= 3
  {
    (if SharesGenre(a, b) then 1 else 0)
    + (if a.director == b.director then 1 else 0)
    + (if SharesActor(a, b) then 1 else 0)
  }

  /** A candidate scores 0 exactly when it shares no genre, no director and
      no actor with the reference. */
  lemma SimilarityZeroIff(a: Movie, b: Movie)
    ensures SimilarityScore(a, b) == 0 <==>
      !SharesGenre(a, b) && a.director != b.director && !SharesActor(a, b)
  {
  }

  /** Similarity does not depend on which of the two is the reference. */
  lemma SimilaritySymmetric(a: Movie, b: Movie)
    ensures SimilarityScore(a, b) == SimilarityScore(b, a)
  {
    assert SharesGenre(a, b) == SharesGenre(b, a);
    assert SharesActor(a, b) == SharesActor(b, a);
  }

  /** Whether `b` enters the expansion of `ref`. */
  predicate IsCandidate(ref: Movie, b: Movie) {
    b.id != ref.id && SimilarityScore(ref, b) > 0
  }

  /** The catalog movies that enter the expansion of `ref`, in catalog order. */
  function Candidates(ref: Movie, all: seq<Movie>): (r: seq<Movie>)
    ensures forall m :: m in r <==> m in all && IsCandidate(ref, m)
    ensures |r| <= |all|
    decreases |all|
  {
    if all == [] then []
    else
      var n := |all| - 1;
      assert all == all[..n] + [all[n]];
      Candidates(ref, all[..n]) + (if IsCandidate(ref, all[n]) then [all[n]] else [])
  }

  /** The similarity expansion of `ref`: its candidates, stably sorted by
      similarity, highest first. */
  function SimilarMovies(ref: Movie, all: seq<Movie>): seq<Movie> {
    SortByKey(Candidates(ref, all), m => SimilarityScore(ref, m))
  }

  /** `getContentBasedRecommendations(movie, allMovies)`: scores each other
      movie, keeps those with a positive score, and sorts them by score. */
  method ContentBasedRecommendations(movie: Movie, allMovies: seq<Movie>) returns (similar: seq<Movie>)
    ensures similar == SimilarMovies(movie, allMovies)
  {
    var scoredMovies: seq<Scored<Movie>> := [];
    for i := 0 to |allMovies|
      invariant scoredMovies == WithKeys(Candidates(movie, allMovies[..i]), m => SimilarityScore(movie, m))
    {
      var other := allMovies[i];
      ghost var before := scoredMovies;
      if other.id != movie.id {
        var score := 0;
        if SharesGenre(movie, other) {
          score := score + 1;
        }
        if movie.director == other.director {
          score := score + 1;
        }
        if SharesActor(movie, other) {
          score := score + 1;
        }
        assert score == SimilarityScore(movie, other);
        if score > 0 {
          scoredMovies := scoredMovies + [Scored(other, score)];
        }
      }
      assert scoredMovies == before
        + (if IsCandidate(movie, other) then [Scored(other, SimilarityScore(movie, other))] else []);
      CandidatesStep(movie, allMovies, i);
    }
    assert allMovies[..|allMovies|] == allMovies;
    similar := Items(SortDesc(scoredMovies));
  }

  lemma CandidatesStep(ref: Movie, all: seq<Movie>, i: nat)
    requires i < |all|
    ensures WithKeys(Candidates(ref, all[..i + 1]), m => SimilarityScore(ref, m))
         == WithKeys(Candidates(ref, all[..i]), m => SimilarityScore(ref, m))
            + (if IsCandidate(ref, all[i]) then [Scored(all[i], SimilarityScore(ref, all[i]))] else [])
  {
    assert all[..i + 1][..i] == all[..i];
    var key := m => SimilarityScore(ref, m);
    var tail := if IsCandidate(ref, all[i]) then [all[i]] else [];
    assert Candidates(ref, all[..i + 1]) == Candidates(ref, all[..i]) + tail;
    WithKeysAppend(Candidates(ref, all[..i]), tail, key);
  }

  // ---------------------------------------------------------------------
  // Properties of the expansion.

  /** The expansion never contains the reference movie itself. */
  lemma SimilarExcludesReference(ref: Movie, all: seq<Movie>)
    ensures forall m :: m in SimilarMovies(ref, all) ==> m.id != ref.id
  {
    var r := SimilarMovies(ref, all);
    assert multiset(r) == multiset(Candidates(ref, all));
    forall m | m in r ensures m.id != ref.id {
      assert m in multiset(r);
      assert m in Candidates(ref, all);
      assert IsCandidate(ref, m);
    }
  }

  /** Every movie of the expansion scores 1 to 3, and exactly the other
      catalog movies that share something with the reference are in it, each
      as often as in the catalog. */
  lemma SimilarMembers(ref: Movie, all: seq<Movie>)
    ensures multiset(SimilarMovies(ref, all)) == multiset(Candidates(ref, all))
    ensures forall m :: m in SimilarMovies(ref, all) ==> 1 <= SimilarityScore(ref, m) <= 3
    ensures forall m :: m in SimilarMovies(ref, all) <==> m in all && m.id != ref.id && SimilarityScore(ref, m) > 0
  {
    var r := SimilarMovies(ref, all);
    forall m ensures m in r <==> m in Candidates(ref, all) {
      assert m in r <==> m in multiset(r);
    }
  }

  /** The expansion is ordered by similarity, highest first. */
  lemma SimilarDescending(ref: Movie, all: seq<Movie>)
    ensures forall i, j :: 0 <= i < j < |SimilarMovies(ref, all)| ==>
      SimilarityScore(ref, SimilarMovies(ref, all)[i]) >= SimilarityScore(ref, SimilarMovies(ref, all)[j])
  {
  }

  /** Movies of equal similarity keep their catalog order. */
  lemma SimilarTiesKeepCatalogOrder(ref: Movie, all: seq<Movie>, k: int)
    ensures KeyEquals(SimilarMovies(ref, all), m => SimilarityScore(ref, m), k)
         == KeyEquals(Candidates(ref, all), m => SimilarityScore(ref, m), k)
  {
    SortByKeyStable(Candidates(ref, all), m => SimilarityScore(ref, m), k);
  }
}
