/** The fallback search of `getAllMovies` (backend/controllers/movieController.js):
    a non-empty term keeps the movies in which one of seven text fields
    contains the term, ignoring case; an empty term keeps every movie. */
module Search {
  import opened Models

  /** ASCII case folding, as a case-insensitive match compares characters. */
  function FoldChar(c: char): char {
    if 'A' <= c <= 'Z' then (c as int + 32) as char else c
  }

  function Fold(s: string): (r: string)
    ensures |r| == |s|
    ensures forall i :: 0 <= i < |s| ==> r[i] == FoldChar(s[i])
  {
    seq(|s|, i requires 0 <= i < |s| => FoldChar(s[i]))
  }

  /** `term` occurs in `text` at offset `i`, ignoring case. */
  ghost predicate OccursAt(text: string, term: string, i: int) {
    0 <= i && i + |term| <= |text| && Fold(text[i..i + |term|]) == Fold(term)
  }

  /** `new RegExp(term, "i").test(text)` for a term without metacharacters. */
  predicate ContainsFolded(text: string, term: string)
    decreases |text|
  {
    (|term| <= |text| && Fold(text[..|term|]) == Fold(term))
    || (|text| > 0 && ContainsFolded(text[1..], term))
  }

  /** The scan finds the term exactly when it occurs at some offset. */
  lemma {:induction false} ContainsFoldedIff(text: string, term: string)
    ensures ContainsFolded(text, term) <==> exists i :: OccursAt(text, term, i)
    decreases |text|
  {
    if |term| <= |text| && Fold(text[..|term|]) == Fold(term) {
      assert text[..|term|] == text[0..0 + |term|];
      assert OccursAt(text, term, 0);
    }
    if |text| > 0 {
      ContainsFoldedIff(text[1..], term);
      if ContainsFolded(text[1..], term) {
        var i :| OccursAt(text[1..], term, i);
        assert text[1..][i..i + |term|] == text[i + 1..i + 1 + |term|];
        assert OccursAt(text, term, i + 1);
      }
      if i :| OccursAt(text, term, i) {
        if i > 0 {
          assert text[1..][i - 1..i - 1 + |term|] == text[i..i + |term|];
          assert OccursAt(text[1..], term, i - 1);
        } else {
          assert text[..|term|] == text[i..i + |term|];
        }
      }
    } else {
      if i :| OccursAt(text, term, i) {
        assert i == 0 && |term| == 0;
        assert text[..|term|] == text[i..i + |term|];
      }
    }
  }

  /** Matching ignores the case of the term itself. */
  lemma {:induction false} ContainsFoldedTermCase(text: string, term: string)
    ensures ContainsFolded(text, Fold(term)) == ContainsFolded(text, term)
    decreases |text|
  {
    assert Fold(Fold(term)) == Fold(term);
    if |text| > 0 {
      ContainsFoldedTermCase(text[1..], term);
    }
  }

  /** The regular expression built from the term, applied to the seven
      searchable fields; an array field matches when one element does. */
  predicate MatchesTerm(m: Movie, term: string) {
    || ContainsFolded(m.title, term)
    || ContainsFolded(m.year, term)
    || ContainsFolded(m.runtime, term)
    || (exists g :: g in m.genres && ContainsFolded(g, term))
    || ContainsFolded(m.director, term)
    || ContainsFolded(m.actors, term)
    || ContainsFolded(m.plot, term)
  }

  /** `Movie.find(query)`: an empty term leaves the query `{}`; otherwise the
      `$or` over the seven fields. Catalog order is kept. */
  function FallbackSearch(catalog: seq<Movie>, term: string): (r: seq<Movie>)
    ensures |r| <= |catalog|
    ensures forall m :: m in r <==> m in catalog && (term == "" || MatchesTerm(m, term))
    decreases |catalog|
  {
    if catalog == [] then []
    else
      var n := |catalog| - 1;
      assert catalog == catalog[..n] + [catalog[n]];
      FallbackSearch(catalog[..n], term)
        + (if term == "" || MatchesTerm(catalog[n], term) then [catalog[n]] else [])
  }

  /** The search filters each movie on its own: it distributes over
      concatenation, so the result keeps the catalog's order. */
  lemma {:induction false} FallbackSearchAppend(a: seq<Movie>, b: seq<Movie>, term: string)
    ensures FallbackSearch(a + b, term) == FallbackSearch(a, term) + FallbackSearch(b, term)
    decreases |b|
  {
    if b == [] {
      assert a + b == a;
    } else {
      var n := |b| - 1;
      assert (a + b)[..|a + b| - 1] == a + b[..n];
      assert (a + b)[|a + b| - 1] == b[n];
      FallbackSearchAppend(a, b[..n], term);
    }
  }

  /** A single movie is kept exactly when the term is empty or matches it. */
  lemma FallbackSearchSingle(m: Movie, term: string)
    ensures FallbackSearch([m], term) == if term == "" || MatchesTerm(m, term) then [m] else []
  {
    assert [m][..0] == [];
  }

  /** With an empty term the search returns the whole catalog. */
  lemma {:induction false} EmptyTermReturnsCatalog(catalog: seq<Movie>)
    ensures FallbackSearch(catalog, "") == catalog
    decreases |catalog|
  {
    if catalog != [] {
      var n := |catalog| - 1;
      EmptyTermReturnsCatalog(catalog[..n]);
      assert catalog == catalog[..n] + [catalog[n]];
    }
  }

  /** The empty pattern matches every text, so skipping the filter for an
      empty term changes nothing. */
  lemma EmptyTermMatchesEverything(m: Movie)
    ensures MatchesTerm(m, "")
  {
    assert Fold(m.title[..0]) == Fold("");
  }
}
