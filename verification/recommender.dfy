/**
  `recommend(movie, n)`: find the movie's row, rank its columns and project
  the kept columns to titles, posters and external ids.
*/
module Recommender {
  import opened Wrappers
  import opened Catalog
  import opened Ranking
  import Overview

  /** Raised by the source as an `IndexError` when no title matches. */
  datatype LookupError = TitleNotFound(title: string)

  /** The three parallel lists `recommend` returns. */
  datatype Recommendations = Recommendations(names: seq<string>, posters: seq<Option<string>>, ids: seq<int>)

  /**
    `recs` lists, position by position, the title, the poster and the external
    id of the catalog rows at the positions in `top`.
  */
  ghost predicate Projects(movies: seq<Movie>, top: seq<nat>, posterOf: int -> Option<string>, recs: Recommendations) {
    && |recs.names| == |top|
    && |recs.posters| == |top|
    && |recs.ids| == |top|
    && forall k :: 0 <= k < |top| ==>
         && top[k] < |movies|
         && recs.names[k] == movies[top[k]].title
         && recs.ids[k] == movies[top[k]].movieId
         && recs.posters[k] == posterOf(movies[top[k]].movieId)
  }

  /** The loop over the kept positions, collecting names, posters and ids. */
  function Project(movies: seq<Movie>, top: seq<nat>, posterOf: int -> Option<string>): (recs: Recommendations)
    requires forall k :: 0 <= k < |top| ==> top[k] < |movies|
    ensures Projects(movies, top, posterOf, recs)
  {
    Recommendations(
      seq(|top|, k requires 0 <= k < |top| => movies[top[k]].title),
      seq(|top|, k requires 0 <= k < |top| => posterOf(movies[top[k]].movieId)),
      seq(|top|, k requires 0 <= k < |top| => movies[top[k]].movieId))
  }

  /**
    The recommendations for `title`. `posterOf` stands for the poster lookup
    the source performs for every kept movie.
  */
  function Recommend(movies: seq<Movie>, sim: seq<seq<Score>>, title: string, n: int,
                     posterOf: int -> Option<string>): (r: Result<Recommendations, LookupError>)
    requires WellFormed(movies, sim)
    ensures r.Failure? <==> forall j :: 0 <= j < |movies| ==> movies[j].title != title
    ensures r.Failure? ==> r.error == TitleNotFound(title)
    ensures r.Success? ==> forall idx: nat :: FirstMatch(movies, title, idx) ==> Projects(movies, TopN(sim[idx], n), posterOf, r.value)
    ensures r.Success? && n >= 0 ==> |r.value.names| == Min(n, |movies| - 1)
    ensures r.Success? && n < 0 ==> |r.value.names| == (if n < -1 && n + |movies| > 0 then n + |movies| else 0)
  {
    match FindTitle(movies, title)
    case None => Failure(TitleNotFound(title))
    case Some(idx) =>
      var top := TopN(sim[idx], n);
      TopNShape(sim[idx], n);
      var recs := Project(movies, top, posterOf);
      assert forall other: nat :: FirstMatch(movies, title, other) ==> other == idx by {
        forall other | FirstMatch(movies, title, other) ensures other == idx {
          FirstMatchUnique(movies, title, other, idx);
        }
      }
      Success(recs)
  }

  /**
    A movie whose self-similarity is strictly above every other score in its
    row is never recommended for itself: the lookup succeeds, and every
    recommended title and id comes from some other catalog position.
  */
  lemma RecommendExcludesSelf(movies: seq<Movie>, sim: seq<seq<Score>>, title: string, n: int,
                              posterOf: int -> Option<string>, idx: nat)
    requires WellFormed(movies, sim)
    requires FirstMatch(movies, title, idx)
    requires forall j :: 0 <= j < |movies| && j != idx ==> sim[idx][j] < sim[idx][idx]
    ensures Recommend(movies, sim, title, n, posterOf).Success?
    ensures forall k :: 0 <= k < |Recommend(movies, sim, title, n, posterOf).value.names| ==>
      exists j :: 0 <= j < |movies| && j != idx
        && Recommend(movies, sim, title, n, posterOf).value.names[k] == movies[j].title
        && Recommend(movies, sim, title, n, posterOf).value.ids[k] == movies[j].movieId
  {
    var recs := Recommend(movies, sim, title, n, posterOf).value;
    var top := TopN(sim[idx], n);
    SelfExcluded(sim[idx], idx, n);
    forall k | 0 <= k < |recs.names|
      ensures exists j :: 0 <= j < |movies| && j != idx && recs.names[k] == movies[j].title && recs.ids[k] == movies[j].movieId
    {
      assert top[k] in top;
    }
  }

  /** Three movies whose row for the first movie is `[1, 0.9, 0.2]`. */
  function ExampleMovies(): seq<Movie> {
    [Movie(1, "A", Overview.Missing), Movie(2, "B", Overview.Missing), Movie(3, "C", Overview.Missing)]
  }

  function ExampleSimilarity(): seq<seq<Score>> {
    [[1.0, 0.9, 0.2], [0.9, 1.0, 0.1], [0.2, 0.1, 1.0]]
  }

  /** Worked example: "A" yields `[B]` for one result, `[B, C]` for two, and an unknown title fails. */
  lemma RecommendExample(posterOf: int -> Option<string>)
    ensures WellFormed(ExampleMovies(), ExampleSimilarity())
    ensures Recommend(ExampleMovies(), ExampleSimilarity(), "A", 1, posterOf).value.names == ["B"]
    ensures Recommend(ExampleMovies(), ExampleSimilarity(), "A", 2, posterOf).value.names == ["B", "C"]
    ensures Recommend(ExampleMovies(), ExampleSimilarity(), "D", 5, posterOf).Failure?
  {
    var movies := ExampleMovies();
    ExampleTopN(ExampleSimilarity()[0]);
    assert FindTitle(movies, "A") == Some(0);
  }
}
