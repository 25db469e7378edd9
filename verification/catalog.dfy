/**
  The movie catalog and its similarity matrix, loaded once and read-only.
  Catalog positions double as row and column indices of the matrix.
*/
module Catalog {
  import opened Wrappers
  import Overview
  import Ranking

  /** One catalog row: the external (TMDB) id, the title and the overview. */
  datatype Movie = Movie(movieId: int, title: string, overview: Overview.Field)

  /** The matrix is square and has one row and one column per catalog position. */
  ghost predicate WellFormed(movies: seq<Movie>, sim: seq<seq<Ranking.Score>>) {
    && |sim| == |movies|
    && forall i :: 0 <= i < |sim| ==> |sim[i]| == |movies|
  }

  /** `idx` is the first catalog position whose title equals `title`. */
  ghost predicate FirstMatch(movies: seq<Movie>, title: string, idx: nat) {
    && idx < |movies|
    && movies[idx].title == title
    && forall j :: 0 <= j < idx ==> movies[j].title != title
  }

  /** At most one position is the first match. */
  lemma FirstMatchUnique(movies: seq<Movie>, title: string, a: nat, b: nat)
    requires FirstMatch(movies, title, a) && FirstMatch(movies, title, b)
    ensures a == b
  {
  }

  /**
    `movies[movies["title"] == title].index[0]`: the first position holding
    `title`, or `None` where the source raises `IndexError`.
  */
  function FindTitle(movies: seq<Movie>, title: string): (r: Option<nat>)
    ensures r.Some? ==> FirstMatch(movies, title, r.value)
    ensures r.None? <==> forall j :: 0 <= j < |movies| ==> movies[j].title != title
  {
    if |movies| == 0 then None
    else if movies[0].title == title then Some(0)
    else match FindTitle(movies[1..], title)
      case None => None
      case Some(i) => Some(i + 1)
  }
}
