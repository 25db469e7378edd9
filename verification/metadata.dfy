/**
  The pure part of the two TMDB lookups: mapping an already-parsed response to
  a poster URL or a trailer URL, or to absent. A failed request (network
  error, timeout, non-success status, unparsable body) is `Unavailable`; the
  source swallows all of these and returns `None`.
*/
module Metadata {
  import opened Wrappers

  /** The outcome of one request: failed, or the parsed JSON body. */
  datatype Fetched<T> = Unavailable | Body(body: T)

  /** The movie-detail body; only `poster_path` is read. */
  datatype MovieDetail = MovieDetail(posterPath: Option<string>)

  /**
    One element of the `results` list of the videos body. `.get` on an element
    that is not a JSON object raises, which aborts the whole scan.
  */
  datatype VideoEntry =
    | VideoObject(site: Option<string>, kind: Option<string>, key: Option<string>)
    | NonObject

  /** The videos body; `results` may be absent. */
  datatype VideoList = VideoList(results: Option<seq<VideoEntry>>)

  const PosterPrefix: string := "https://image.tmdb.org/t/p/w500"
  const WatchPrefix: string := "https://www.youtube.com/watch?v="

  /**
    `fetch_poster` after the request: the prefixed path when `poster_path` is
    present and non-empty, absent otherwise.
  */
  function PosterUrl(resp: Fetched<MovieDetail>): (r: Option<string>)
    ensures r.Some? <==> resp.Body? && resp.body.posterPath.Some? && resp.body.posterPath.value != ""
    ensures r.Some? ==> r.value == PosterPrefix + resp.body.posterPath.value
  {
    match resp
    case Unavailable => None
    case Body(detail) =>
      match detail.posterPath
      case Some(path) => if path != "" then Some(PosterPrefix + path) else None
      case None => None
  }

  /** The poster path can be read back from a composed poster URL. */
  lemma PosterPathRecovered(resp: Fetched<MovieDetail>)
    requires PosterUrl(resp).Some?
    ensures |PosterUrl(resp).value| > |PosterPrefix|
    ensures PosterUrl(resp).value[..|PosterPrefix|] == PosterPrefix
    ensures Some(PosterUrl(resp).value[|PosterPrefix|..]) == resp.body.posterPath
  {
    var url := PosterUrl(resp).value;
    assert url == PosterPrefix + resp.body.posterPath.value;
  }

  /** Python's f-string rendering of `v.get('key')`: a missing key prints as `None`. */
  function KeyText(key: Option<string>): string {
    match key
    case Some(k) => k
    case None => "None"
  }

  /** An element with `site == "YouTube"` and `type == "Trailer"`. */
  predicate IsTrailer(e: VideoEntry) {
    e.VideoObject? && e.site == Some("YouTube") && e.kind == Some("Trailer")
  }

  /** The watch URL for an element. */
  function WatchUrl(e: VideoEntry): string
    requires e.VideoObject?
  {
    WatchPrefix + KeyText(e.key)
  }

  /** The scan gets past the first `i` elements: each is an object and none is a trailer. */
  ghost predicate PassesBefore(es: seq<VideoEntry>, i: nat) {
    i <= |es| && forall j :: 0 <= j < i ==> es[j].VideoObject? && !IsTrailer(es[j])
  }

  /**
    The loop of `fetch_trailer_url`: the watch URL of the first trailer, absent
    when the list holds none, and absent as well when an element that is not an
    object is reached before a trailer.
  */
  function ScanVideos(es: seq<VideoEntry>): (r: Option<string>)
    ensures r.Some? <==> exists i :: 0 <= i < |es| && PassesBefore(es, i) && IsTrailer(es[i])
    ensures forall i :: 0 <= i < |es| && PassesBefore(es, i) && IsTrailer(es[i]) ==> r == Some(WatchUrl(es[i]))
  {
    if |es| == 0 then None
    else if es[0].NonObject? then None
    else if IsTrailer(es[0]) then
      assert PassesBefore(es, 0);
      Some(WatchUrl(es[0]))
    else
      var rest := ScanVideos(es[1..]);
      assert forall i :: 1 <= i < |es| ==> (PassesBefore(es, i) <==> PassesBefore(es[1..], i - 1));
      assert rest.Some? ==> exists i :: 0 <= i < |es| && PassesBefore(es, i) && IsTrailer(es[i]) by {
        if rest.Some? {
          var i :| 0 <= i < |es[1..]| && PassesBefore(es[1..], i) && IsTrailer(es[1..][i]);
          assert PassesBefore(es, i + 1) && IsTrailer(es[i + 1]);
        }
      }
      rest
  }

  /** `fetch_trailer_url` after the request; a missing `results` list is empty. */
  function TrailerUrl(resp: Fetched<VideoList>): (r: Option<string>)
    ensures resp.Unavailable? ==> r.None?
    ensures resp.Body? && resp.body.results.None? ==> r.None?
    ensures resp.Body? && resp.body.results.Some? ==> r == ScanVideos(resp.body.results.value)
  {
    match resp
    case Unavailable => None
    case Body(VideoList(results)) =>
      match results
      case None => ScanVideos([])
      case Some(es) => ScanVideos(es)
  }

  /**
    How the scan composes: a trailer found in `a` hides everything in `b`; a
    prefix `a` the scan passes hands the decision to `b`; and a prefix where
    the scan stops without a trailer yields absent whatever follows.
  */
  lemma {:induction false} ScanAppend(a: seq<VideoEntry>, b: seq<VideoEntry>)
    ensures ScanVideos(a).Some? ==> ScanVideos(a + b) == ScanVideos(a)
    ensures PassesBefore(a, |a|) ==> ScanVideos(a + b) == ScanVideos(b)
    ensures ScanVideos(a).None? && !PassesBefore(a, |a|) ==> ScanVideos(a + b).None?
    decreases |a|
  {
    if |a| > 0 {
      assert (a + b)[0] == a[0];
      assert (a + b)[1..] == a[1..] + b;
      ScanAppend(a[1..], b);
      if a[0].VideoObject? && !IsTrailer(a[0]) {
        assert PassesBefore(a, |a|) ==> PassesBefore(a[1..], |a[1..]|);
        assert !PassesBefore(a, |a|) ==> !PassesBefore(a[1..], |a[1..]|);
      }
    } else {
      assert a + b == b;
    }
  }

  /** Worked example: a teaser and a non-YouTube trailer are skipped; the first YouTube trailer wins. */
  lemma TrailerExample()
    ensures TrailerUrl(Body(VideoList(Some([
      VideoObject(Some("YouTube"), Some("Teaser"), Some("t1")),
      VideoObject(Some("Vimeo"), Some("Trailer"), Some("v1")),
      VideoObject(Some("YouTube"), Some("Trailer"), Some("abc")),
      VideoObject(Some("YouTube"), Some("Trailer"), Some("def"))]))))
      == Some("https://www.youtube.com/watch?v=abc")
    ensures TrailerUrl(Body(VideoList(Some([NonObject, VideoObject(Some("YouTube"), Some("Trailer"), Some("abc"))])))).None?
  {
    var es := [
      VideoObject(Some("YouTube"), Some("Teaser"), Some("t1")),
      VideoObject(Some("Vimeo"), Some("Trailer"), Some("v1")),
      VideoObject(Some("YouTube"), Some("Trailer"), Some("abc")),
      VideoObject(Some("YouTube"), Some("Trailer"), Some("def"))];
    assert PassesBefore(es, 2) && IsTrailer(es[2]);
    assert TrailerUrl(Body(VideoList(Some(es)))) == Some(WatchUrl(es[2]));
    assert WatchUrl(es[2]) == WatchPrefix + "abc" == "https://www.youtube.com/watch?v=abc";
  }
}
