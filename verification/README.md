# Movie recommender core, modelled in Dafny

The repository is a single Streamlit page (`app.py`) that recommends movies
similar to a chosen one. This project models its pure core:

- **Recommendation ranking** (`recommend`). The chosen title is looked up at
  its first catalog position. That row of the precomputed similarity matrix is
  enumerated into `(column, score)` pairs. The pairs are sorted by score in
  descending order with Python's stable `sorted(..., reverse=True)`, so equal
  scores keep ascending column order. The first pair is dropped, the next `n`
  are kept (`[1:n + 1]`), and each kept column is projected to its title,
  poster and TMDB id.
- **Poster URL composition.** `fetch_poster` maps a parsed movie-detail
  response to `https://image.tmdb.org/t/p/w500` + `poster_path`, or to absent.
- **Trailer selection.** `fetch_trailer_url` maps a parsed videos response to
  the YouTube watch URL of the first element whose site is `YouTube` and whose
  type is `Trailer`, or to absent.
- **Overview normalisation.** A list-valued overview is joined with single
  spaces. A missing or empty overview becomes `Overview not available.`.

Modules, one per concern: `Wrappers` (Option/Result), `Catalog` (movies,
matrix shape, first-match title lookup), `Ranking` (enumerate, stable
descending insertion sort, Python slicing, top-N), `Recommender` (the
`recommend` function and its projection), `Metadata` (poster and trailer
mappings), `Overview` (join, split, placeholder).

Similarity scores are `real`: the code only compares them. Python's slice
`[1:n + 1]` is modelled with full slice semantics for any integer `n`,
including negative bounds. Its length is stated for a non-negative start and
any stop, so the number of recommendations is stated for every `n`. The sort is an insertion sort that inserts pairs in
their original order. It is proved to be a permutation and descending. Given
pairs in increasing column order, it is proved to produce the strict rank
order "higher score first, then lower column". That order has exactly one
arrangement of the row's pairs (`RankRowCharacterised`).

The model follows the code as written, including where it is looser than its evident intent:

- The title lookup takes the **first** match. It does not demand exactly one.
  When nothing matches, the code raises an `IndexError`; here that is
  `Failure(TitleNotFound(title))`.
- The first element of the sorted row is dropped **unconditionally**. The code
  never checks that this element is the queried movie. If an earlier column
  ties the self-score, the queried movie is recommended to itself and the tied
  column is dropped (`SelfTieKeepsSelf`). Self-exclusion holds only when the
  self-score is a strict maximum of its row (`SelfExcluded`).
- `n` is any integer. The only caller passes a slider value from 3 to 10.

## Model

| member | source | states |
|---|---|---|
| Catalog.FindTitle | app.py:74 | returns the first position whose title equals the query; absent exactly when no title matches |
| Ranking.Enumerate | app.py:78 | `list(enumerate(row))`: one pair per column, in column order, carrying that column's score |
| Ranking.Insert | app.py:77-80 | one insertion step of the stable sort adds exactly one copy of the pair and nothing else |
| Ranking.InsertDescending | app.py:77-80 | inserting into a score-descending sequence keeps it descending |
| Ranking.SortDesc | app.py:77-80 | the sort result is a permutation of its input with non-increasing scores |
| Ranking.InsertRanked | app.py:77-80 | inserting a pair with a larger column than all present ones keeps the strict rank order (stability) |
| Ranking.SortRanked | app.py:77-80 | sorting pairs given in increasing column order ranks equal scores by ascending column |
| Ranking.RankedUnique | app.py:77-80 | two strictly ranked sequences with the same pairs are equal, so the ranking is determined by the pairs alone |
| Ranking.RankRow | app.py:77-80 | no contract of its own; the sorted `enumerate(row)`, characterised in RankRowCharacterised, RankRowRanked, RankRowEntries and RankRowRanksRow |
| Ranking.RankRowRanked | app.py:77-80 | the sorted `enumerate(row)` is in strict rank order: descending score, ties by ascending column |
| Ranking.RankRowEntries | app.py:78-80 | the sorted row holds exactly the row's `(column, score)` pairs, all columns in range |
| Ranking.RankRowCharacterised | app.py:77-80 | a sequence is the sorted row if and only if it is a strictly ranked permutation of `enumerate(row)` |
| Ranking.RankedIndicesDistinct | app.py:77-80 | no column appears twice in the sorted row |
| Ranking.PySlice | app.py:81 | for a non-negative start the slice has Python's length for any stop, negative stops counted from the end; its elements are those from `start` on, in order |
| Ranking.KeepRanks | app.py:81-85 | no contract of its own; `ranked[1:n + 1]` projected to columns, described by KeepRanksShape and KeepSelection |
| Ranking.TopN | app.py:77-81 | no contract of its own; length and order in TopNShape, rank positions in TopNFromRanking, selection in TopNSelection |
| Ranking.TopNShape | app.py:77-81 | for `n >= 0` the kept columns number `min(n, len(row) - 1)`, for `n <= -2` they number `len(row) + n` (at least 0), for `n = -1` none; they are distinct and in range, scores non-increasing, equal scores in ascending column order |
| Ranking.RankRowRanksRow | app.py:77-80 | the sorted row is a strict ranking of the row: one pair per column, carrying that column's score |
| Ranking.KeepRanksShape | app.py:81 | `[1:n + 1]` of any strict ranking keeps the columns at ranks 1 to `n`, in rank order, `min(n, len - 1)` of them for `n >= 0` and `len + n` (at least 0) for `n <= -2` |
| Ranking.TopNFromRanking | app.py:77-81 | the kept columns are those at ranks 1, 2, ... of the sorted row |
| Ranking.BestLeads | app.py:77-80 | the column that ranks before all others comes first in the sorted row |
| Ranking.TopNSelection | app.py:77-81 | the best-ranked column is never kept, and every other column left out ranks after every kept column |
| Ranking.KeepSelection | app.py:81 | of a strict ranking led by the best column, the slice omits that column, and every other omitted column ranks after every kept one |
| Ranking.SelfExcluded | app.py:74-81 | a strictly maximal self-score keeps the queried column out of the result |
| Ranking.SelfTieKeepsSelf | app.py:77-81 | with row `[1, 1]` and the second column queried, the result is that same column |
| Ranking.ExampleTopN | app.py:77-81 | for the row [1, 0.9, 0.2] the kept columns are [1] for n=1 and [1, 2] for n=2 |
| Recommender.Project | app.py:83-90 | names, posters and ids are parallel lists with one entry per kept column, in rank order |
| Recommender.Recommend | app.py:73-90 | fails exactly when no title matches; otherwise projects the top-N of the first match's row, with `min(n, len - 1)` entries for `n >= 0` and Python's slice length for negative `n` |
| Recommender.RecommendExcludesSelf | app.py:73-90 | when the self-similarity is a strict row maximum, the lookup succeeds and every recommended title and id belongs to another catalog position |
| Recommender.RecommendExample | app.py:73-90 | for rows A=[1,0.9,0.2], B=[0.9,1,0.1], C=[0.2,0.1,1], "A" yields [B] for n=1 and [B, C] for n=2; an unknown title fails |
| Metadata.PosterUrl | app.py:49-54 | a URL exactly when `poster_path` is present and non-empty, and then the fixed prefix followed by the path |
| Metadata.PosterPathRecovered | app.py:50-51 | the poster path can be read back from the URL after the fixed prefix |
| Metadata.KeyText | app.py:67 | no contract of its own; the f-string rendering of `v.get("key")`, which prints a missing key as `None` |
| Metadata.WatchUrl | app.py:67 | no contract of its own; the watch prefix followed by the rendered key, the value ScanVideos promises |
| Metadata.ScanVideos | app.py:65-67 | a URL exactly when some YouTube trailer is reached, and then the watch URL of the first one |
| Metadata.TrailerUrl | app.py:59-70 | a failed request or missing `results` yields absent; otherwise the result of the scan |
| Metadata.ScanAppend | app.py:65-67 | elements after the first trailer are ignored; a prefix the scan passes defers to the rest |
| Metadata.TrailerExample | app.py:65-67 | a teaser and a Vimeo trailer are skipped and the first YouTube trailer's key is used; a non-object before it yields absent |
| Overview.Join | app.py:319 | no contract of its own; `" ".join(words)`, described by JoinLength, JoinEmpty and the inverse pair JoinSplit / SplitJoin |
| Overview.JoinLength | app.py:318-319 | the joined text is the words' total length plus one separator between each pair of neighbours |
| Overview.JoinSplit | app.py:318-319 | splitting on spaces then joining restores any text |
| Overview.SplitJoin | app.py:318-319 | joining space-free words then splitting recovers the word list |
| Overview.JoinEmpty | app.py:318-320 | a join is empty exactly for no words or a single empty word |
| Overview.Display | app.py:317-320 | the shown text is never empty; missing or empty overviews show the placeholder, otherwise the text or the joined words |

## Left out

- The `st.cache_data(ttl=3600)` memoisation of both fetchers (app.py:42, 57): framework behaviour whose implementation is not visible. Posters enter `Recommend` as a function parameter `posterOf`.
- HTTP requests, `raise_for_status`, the 5-second timeouts and the blanket `except Exception` (app.py:44-48, 52-53, 59-63, 68-69): network I/O. Every failure is the single response value `Unavailable`.
- JSON fields of an unexpected type (a numeric `key`, a non-string `poster_path`): fields are modelled as optional strings.
- The Streamlit page: CSS, widgets, session state, the selected-movie panel, the placeholder poster and the TMDB link (app.py:15-16, 27-38, 93-380 apart from 317-320).
- Loading the API key, `movies.pkl` and `similarity.pkl` (app.py:8-13, 19-25): startup I/O. The loaded data's shape is the `Catalog.WellFormed` precondition: one square matrix row and column per catalog row, as the code assumes.
- Floating-point scores: NaN and signed zeros are not modelled. Scores are reals.
- The pandas distinction between index labels and positions (app.py:74, 85): the catalog index is taken to be `0..len-1`.
- Overview values that are neither text, a list of strings nor missing (a pandas NaN, for example).
