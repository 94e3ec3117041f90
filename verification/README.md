# Smart movie recommender: feature composition and ranking

This project models the two pieces of logic at the heart of the movie
recommender in `recommender.py`:

- **Feature composition** (in `load_and_process_data`). Each of the five
  feature columns `genres`, `keywords`, `tagline`, `cast` and `director` has
  its missing cells filled with `''`. The five columns are then summed
  row-wise with a single space between them, giving one combined text per
  movie. This text is what the TF-IDF vectoriser consumes.
- **Recommendation ranking** (`get_recommendations`). The typed title is
  resolved to a catalog title by the fuzzy matcher. The first row carrying
  that title is located. Its similarity row is enumerated and stably sorted
  by descending score. The entry at sorted position 0 is dropped, the next
  `num_recommendations` are kept, and each is numbered from 1 with its title
  and score.

Modules:

- `Catalog` (`catalog.dfy`): rows as read (`RawMovie`, features may be
  missing), rows after filling (`Movie`), and `Option`.
- `Features` (`features.dfy`): filling, composition, and a reference
  `Join` (Python's `' '.join`) that the composition is proved to equal.
- `Ranking` (`ranking.dfy`): `enumerate`, and a stable descending insertion
  sort. The sort is proved to give a permutation with non-increasing scores
  whose ties keep ascending index order. It is also proved to be the only
  permutation ordered that way.
- `Recommend` (`recommend.dfy`): `get_recommendations`, Python slice
  semantics for `[1:k+1]`, and the properties of what is recommended.

Scores are modelled as `real`. Only their order matters, and the model does
no float arithmetic. The similarity matrix is an input, required to be `n`
by `n` for an `n`-row catalog, which is what the build step produces. The
fuzzy matcher (`difflib.get_close_matches`) is an oracle. Its answer for the
typed title enters `GetRecommendations` as an `Option<string>`. A returned
title is assumed to be one of the catalog titles, since the matcher only
returns members of the list it is given. `num_recommendations` is an
unbounded `int`. A negative value follows Python's slice rules: the stop
`k + 1` counts from the end of the list when it is below zero.

Behaviour of the code worth knowing:

- Exclusion is by ranked position, not by the query's own index:
  `sorted_similar_movies[1:...]` drops whatever entry is ranked first.
  When the query row scores strictly highest against itself, it is the entry
  dropped (`QueryExcludedWhenStrictlyTop`). When an earlier row scores at
  least as high as the query row, the query row is not ranked first, so it is
  kept, and it is recommended once `k` reaches `n - 1`
  (`QueryKeptWhenEarlierTies`). `TiedEarlierRowDisplacesQuery` is a two-row
  instance.
- A row with every feature missing composes to four spaces, not the empty
  text (`AllMissingIsFourSpaces`).
- The DataFrame keeps the default `0..n-1` index from `read_csv`, so
  `.index[0]` and `.iloc` both address rows by position.

## Model

| member | source | states |
|---|---|---|
| Features.Normalise | recommender.py:505-506 | a present feature is kept and a missing one becomes `''`; the title is unchanged |
| Features.ComposeFeatures | recommender.py:503-514 | one filled row and one combined text per catalog row, in row order; each text is the single-space join of genres, keywords, tagline, cast, director with missing cells as `''`; each text is four characters longer than its five features together |
| Features.JoinLength | recommender.py:508-514 | joining n >= 1 fields with a separator adds exactly n - 1 separators to the fields' total length |
| Features.ComposeIsJoin | recommender.py:508-514 | the column-wise sum equals Python's space-join of the five features in the fixed order |
| Features.ComposeFieldsAt | recommender.py:508-514 | each feature sits at a fixed offset of the combined text, with one space after each of the first four, so the features can be read back given their lengths |
| Features.AllMissingIsFourSpaces | recommender.py:505-514 | a row with all five features missing composes to four spaces, not the empty text |
| Ranking.Enumerate | recommender.py:550 | entry i is `(i, row[i])`, one entry per score of the row |
| Ranking.SortDesc | recommender.py:551 | the sorted list has the same length as its input and is a permutation of it |
| Ranking.SortDescNonIncreasing | recommender.py:551 | after sorting with `reverse=True`, scores never increase along the list, for any input |
| Ranking.SortDescOrdered | recommender.py:550-551 | stability: sorting an input whose indices ascend, as `enumerate` gives, puts equal scores in ascending index order |
| Ranking.OrderedUnique | recommender.py:551 | two arrangements of the same entries, both ordered by descending score then ascending index, are identical; the ranking is fully determined |
| Ranking.RankedSpec | recommender.py:550-551 | the ranked row is a permutation of `enumerate(row)`, non-increasing in score, ties by ascending index, and the only permutation so ordered |
| Recommend.FirstIndexOf | recommender.py:549 | the query row is the smallest row index whose title equals the matched title |
| Recommend.RankedEntries | recommender.py:550-551 | every ranked entry is `(j, row[j])` for a valid row `j`, and every row appears in the ranked list |
| Recommend.RankedIndicesDistinct | recommender.py:550-551 | no row index appears twice in the ranked list |
| Recommend.SliceBound | recommender.py:554 | a negative slice bound counts from the end, then the bound is clamped to 0..n |
| Recommend.Slice | recommender.py:554 | Python's `s[a:b]`: `max(0, hi - lo)` items over the normalised bounds, item p is `s[lo + p]` |
| Recommend.ToRecords | recommender.py:554-562 | record i has rank i+1, the title `titles[index]` and the score `row[index]` of the row its pick names |
| Recommend.PicksArePrefixAfterTop | recommender.py:554 | `[1:k+1]` keeps ranked positions 1 onwards: `min(k, n-1)` entries for `k >= 0`, none for `k = -1`, `max(0, n+k)` for `k < -1` |
| Recommend.TopIsBest | recommender.py:550-554 | the dropped first-ranked entry is the row with the highest score, lowest index among ties |
| Recommend.PicksEntries | recommender.py:554-557 | each picked entry is `(j, row[j])`; picks are in ranking order, name distinct rows, and never the first-ranked row, whatever its index |
| Recommend.PicksAreBestAfterTop | recommender.py:551-554 | a row that is neither first-ranked nor picked ranks after every picked entry |
| Recommend.GetRecommendations | recommender.py:540-564 | no match gives exactly the "couldn't find" message and no list; a match gives the matched title and `min(k, n-1)` records for `k >= 0`, ranked 1, 2, ... in order, with non-increasing scores and catalog titles |
| Recommend.RecommendationsAligned | recommender.py:549-562 | record i carries rank i+1, the catalog title of its picked row and that row's score in the query row |
| Recommend.QueryExcludedWhenStrictlyTop | recommender.py:549-554 | a query row scoring strictly highest against itself is never recommended |
| Recommend.QueryKeptWhenEarlierTies | recommender.py:549-554 | when an earlier row scores at least as high as the query row, the query row is not ranked first and, for `k >= n - 1`, is among the recommendations |
| Recommend.TiedEarlierRowDisplacesQuery | recommender.py:549-554 | example: with two rows tied at the top and the second queried with `k = 1`, the first is dropped and the query row itself is the rank-1 recommendation |

## Left out

- Streamlit page setup, styling, HTML cards and `main()` (recommender.py:13-496, 568-733): presentation only.
- `load_image_base64`, `pd.read_csv` and the `FileNotFoundError` branch (recommender.py:9-11, 502, 521-523): file I/O; the model starts from rows already read.
- `fetch_poster` (recommender.py:525-538): a network call whose failures all collapse to a placeholder URL.
- `TfidfVectorizer` and `cosine_similarity` (recommender.py:516-518): floating-point library numerics. The similarity matrix is an input.
- `difflib.get_close_matches` and its 0.6 cutoff (recommender.py:543): library code that is not part of this model. Its answer is a parameter that, when present, is a catalog title.
- The catch-all `except Exception` message (recommender.py:565-566): with a square matrix and a matched title that is in the catalog, the modelled path raises nothing.
- `@st.cache_data` caching (recommender.py:499): framework plumbing.
- The `int(score * 100)` match percentage (recommender.py:661): float formatting for display.
- Recommend.GetRecommendations: scores are reals, so NaN scores, which would make Python's sort order ill-defined, are not modelled.
