# Mashup backend: recommendation engine and Spotify id cleaning, in Dafny

This project models the two algorithmic parts of the mashup backend.

- **The mix recommendation engine** (`services/recommendationEngine.js`). A catalog row becomes a feature record. Each candidate is scored against a base track. The score is a weighted sum of these terms:
  - squared audio-feature differences, with neutral defaults for missing values;
  - a tonal key/mode compatibility table;
  - a popularity penalty;
  - a same-artist penalty.

  The candidates are then returned sorted by ascending score, lower being better. The sort is stable.
- **The Spotify id helpers** (`services/spotifyImages.service.js`):
  - reducing a raw id (a bare id, an `open.spotify.com` URL or a `spotify:` URI) to a 22-character base62 id;
  - turning the `ids` request parameter into a duplicate-free list of such ids;
  - cutting a list into batches.

Files:

- `wrappers.dfy`: `Option`. `None` stands for `null`, `undefined` or `NaN`.
- `recommendation_engine.dfy`, module `RecommendationEngine`: rows, feature records, `nz`, `normalize`, tonality, popularity and the similarity score.
- `ranking.dfy`, module `Ranking`: scoring every candidate and the in-place stable sort. The sort is a `method` over an `array`, proved against the functional stable sort `SortByScore`.
- `spotify_ids.dfy`, module `SpotifyIds`: id normalisation, the clean id list and `chunk`.

Modelling choices:

- JavaScript numbers are exact `real`s. Only `+ - * /`, `abs`, `min`, `max` and squaring occur.
- Keys and modes are `Option<int>`.
- An artist id is `Option<string>`. It is truthy when present and non-empty.
- `rankCandidatesForTrack` builds an array with `map` and sorts it in place. Its model fills a Dafny `array` in a loop and runs a stable insertion sort on it.
- `extractPopularityFromRow`, `buildCleanIdList` and `chunk` loop in the source. They are `method`s with loop invariants.

## Model

| member | source | states |
|---|---|---|
| RecommendationEngine.Nz | services/recommendationEngine.js:21-23 | A present value is returned as is; a missing one is replaced by the fallback. |
| RecommendationEngine.Normalize | services/recommendationEngine.js:28-35 | Missing value or `max == min` gives the fallback; for `min < max` the result lies in [0, 1]; for `min > max` clamping makes the result exactly 1. |
| RecommendationEngine.NormalizeInverse | services/recommendationEngine.js:33-34 | Inside [min, max] the normalised value maps back to the input through `min + r * (max - min)`. |
| RecommendationEngine.NormalizeMonotone | services/recommendationEngine.js:33-34 | Normalisation is monotone; values at or below `min` give 0, at or above `max` give 1. |
| RecommendationEngine.KeyDistance | services/recommendationEngine.js:45-52 | None iff either key is missing; for keys in 0..11 the distance is in [0, 6] and is 0 iff the keys are equal. |
| RecommendationEngine.KeyDistanceSymmetric | services/recommendationEngine.js:45-52 | The distance between two keys does not depend on which is the base. |
| RecommendationEngine.KeyDistanceSamples | services/recommendationEngine.js:45-52 | keyDistance(0,11)=1, keyDistance(0,6)=6; out-of-range keys are not reduced modulo 12, so keyDistance(-1,11)=0 and keyDistance(0,13)=-1. |
| RecommendationEngine.KeyDistanceIsRingDistance | services/recommendationEngine.js:49-50 | For keys in 0..11 the distance equals the shorter way round the ring of 12, computed with modular differences. |
| RecommendationEngine.KeyCompatibilityScore | services/recommendationEngine.js:58-83 | The result is one of {0, 0.3, 0.5, 0.7, 0.8, 1.0, 1.5}; an unknown key gives 1.0; 0 iff distance 0 and same mode; 0.3 iff distance 0 and different mode. |
| RecommendationEngine.KeyCompatibilityTable | services/recommendationEngine.js:69-82 | For keys in 0..11: distance 7 never occurs; distance 1/2 with the same mode gives 0.5/0.7; distance 5 gives 0.8 or 1.0 by mode; distance 1 or 2 across a mode change and distances 3, 4, 6 give 1.5. |
| RecommendationEngine.KeyCompatibilitySymmetric | services/recommendationEngine.js:58-83 | Swapping base and candidate does not change the tonal score. |
| RecommendationEngine.FirstPresent | services/recommendationEngine.js:104-109 | None iff every entry is missing; otherwise the result is an entry preceded only by missing ones. |
| RecommendationEngine.ExtractPopularityFromRow | services/recommendationEngine.js:97-110 | The loop returns the first present popularity column: `track_popularity` if present, else `track_spotify_popularity`; no averaging. |
| RecommendationEngine.MapDbRowToFeatures | services/recommendationEngine.js:131-148 | Every feature is the row's column of the same name; popularity is the first present popularity column. |
| RecommendationEngine.TempoTerm | services/recommendationEngine.js:166-187 | The tempo term is non-negative, 0 when either tempo is missing and 0 when both tempos are equal. |
| RecommendationEngine.DefaultedDiff | services/recommendationEngine.js:191-201 | A missing candidate value takes the base's value, so its difference is 0; a missing base value takes the neutral value; otherwise it is the plain difference. |
| RecommendationEngine.PopularityPenalty | services/recommendationEngine.js:220-222 | The penalty lies in [0, 1]: 0.5 for unknown popularity, 0 at 100 or more, 1 at 0 or less, and exactly 1 - p/100 for a popularity p in [0, 100]. |
| RecommendationEngine.GetPopularity | services/recommendationEngine.js:115-121 | A missing popularity stays missing and a present one is returned unchanged. |
| RecommendationEngine.SameArtistPenalty | services/recommendationEngine.js:225-229 | 0.3 iff both artist ids are truthy and equal, otherwise 0. |
| RecommendationEngine.ComputeSimilarityScore | services/recommendationEngine.js:164-254 | The score is non-negative and at least the weighted tonal, popularity and same-artist part. |
| RecommendationEngine.MissingCandidateFeatures | services/recommendationEngine.js:176-214 | A candidate lacking tempo, energy, danceability, valence and loudness is scored on key, popularity and artist alone. |
| RecommendationEngine.BaseWithoutTempo | services/recommendationEngine.js:176-187 | A base without tempo removes the tempo term for every candidate. |
| RecommendationEngine.PopularityAndArtistContributions | services/recommendationEngine.js:220-251 | Unknown popularity contributes exactly 0.25; the same-artist penalty contributes exactly 0.21 when both ids are truthy and equal, otherwise 0. |
| RecommendationEngine.SelfScore | services/recommendationEngine.js:164-254 | A track scored against itself keeps only popularity, same-artist, and the unknown-key penalty of 2.2. |
| RecommendationEngine.CloseCandidateScoresLower | services/recommendationEngine.js:164-254 | Against base {tempo 120, energy 0.8, key 0, mode 1}, candidate {tempo 122, energy 0.8, key 0, mode 1} scores strictly below {tempo 160, energy 0.1, key 6, mode 0}, so it ranks first. |
| Ranking.Insert | services/recommendationEngine.js:284 | One insertion step of the stable sort adds exactly one entry. |
| Ranking.InsertPermutes | services/recommendationEngine.js:284 | Insertion adds exactly the inserted entry to the multiset of entries. |
| Ranking.InsertSorted | services/recommendationEngine.js:284 | Insertion into a sequence sorted by score keeps it sorted. |
| Ranking.SortByScore | services/recommendationEngine.js:284 | The reference stable sort keeps the length, is sorted by ascending score and is a permutation of its input. |
| Ranking.InsertWithScore | services/recommendationEngine.js:284 | The inserted entry goes after every entry with the same score. |
| Ranking.SortByScoreStable | services/recommendationEngine.js:284 | Stability: for every score, the entries with that score keep their input order. |
| Ranking.InsertAt | services/recommendationEngine.js:284 | Where the shifting loop stops is exactly where Insert places the entry. |
| Ranking.InsertIntoPrefix | services/recommendationEngine.js:284 | One pass of the in-place insertion sort turns `a[..i+1]` into Insert of the old prefix and the old `a[i]`, and leaves the rest of the array alone. |
| Ranking.SortInPlace | services/recommendationEngine.js:284 | The in-place sort leaves the array equal to SortByScore of its old contents. |
| Ranking.RankCandidatesForTrack | services/recommendationEngine.js:268-287 | Every candidate is returned with its score; nothing is dropped. The result has the same length and is sorted ascending. It is a permutation of the scored input, ties keep input order, and every score is non-negative. |
| Ranking.Take | services/mix.service.js:126-127 | `slice(0, n)` has length min(n, length) and is a prefix; on a sorted ranking it is sorted and holds the n best scores. |
| Ranking.Recommend | services/mix.service.js:113-127 | No candidates give no recommendations; otherwise the result is the first 10 of the stable ranking: min(10, candidates) entries, sorted, each one a scored candidate, none scoring above any entry dropped. |
| Ranking.LowerScoreRanksFirst | services/recommendationEngine.js:283-285 | Of two candidates, the one with the strictly lower score is ranked first in either input order. |
| SpotifyIds.TrimStart | services/spotifyImages.service.js:12 | The result is a suffix of the input that does not start with whitespace, and everything dropped is whitespace. |
| SpotifyIds.TrimEnd | services/spotifyImages.service.js:12 | The result is a prefix of the input that does not end with whitespace, and everything dropped is whitespace. |
| SpotifyIds.TrimStrips | services/spotifyImages.service.js:12 | `trim` keeps a slice that starts and ends with non-whitespace, with only whitespace before and after it. |
| SpotifyIds.BeforeFirst | services/spotifyImages.service.js:16 | `split(c)[0]` is the prefix up to the first `c`, contains no `c`, and is followed by `c` when shorter than the input. |
| SpotifyIds.AfterLast | services/spotifyImages.service.js:21 | `split(c).pop()` is the suffix after the last `c`, contains no `c`, and is preceded by `c` when shorter than the input. |
| SpotifyIds.StripQuery | services/spotifyImages.service.js:15-17 | The result is a prefix of the id with no '?', cut exactly at the first '?'; an id without '?' is unchanged. |
| SpotifyIds.StripPath | services/spotifyImages.service.js:20-22 | The result is a suffix of the id with no '/', cut exactly after the last '/'; an id without '/' is unchanged. |
| SpotifyIds.StripUriPrefix | services/spotifyImages.service.js:25-28 | The result is a suffix of the id with no ':', cut exactly after the last ':'; an id without ':' is unchanged. |
| SpotifyIds.QueryCut | services/spotifyImages.service.js:15-17 | Everything from the first '?' on is dropped: `<path>?<query>` with no '?' in the path gives the path. |
| SpotifyIds.PathCut | services/spotifyImages.service.js:20-22 | Everything up to the last '/' is dropped: `<host>/<id>` with no '/' in the id gives the id. |
| SpotifyIds.UriCut | services/spotifyImages.service.js:25-28 | Everything up to the last ':' is dropped: `<host>:<id>` with no ':' in the id gives the id. |
| SpotifyIds.NormalizeRawId | services/spotifyImages.service.js:10-35 | A missing or empty input gives None; any id returned has exactly 22 ASCII letters or digits. |
| SpotifyIds.NormalizeBareId | services/spotifyImages.service.js:10-35 | A valid bare id comes back unchanged. |
| SpotifyIds.NormalizePaddedId | services/spotifyImages.service.js:10-35 | A valid id with whitespace on either side, such as a piece of `"a, b"` after the comma split, reduces to the bare id. |
| SpotifyIds.TrimPadded | services/spotifyImages.service.js:12 | `trim` removes exactly the whitespace padding around a text that starts and ends with a non-blank. |
| SpotifyIds.NormalizeIdempotent | services/spotifyImages.service.js:10-35 | Normalising a normalised id gives the same id. |
| SpotifyIds.NormalizeSlashPath | services/spotifyImages.service.js:12-22 | Any `<origin><kind>/<id>?<query>` reduces to `<id>`, whatever the query, when the origin is non-empty and starts with a non-blank and there is no '?' before the id: the query is cut first, then everything up to the last '/'. |
| SpotifyIds.NormalizeOpenUrl | services/spotifyImages.service.js:12-22 | `https://open.spotify.com/<kind>/<id>?<query>` reduces to `<id>` for any query, trailing blanks included, when the kind has no '?'. |
| SpotifyIds.NormalizeBarePath | services/spotifyImages.service.js:19-22 | Any `<origin><kind>/<id>` reduces to `<id>` when the origin is non-empty and starts with a non-blank and there is no '?' in it: nothing is cut as a query, then everything up to the last '/' goes. |
| SpotifyIds.NormalizeOpenUrlWithoutQuery | services/spotifyImages.service.js:19-22 | `https://open.spotify.com/<kind>/<id>` without a query string reduces to `<id>`. |
| SpotifyIds.NormalizeColonPath | services/spotifyImages.service.js:24-28 | Any `<scheme><kind>:<id>` reduces to `<id>` when the scheme is non-empty and starts with a non-blank and there is no '?' or '/' before the id: everything up to the last ':' is dropped. |
| SpotifyIds.NormalizeUri | services/spotifyImages.service.js:24-28 | `spotify:<kind>:<id>` reduces to `<id>` when the kind has no '?' or '/'. |
| SpotifyIds.SplitOn | services/spotifyImages.service.js:45 | `split(c)` has at least one piece, no piece contains `c`, and joining the pieces with `c` gives back the input. |
| SpotifyIds.RawList | services/spotifyImages.service.js:41-45 | A missing parameter gives no raw values and an array is taken as it is; a non-empty string gives at least one value, each present and free of commas, and they join back with commas into the string. |
| SpotifyIds.NormalizeAll | services/spotifyImages.service.js:48-51 | Each raw value is normalised position by position, and every id obtained is valid. |
| SpotifyIds.Present | services/spotifyImages.service.js:50 | An id is kept iff it occurs as a present (non-null) normalised value. |
| SpotifyIds.PresentKeepsFirstOrder | services/spotifyImages.service.js:48-51 | The filter keeps input order: of two kept ids, the one that first occurs earlier in the output is the one whose first present occurrence comes earlier in the input. |
| SpotifyIds.Distinct | services/spotifyImages.service.js:54 | `[...new Set(s)]` has no duplicates and the same members as `s`. |
| SpotifyIds.DistinctKeepsFirstOrder | services/spotifyImages.service.js:54 | The distinct ids appear in the order of their first occurrence in the input. |
| SpotifyIds.CleanIdsInFirstValidOrder | services/spotifyImages.service.js:47-55 | After filtering and de-duplication, the ids are in the order of their first valid occurrence among the normalised raw values. |
| SpotifyIds.BuildCleanIdList | services/spotifyImages.service.js:40-55 | A missing parameter gives []. The loop yields the distinct present normalised ids. The result has no duplicates, every element is valid, and an id is in it iff some raw value normalises to it. Ids are listed in the order of their first valid occurrence in the raw input. |
| SpotifyIds.CleanIdListIdempotent | services/spotifyImages.service.js:40-55 | A clean id list passed back as an array parameter is returned unchanged. |
| SpotifyIds.BatchCountCeil | services/spotifyImages.service.js:62 | The number of batches of `size` for `len` elements is ⌈len / size⌉. |
| SpotifyIds.Chunk | services/spotifyImages.service.js:60-66 | The batches concatenate back to the input. Every batch is non-empty and at most `size` long, and all but the last have exactly `size` elements. There are ⌈length / size⌉ of them. |

## Left out

- The asynchronous image fetchers `getArtistImages`, `getAlbumImages` and `getTrackImages`, the Spotify client and its token cache, the SQL services, controllers, routes and server set-up are left out. They are network, database and HTTP glue.
- IEEE-754 arithmetic: `NaN` propagation, `Number()` coercion of strings, `Math.pow` and rounding. Numbers are exact reals, and a `NaN` field is treated like a missing one.
- `nz` in the source replaces only `null`/`undefined`, so a `NaN` energy, danceability, valence or loudness would make the score `NaN`. In the model such a value is missing and takes its default.
- A `NaN` key is missing in the model, so `KeyCompatibilityScore` gives 1.0. In the source `keyDistance` returns `NaN` rather than `null`, every comparison with it fails, and the score falls through to 1.5 (services/recommendationEngine.js:82).
- A `NaN` mode is missing in the model, so two such modes count as the same mode. In the source `NaN === NaN` is false, so they never match; `null` or `undefined` modes match as in the model.
- RecommendationEngine.GetPopularity: the source's `NaN` and `Number()` checks are not modelled, so it is the identity on the popularity feature.
- `normalizeRawId` and `buildCleanIdList` coerce non-string values with `String(...)`. The model takes strings, or missing values, only.
- A numeric `artist_id` is truthy when non-zero. The model has string ids only.
- SpotifyIds.TrimStrips: the model's `Trim` removes the ASCII blanks and the no-break, byte-order-mark, line- and paragraph-separator characters only. The other Unicode space separators are not modelled.
- RecommendationEngine.TempoTerm: `x * x == 0` iff `x == 0` is not stated. The solver's nonlinear real arithmetic does not prove it. So equal tempos are shown to give 0, but not the converse.
- RecommendationEngine.ComputeSimilarityScore: the weighted sum is stated only as a lower bound by its tonal, popularity and same-artist part. The exact decompositions are the lemmas `MissingCandidateFeatures`, `BaseWithoutTempo` and `SelfScore`.
- Ranking.SortInPlace: the engine relies on `Array.prototype.sort`, which is stable. The model uses a stable insertion sort. Only the resulting order is modelled, not V8's algorithm or its comparator calls.
- SpotifyIds.Chunk: on a non-empty array, a `size` of 0 or less never terminates in the source (an empty array gives `[]` for any size), so the model requires `size > 0`.
- SpotifyIds.NormalizeColonPath, SpotifyIds.NormalizeUri: the kind is required to contain no '/', although such a kind would also reduce to the id.
