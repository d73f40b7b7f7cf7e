# Boxdstats: director resolution and the director top list

Boxdstats takes a Letterboxd ratings export and ranks the user's
directors. The ranking is by average rating, over directors with at least
four rated films. This project models the two pieces that hold that logic
and proves properties of them:

- **The director resolver** (`src/lib/tmdb.ts`), module `Tmdb`.
  - It turns a `(title, year)` pair into one director name using the TMDB
    movie/TV metadata service.
  - A movie search is filtered to results whose title matches exactly,
    after trimming and lower-casing both sides; only the first match is
    kept.
  - The detail record of each kept id is read for a director. The flat
    `credits.crew` list is tried first; `aggregate_credits.crew` is the
    fallback.
  - When the movie path yields no name, the first TV search result is
    tried. When neither yields a name the answer is `"Unknown"`.
  - Every answer is memoised under `title + "-" + year`.
  - The service's three endpoints are the function-valued fields of
    `Tmdb.Service`.
  - The module-level cache is the `cache` field of the class
    `Tmdb.Resolver`. A `requests` field logs every request sent to the
    service, so statements about what is and is not looked up can be made.
  - The title comparison (`trim()` and `toLowerCase()`) is in module `Text`.
- **The `POST /api/analyse` handler** (`src/app/api/analyse/route.ts`),
  module `Analyse`.
  - Only rows with a title and a rating are kept.
  - Each kept row's director is resolved, and its rating is folded into a
    `{sum, count}` bucket per director.
  - The list keeps directors with at least four films, sorts them by
    average, best first, and keeps the first ten.

## How the model is organised

- **Lookup.** `Tmdb.Resolve` is the uncached lookup as a function: the
  name chosen plus the exact list of requests issued. It is stated for any
  `Namer` (id and kind to an optional name). The service's own namer is
  `Tmdb.NameOf`. `Tmdb.Memo` adds the cache.
- **Resolver class.**
  - `Tmdb.Resolver.GetDirector` and the methods under it carry the
    source's loops and cache writes.
  - Each is proved against those functions, on both the answer and the
    requests it appends.
- **Buckets.**
  - `Analyse.Tally` folds credits into buckets in processing order.
  - `Analyse.BucketFor` is an independent per-director reference for the
    same buckets.
  - `Analyse.Accumulate` is the loop that updates the buckets in place. It
    is proved equal to `Tally` of the credits it processed.
- **Enumeration order.**
  - The handler's buckets are enumerated in the order `Object.entries`
    reports, which is bucket-creation order; `Analyse.FirstSeen` gives
    that order.
  - The top-list lemmas hold for any enumeration order without
    duplicates.
- **Ratings** are exact `real` values. The `parseFloat` of the handler is
  a parameter `parseRating: string -> real`.

### Behaviour of the code worth noting

- A title resolves to exactly one name.
- TV is a fallback: it is tried only when the movie path finds no name,
  and only its first search result is fetched.
- A lookup that finds nothing is answered, and cached, as `"Unknown"`.
  `"Unknown"` then gets a bucket like any other name.
- The eligibility threshold is the literal `4`.
  - The comment beside it says "≥3 films".
  - The comment on `movieIds` says "up to 4 ids". The code keeps at most
    one (`slice(0, 1)`).
- The aggregate-credits test reads `jobs` as a list of strings. The
  service sends one record per job, so that test never matches a record.
  The model keeps the test as written as `Tmdb.IsAggregateDirectorAsWritten`
  and otherwise uses the intended test (see Findings).
- Failures are not caught. A failing `fetch`, a non-JSON reply, or a
  movie-search reply without `results` (or with a result lacking a string
  `title`) rejects the whole request. A TV-search reply without `results`
  counts as no hit, and a detail reply without credits counts as no
  director; the total oracles of the model cover those two. The model has
  no error path for the rejecting cases (see "Left out").

## Model

| member | source | states |
|---|---|---|
| Text.TrimKeepsCore | src/lib/tmdb.ts:18-19 | `trim()` keeps a contiguous middle part of the title and drops only white space on either side; what it keeps neither starts nor ends with white space |
| Text.LowerChar | src/lib/tmdb.ts:18-19 | a lower-cased character is never a capital, is white space exactly when the original was, and equals the original when that was not a capital |
| Text.Lower | src/lib/tmdb.ts:18-19 | `toLowerCase()` keeps the length, leaves no capital, and keeps white space exactly where it was |
| Text.TrimLower | src/lib/tmdb.ts:18-19 | trimming and lower-casing commute |
| Text.CaseIgnored | src/lib/tmdb.ts:18-19 | two titles that differ only in letter case match |
| Text.NormalizeIdempotent | src/lib/tmdb.ts:18-19 | normalising an already normalised title changes nothing |
| Text.LengthMismatchNeverSame | src/lib/tmdb.ts:18-19 | titles whose trimmed lengths differ never match, so "Aliens" never matches "Alien" |
| Text.PaddingIgnored | src/lib/tmdb.ts:18-19 | surrounding white space never affects a match, and a padded word matches its bare spelling |
| Tmdb.Filter | src/lib/tmdb.ts:18-19 | `filter` keeps only elements that satisfy the test; it is empty exactly when no element does; the first element it keeps is the first one that satisfies the test |
| Tmdb.FilterKeepsEvery | src/lib/tmdb.ts:18-19 | `filter` keeps every element that satisfies the test, as often as it occurs, and no other |
| Tmdb.ExactTitle | src/lib/tmdb.ts:18-19 | the exact-title filter keeps every result whose normalised title equals the query's, as often as it occurs, and no other; it is empty exactly when none matches; it starts with the first match |
| Tmdb.MovieIdsOf | src/lib/tmdb.ts:21-23 | `movieIds` gives at most one id, and never a falsy one |
| Tmdb.NoExactNoIds | src/lib/tmdb.ts:18-23 | no exact-title result means no ids |
| Tmdb.FirstExactGivesId | src/lib/tmdb.ts:18-23 | the only id returned is that of the first exact-title result, and none is returned when that id is falsy |
| Tmdb.SelectMovieIds | src/lib/tmdb.ts:21-23 | the loop over the first exact-title result, with its duplicate check, computes exactly `MovieIdsOf` |
| Tmdb.AlienGuard | src/lib/tmdb.ts:18-19 | for results titled "Alien³", "Aliens" and " ALIEN ", the query "Alien" takes the third result's id |
| Tmdb.Resolver.MovieIds | src/lib/tmdb.ts:10-42 | `movieIds` sends exactly one movie search and returns `MovieIdsOf` of its results |
| Tmdb.FindReturnsFirst | src/lib/tmdb.ts:50 | `find` returns the first element that satisfies its test |
| Tmdb.FindNone | src/lib/tmdb.ts:50-53 | `find` returns undefined exactly when no element satisfies its test |
| Tmdb.FlatCrewPreferred | src/lib/tmdb.ts:50-52 | the first flat-crew member with job "Director" gives the answer whenever its name is non-empty, whatever the aggregate credits hold |
| Tmdb.AggregateFallback | src/lib/tmdb.ts:52-55 | without a flat-crew name, the first aggregate member listed as "Director" (by a job in `jobs` or by its `job`) gives the answer; with no such member there is no answer |
| Tmdb.EpisodeDirectorMissed | src/lib/tmdb.ts:53 | as written, a member listed as "Director" by a job record is not found, while the intended test finds them (see Findings) |
| Tmdb.NoCreditsNoDirector | src/lib/tmdb.ts:50-55 | a record with neither credit shape names no director |
| Tmdb.Resolver.FetchDirector | src/lib/tmdb.ts:45-56 | `fetchDirector` sends exactly one detail request and returns the director that record names (corrected aggregate test, see Findings) |
| Tmdb.TryIds | src/lib/tmdb.ts:64-67 | the movie-id loop sends at most one detail request per id; when it finds nothing it has tried every id; a name it finds is non-empty |
| Tmdb.NothingFoundNoneNamed | src/lib/tmdb.ts:64-67 | when the loop finds nothing, no id resolved to a non-empty name |
| Tmdb.NoneNamedNothingFound | src/lib/tmdb.ts:64-67 | conversely, when no id resolves to a non-empty name the loop finds nothing |
| Tmdb.FoundIsFirstNamed | src/lib/tmdb.ts:64-67 | the name the loop finds belongs to the last id fetched, and no earlier id resolved to a name |
| Tmdb.FirstNamedIsFound | src/lib/tmdb.ts:64-67 | conversely, the first id that resolves to a name ends the loop right after its fetch, with that name |
| Tmdb.TraceIsDetailRequests | src/lib/tmdb.ts:64-65 | the loop's requests are detail requests of a prefix of the ids, in order |
| Tmdb.TraceStopsAtFirstName | src/lib/tmdb.ts:64-67 | the same, read on the requests: none yields a name, or only the last one does and its name is the answer |
| Tmdb.Resolver.FetchFirstNamed | src/lib/tmdb.ts:64-67 | the imperative loop returns the name `TryIds` finds and sends exactly its requests |
| Tmdb.TvAttempt | src/lib/tmdb.ts:70-76 | the TV fallback starts with one TV search, and any name it finds is non-empty |
| Tmdb.Resolver.TryTv | src/lib/tmdb.ts:70-76 | the imperative TV fallback returns `TvAttempt`'s name and sends exactly its requests |
| Tmdb.Resolve | src/lib/tmdb.ts:63-79 | an uncached lookup always answers a non-empty name, and its first request is the movie search |
| Tmdb.FirstYieldWins | src/lib/tmdb.ts:64-79 | the answer is "Unknown" when no detail request yielded a name; otherwise it is the name of the last request, which is the only one that yielded a name |
| Tmdb.TvAttemptYields | src/lib/tmdb.ts:70-78 | after a movie path that yielded nothing, the TV attempt's last request names the answer, or nothing has yielded a name |
| Tmdb.MovieNameSkipsTv | src/lib/tmdb.ts:64-67 | a first exact movie match with a director is answered with that director after exactly one search and one detail request, with no TV request |
| Tmdb.TvFallbackUsesFirstResult | src/lib/tmdb.ts:64-79 | a TV detail request is sent only after a movie path that found no name; it is for the first TV result only and is the last request; after such a movie path the answer is that result's director or "Unknown" |
| Tmdb.CacheKeyInjective | src/lib/tmdb.ts:60 | different (title, year) pairs never share a cache key while years contain no dash |
| Tmdb.KeyEndsWithYear | src/lib/tmdb.ts:60 | a key is a dash followed by the year at its end |
| Tmdb.Resolver.constructor | src/lib/tmdb.ts:7 | the cache starts empty |
| Tmdb.Resolver.GetDirector | src/lib/tmdb.ts:59-80 | the answer is non-empty and is the memoised lookup; the cache only gains (or re-stores) this key's entry; a hit sends no request; a miss sends exactly the lookup's requests |
| Tmdb.Resolver.Lookup | src/lib/tmdb.ts:63-79 | the method's movie path, TV fallback and "Unknown" give `Resolve`'s answer and send exactly its requests |
| Tmdb.AskTwice | src/lib/tmdb.ts:59-61 | asking twice for one title and year gives the same non-empty answer even when the service has changed in between, and the second call sends nothing |
| Analyse.KeepRatedCounts | src/app/api/analyse/route.ts:13-14 | the row filter keeps every row with a title and a rating as often as it occurs, and nothing else |
| Analyse.Tally | src/app/api/analyse/route.ts:24-28 | every bucket that exists counts at least one film |
| Analyse.BucketFor | src/app/api/analyse/route.ts:20-30 | a director's reference bucket has a non-negative count and is zero when the count is zero |
| Analyse.TallyPerDirector | src/app/api/analyse/route.ts:20-30 | each credit lands in its own director's bucket only: a director has a bucket exactly when some credit names them, and it holds the sum and number of their ratings |
| Analyse.BucketForAppend | src/app/api/analyse/route.ts:20-30 | the buckets of two batches of rows add up |
| Analyse.BucketForPermutation | src/app/api/analyse/route.ts:20-30 | a director's bucket does not depend on the order of the rows |
| Analyse.TallyOrderIndependent | src/app/api/analyse/route.ts:20-30 | the buckets do not depend on the order in which the concurrent fan-out finishes the rows |
| Analyse.TallyTotal | src/app/api/analyse/route.ts:20-30 | the counts of all buckets add up to the number of processed rows |
| Analyse.InheritedNameIsLost | src/app/api/analyse/route.ts:18-28 | as written, a row whose director is an inherited property name such as "constructor" gets no bucket, while `Tally` counts it (see Findings) |
| Analyse.FirstSeen | src/app/api/analyse/route.ts:24-25 | the creation order of the buckets lists every director with a bucket once, and no one else |
| Analyse.Record | src/app/api/analyse/route.ts:24-28 | one row's in-place update is `AddCredit`, and a director joins the key order only when their bucket is new |
| Analyse.DirectorOfRow | src/app/api/analyse/route.ts:22 | a row's director is the memoised lookup of its title and year; the cache keeps every entry and ends up holding the answer under the row's key |
| Analyse.Accumulate | src/app/api/analyse/route.ts:20-30 | the loop's buckets are `Tally` of the processed credits, its key order is their creation order, each row's director is the one cached for its key, and the cache only grows (own-property buckets, see Findings) |
| Analyse.BucketForWithin | src/app/api/analyse/route.ts:27-28 | ratings all within [lo, hi] keep a director's sum between `count` copies of lo and of hi |
| Analyse.AvgWithinRatings | src/app/api/analyse/route.ts:35 | a list line's `avg` lies within the range of the ratings it was computed from |
| Analyse.ToplistWithinRatings | src/app/api/analyse/route.ts:33-37 | every line of the top list shows an average within the range of the ratings fed to it |
| Analyse.Candidates | src/app/api/analyse/route.ts:33-35 | the filter and map give one entry per eligible key and nothing else, each describing its bucket, with no director twice when the keys are distinct |
| Analyse.Insert | src/app/api/analyse/route.ts:36 | inserting into a sorted list keeps it sorted and loses nothing |
| Analyse.SortByAvg | src/app/api/analyse/route.ts:36 | the sort gives non-increasing averages and a permutation of its input |
| Analyse.Rank | src/app/api/analyse/route.ts:36-37 | sort then `slice(0, 10)` gives exactly the smaller of ten and the input's length of sorted entries, all taken from the input |
| Analyse.RankIsTopN | src/app/api/analyse/route.ts:36-37 | nothing cut from the list averages more than anything kept, and with at most ten entries nothing is cut |
| Analyse.ReorderedStaysDistinct | src/app/api/analyse/route.ts:33-36 | sorting entries that describe their buckets keeps their directors distinct |
| Analyse.CandidatesCount | src/app/api/analyse/route.ts:33-35 | over distinct keys there are as many entries as eligible directors |
| Analyse.ToplistLength | src/app/api/analyse/route.ts:33-37 | the top list has one entry per eligible director, cut at ten |
| Analyse.ToplistShape | src/app/api/analyse/route.ts:33-37 | the top list has exactly min(eligible directors, 10) entries, non-increasing averages, no director twice, and each entry is an eligible director's `sum / count` and `count` |
| Analyse.ToplistIsTopN | src/app/api/analyse/route.ts:33-37 | an eligible director left out averages no more than any listed one |
| Analyse.ToplistKeepsAllWhenFew | src/app/api/analyse/route.ts:33-37 | with at most ten eligible directors, every one of them is listed |
| Analyse.OneDirectorFourFilms | src/app/api/analyse/route.ts:20-37 | four films by one director rated 4.5, 4.0, 3.0 and 2.5 give the single entry (avg 3.5, 4 films) |
| Analyse.Post | src/app/api/analyse/route.ts:13-37 | the handler's top list: every property above about the buckets of the kept rows under their cached directors (order-free counts totalling the kept rows, exactly min(eligible, 10) entries, shape, top-N, all listed when few; own-property buckets and the corrected aggregate test, see Findings) |

## Left out

- HTTP, `fetch`, `.json()`, URL building and the API key are left out. The three endpoints are the oracle functions of `Tmdb.Service`. Every call to them is logged in `Resolver.requests`.
- The `p-limit` limiter and the `Promise.all` fan-out are concurrency. The model is a sequential loop over the rows. `Analyse.TallyOrderIndependent` shows that the completion order cannot change the buckets. Concurrent calls racing on the same cache key are not modelled.
- Thrown errors are not modelled: a failing request, a non-JSON reply, or a movie-search reply without `results` or with a result lacking a string `title`. In the source each rejects the whole request. A TV-search reply without `results` and a detail reply without credits are not errors in the source (optional chaining reads them as no hit and no director), and the total oracles cover them.
- `Papa.parse` is left out; rows arrive already parsed. `NextRequest` and `NextResponse` plumbing is left out too.
- `parseFloat` and floating point are left out: NaN, rounding in `sum` and in `avg`. Ratings are exact reals given by the `parseRating` parameter.
- Analyse.SortByAvg: states the sorted order and the permutation only. The order of directors with equal averages depends on the engine's sort and is not stated.
- Analyse.Accumulate: the key order is the bucket creation order. `Object.entries` puts keys that look like array indices (for example a director named "1984") first, in numeric order. This does not matter for the top-list lemmas, which hold for every duplicate-free key order.
- Analyse.Accumulate: names each row's director through the answer cached under its key at the end. The requests sent while accumulating are not stated.
- Analyse.Post: does not restate the requests sent. They are those of `GetDirector` for each kept row in turn.
- Tmdb.FirstYieldWins: states that no yielding request means "Unknown", and that otherwise the answer is the name the last request yielded. It does not state that the answer differs from "Unknown" in that case, because a director may really be named "Unknown".
- Text.LowerChar: lower-cases only the ASCII and Latin-1 capitals. Full Unicode case mapping (Greek, Cyrillic, special casings) is not modelled.
- Tmdb.MovieIdsOf: an id is modelled as an integer, and 0 stands for every falsy id.
- Tmdb.AggregateFallback: absent optional fields are `None`, and any present array or object counts as truthy, as in JavaScript. A `jobs` element is a job record or a bare string; other JSON values there are not modelled.
- The release-date fallback that is commented out in `movieIds` is not modelled.
- The React page (`src/app/page.tsx`) and the layout (`src/app/layout.tsx`) are not part of this model.

## Findings

| source | as written | input that shows it | evidently intended | confidence | as-written member | corrected member |
|---|---|---|---|---|---|---|
| src/app/api/analyse/route.ts:18-28 | `byDirector` is a plain object. For a director named like an `Object.prototype` property (`constructor`, `toString`, `__proto__`, …) the test `!byDirector[director]` reads the inherited value, which is truthy. So no own bucket is created, and the increments go to the inherited value. | one kept row whose director resolves to "constructor" | every processed row is counted in its director's bucket | not executed; follows from ECMAScript property lookup | Analyse.InheritedNameIsLost | Analyse.TallyTotal |
| src/lib/tmdb.ts:53 | The aggregate test calls `includes("Director")` on `jobs`. The service sends `jobs` as one record per job, each with a `job` field, and `includes` compares records with the string by SameValueZero, which never equates a record with a string. So a member listed as director only through `jobs` is never found. | a TV series whose only director entry is a crew member with `jobs = [{job: "Director"}]` and no `job` field | a member whose job records include "Director" qualifies | not executed; follows from the record shape of the `jobs` elements | Tmdb.EpisodeDirectorMissed | Tmdb.AggregateFallback |
