/** The `POST /api/analyse` handler: keeps the rated rows of a parsed
    ratings export, resolves each row's director, folds the ratings into
    one `{sum, count}` bucket per director, and ranks the directors with
    at least four rated films by average rating, best ten first. */
module Analyse {
  import opened Tmdb

  /** A parsed row of the ratings export; only these columns are read. */
  datatype Row = Row(name: string, year: string, rating: string)

  /** A director's running total and number of rated films. */
  datatype Bucket = Bucket(sum: real, count: int)

  /** A rating attributed to a director. */
  datatype Credit = Credit(director: string, rating: real)

  /** One line of the top list. */
  datatype Entry = Entry(director: string, avg: real, films: int)

  /** The eligibility threshold, a literal in the handler. */
  const MinFilms := 4

  /** The length of the top list. */
  const TopSize := 10

  // ---------------------------------------------------------------------
  // Rows
  // ---------------------------------------------------------------------

  /** A row with both a title and a rating (both strings are truthy). */
  predicate Rated(r: Row)
  {
    r.name != "" && r.rating != ""
  }

  /** The row filter: the rated rows, in their original order. */
  function KeepRated(rows: seq<Row>): (kept: seq<Row>)
  {
    Filter(rows, Rated)
  }

  /** The filter keeps every rated row as often as it occurs, and nothing
      else. */
  lemma {:induction false} KeepRatedCounts(rows: seq<Row>)
    ensures forall r :: multiset(KeepRated(rows))[r] == if Rated(r) then multiset(rows)[r] else 0
  {
    if rows != [] {
      KeepRatedCounts(rows[1..]);
      assert rows == [rows[0]] + rows[1..];
    }
  }

  // ---------------------------------------------------------------------
  // Buckets
  // ---------------------------------------------------------------------

  /** One step of the accumulation: the credit's bucket is created at
      zero when missing, then gets the rating added and its count
      raised by one. */
  function AddCredit(byDirector: map<string, Bucket>, c: Credit): map<string, Bucket>
  {
    var b := if c.director in byDirector then byDirector[c.director] else Bucket(0.0, 0);
    byDirector[c.director := Bucket(b.sum + c.rating, b.count + 1)]
  }

  /** The buckets after folding the credits in order. Every bucket holds
      at least one credit, since a bucket is only ever created together
      with its first increment. */
  function Tally(credits: seq<Credit>): (byDirector: map<string, Bucket>)
    ensures forall d :: d in byDirector ==> byDirector[d].count >= 1
  {
    if credits == [] then map[]
    else AddCredit(Tally(credits[..|credits| - 1]), credits[|credits| - 1])
  }

  /** A reference definition of one director's bucket: the sum and the
      number of that director's ratings. */
  function BucketFor(credits: seq<Credit>, d: string): (b: Bucket)
    ensures b.count >= 0 && (b.count == 0 ==> b.sum == 0.0)
  {
    if credits == [] then Bucket(0.0, 0)
    else
      var b := BucketFor(credits[..|credits| - 1], d);
      var c := credits[|credits| - 1];
      if c.director == d then Bucket(b.sum + c.rating, b.count + 1) else b
  }

  /** Each credit lands in exactly one bucket, its director's: a director
      has a bucket exactly when some credit names them, and the bucket
      holds the sum and number of their ratings. */
  lemma {:induction false} TallyPerDirector(credits: seq<Credit>, d: string)
    ensures d in Tally(credits) <==> BucketFor(credits, d).count > 0
    ensures d in Tally(credits) ==> Tally(credits)[d] == BucketFor(credits, d)
  {
    if credits != [] {
      TallyPerDirector(credits[..|credits| - 1], d);
    }
  }

  function Combine(a: Bucket, b: Bucket): Bucket
  {
    Bucket(a.sum + b.sum, a.count + b.count)
  }

  /** Buckets of concatenated credit lists add up. */
  lemma {:induction false} BucketForAppend(s: seq<Credit>, t: seq<Credit>, d: string)
    ensures BucketFor(s + t, d) == Combine(BucketFor(s, d), BucketFor(t, d))
  {
    if t == [] {
      assert s + t == s;
    } else {
      var init, c := t[..|t| - 1], t[|t| - 1];
      var st := s + t;
      assert st[..|st| - 1] == s + init;
      assert st[|st| - 1] == c;
      var b := BucketFor(s + init, d);
      assert BucketFor(st, d) == if c.director == d then Bucket(b.sum + c.rating, b.count + 1) else b;
      BucketForAppend(s, init, d);
    }
  }

  /** Taking one credit out of the middle of a list takes it out of its
      director's bucket. */
  lemma BucketForRemove(s: seq<Credit>, j: nat, d: string)
    requires j < |s|
    ensures BucketFor(s, d) == Combine(BucketFor(s[..j] + s[j + 1..], d), BucketFor([s[j]], d))
  {
    assert s == s[..j] + [s[j]] + s[j + 1..];
    BucketForAppend(s[..j] + [s[j]], s[j + 1..], d);
    BucketForAppend(s[..j], [s[j]], d);
    BucketForAppend(s[..j], s[j + 1..], d);
  }

  /** A director's bucket depends only on which credits there are, not
      on their order. */
  lemma {:induction false} BucketForPermutation(a: seq<Credit>, b: seq<Credit>, d: string)
    requires multiset(a) == multiset(b)
    ensures BucketFor(a, d) == BucketFor(b, d)
    decreases |a|
  {
    if a != [] {
      var x := a[|a| - 1];
      assert x in multiset(b);
      var j :| 0 <= j < |b| && b[j] == x;
      var b' := b[..j] + b[j + 1..];
      assert b == b[..j] + [x] + b[j + 1..];
      assert a == a[..|a| - 1] + [x];
      assert multiset(b') == multiset(b) - multiset{x};
      BucketForPermutation(a[..|a| - 1], b', d);
      BucketForRemove(b, j, d);
      BucketForAppend(a[..|a| - 1], [x], d);
    }
  }

  /** With exact arithmetic the buckets do not depend on the order in
      which the rows were processed. */
  lemma TallyOrderIndependent(a: seq<Credit>, b: seq<Credit>)
    requires multiset(a) == multiset(b)
    ensures Tally(a) == Tally(b)
  {
    forall d
      ensures d in Tally(a) <==> d in Tally(b)
      ensures d in Tally(a) ==> Tally(a)[d] == Tally(b)[d]
    {
      TallyPerDirector(a, d);
      TallyPerDirector(b, d);
      BucketForPermutation(a, b, d);
    }
  }

  /** The total of a map's counts, its keys taken in any order. */
  ghost function CountTotal(byDirector: map<string, Bucket>): int
    decreases |byDirector.Keys|
  {
    if byDirector == map[] then 0
    else
      var d :| d in byDirector;
      byDirector[d].count + CountTotal(byDirector - {d})
  }

  /** The total does not depend on which key is taken first. */
  lemma {:induction false} CountTotalRemove(byDirector: map<string, Bucket>, d: string)
    requires d in byDirector
    ensures CountTotal(byDirector) == byDirector[d].count + CountTotal(byDirector - {d})
    decreases |byDirector.Keys|
  {
    var e :| e in byDirector && CountTotal(byDirector) == byDirector[e].count + CountTotal(byDirector - {e});
    if e != d {
      CountTotalRemove(byDirector - {e}, d);
      CountTotalRemove(byDirector - {d}, e);
      assert byDirector - {e} - {d} == byDirector - {d} - {e};
    }
  }

  /** The counts add up to the number of processed rows. */
  lemma {:induction false} TallyTotal(credits: seq<Credit>)
    ensures CountTotal(Tally(credits)) == |credits|
  {
    if credits != [] {
      var init, c := credits[..|credits| - 1], credits[|credits| - 1];
      var before := Tally(init);
      var after := Tally(credits);
      TallyTotal(init);
      CountTotalRemove(after, c.director);
      if c.director in before {
        CountTotalRemove(before, c.director);
        assert after - {c.director} == before - {c.director};
      } else {
        assert after - {c.director} == before;
      }
    }
  }

  /** The property names a plain object `{}` inherits from
      `Object.prototype`; reading any of them gives a truthy value. */
  const InheritedNames: set<string> := {
    "constructor", "hasOwnProperty", "isPrototypeOf", "propertyIsEnumerable",
    "toString", "toLocaleString", "valueOf", "__proto__",
    "__defineGetter__", "__defineSetter__", "__lookupGetter__", "__lookupSetter__"}

  /** The accumulation step as the handler writes it on a plain object.
      For an inherited name the `!byDirector[director]` test sees the
      inherited value, so no own bucket is created, and the two
      increments land on that inherited value: the rating never reaches
      the entries `Object.entries` reports. */
  function AddCreditAsWritten(byDirector: map<string, Bucket>, c: Credit): map<string, Bucket>
  {
    if c.director in InheritedNames then byDirector else AddCredit(byDirector, c)
  }

  function TallyAsWritten(credits: seq<Credit>): map<string, Bucket>
  {
    if credits == [] then map[]
    else AddCreditAsWritten(TallyAsWritten(credits[..|credits| - 1]), credits[|credits| - 1])
  }

  /** A film whose director is named "constructor" is lost by the handler
      as written (no bucket, the counts total 0 for one processed row),
      while Tally keeps it, as TallyTotal promises for every input. */
  lemma InheritedNameIsLost()
    ensures TallyAsWritten([Credit("constructor", 4.0)]) == map[]
    ensures CountTotal(TallyAsWritten([Credit("constructor", 4.0)])) == 0
    ensures Tally([Credit("constructor", 4.0)]) == map["constructor" := Bucket(4.0, 1)]
    ensures CountTotal(Tally([Credit("constructor", 4.0)])) == 1
  {
    var credits := [Credit("constructor", 4.0)];
    assert credits[..0] == [];
    assert "constructor" in InheritedNames;
    TallyTotal(credits);
  }

  /** The directors in the order their buckets were created: the key
      order `Object.entries` reports for them. No director appears twice,
      and the directors listed are exactly those with a bucket. */
  function FirstSeen(credits: seq<Credit>): (order: seq<string>)
    ensures Distinct(order)
    ensures forall d :: d in order <==> d in Tally(credits)
  {
    if credits == [] then []
    else
      var order := FirstSeen(credits[..|credits| - 1]);
      var d := credits[|credits| - 1].director;
      if d in order then order else order + [d]
  }

  /** The credits of processed rows: each row's rating, parsed, under the
      director resolved for it. */
  function CreditsOf(rows: seq<Row>, directors: seq<string>, parseRating: string -> real): (credits: seq<Credit>)
    requires |directors| == |rows|
  {
    seq(|rows|, i requires 0 <= i < |rows| => Credit(directors[i], parseRating(rows[i].rating)))
  }

  /** The cache holds `director` for the row's title and year. */
  predicate Resolved(cache: map<string, string>, row: Row, director: string)
  {
    CacheKey(row.name, row.year) in cache && cache[CacheKey(row.name, row.year)] == director
  }

  /** The accumulation loop of the handler: resolves each row's director
      (through the memo cache) and adds its parsed rating to the
      director's bucket, creating the bucket at zero first when it is
      missing. The rows are processed in sequence order; the handler's
      concurrent fan-out may finish them in any order, which
      TallyOrderIndependent shows makes no difference to the buckets. */
  method Accumulate(res: Resolver, svc: Service, rows: seq<Row>, parseRating: string -> real)
    returns (byDirector: map<string, Bucket>, order: seq<string>, ghost directors: seq<string>)
    requires res.Valid()
    modifies res
    ensures res.Valid()
    ensures AllResolved(res.cache, rows, directors)
    ensures Extends(old(res.cache), res.cache)
    ensures byDirector == Tally(CreditsOf(rows, directors, parseRating))
    ensures order == FirstSeen(CreditsOf(rows, directors, parseRating))
  {
    byDirector := map[];
    order := [];
    directors := [];
    ghost var credits := [];
    for i := 0 to |rows|
      invariant res.Valid()
      invariant |directors| == i
      invariant AllResolved(res.cache, rows[..i], directors)
      invariant Extends(old(res.cache), res.cache)
      invariant credits == CreditsOf(rows[..i], directors, parseRating)
      invariant byDirector == Tally(credits) && order == FirstSeen(credits)
    {
      ghost var before := res.cache;
      var director := DirectorOfRow(res, svc, rows[i]);
      ExtendsTrans(old(res.cache), before, res.cache);
      ResolvedStep(before, res.cache, rows[..i], directors, rows[i], director);
      assert rows[..i + 1] == rows[..i] + [rows[i]];
      var credit := Credit(director, parseRating(rows[i].rating));
      TallyStep(credits, credit);
      CreditsOfSnoc(rows, directors, director, parseRating, i);
      byDirector, order := Record(byDirector, order, credit);
      directors := directors + [director];
      credits := credits + [credit];
    }
    assert rows[..|rows|] == rows;
  }

  /** One row's update of the buckets, in place: the director's bucket is
      created at zero when missing (and its key joins the order), then
      gains the rating and one film. */
  method Record(byDirector: map<string, Bucket>, order: seq<string>, c: Credit)
    returns (updated: map<string, Bucket>, order': seq<string>)
    ensures updated == AddCredit(byDirector, c)
    ensures order' == if c.director in byDirector then order else order + [c.director]
  {
    updated, order' := byDirector, order;
    if c.director !in updated {
      updated := updated[c.director := Bucket(0.0, 0)];
      order' := order' + [c.director];
    }
    updated := updated[c.director := updated[c.director].(sum := updated[c.director].sum + c.rating)];
    updated := updated[c.director := updated[c.director].(count := updated[c.director].count + 1)];
  }

  /** Every row's title and year are cached with the director it was
      credited to. */
  predicate AllResolved(cache: map<string, string>, rows: seq<Row>, directors: seq<string>)
  {
    |directors| == |rows| && forall j :: 0 <= j < |rows| ==> Resolved(cache, rows[j], directors[j])
  }

  /** Growing the cache keeps every earlier row resolved. */
  lemma ResolvedStep(before: map<string, string>, after: map<string, string>,
                     rows: seq<Row>, directors: seq<string>, row: Row, d: string)
    requires AllResolved(before, rows, directors)
    requires Extends(before, after)
    requires Resolved(after, row, d)
    ensures AllResolved(after, rows + [row], directors + [d])
  {
  }

  /** The `getDirector(r.Name, r.Year)` call for one row: the answer is
      the memoised lookup of the row's title and year, the cache keeps its
      entries and ends up holding the answer under the row's key. */
  method DirectorOfRow(res: Resolver, svc: Service, row: Row) returns (director: string)
    requires res.Valid()
    modifies res
    ensures director == Memo(old(res.cache), svc, row.name, row.year)
    ensures res.Valid()
    ensures Extends(old(res.cache), res.cache)
    ensures Resolved(res.cache, row, director)
  {
    ghost var before := res.cache;
    director := res.GetDirector(svc, row.name, row.year);
    CacheOnlyGrows(before, res.cache, CacheKey(row.name, row.year), director);
  }

  /** `after` keeps every entry of `before`. */
  predicate Extends(before: map<string, string>, after: map<string, string>)
  {
    forall k :: k in before ==> k in after && after[k] == before[k]
  }

  /** A `getDirector` call only adds to the cache: the entry it writes is
      new, or already held the answer it returns. */
  lemma CacheOnlyGrows(before: map<string, string>, after: map<string, string>, key: string, v: string)
    requires after == before[key := v] && (key in before ==> before[key] == v)
    ensures Extends(before, after)
    ensures key in after && after[key] == v
  {
  }

  lemma ExtendsTrans(a: map<string, string>, b: map<string, string>, c: map<string, string>)
    requires Extends(a, b) && Extends(b, c)
    ensures Extends(a, c)
  {
  }

  /** One more credit: one more step of the fold, and its director joins
      the order when it had no bucket yet. */
  lemma TallyStep(credits: seq<Credit>, c: Credit)
    ensures Tally(credits + [c]) == AddCredit(Tally(credits), c)
    ensures FirstSeen(credits + [c]) ==
      if c.director in Tally(credits) then FirstSeen(credits) else FirstSeen(credits) + [c.director]
  {
    assert (credits + [c])[..|credits|] == credits;
  }

  lemma CreditsOfSnoc(rows: seq<Row>, directors: seq<string>, director: string, parseRating: string -> real, i: nat)
    requires i < |rows| && |directors| == i
    ensures CreditsOf(rows[..i + 1], directors + [director], parseRating)
      == CreditsOf(rows[..i], directors, parseRating) + [Credit(director, parseRating(rows[i].rating))]
  {
  }

  // ---------------------------------------------------------------------
  // The top list
  // ---------------------------------------------------------------------

  /** A bucket as a top-list line: the average rating and the number of
      films. */
  function EntryOf(d: string, b: Bucket): (e: Entry)
    requires b.count > 0
  {
    Entry(d, b.sum / b.count as real, b.count)
  }

  /** A director with at least four rated films. */
  predicate Eligible(byDirector: map<string, Bucket>, d: string)
  {
    d in byDirector && byDirector[d].count >= MinFilms
  }

  /** The line the top list shows for an eligible director. */
  predicate Describes(byDirector: map<string, Bucket>, e: Entry)
  {
    Eligible(byDirector, e.director) && e == EntryOf(e.director, byDirector[e.director])
  }

  predicate Distinct(keys: seq<string>)
  {
    forall i, j :: 0 <= i < j < |keys| ==> keys[i] != keys[j]
  }

  predicate DistinctDirectors(es: seq<Entry>)
  {
    forall i, j :: 0 <= i < j < |es| ==> es[i].director != es[j].director
  }

  /** The filter and map over the map's entries, enumerated in the order
      of `keys`: one line per eligible director. */
  function Candidates(byDirector: map<string, Bucket>, keys: seq<string>): (es: seq<Entry>)
    requires forall k :: k in keys ==> k in byDirector
    ensures forall e :: e in es ==> e.director in keys && Describes(byDirector, e)
    ensures forall k :: k in keys && Eligible(byDirector, k) ==> EntryOf(k, byDirector[k]) in es
    ensures Distinct(keys) ==> DistinctDirectors(es)
  {
    if keys == [] then []
    else
      var rest := Candidates(byDirector, keys[1..]);
      var b := byDirector[keys[0]];
      if b.count >= MinFilms then [EntryOf(keys[0], b)] + rest else rest
  }

  predicate SortedByAvg(es: seq<Entry>)
  {
    forall i, j :: 0 <= i < j < |es| ==> es[i].avg >= es[j].avg
  }

  /** Inserts a line in front of the first line with a lower average,
      keeping the list sorted and losing nothing. */
  function Insert(e: Entry, s: seq<Entry>): (r: seq<Entry>)
    requires SortedByAvg(s)
    ensures SortedByAvg(r)
    ensures multiset(r) == multiset(s) + multiset{e}
    ensures r[0] == e || (s != [] && r[0] == s[0])
  {
    if s == [] || e.avg >= s[0].avg then
      ConsSorted(e, s);
      [e] + s
    else
      var rest := Insert(e, s[1..]);
      assert s == [s[0]] + s[1..];
      ConsSorted(s[0], rest);
      [s[0]] + rest
  }

  /** A line no lower than the head of a sorted list can go in front of it. */
  lemma ConsSorted(x: Entry, s: seq<Entry>)
    requires SortedByAvg(s) && (s == [] || x.avg >= s[0].avg)
    ensures SortedByAvg([x] + s)
  {
    forall i, j | 0 <= i < j < |[x] + s|
      ensures ([x] + s)[i].avg >= ([x] + s)[j].avg
    {
      if i > 0 {
        assert ([x] + s)[i] == s[i - 1];
      }
    }
  }

  /** The `sort` by descending average: sorted, and a permutation of its
      input. The order of lines with equal averages is not asserted. */
  function SortByAvg(es: seq<Entry>): (r: seq<Entry>)
    ensures SortedByAvg(r)
    ensures multiset(r) == multiset(es)
  {
    if es == [] then []
    else
      assert es == [es[0]] + es[1..];
      Insert(es[0], SortByAvg(es[1..]))
  }

  /** The `slice(0, 10)` of the sorted lines: the ten best, or all of
      them when there are fewer. */
  function Rank(es: seq<Entry>): (r: seq<Entry>)
    ensures |r| == if |es| < TopSize then |es| else TopSize
    ensures SortedByAvg(r)
    ensures forall e :: e in r ==> e in es
  {
    var sorted := SortByAvg(es);
    assert |multiset(sorted)| == |multiset(es)|;
    var n := if |sorted| < TopSize then |sorted| else TopSize;
    PrefixFrom(sorted, es, n);
    sorted[..n]
  }

  /** A prefix of a reordering of `es` holds only lines of `es`. */
  lemma PrefixFrom(sorted: seq<Entry>, es: seq<Entry>, n: nat)
    requires multiset(sorted) == multiset(es) && n <= |sorted|
    ensures forall e :: e in sorted[..n] ==> e in es
  {
    forall e | e in sorted[..n]
      ensures e in es
    {
      assert e in multiset(sorted);
    }
  }

  /** Nothing left out of the ranking has a higher average than anything
      in it, and with at most ten lines nothing is left out. */
  lemma RankIsTopN(es: seq<Entry>)
    ensures forall e, x :: e in es && e !in Rank(es) && x in Rank(es) ==> e.avg <= x.avg
    ensures |es| <= TopSize ==> multiset(Rank(es)) == multiset(es)
  {
    var sorted := SortByAvg(es);
    var r := Rank(es);
    forall e, x | e in es && e !in r && x in r
      ensures e.avg <= x.avg
    {
      assert e in multiset(sorted);
      var j :| 0 <= j < |sorted| && sorted[j] == e;
      var i :| 0 <= i < |r| && r[i] == x;
      assert sorted[i] == x;
    }
    if |es| <= TopSize {
      assert r == sorted;
    }
  }

  /** The top list for the buckets, their keys enumerated in the order of
      `keys`. */
  function Toplist(byDirector: map<string, Bucket>, keys: seq<string>): (toplist: seq<Entry>)
    requires forall k :: k in keys ==> k in byDirector
  {
    Rank(Candidates(byDirector, keys))
  }

  /** Lines whose directors are distinct occur once each. */
  lemma {:induction false} DistinctOnce(es: seq<Entry>)
    requires DistinctDirectors(es)
    ensures forall e :: multiset(es)[e] <= 1
  {
    if es != [] {
      DistinctOnce(es[1..]);
      assert es == [es[0]] + es[1..];
      forall k | 0 <= k < |es| - 1
        ensures es[1..][k] != es[0]
      {
        assert es[1..][k] == es[k + 1];
      }
    }
  }

  /** A line that occurs at two positions is counted twice. */
  lemma TwiceCounted(es: seq<Entry>, i: nat, j: nat)
    requires i < j < |es|
    ensures es[i] == es[j] ==> multiset(es)[es[i]] >= 2
  {
    assert es == es[..j] + es[j..];
    assert es[i] in es[..j] && es[j] in es[j..];
  }

  /** Reordering lines that each describe their director's bucket keeps
      the directors distinct: two lines with one director would be the
      same line, occurring twice. */
  lemma ReorderedStaysDistinct(byDirector: map<string, Bucket>, a: seq<Entry>, b: seq<Entry>)
    requires multiset(a) == multiset(b) && DistinctDirectors(a)
    requires forall e :: e in a ==> Describes(byDirector, e)
    ensures DistinctDirectors(b)
  {
    DistinctOnce(a);
    forall i, j | 0 <= i < j < |b|
      ensures b[i].director != b[j].director
    {
      assert b[i] in multiset(a) && b[j] in multiset(a);
      TwiceCounted(b, i, j);
    }
  }

  /** The eligible directors of the buckets. */
  function EligibleDirectors(byDirector: map<string, Bucket>): set<string>
  {
    set d | d in byDirector && byDirector[d].count >= MinFilms
  }

  /** A director has a line in the list. */
  predicate Listed(toplist: seq<Entry>, d: string)
  {
    exists e :: e in toplist && e.director == d
  }

  /** Over distinct keys, the candidates are as many as the eligible keys. */
  lemma {:induction false} CandidatesCount(byDirector: map<string, Bucket>, keys: seq<string>)
    requires forall k :: k in keys ==> k in byDirector
    requires Distinct(keys)
    ensures |Candidates(byDirector, keys)| == |set k | k in keys && Eligible(byDirector, k)|
  {
    if keys != [] {
      var rest := keys[1..];
      CandidatesCount(byDirector, rest);
      var later := set k | k in rest && Eligible(byDirector, k);
      var all := set k | k in keys && Eligible(byDirector, k);
      assert keys[0] !in later;
      if Eligible(byDirector, keys[0]) {
        assert all == {keys[0]} + later;
        assert |all| == |later| + 1;
        assert |Candidates(byDirector, keys)| == |Candidates(byDirector, rest)| + 1;
      } else {
        assert all == later;
        assert Candidates(byDirector, keys) == Candidates(byDirector, rest);
      }
    }
  }

  /** Over distinct keys, the top list has one line per eligible
      director, cut at ten. */
  lemma ToplistLength(byDirector: map<string, Bucket>, keys: seq<string>)
    requires Distinct(keys) && forall k :: k in keys <==> k in byDirector
    ensures var n := |EligibleDirectors(byDirector)|;
      |Toplist(byDirector, keys)| == if n < TopSize then n else TopSize
  {
    CandidatesCount(byDirector, keys);
    assert (set k | k in keys && Eligible(byDirector, k)) == EligibleDirectors(byDirector);
  }

  /** The shape of the top list, for any enumeration order of the
      buckets: ten lines, or one per eligible director when fewer qualify,
      non-increasing averages, each line an eligible director's average
      and film count, no director twice. */
  lemma ToplistShape(byDirector: map<string, Bucket>, keys: seq<string>)
    requires Distinct(keys) && forall k :: k in keys <==> k in byDirector
    ensures var t := Toplist(byDirector, keys); var n := |EligibleDirectors(byDirector)|;
      && |t| == (if n < TopSize then n else TopSize)
      && SortedByAvg(t) && DistinctDirectors(t)
      && (forall e :: e in t ==> Describes(byDirector, e))
  {
    ToplistLength(byDirector, keys);
    var es := Candidates(byDirector, keys);
    var sorted := SortByAvg(es);
    ReorderedStaysDistinct(byDirector, es, sorted);
    assert Toplist(byDirector, keys) == sorted[..|Toplist(byDirector, keys)|];
  }

  /** `k` copies of `x` added up. */
  function Times(x: real, k: int): real
    decreases k
  {
    if k <= 0 then 0.0 else Times(x, k - 1) + x
  }

  lemma {:induction false} TimesIsProduct(x: real, k: int)
    requires k >= 0
    ensures Times(x, k) == x * k as real
    decreases k
  {
    if k > 0 {
      TimesIsProduct(x, k - 1);
      Distribute(x, (k - 1) as real);
    }
  }

  lemma Distribute(x: real, n: real)
    ensures x * (n + 1.0) == x * n + x
  {
  }

  /** Ratings that all lie within [lo, hi] keep every director's sum
      between `count` copies of `lo` and `count` copies of `hi`. */
  lemma {:induction false} BucketForWithin(credits: seq<Credit>, d: string, lo: real, hi: real)
    requires forall c :: c in credits ==> lo <= c.rating <= hi
    ensures var b := BucketFor(credits, d);
      Times(lo, b.count) <= b.sum <= Times(hi, b.count)
  {
    if credits != [] {
      var init := credits[..|credits| - 1];
      assert forall x :: x in init ==> x in credits;
      BucketForWithin(init, d, lo, hi);
      assert credits[|credits| - 1] in credits;
    }
  }

  /** The mean of `k` values within [lo, hi] is within [lo, hi]. */
  lemma MeanBounds(lo: real, hi: real, sum: real, k: int)
    requires k > 0 && Times(lo, k) <= sum <= Times(hi, k)
    ensures lo <= sum / k as real <= hi
  {
    TimesIsProduct(lo, k);
    TimesIsProduct(hi, k);
    DivideBounds(lo, hi, sum, k as real);
  }

  lemma DivideBounds(lo: real, hi: real, sum: real, n: real)
    requires n > 0.0 && lo * n <= sum <= hi * n
    ensures lo <= sum / n <= hi
  {
  }

  /** A list line's average lies within the range of the ratings it was
      computed from: ratings within [lo, hi] give every director's `avg`
      within [lo, hi]. */
  lemma AvgWithinRatings(credits: seq<Credit>, d: string, lo: real, hi: real)
    requires forall c :: c in credits ==> lo <= c.rating <= hi
    requires d in Tally(credits)
    ensures lo <= EntryOf(d, Tally(credits)[d]).avg <= hi
  {
    TallyPerDirector(credits, d);
    BucketForWithin(credits, d, lo, hi);
    var b := Tally(credits)[d];
    MeanBounds(lo, hi, b.sum, b.count);
  }

  /** Every line of the top list shows an average within the range of
      the ratings fed to it. */
  lemma ToplistWithinRatings(credits: seq<Credit>, keys: seq<string>, lo: real, hi: real)
    requires forall c :: c in credits ==> lo <= c.rating <= hi
    requires Distinct(keys) && forall k :: k in keys <==> k in Tally(credits)
    ensures forall e :: e in Toplist(Tally(credits), keys) ==> lo <= e.avg <= hi
  {
    ToplistShape(Tally(credits), keys);
    forall e | e in Toplist(Tally(credits), keys)
      ensures lo <= e.avg <= hi
    {
      AvgWithinRatings(credits, e.director, lo, hi);
    }
  }

  /** Top-N: an eligible director left out of the list averages no more
      than any listed one. */
  lemma ToplistIsTopN(byDirector: map<string, Bucket>, keys: seq<string>)
    requires forall k :: k in keys <==> k in byDirector
    ensures var t := Toplist(byDirector, keys);
      forall d, e :: Eligible(byDirector, d) && !Listed(t, d) && e in t ==>
        EntryOf(d, byDirector[d]).avg <= e.avg
  {
    var es := Candidates(byDirector, keys);
    var t := Toplist(byDirector, keys);
    RankIsTopN(es);
    forall d, e | Eligible(byDirector, d) && !Listed(t, d) && e in t
      ensures EntryOf(d, byDirector[d]).avg <= e.avg
    {
      assert EntryOf(d, byDirector[d]) in es;
    }
  }

  /** With at most ten eligible directors, every one of them is listed. */
  lemma ToplistKeepsAllWhenFew(byDirector: map<string, Bucket>, keys: seq<string>)
    requires Distinct(keys) && forall k :: k in keys <==> k in byDirector
    requires |EligibleDirectors(byDirector)| <= TopSize
    ensures forall d :: Eligible(byDirector, d) ==> Listed(Toplist(byDirector, keys), d)
  {
    var es := Candidates(byDirector, keys);
    var t := Toplist(byDirector, keys);
    CandidatesCount(byDirector, keys);
    assert (set k | k in keys && Eligible(byDirector, k)) == EligibleDirectors(byDirector);
    RankIsTopN(es);
    forall d | Eligible(byDirector, d)
      ensures Listed(t, d)
    {
      assert EntryOf(d, byDirector[d]) in multiset(t);
    }
  }

  /** Four films by one director, rated 4.5, 4.0, 3.0 and 2.5. */
  function MannCredits(): seq<Credit>
  {
    [Credit("Michael Mann", 4.5), Credit("Michael Mann", 4.0),
     Credit("Michael Mann", 3.0), Credit("Michael Mann", 2.5)]
  }

  /** Their ratings all land in one bucket. */
  lemma MannBuckets()
    ensures Tally(MannCredits()) == map["Michael Mann" := Bucket(14.0, 4)]
  {
    var credits, m := MannCredits(), "Michael Mann";
    assert credits[..1][..0] == [] && credits[..2][..1] == credits[..1];
    assert credits[..3][..2] == credits[..2] && credits[..4][..3] == credits[..3];
    assert credits[..4] == credits;
    assert Tally(credits[..1]) == map[m := Bucket(4.5, 1)];
    assert Tally(credits[..2]) == map[m := Bucket(8.5, 2)];
    assert Tally(credits[..3]) == map[m := Bucket(11.5, 3)];
  }

  /** The example end to end: a single line averaging 3.5 over four films. */
  lemma OneDirectorFourFilms()
    ensures Toplist(Tally(MannCredits()), FirstSeen(MannCredits())) == [Entry("Michael Mann", 3.5, 4)]
  {
    var m := "Michael Mann";
    MannBuckets();
    MannOrder();
    assert Candidates(Tally(MannCredits()), [m]) == [Entry(m, 3.5, 4)];
    RankOne(Entry(m, 3.5, 4));
  }

  /** The director is first seen with the first credit and never again. */
  lemma MannOrder()
    ensures FirstSeen(MannCredits()) == ["Michael Mann"]
  {
    var credits, m := MannCredits(), "Michael Mann";
    assert credits[..1][..0] == [] && credits[..2][..1] == credits[..1];
    assert credits[..3][..2] == credits[..2] && credits[..4][..3] == credits[..3];
    assert credits[..4] == credits;
    assert FirstSeen(credits[..1]) == [m];
    assert FirstSeen(credits[..2]) == [m];
    assert FirstSeen(credits[..3]) == [m];
  }

  /** A single line is ranked as it is. */
  lemma RankOne(e: Entry)
    ensures Rank([e]) == [e]
  {
    assert [e][1..] == [];
    assert SortByAvg([e]) == [e];
  }

  // ---------------------------------------------------------------------
  // The handler
  // ---------------------------------------------------------------------

  /** The handler body over already-parsed rows: filter, accumulate, rank.
      Returns the top list, with the buckets and each kept row's director
      as ghost results to state it against. */
  method Post(res: Resolver, svc: Service, rows: seq<Row>, parseRating: string -> real)
    returns (toplist: seq<Entry>, ghost byDirector: map<string, Bucket>, ghost directors: seq<string>)
    requires res.Valid()
    modifies res
    ensures res.Valid()
    ensures Extends(old(res.cache), res.cache)
    ensures AllResolved(res.cache, KeepRated(rows), directors)
    ensures byDirector == Tally(CreditsOf(KeepRated(rows), directors, parseRating))
    ensures CountTotal(byDirector) == |KeepRated(rows)|
    ensures |toplist| == if |EligibleDirectors(byDirector)| < TopSize then |EligibleDirectors(byDirector)| else TopSize
    ensures SortedByAvg(toplist) && DistinctDirectors(toplist)
    ensures forall e :: e in toplist ==> Describes(byDirector, e)
    ensures forall d, e :: Eligible(byDirector, d) && !Listed(toplist, d) && e in toplist ==>
      EntryOf(d, byDirector[d]).avg <= e.avg
    ensures |EligibleDirectors(byDirector)| <= TopSize ==>
      forall d :: Eligible(byDirector, d) ==> Listed(toplist, d)
  {
    var kept := KeepRated(rows);
    var buckets, order;
    buckets, order, directors := Accumulate(res, svc, kept, parseRating);
    byDirector := buckets;
    TallyTotal(CreditsOf(kept, directors, parseRating));
    toplist := Toplist(buckets, order);
    ToplistShape(buckets, order);
    ToplistIsTopN(buckets, order);
    if |EligibleDirectors(buckets)| <= TopSize {
      ToplistKeepsAllWhenFew(buckets, order);
    }
  }
}
