/** The director resolver: turns a (title, year) pair into one director
    name by querying a movie/TV metadata service, movie search first and
    TV search as a fallback, and memoises every answer per
    `title + "-" + year`. The service's three HTTP endpoints are the
    function-valued fields of a `Service`; every request the resolver
    issues is appended to a log so that what is, and is not, looked up can
    be stated. */
module Tmdb {
  import opened Text

  datatype Option<T> = None | Some(value: T)

  /** A movie search result: only `id` and `title` are read. An `id` of 0
      stands for any falsy id. */
  datatype MovieHit = MovieHit(id: int, title: string)

  /** A TV search result: only `id` is read. */
  datatype TvHit = TvHit(id: int)

  datatype Kind = Movie | Tv

  /** A member of the flat `credits.crew` list. */
  datatype CrewMember = CrewMember(job: Option<string>, name: Option<string>)

  /** An element of an aggregate member's `jobs` array as JSON can carry
      it: the service sends one record per job, carrying the job title;
      a bare string is kept so that both readings can be stated. */
  datatype JobEntry = JobText(text: string) | JobRecord(job: string)

  /** A member of the `aggregate_credits.crew` list. */
  datatype AggregateMember = AggregateMember(jobs: Option<seq<JobEntry>>, job: Option<string>, name: Option<string>)

  datatype Credits = Credits(crew: Option<seq<CrewMember>>)

  datatype AggregateCredits = AggregateCredits(crew: Option<seq<AggregateMember>>)

  /** A detail record fetched with `append_to_response=credits,aggregate_credits`. */
  datatype Details = Details(credits: Option<Credits>, aggregateCredits: Option<AggregateCredits>)

  /** The metadata service: movie search by title and year, TV search by
      title, and the detail record of an id of either kind. */
  datatype Service = Service(
    searchMovie: (string, string) -> seq<MovieHit>,
    searchTv: string -> seq<TvHit>,
    details: (int, Kind) -> Details)

  /** An outbound request to the service. */
  datatype Request =
    | MovieSearch(title: string, year: string)
    | TvSearch(query: string)
    | Detail(id: int, kind: Kind)

  const Director := "Director"
  const UnknownDirector := "Unknown"

  /** A JavaScript string value that is truthy: present and non-empty. */
  predicate Truthy(name: Option<string>)
  {
    name.Some? && name.value != ""
  }

  // ---------------------------------------------------------------------
  // Movie search: the exact-title guard
  // ---------------------------------------------------------------------

  predicate IsExact(hit: MovieHit, title: string)
  {
    SameTitle(hit.title, title)
  }

  /** `i` is the position of the first result whose title matches. */
  predicate FirstExact(results: seq<MovieHit>, title: string, i: int)
  {
    && 0 <= i < |results|
    && IsExact(results[i], title)
    && forall j :: 0 <= j < i ==> !IsExact(results[j], title)
  }

  /** JavaScript's `Array.prototype.filter`: every kept element satisfies
      `p` and comes from `s`, nothing is kept only when no element
      satisfies `p`, and the first kept element is the first one that
      does. FilterKeepsEvery adds that nothing satisfying `p` is dropped. */
  function Filter<T>(s: seq<T>, p: T -> bool): (r: seq<T>)
    ensures forall k :: 0 <= k < |r| ==> r[k] in s && p(r[k])
    ensures r == [] <==> forall i :: 0 <= i < |s| ==> !p(s[i])
    ensures forall i :: 0 <= i < |s| && p(s[i]) && (forall j :: 0 <= j < i ==> !p(s[j])) ==> r != [] && r[0] == s[i]
  {
    if s == [] then []
    else
      var rest := Filter(s[1..], p);
      if p(s[0]) then [s[0]] + rest else rest
  }

  /** `filter` keeps every element satisfying `p` as often as it occurs,
      and no other. */
  lemma {:induction false} FilterKeepsEvery<T>(s: seq<T>, p: T -> bool)
    ensures forall x :: multiset(Filter(s, p))[x] == if p(x) then multiset(s)[x] else 0
  {
    if s != [] {
      FilterKeepsEvery(s[1..], p);
      assert s == [s[0]] + s[1..];
    }
  }

  /** The results whose title matches the query exactly. */
  function ExactTitle(results: seq<MovieHit>, title: string): (r: seq<MovieHit>)
    ensures forall k :: 0 <= k < |r| ==> r[k] in results && IsExact(r[k], title)
    ensures forall h :: multiset(r)[h] == if IsExact(h, title) then multiset(results)[h] else 0
    ensures r == [] <==> forall i :: 0 <= i < |results| ==> !IsExact(results[i], title)
    ensures forall i :: FirstExact(results, title, i) ==> r != [] && r[0] == results[i]
  {
    FilterKeepsEvery(results, hit => IsExact(hit, title));
    Filter(results, hit => IsExact(hit, title))
  }

  /** The ids `movieIds` returns for a search response: at most one, and
      never a falsy one. */
  function MovieIdsOf(results: seq<MovieHit>, title: string): (ids: seq<int>)
    ensures |ids| <= 1
    ensures forall k :: 0 <= k < |ids| ==> ids[k] != 0
  {
    var exact := ExactTitle(results, title);
    if exact != [] && exact[0].id != 0 then [exact[0].id] else []
  }

  /** With no exact-title result there is no id. */
  lemma NoExactNoIds(results: seq<MovieHit>, title: string)
    requires forall i :: 0 <= i < |results| ==> !IsExact(results[i], title)
    ensures MovieIdsOf(results, title) == []
  {
  }

  /** Only the first exact match counts: its id is the only one, unless
      it is falsy. */
  lemma FirstExactGivesId(results: seq<MovieHit>, title: string, i: nat)
    requires FirstExact(results, title, i)
    ensures MovieIdsOf(results, title) == (if results[i].id != 0 then [results[i].id] else [])
  {
  }

  /** The body of `movieIds` after the search: keep the first exact-title
      result and push its id when truthy and not already collected. */
  method SelectMovieIds(results: seq<MovieHit>, title: string) returns (ids: seq<int>)
    ensures ids == MovieIdsOf(results, title)
  {
    var exact := ExactTitle(results, title);
    var first := exact[..if |exact| < 1 then |exact| else 1];
    ids := [];
    for k := 0 to |first|
      invariant k == 0 ==> ids == []
      invariant k == 1 ==> ids == (if first[0].id != 0 then [first[0].id] else [])
    {
      if first[k].id != 0 && first[k].id !in ids {
        ids := ids + [first[k].id];
      }
    }
  }

  /** The query "Alien" picks the result titled "Alien" (in any case and
      padding) even when "Alien³" and "Aliens" come before it. */
  lemma AlienGuard(results: seq<MovieHit>, query: string)
    requires query == "Alien" && |results| == 3
    requires results[0].title == "Alien\U{00B3}" && results[1].title == "Aliens" && results[2].title == " ALIEN "
    ensures MovieIdsOf(results, query) == if results[2].id != 0 then [results[2].id] else []
  {
    AlienTitles();
    ThirdIsFirstExact(results, query);
    FirstExactGivesId(results, query, 2);
  }

  lemma ThirdIsFirstExact(results: seq<MovieHit>, query: string)
    requires |results| == 3
    requires !SameTitle(results[0].title, query) && !SameTitle(results[1].title, query)
    requires SameTitle(results[2].title, query)
    ensures FirstExact(results, query, 2)
  {
  }

  lemma AlienTitles()
    ensures !SameTitle("Alien\U{00B3}", "Alien") && !SameTitle("Aliens", "Alien") && SameTitle(" ALIEN ", "Alien")
  {
    NotAlien("Alien\U{00B3}");
    NotAlien("Aliens");
    PaddedCapitalsMatch();
  }

  lemma PaddedCapitalsMatch()
    ensures SameTitle(" ALIEN ", "Alien")
  {
    PaddingIgnored(" ", "ALIEN", " ");
    assert " " + "ALIEN" + " " == " ALIEN ";
    assert Lower("ALIEN") == Lower("Alien");
    CaseIgnored("ALIEN", "Alien");
  }

  lemma NotAlien(title: string)
    requires |title| == 6 && !IsSpace(title[0]) && !IsSpace(title[5])
    ensures !SameTitle(title, "Alien")
  {
    TrimStartPadding([], title);
    TrimEndPadding(title, []);
    assert [] + title == title && title + [] == title;
    TrimStartPadding([], "Alien");
    TrimEndPadding("Alien", []);
    assert [] + "Alien" == "Alien" && "Alien" + [] == "Alien";
    LengthMismatchNeverSame(title, "Alien");
  }

  // ---------------------------------------------------------------------
  // Detail record: picking the director
  // ---------------------------------------------------------------------

  /** JavaScript's `Array.prototype.find`: the first element satisfying
      `p`, if any. */
  function Find<T>(s: seq<T>, p: T -> bool): Option<T>
  {
    if s == [] then None
    else if p(s[0]) then Some(s[0])
    else Find(s[1..], p)
  }

  /** `find` returns the first element satisfying the predicate. */
  lemma {:induction false} FindReturnsFirst<T>(s: seq<T>, p: T -> bool, i: nat)
    requires i < |s| && p(s[i])
    requires forall j :: 0 <= j < i ==> !p(s[j])
    ensures Find(s, p) == Some(s[i])
  {
    if i > 0 {
      assert !p(s[0]);
      FindReturnsFirst(s[1..], p, i - 1);
    }
  }

  /** `find` returns undefined exactly when no element satisfies the
      predicate. */
  lemma {:induction false} FindNone<T>(s: seq<T>, p: T -> bool)
    ensures Find(s, p) == None <==> forall j :: 0 <= j < |s| ==> !p(s[j])
  {
    if s != [] {
      FindNone(s[1..], p);
      assert forall j :: 1 <= j < |s| ==> s[j] == s[1..][j - 1];
    }
  }

  predicate IsCrewDirector(m: CrewMember)
  {
    m.job == Some(Director)
  }

  /** The aggregate test as written: `includes("Director")` compares each
      element of `jobs` with the string by SameValueZero, which only a
      bare string can pass, or the member's own `job` is "Director". */
  predicate IsAggregateDirectorAsWritten(m: AggregateMember)
  {
    (m.jobs.Some? && JobText(Director) in m.jobs.value) || m.job == Some(Director)
  }

  /** The aggregate test as intended: one of the member's jobs, as a job
      record or as a bare string, is "Director", or its own `job` is. */
  predicate IsAggregateDirector(m: AggregateMember)
  {
    || (m.jobs.Some? && (JobRecord(Director) in m.jobs.value || JobText(Director) in m.jobs.value))
    || m.job == Some(Director)
  }

  /** The name of the first flat-crew member whose job is "Director", when
      the record has credits with a crew list. */
  function CrewDirector(credits: Option<Credits>): Option<string>
  {
    if credits.None? || credits.value.crew.None? then None
    else match Find(credits.value.crew.value, IsCrewDirector)
      case None => None
      case Some(m) => m.name
  }

  /** The name of the first aggregate member that passes `isDirector`,
      when there is a crew list. */
  function FirstAggregate(aggregate: AggregateCredits, isDirector: AggregateMember -> bool): Option<string>
  {
    if aggregate.crew.None? then None
    else match Find(aggregate.crew.value, isDirector)
      case None => None
      case Some(m) => m.name
  }

  function AggregateDirector(aggregate: AggregateCredits): Option<string>
  {
    FirstAggregate(aggregate, IsAggregateDirector)
  }

  /** A TV series whose director is listed, as the service lists them,
      by a job record: the test as written finds nobody, the intended one
      finds the director. */
  lemma EpisodeDirectorMissed(name: string)
    ensures var crew := AggregateCredits(Some([AggregateMember(Some([JobRecord(Director)]), None, Some(name))]));
      && FirstAggregate(crew, IsAggregateDirectorAsWritten) == None
      && FirstAggregate(crew, IsAggregateDirector) == Some(name)
  {
    var m := AggregateMember(Some([JobRecord(Director)]), None, Some(name));
    assert JobText(Director) !in m.jobs.value;
    FindNone([m], IsAggregateDirectorAsWritten);
    FindReturnsFirst([m], IsAggregateDirector, 0);
  }

  /** What `fetchDirector` returns for a detail record: the flat crew's
      director when that name is truthy, otherwise the aggregate crew's
      when aggregate credits are present. */
  function DirectorOf(d: Details): Option<string>
  {
    var flat := CrewDirector(d.credits);
    if !Truthy(flat) && d.aggregateCredits.Some? then AggregateDirector(d.aggregateCredits.value) else flat
  }

  /** When the first flat-crew member whose job is "Director" has a
      non-empty name, that name is the answer, whatever the aggregate
      credits hold. */
  lemma FlatCrewPreferred(credits: Credits, i: nat)
    requires credits.crew.Some? && i < |credits.crew.value|
    requires IsCrewDirector(credits.crew.value[i])
    requires forall j :: 0 <= j < i ==> !IsCrewDirector(credits.crew.value[j])
    requires Truthy(credits.crew.value[i].name)
    ensures forall aggregate :: DirectorOf(Details(Some(credits), aggregate)) == credits.crew.value[i].name
  {
    FindReturnsFirst(credits.crew.value, IsCrewDirector, i);
  }

  /** When the flat crew gives no truthy name and aggregate credits are
      present, the first aggregate member listed as a director (by its
      `jobs` or its `job`) gives the answer, and no qualifying member means
      no answer at all. */
  lemma AggregateFallback(d: Details)
    requires !Truthy(CrewDirector(d.credits)) && d.aggregateCredits.Some?
    ensures var crew := d.aggregateCredits.value.crew;
      forall i :: crew.Some? && 0 <= i < |crew.value| && IsAggregateDirector(crew.value[i])
        && (forall j :: 0 <= j < i ==> !IsAggregateDirector(crew.value[j]))
        ==> DirectorOf(d) == crew.value[i].name
    ensures var crew := d.aggregateCredits.value.crew;
      (crew.None? || forall i :: 0 <= i < |crew.value| ==> !IsAggregateDirector(crew.value[i]))
        ==> DirectorOf(d) == None
  {
    var crew := d.aggregateCredits.value.crew;
    if crew.Some? {
      FindNone(crew.value, IsAggregateDirector);
      forall i | 0 <= i < |crew.value| && IsAggregateDirector(crew.value[i])
        && (forall j :: 0 <= j < i ==> !IsAggregateDirector(crew.value[j]))
        ensures DirectorOf(d) == crew.value[i].name
      {
        FindReturnsFirst(crew.value, IsAggregateDirector, i);
      }
    }
  }

  /** A record without credits of either shape names no director. */
  lemma NoCreditsNoDirector(d: Details)
    requires d.credits.None? && d.aggregateCredits.None?
    ensures DirectorOf(d) == None
  {
  }

  // ---------------------------------------------------------------------
  // getDirector without its cache: the lookup the cache memoises
  // ---------------------------------------------------------------------

  /** What fetching the details of an id of a kind resolves to. The
      lookup below is stated for any such function; the service's own is
      NameOf. */
  type Namer = (int, Kind) -> Option<string>

  /** `fetchDirector` against a service: the director of the detail record. */
  function NameOf(svc: Service): Namer
  {
    (id, kind) => DirectorOf(svc.details(id, kind))
  }

  /** The outcome of trying ids in turn: the first truthy name found, if
      any, and the requests issued on the way. */
  datatype Attempt = Attempt(found: Option<string>, trace: seq<Request>)

  /** No id of the list resolves to a non-empty name. */
  predicate NoneNamed(names: Namer, ids: seq<int>, kind: Kind)
  {
    forall k :: 0 <= k < |ids| ==> !Truthy(names(ids[k], kind))
  }

  /** The loop of getDirector over the movie ids: the ids are fetched
      in order, one detail request each, until one resolves to a truthy
      name. */
  function TryIds(names: Namer, ids: seq<int>, kind: Kind): (r: Attempt)
    ensures |r.trace| <= |ids|
    ensures r.found.None? ==> |r.trace| == |ids|
    ensures r.found.Some? ==> r.found.value != "" && r.trace != []
  {
    if ids == [] then Attempt(None, [])
    else if Truthy(names(ids[0], kind)) then Attempt(names(ids[0], kind), [Detail(ids[0], kind)])
    else
      var rest := TryIds(names, ids[1..], kind);
      Attempt(rest.found, [Detail(ids[0], kind)] + rest.trace)
  }

  /** When the loop finds nothing, no id resolved to a name. */
  lemma {:induction false} NothingFoundNoneNamed(names: Namer, ids: seq<int>, kind: Kind)
    requires TryIds(names, ids, kind).found.None?
    ensures NoneNamed(names, ids, kind)
  {
    if ids != [] {
      NothingFoundNoneNamed(names, ids[1..], kind);
      assert forall k :: 1 <= k < |ids| ==> ids[k] == ids[1..][k - 1];
    }
  }

  /** The loop stops at the first id that resolves to a name, and that
      name is the one found: no earlier id resolved to one. */
  lemma {:induction false} FoundIsFirstNamed(names: Namer, ids: seq<int>, kind: Kind)
    requires TryIds(names, ids, kind).found.Some?
    ensures var n := |TryIds(names, ids, kind).trace|;
      && NoneNamed(names, ids[..n - 1], kind)
      && TryIds(names, ids, kind).found == names(ids[n - 1], kind)
  {
    if !Truthy(names(ids[0], kind)) {
      var rest := TryIds(names, ids[1..], kind);
      var m := |rest.trace|;
      FoundIsFirstNamed(names, ids[1..], kind);
      assert |TryIds(names, ids, kind).trace| == m + 1;
      assert ids[..m] == [ids[0]] + ids[1..][..m - 1];
      NoneNamedCons(names, ids[0], ids[1..][..m - 1], kind);
      assert ids[m] == ids[1..][m - 1];
    }
  }

  lemma NoneNamedCons(names: Namer, id: int, ids: seq<int>, kind: Kind)
    requires !Truthy(names(id, kind)) && NoneNamed(names, ids, kind)
    ensures NoneNamed(names, [id] + ids, kind)
  {
    forall k | 0 <= k < |ids| + 1
      ensures !Truthy(names(([id] + ids)[k], kind))
    {
      if k > 0 {
        assert ([id] + ids)[k] == ids[k - 1];
      }
    }
  }

  /** Conversely, when no id resolves to a name the loop runs through all
      of them and finds nothing. */
  lemma {:induction false} NoneNamedNothingFound(names: Namer, ids: seq<int>, kind: Kind)
    requires NoneNamed(names, ids, kind)
    ensures TryIds(names, ids, kind).found.None?
  {
    if ids != [] {
      assert NoneNamed(names, ids[1..], kind) by {
        forall k | 0 <= k < |ids| - 1
          ensures !Truthy(names(ids[1..][k], kind))
        {
          assert ids[1..][k] == ids[k + 1];
        }
      }
      NoneNamedNothingFound(names, ids[1..], kind);
    }
  }

  /** Conversely, when `ids[i]` is the first id that resolves to a name,
      the loop stops right after fetching it, with its name. */
  lemma {:induction false} FirstNamedIsFound(names: Namer, ids: seq<int>, kind: Kind, i: nat)
    requires i < |ids| && NoneNamed(names, ids[..i], kind) && Truthy(names(ids[i], kind))
    ensures TryIds(names, ids, kind).found == names(ids[i], kind)
    ensures |TryIds(names, ids, kind).trace| == i + 1
  {
    if i > 0 {
      assert ids[1..][..i - 1] == ids[..i][1..];
      FirstNamedIsFound(names, ids[1..], kind, i - 1);
    }
  }

  /** One detail request per id, in order. */
  function DetailRequests(ids: seq<int>, kind: Kind): seq<Request>
  {
    seq(|ids|, k requires 0 <= k < |ids| => Detail(ids[k], kind))
  }

  lemma DetailRequestsSnoc(ids: seq<int>, i: nat, kind: Kind)
    requires i < |ids|
    ensures DetailRequests(ids[..i + 1], kind) == DetailRequests(ids[..i], kind) + [Detail(ids[i], kind)]
  {
  }

  /** The requests the loop issues are the detail requests of the ids it
      has fetched. */
  lemma {:induction false} TraceIsDetailRequests(names: Namer, ids: seq<int>, kind: Kind)
    ensures var r := TryIds(names, ids, kind);
      r.trace == DetailRequests(ids[..|r.trace|], kind)
  {
    if ids != [] && !Truthy(names(ids[0], kind)) {
      var rest := TryIds(names, ids[1..], kind);
      TraceIsDetailRequests(names, ids[1..], kind);
      assert ids[..|rest.trace| + 1] == [ids[0]] + ids[1..][..|rest.trace|];
    }
  }

  /** A detail request whose record yields a non-empty director name. */
  predicate Yields(names: Namer, q: Request)
  {
    q.Detail? && Truthy(names(q.id, q.kind))
  }

  predicate NoneYield(names: Namer, trace: seq<Request>)
  {
    forall k :: 0 <= k < |trace| ==> !Yields(names, trace[k])
  }

  /** NothingFoundNoneNamed and FoundIsFirstNamed, read on the requests
      issued rather than on the ids. */
  lemma TraceStopsAtFirstName(names: Namer, ids: seq<int>, kind: Kind)
    ensures var r := TryIds(names, ids, kind);
      r.found.None? ==> NoneYield(names, r.trace)
    ensures var r := TryIds(names, ids, kind);
      r.found.Some? ==>
        && NoneYield(names, r.trace[..|r.trace| - 1])
        && Yields(names, r.trace[|r.trace| - 1])
        && r.found == names(r.trace[|r.trace| - 1].id, kind)
  {
    var r := TryIds(names, ids, kind);
    var n := |r.trace|;
    TraceIsDetailRequests(names, ids, kind);
    if r.found.None? {
      NothingFoundNoneNamed(names, ids, kind);
      forall k | 0 <= k < n
        ensures !Yields(names, r.trace[k])
      {
        assert r.trace[k] == Detail(ids[k], kind);
      }
    } else {
      FoundIsFirstNamed(names, ids, kind);
      var front := r.trace[..n - 1];
      forall k | 0 <= k < n - 1
        ensures !Yields(names, front[k])
      {
        assert front[k] == Detail(ids[..n - 1][k], kind);
      }
      assert r.trace[n - 1] == Detail(ids[n - 1], kind);
    }
  }

  /** The TV fallback: one TV search, then the detail record of the first
      result, when there is one and its id is truthy. */
  function TvAttempt(svc: Service, names: Namer, title: string): (r: Attempt)
    ensures r.trace != [] && r.trace[0] == TvSearch(title)
    ensures r.found.Some? ==> r.found.value != ""
  {
    var hits := svc.searchTv(title);
    if hits != [] && hits[0].id != 0 then
      var name := names(hits[0].id, Tv);
      Attempt(if Truthy(name) then name else None, [TvSearch(title), Detail(hits[0].id, Tv)])
    else Attempt(None, [TvSearch(title)])
  }

  /** The name getDirector settles on and the requests it issues. */
  datatype Resolution = Resolution(name: string, trace: seq<Request>)

  /** getDirector on a cache miss: the movie ids in turn, then the TV
      fallback, then "Unknown". */
  function Resolve(svc: Service, names: Namer, title: string, year: string): (r: Resolution)
    ensures r.name != ""
    ensures r.trace != [] && r.trace[0] == MovieSearch(title, year)
  {
    var movie := TryIds(names, MovieIdsOf(svc.searchMovie(title, year), title), Movie);
    var movieTrace := [MovieSearch(title, year)] + movie.trace;
    if movie.found.Some? then Resolution(movie.found.value, movieTrace)
    else
      var tv := TvAttempt(svc, names, title);
      Resolution(if tv.found.Some? then tv.found.value else UnknownDirector, movieTrace + tv.trace)
  }

  /** First truthy name wins: the answer is the name of the last request,
      the first detail lookup that yielded a non-empty name, and it is
      "Unknown" when no detail lookup yielded one. */
  lemma FirstYieldWins(svc: Service, names: Namer, title: string, year: string)
    ensures var r := Resolve(svc, names, title, year);
      NoneYield(names, r.trace) ==> r.name == UnknownDirector
    ensures var r := Resolve(svc, names, title, year); var last := r.trace[|r.trace| - 1];
      !NoneYield(names, r.trace) ==>
        && NoneYield(names, r.trace[..|r.trace| - 1])
        && last.Detail?
        && names(last.id, last.kind) == Some(r.name)
  {
    var ids := MovieIdsOf(svc.searchMovie(title, year), title);
    var movie := TryIds(names, ids, Movie);
    var search := MovieSearch(title, year);
    TraceStopsAtFirstName(names, ids, Movie);
    if movie.found.Some? {
      var n := |movie.trace|;
      NoneYieldCons(names, search, movie.trace[..n - 1]);
      assert ([search] + movie.trace)[..n] == [search] + movie.trace[..n - 1];
    } else {
      NoneYieldCons(names, search, movie.trace);
      TvAttemptYields(svc, names, title, [search] + movie.trace);
    }
  }

  /** A request that yields nothing, in front of requests that yield
      nothing. */
  lemma NoneYieldCons(names: Namer, q: Request, trace: seq<Request>)
    requires !Yields(names, q) && NoneYield(names, trace)
    ensures NoneYield(names, [q] + trace)
  {
    forall k | 0 <= k < |trace| + 1
      ensures !Yields(names, ([q] + trace)[k])
    {
      if k > 0 {
        assert ([q] + trace)[k] == trace[k - 1];
      }
    }
  }

  /** The TV attempt appended to requests that yielded nothing. */
  lemma TvAttemptYields(svc: Service, names: Namer, title: string, sent: seq<Request>)
    requires NoneYield(names, sent)
    ensures var tv := TvAttempt(svc, names, title); var trace := sent + tv.trace;
      && (tv.found.None? ==> NoneYield(names, trace))
      && (tv.found.Some? ==>
            && NoneYield(names, trace[..|trace| - 1])
            && trace[|trace| - 1].Detail?
            && names(trace[|trace| - 1].id, trace[|trace| - 1].kind) == tv.found)
  {
    var tv := TvAttempt(svc, names, title);
    var trace := sent + tv.trace;
    if |tv.trace| == 2 {
      assert trace[..|trace| - 1] == sent + [TvSearch(title)];
    }
  }

  /** A title whose first exact movie match has a director is answered
      from the movie record alone: one search, one detail fetch, and no
      TV lookup. */
  lemma MovieNameSkipsTv(svc: Service, names: Namer, title: string, year: string, i: nat)
    requires FirstExact(svc.searchMovie(title, year), title, i)
    requires svc.searchMovie(title, year)[i].id != 0
    requires Truthy(names(svc.searchMovie(title, year)[i].id, Movie))
    ensures var id := svc.searchMovie(title, year)[i].id;
      Resolve(svc, names, title, year) == Resolution(names(id, Movie).value, [MovieSearch(title, year), Detail(id, Movie)])
  {
    FirstExactGivesId(svc.searchMovie(title, year), title, i);
  }

  /** The TV fallback is entered only when the movie path finds no name;
      then one TV search follows, only the first TV result is ever
      fetched, and the answer is its director or "Unknown". */
  lemma TvFallbackUsesFirstResult(svc: Service, names: Namer, title: string, year: string)
    ensures var r := Resolve(svc, names, title, year);
      forall k :: 0 <= k < |r.trace| && r.trace[k].Detail? && r.trace[k].kind == Tv ==>
        && TryIds(names, MovieIdsOf(svc.searchMovie(title, year), title), Movie).found.None?
        && k == |r.trace| - 1 && svc.searchTv(title) != [] && r.trace[k].id == svc.searchTv(title)[0].id
    ensures var r := Resolve(svc, names, title, year); var tv := svc.searchTv(title);
      TryIds(names, MovieIdsOf(svc.searchMovie(title, year), title), Movie).found.None? ==>
        r.name == (if tv != [] && tv[0].id != 0 && Truthy(names(tv[0].id, Tv))
                   then names(tv[0].id, Tv).value
                   else UnknownDirector)
  {
    var r := Resolve(svc, names, title, year);
    var ids := MovieIdsOf(svc.searchMovie(title, year), title);
    var movie := TryIds(names, ids, Movie);
    var front := [MovieSearch(title, year)] + movie.trace;
    MovieTraceIsMovie(names, ids);
    forall k | 0 <= k < |front|
      ensures !(front[k].Detail? && front[k].kind == Tv)
    {
      if 0 < k {
        assert front[k] == movie.trace[k - 1];
      }
    }
    if movie.found.Some? {
      assert r.trace == front;
    } else {
      var tv := TvAttempt(svc, names, title);
      assert r.trace == front + tv.trace;
      assert forall k :: 0 <= k < |front| ==> r.trace[k] == front[k];
      forall k | 0 <= k < |r.trace| && r.trace[k].Detail? && r.trace[k].kind == Tv
        ensures k == |r.trace| - 1 && svc.searchTv(title) != [] && r.trace[k].id == svc.searchTv(title)[0].id
      {
        assert k >= |front|;
        assert r.trace[k] == tv.trace[k - |front|];
      }
    }
  }

  /** The movie path only ever fetches movie records. */
  lemma MovieTraceIsMovie(names: Namer, ids: seq<int>)
    ensures var trace := TryIds(names, ids, Movie).trace;
      forall k :: 0 <= k < |trace| ==> trace[k] == Detail(ids[k], Movie)
  {
    var trace := TryIds(names, ids, Movie).trace;
    TraceIsDetailRequests(names, ids, Movie);
    forall k | 0 <= k < |trace|
      ensures trace[k] == Detail(ids[k], Movie)
    {
      assert trace[k] == DetailRequests(ids[..|trace|], Movie)[k];
    }
  }

  // ---------------------------------------------------------------------
  // The memo cache
  // ---------------------------------------------------------------------

  function CacheKey(title: string, year: string): string
  {
    title + "-" + year
  }

  /** Two different (title, year) pairs never share a cache key as long as
      neither year contains a dash: the year is what follows the key's
      last dash. */
  lemma {:induction false} CacheKeyInjective(t1: string, y1: string, t2: string, y2: string)
    requires '-' !in y1 && '-' !in y2
    ensures CacheKey(t1, y1) == CacheKey(t2, y2) <==> t1 == t2 && y1 == y2
  {
    var k1, k2 := CacheKey(t1, y1), CacheKey(t2, y2);
    if k1 == k2 {
      KeyEndsWithYear(t1, y1);
      KeyEndsWithYear(t2, y2);
      assert |y1| == |y2|;
      assert y1 == k1[|k1| - |y1|..] == k2[|k2| - |y2|..] == y2;
      assert t1 == k1[..|t1|] == k2[..|t2|] == t2;
    }
  }

  /** A key ends with a dash followed by a dash-free year. */
  lemma KeyEndsWithYear(title: string, year: string)
    requires '-' !in year
    ensures var key := CacheKey(title, year);
      key[|key| - |year| - 1] == '-' && forall i :: |key| - |year| <= i < |key| ==> key[i] != '-'
  {
    var key := CacheKey(title, year);
    forall i | |key| - |year| <= i < |key|
      ensures key[i] != '-'
    {
      assert key[i] == year[i - (|key| - |year|)];
    }
  }

  /** getDirector's answer for a cache state: the stored name on a hit,
      the looked-up one on a miss. */
  function Memo(cache: map<string, string>, svc: Service, title: string, year: string): string
  {
    var key := CacheKey(title, year);
    if key in cache then cache[key] else Resolve(svc, NameOf(svc), title, year).name
  }

  /** The module-level state of the resolver: the memo cache, and the log of
      requests sent to the service. */
  class Resolver {
    var cache: map<string, string>
    ghost var requests: seq<Request>

    /** Every memoised answer is a non-empty name. */
    ghost predicate Valid()
      reads this
    {
      forall k :: k in cache ==> cache[k] != ""
    }

    constructor ()
      ensures Valid() && cache == map[] && requests == []
    {
      cache := map[];
      requests := [];
    }

    /** `movieIds`: one movie search, then the exact-title selection. */
    method MovieIds(svc: Service, title: string, year: string) returns (ids: seq<int>)
      modifies this`requests
      ensures requests == old(requests) + [MovieSearch(title, year)]
      ensures ids == MovieIdsOf(svc.searchMovie(title, year), title)
    {
      requests := requests + [MovieSearch(title, year)];
      var results := svc.searchMovie(title, year);
      ids := SelectMovieIds(results, title);
    }

    /** `fetchDirector`: one detail fetch, then the crew selection. */
    method FetchDirector(svc: Service, id: int, kind: Kind) returns (name: Option<string>)
      modifies this`requests
      ensures requests == old(requests) + [Detail(id, kind)]
      ensures name == NameOf(svc)(id, kind)
    {
      requests := requests + [Detail(id, kind)];
      var data := svc.details(id, kind);
      name := DirectorOf(data);
    }

    /** The loop of `getDirector` over the movie ids: fetches the ids
        in order and stops at the first that yields a non-empty name,
        issuing exactly the detail requests TryIds describes. */
    method FetchFirstNamed(svc: Service, ids: seq<int>, kind: Kind) returns (found: Option<string>)
      modifies this`requests
      ensures found == TryIds(NameOf(svc), ids, kind).found
      ensures requests == old(requests) + TryIds(NameOf(svc), ids, kind).trace
    {
      ghost var names := NameOf(svc);
      var i := 0;
      while i < |ids|
        invariant 0 <= i <= |ids|
        invariant NoneNamed(names, ids[..i], kind)
        invariant requests == old(requests) + DetailRequests(ids[..i], kind)
      {
        var name := FetchDirector(svc, ids[i], kind);
        DetailRequestsSnoc(ids, i, kind);
        if Truthy(name) {
          FirstNamedIsFound(names, ids, kind, i);
          TraceIsDetailRequests(names, ids, kind);
          return name;
        }
        assert ids[..i + 1] == ids[..i] + [ids[i]];
        i := i + 1;
      }
      assert ids[..i] == ids;
      NoneNamedNothingFound(names, ids, kind);
      TraceIsDetailRequests(names, ids, kind);
      found := None;
    }

    /** The TV fallback of `getDirector`: one TV search and, when the first
        result has a truthy id, the detail fetch of that result. */
    method TryTv(svc: Service, title: string) returns (found: Option<string>)
      modifies this`requests
      ensures found == TvAttempt(svc, NameOf(svc), title).found
      ensures requests == old(requests) + TvAttempt(svc, NameOf(svc), title).trace
    {
      requests := requests + [TvSearch(title)];
      var tv := svc.searchTv(title);
      found := None;
      if tv != [] && tv[0].id != 0 {
        var name := FetchDirector(svc, tv[0].id, Tv);
        if Truthy(name) {
          found := name;
        }
      }
    }

    /** `getDirector`: answers a cached key without any request and
        without touching the cache; otherwise runs the lookup, issuing
        exactly its requests, and stores its answer under the key. */
    method GetDirector(svc: Service, title: string, year: string) returns (v: string)
      requires Valid()
      modifies this
      ensures Valid()
      ensures v != ""
      ensures v == Memo(old(cache), svc, title, year)
      ensures cache == old(cache)[CacheKey(title, year) := v]
      ensures CacheKey(title, year) in old(cache) ==> requests == old(requests)
      ensures CacheKey(title, year) !in old(cache) ==>
        requests == old(requests) + Resolve(svc, NameOf(svc), title, year).trace
    {
      var key := CacheKey(title, year);
      if key in cache {
        v := cache[key];
        return;
      }
      v := Lookup(svc, title, year);
      cache := cache[key := v];
    }

    /** The uncached body of `getDirector`: the movie ids in turn, then
        the TV fallback, then "Unknown". */
    method Lookup(svc: Service, title: string, year: string) returns (v: string)
      modifies this`requests
      ensures v == Resolve(svc, NameOf(svc), title, year).name
      ensures requests == old(requests) + Resolve(svc, NameOf(svc), title, year).trace
    {
      var ids := MovieIds(svc, title, year);
      var found := FetchFirstNamed(svc, ids, Movie);
      ghost var movieTrace := [MovieSearch(title, year)] + TryIds(NameOf(svc), ids, Movie).trace;
      AppendAssoc(old(requests), [MovieSearch(title, year)], TryIds(NameOf(svc), ids, Movie).trace);
      if found.Some? {
        return found.value;
      }
      found := TryTv(svc, title);
      AppendAssoc(old(requests), movieTrace, TvAttempt(svc, NameOf(svc), title).trace);
      v := if found.Some? then found.value else UnknownDirector;
    }
  }

  lemma AppendAssoc(a: seq<Request>, b: seq<Request>, c: seq<Request>)
    ensures a + b + c == a + (b + c)
  {
  }

  /** Asking twice for the same title and year gives the same answer and
      sends nothing the second time, even when the service answers
      differently by then. */
  method AskTwice(r: Resolver, svc1: Service, svc2: Service, title: string, year: string)
    returns (first: string, second: string)
    requires r.Valid()
    modifies r
    ensures r.Valid()
    ensures first == second && second != ""
    ensures CacheKey(title, year) in r.cache && r.cache[CacheKey(title, year)] == first
    ensures r.requests == old(r.requests) +
      (if CacheKey(title, year) in old(r.cache) then [] else Resolve(svc1, NameOf(svc1), title, year).trace)
  {
    first := r.GetDirector(svc1, title, year);
    second := r.GetDirector(svc2, title, year);
  }
}
