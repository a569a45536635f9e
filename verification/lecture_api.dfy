/** The `GET` handler of the lecture endpoint: validate the query, answer from the cache while
    fresh, otherwise plan the pages, fetch them slice by slice with retries, filter by batch,
    cache and answer. The network is a parameter: `pages(t)(k)` is what attempt `k` of the
    fetch of target `t` returned (`None` when it threw). */
module LectureApi {
  import opened Wrappers
  import opened Seqs
  import opened Extraction
  import opened Calendar
  import opened Retry
  import opened Scheduler
  import opened Plan
  import opened QueryCache

  /** The query string parameters the handler reads (`null` when absent). */
  datatype Query = Query(date: Option<string>, limit: Option<string>, batch: Option<string>, branch: Option<string>)

  /** What the handler answers: status 400, a cached or fresh list of lectures, or the
      exception `getOffsettedDate` throws. */
  datatype Response =
    | BadRequest
    | Hit(lectures: seq<Lecture>)
    | Miss(lectures: seq<Lecture>)
    | Crashed(error: DateError)

  /** The response and the cache after the request. */
  datatype Outcome = Outcome(response: Response, cache: Cache<Lecture>)

  type Pages = Target -> nat -> Option<seq<Row>>

  /** `fetchData` on attempt `k`: the page's records, or `None` when the request threw. */
  function Attempt(pages: Pages, t: Target): nat -> Option<seq<Lecture>> {
    (k: nat) => match pages(t)(k)
      case Some(rows) => Some(ExtractRows(rows, t.branch, t.offset))
      case None => None
  }

  /** `fetchDataWithRetry(url, branch, offset)` with its default three attempts. */
  function FetchTarget(pages: Pages): Target -> seq<Lecture> {
    t => RetryAll(Attempt(pages, t), DefaultRetries).value
  }

  /** A batch filter is given: the parameter is present and not empty. */
  predicate Given(s: Option<string>) {
    s.Some? && s.value != ""
  }

  /** `batch ? results.filter((l) => l.batch && l.batch.includes(batch)) : results`: the batch
      must be one of a lecture's batch codes, compared whole. */
  function BatchFilter(batch: Option<string>, ls: seq<Lecture>): (r: seq<Lecture>)
    ensures !Given(batch) ==> r == ls
    ensures Given(batch) ==> forall i :: 0 <= i < |r| ==> batch.value in r[i].batch && r[i] in ls
    ensures Given(batch) ==> forall i :: 0 <= i < |ls| && batch.value in ls[i].batch ==> ls[i] in r
    ensures Given(batch) ==> forall l :: multiset(r)[l] == if batch.value in l.batch then multiset(ls)[l] else 0
    ensures IsSubsequence(r, ls)
  {
    if !Given(batch) then
      SubsequenceSelf(ls);
      ls
    else
      var r := Filter((l: Lecture) => batch.value in l.batch, ls);
      assert forall i :: 0 <= i < |r| ==> multiset(r)[r[i]] > 0;
      assert forall i :: 0 <= i < |ls| ==> multiset(ls)[ls[i]] > 0;
      r
  }

  /** The cache key of a query whose date is present. */
  function KeyOf(q: Query): string
    requires Given(q.date)
  {
    CacheKey(q.date.value, DayLimit(q.limit), q.batch, q.branch)
  }

  /** The lectures of a fresh fetch: every planned page fetched, flattened in plan order,
      filtered by batch. */
  function Fetched(q: Query, plan: seq<Target>, pages: Pages): seq<Lecture> {
    BatchFilter(q.batch, FlatMap(FetchTarget(pages), plan))
  }

  /** The handler: `now` is the clock when the cache is consulted, `doneAt` when the fresh
      response is stored, and `legacyYears` whether the start date's years 0 to 99 read as
      1900 to 1999 (they do in the handler as written). It answers 400 exactly when the date
      is missing or empty, and only a fresh answer changes the cache, storing itself under
      the query's key. */
  function Handle(q: Query, cache: Cache<Lecture>, now: int, pages: Pages, doneAt: int, legacyYears: bool): (o: Outcome)
    ensures o.response.BadRequest? <==> !Given(q.date)
    ensures !o.response.Miss? ==> o.cache == cache
    ensures o.response.Miss? ==> Given(q.date) && KeyOf(q) in o.cache && o.cache[KeyOf(q)] == Entry(o.response.lectures, doneAt)
  {
    if !Given(q.date) then Outcome(BadRequest, cache)
    else
      match Lookup(cache, KeyOf(q), now)
      case Some(data) => Outcome(Hit(data), cache)
      case None =>
        match RequestPlan(q.date.value, DayLimit(q.limit), q.branch, legacyYears)
        case Failure(e) => Outcome(Crashed(e), cache)
        case Success(plan) =>
          var data := Fetched(q, plan, pages);
          Outcome(Miss(data), Store(cache, KeyOf(q), data, doneAt))
  }

  /** With a date, the handler answers from the cache exactly when the entry under the query's
      key is younger than five minutes, and then returns it unchanged without storing anything. */
  lemma {:induction false} HitIffFresh(q: Query, cache: Cache<Lecture>, now: int, pages: Pages, doneAt: int, legacyYears: bool)
    requires Given(q.date)
    ensures Handle(q, cache, now, pages, doneAt, legacyYears).response.Hit? <==>
      KeyOf(q) in cache && now - cache[KeyOf(q)].timestamp < CacheDuration
    ensures Handle(q, cache, now, pages, doneAt, legacyYears).response.Hit? ==>
      && Handle(q, cache, now, pages, doneAt, legacyYears).response.lectures == cache[KeyOf(q)].data
      && Handle(q, cache, now, pages, doneAt, legacyYears).cache == cache
  {
  }

  /** After a miss, the same query within five minutes of the store is a hit with the same
      lectures, whatever the network does meanwhile. */
  lemma {:induction false} RepeatWithinDurationHits(q: Query, cache: Cache<Lecture>, now: int, pages: Pages, doneAt: int, legacyYears: bool,
                                                    later: int, pages2: Pages, doneAt2: int)
    requires Handle(q, cache, now, pages, doneAt, legacyYears).response.Miss?
    requires later - doneAt < CacheDuration
    ensures var first := Handle(q, cache, now, pages, doneAt, legacyYears);
      Handle(q, first.cache, later, pages2, doneAt2, legacyYears).response == Hit(first.response.lectures)
  {
    StoreThenLookup(cache, KeyOf(q), Handle(q, cache, now, pages, doneAt, legacyYears).response.lectures, doneAt, later);
  }

  /** A miss stores its answer under the query's key and touches no other key. */
  lemma {:induction false} MissStores(q: Query, cache: Cache<Lecture>, now: int, pages: Pages, doneAt: int, legacyYears: bool)
    requires Handle(q, cache, now, pages, doneAt, legacyYears).response.Miss?
    ensures var o := Handle(q, cache, now, pages, doneAt, legacyYears);
      && o.cache.Keys == cache.Keys + {KeyOf(q)}
      && o.cache[KeyOf(q)] == Entry(o.response.lectures, doneAt)
      && forall k :: k in cache && k != KeyOf(q) ==> o.cache[k] == cache[k]
  {
  }

  /** The handler crashes exactly when, on a miss, some planned day has no date. */
  lemma {:induction false} CrashIffDateFails(q: Query, cache: Cache<Lecture>, now: int, pages: Pages, doneAt: int, legacyYears: bool)
    requires Given(q.date) && Lookup(cache, KeyOf(q), now).None?
    ensures Handle(q, cache, now, pages, doneAt, legacyYears).response.Crashed? <==>
      exists i :: 0 <= i < DayCount(DayLimit(q.limit)) && OffsettedDateWith(q.date.value, i, legacyYears).Failure?
  {
    RequestPlanShape(q.date.value, DayLimit(q.limit), q.branch, legacyYears);
  }

  /** Every lecture fetched for a target carries the target's offset and (trimmed) branch. */
  lemma {:induction false} FetchTargetTags(pages: Pages, t: Target, l: Lecture)
    requires l in FetchTarget(pages)(t)
    ensures l.offset == t.offset && l.properties.branch == Text.Trim(t.branch)
  {
    var outcome := Attempt(pages, t);
    RetryValue(outcome, DefaultRetries, 0);
    var k: nat :| k < DefaultRetries && outcome(k) == Some(FetchTarget(pages)(t));
    var ls := ExtractRows(pages(t)(k).value, t.branch, t.offset);
    var m :| 0 <= m < |ls| && ls[m] == l;
  }

  /** Every lecture of a fresh answer comes from a planned page: its offset is a planned day,
      its branch a selected branch's name (trimmed), and it carries the requested batch. */
  lemma {:induction false} MissLectures(q: Query, cache: Cache<Lecture>, now: int, pages: Pages, doneAt: int, legacyYears: bool, l: Lecture)
    requires Handle(q, cache, now, pages, doneAt, legacyYears).response.Miss?
    requires l in Handle(q, cache, now, pages, doneAt, legacyYears).response.lectures
    ensures l.offset < DayCount(DayLimit(q.limit))
    ensures exists b :: b in SelectBranches(q.branch) && l.properties.branch == Text.Trim(b.name)
    ensures Given(q.batch) ==> q.batch.value in l.batch
  {
    var plan := RequestPlan(q.date.value, DayLimit(q.limit), q.branch, legacyYears).value;
    var results := FlatMap(FetchTarget(pages), plan);
    assert Handle(q, cache, now, pages, doneAt, legacyYears).response.lectures == BatchFilter(q.batch, results);
    MissResult(q, plan, pages, legacyYears, l);
  }

  lemma {:induction false} MissResult(q: Query, plan: seq<Target>, pages: Pages, legacyYears: bool, l: Lecture)
    requires Given(q.date) && RequestPlan(q.date.value, DayLimit(q.limit), q.branch, legacyYears) == Success(plan)
    requires l in BatchFilter(q.batch, FlatMap(FetchTarget(pages), plan))
    ensures l.offset < DayCount(DayLimit(q.limit))
    ensures exists b :: b in SelectBranches(q.branch) && l.properties.branch == Text.Trim(b.name)
    ensures Given(q.batch) ==> q.batch.value in l.batch
  {
    var date := q.date.value;
    var n := DayCount(DayLimit(q.limit));
    var bs := SelectBranches(q.branch);
    var results := FlatMap(FetchTarget(pages), plan);
    var r := BatchFilter(q.batch, results);
    var i :| 0 <= i < |r| && r[i] == l;
    assert l in results;
    FlatMapMember(FetchTarget(pages), plan, l);
    var p :| 0 <= p < |plan| && l in FetchTarget(pages)(plan[p]);
    var t := plan[p];
    FetchTargetTags(pages, t, l);
    RequestPlanShape(date, DayLimit(q.limit), q.branch, legacyYears);
    assert Planned(DatesFrom(date, legacyYears), 0, n, bs, t);
    var j :| 0 <= j < |bs| && t == Target(TargetUrl(bs[j].keyword, DatesFrom(date, legacyYears)(t.offset).value), bs[j].name, t.offset);
    assert bs[j] in bs;
  }

  /** A batch filter named `all` is read back as the unfiltered answer of the same date and
      limit stored less than five minutes earlier: the two queries share a cache key. */
  lemma {:induction false} AllBatchReadsUnfiltered(q: Query, cache: Cache<Lecture>, now: int, pages: Pages, doneAt: int, legacyYears: bool,
                                                   all: string, later: int, pages2: Pages, doneAt2: int)
    requires all == AllText && q.batch.None?
    requires Handle(q, cache, now, pages, doneAt, legacyYears).response.Miss?
    requires later - doneAt < CacheDuration
    ensures var first := Handle(q, cache, now, pages, doneAt, legacyYears);
      var qAll := q.(batch := Some(all));
      Handle(qAll, first.cache, later, pages2, doneAt2, legacyYears).response == Hit(first.response.lectures)
  {
    var qAll := q.(batch := Some(all));
    AllCollides(q.date.value, DayLimit(q.limit), all);
    assert KeyOf(qAll) == KeyOf(q);
    RepeatWithinDurationHits(q, cache, now, pages, doneAt, legacyYears, later, pages2, doneAt2);
  }

  /** The handler as it runs: the plan fetched in slices of three with a pause between slices.
      Its answer and cache are those of `Handle`. */
  method Get(q: Query, cache: Cache<Lecture>, now: int, pages: Pages, doneAt: int, legacyYears: bool) returns (o: Outcome, pauses: nat)
    ensures o == Handle(q, cache, now, pages, doneAt, legacyYears)
    ensures o.response.Miss? ==>
      var plan := RequestPlan(q.date.value, DayLimit(q.limit), q.branch, legacyYears).value;
      pauses == if |plan| == 0 then 0 else |Slices(plan)| - 1
    ensures !o.response.Miss? ==> pauses == 0
  {
    pauses := 0;
    if !Given(q.date) {
      return Outcome(BadRequest, cache), 0;
    }
    var key := KeyOf(q);
    var cached := Lookup(cache, key, now);
    if cached.Some? {
      return Outcome(Hit(cached.value), cache), 0;
    }
    var planned := RequestPlan(q.date.value, DayLimit(q.limit), q.branch, legacyYears);
    if planned.Failure? {
      return Outcome(Crashed(planned.error), cache), 0;
    }
    var results;
    results, pauses := RunPlan(planned.value, FetchTarget(pages));
    var data := BatchFilter(q.batch, results);
    o := Outcome(Miss(data), Store(cache, key, data, doneAt));
  }
}
