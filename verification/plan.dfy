/** The request plan of the lecture handler: one timetable page per (day, branch) pair, days
    in order and, within a day, branches in table order. */
module Plan {
  import opened Wrappers
  import opened Seqs
  import opened Text
  import opened Numbers
  import opened Calendar

  /** A campus: the `wing` keyword the timetable site uses and the name the API reports. */
  datatype Branch = Branch(keyword: string, name: string)

  /** `SUPPORTED_BRANCHES`, in table order. */
  const SupportedBranches: seq<Branch> := [
    Branch("CO", "SOC"),
    Branch("NIC", "NIC"),
    Branch("RJ", "SOB"),
    Branch("KD", "KD"),
    Branch("KIC", "KIC")
  ]

  /** `SCRAPE_URL`. */
  const ScrapeUrl: string := "https://lms.nibmworldwide.com/mod/nibm/display.php"

  /** One page to fetch: its URL, the branch name its lectures are tagged with, and the
      day offset from the requested date. */
  datatype Target = Target(url: string, branch: string, offset: nat)

  /** The timetable page of one campus on one date. */
  function TargetUrl(keyword: string, date: string): string {
    ScrapeUrl + "?wing=" + keyword + "&date=" + date
  }

  /** No two supported branches share a name (so a name filter picks at most one). */
  lemma {:induction false} BranchNamesUnique()
    ensures forall i, j :: 0 <= i < j < |SupportedBranches| ==> SupportedBranches[i].name != SupportedBranches[j].name
  {
  }

  /** `branchFilter ? SUPPORTED_BRANCHES.filter((b) => b.name === branchFilter) : SUPPORTED_BRANCHES`:
      an absent or empty filter is falsy and keeps every branch. */
  function SelectBranches(filter: Option<string>): (bs: seq<Branch>)
    ensures filter.None? || filter.value == "" ==> bs == SupportedBranches
    ensures filter.Some? && filter.value != "" ==>
      && (forall i :: 0 <= i < |bs| ==> bs[i].name == filter.value && bs[i] in SupportedBranches)
      && (forall i :: 0 <= i < |SupportedBranches| && SupportedBranches[i].name == filter.value ==> SupportedBranches[i] in bs)
    ensures IsSubsequence(bs, SupportedBranches)
  {
    SelectFrom(filter, SupportedBranches)
  }

  /** The name filter over any branch table. */
  function SelectFrom(filter: Option<string>, table: seq<Branch>): (bs: seq<Branch>)
    ensures filter.None? || filter.value == "" ==> bs == table
    ensures filter.Some? && filter.value != "" ==>
      && (forall i :: 0 <= i < |bs| ==> bs[i].name == filter.value && bs[i] in table)
      && (forall i :: 0 <= i < |table| && table[i].name == filter.value ==> table[i] in bs)
    ensures IsSubsequence(bs, table)
  {
    if filter.None? || filter.value == "" then
      SubsequenceSelf(table);
      table
    else
      var bs := Filter((b: Branch) => b.name == filter.value, table);
      assert forall i :: 0 <= i < |bs| ==> multiset(bs)[bs[i]] > 0;
      assert forall i :: 0 <= i < |table| ==> multiset(table)[table[i]] > 0;
      bs
  }

  /** A name that is no branch selects nothing: the plan then fetches no page. */
  lemma {:induction false} SelectUnknownBranch(f: string)
    requires f != "" && forall i :: 0 <= i < |SupportedBranches| ==> SupportedBranches[i].name != f
    ensures SelectBranches(Some(f)) == []
  {
    var bs := SelectBranches(Some(f));
    if |bs| > 0 {
      assert false;
    }
  }

  /** The name of a supported branch selects that branch alone. */
  lemma {:induction false} SelectKnownBranch(j: nat)
    requires j < |SupportedBranches|
    ensures SelectBranches(Some(SupportedBranches[j].name)) == [SupportedBranches[j]]
  {
    var name := SupportedBranches[j].name;
    BranchNamesUnique();
    FilterSingle((b: Branch) => b.name == name, SupportedBranches, j);
  }

  /** The plan's length: five pages a day without a filter, one a day for a supported
      branch's name, none for any other name. */
  lemma {:induction false} PlanLength(date: string, dayLimit: Option<int>, branchFilter: Option<string>, legacyYears: bool)
    requires RequestPlan(date, dayLimit, branchFilter, legacyYears).Success?
    ensures branchFilter.None? ==> |RequestPlan(date, dayLimit, branchFilter, legacyYears).value| == DayCount(dayLimit) * 5
    ensures forall j :: 0 <= j < |SupportedBranches| && branchFilter == Some(SupportedBranches[j].name) ==>
      |RequestPlan(date, dayLimit, branchFilter, legacyYears).value| == DayCount(dayLimit)
    ensures (&& branchFilter.Some? && branchFilter.value != ""
             && forall j :: 0 <= j < |SupportedBranches| ==> SupportedBranches[j].name != branchFilter.value)
      ==> RequestPlan(date, dayLimit, branchFilter, legacyYears).value == []
  {
    var n := DayCount(dayLimit);
    var bs := SelectBranches(branchFilter);
    assert |RequestPlan(date, dayLimit, branchFilter, legacyYears).value| == n * |bs|;
    forall j | 0 <= j < |SupportedBranches| && branchFilter == Some(SupportedBranches[j].name)
      ensures |bs| == 1
    {
      SelectKnownBranch(j);
    }
    if && branchFilter.Some? && branchFilter.value != ""
       && forall j :: 0 <= j < |SupportedBranches| ==> SupportedBranches[j].name != branchFilter.value
    {
      SelectUnknownBranch(branchFilter.value);
    }
  }

  /** The targets of one day, one per branch in order, all with the day's date and offset. */
  function DayTargets(date: string, branches: seq<Branch>, offset: nat): (ts: seq<Target>)
    ensures |ts| == |branches|
    ensures forall j :: 0 <= j < |ts| ==> ts[j] == Target(TargetUrl(branches[j].keyword, date), branches[j].name, offset)
  {
    Map((b: Branch) => Target(TargetUrl(b.keyword, date), b.name, offset), branches)
  }

  /** The number of days the loop `for (let i = 0; i < day_limit; i++)` runs: a NaN or
      non-positive limit runs it zero times. */
  function DayCount(dayLimit: Option<int>): (n: nat)
    ensures dayLimit.Some? && dayLimit.value > 0 ==> n == dayLimit.value
    ensures dayLimit.None? || dayLimit.value <= 0 ==> n == 0
  {
    if dayLimit.Some? && dayLimit.value > 0 then dayLimit.value else 0
  }

  /** `parseInt(url.searchParams.get("limit") ?? "3")`: an absent limit is 3, an empty one NaN. */
  function DayLimit(limit: Option<string>): Option<int> {
    ParseInt(limit.GetOr(DefaultDayLimit))
  }

  /** The `limit` used when the parameter is absent. */
  const DefaultDayLimit: string := "3"

  /** The plan for days `k .. days - 1`, day `i` falling on `dateAt(i)`; a day whose date
      cannot be computed makes the whole handler throw. */
  function PlanFrom(dateAt: nat -> Result<string, DateError>, k: nat, days: nat, branches: seq<Branch>): (r: Result<seq<Target>, DateError>)
    ensures r.Success? <==> forall i :: k <= i < days ==> dateAt(i).Success?
    ensures r.Success? ==> |r.value| == (if k < days then days - k else 0) * |branches|
    decreases days - k
  {
    if k >= days then Success([])
    else
      match dateAt(k)
      case Failure(e) => Failure(e)
      case Success(d) =>
        match PlanFrom(dateAt, k + 1, days, branches)
        case Failure(e) => Failure(e)
        case Success(rest) =>
          assert (days - k) * |branches| == |branches| + (days - (k + 1)) * |branches|;
          Success(DayTargets(d, branches, k) + rest)
  }

  /** The date of day `i`: `getOffsettedDate(date, i)`. With `legacyYears` the start date's
      years 0 to 99 read as 1900 to 1999, as the date constructor the code calls does; without
      it every year reads as written. */
  function DatesFrom(date: string, legacyYears: bool): nat -> Result<string, DateError> {
    i => OffsettedDateWith(date, i, legacyYears)
  }

  /** The request plan the handler builds before fetching anything: it exists exactly when
      every planned day has a date, and then holds one target per (day, selected branch). */
  function RequestPlan(date: string, dayLimit: Option<int>, branchFilter: Option<string>, legacyYears: bool): (r: Result<seq<Target>, DateError>)
    ensures r.Success? <==> forall i :: 0 <= i < DayCount(dayLimit) ==> OffsettedDateWith(date, i, legacyYears).Success?
    ensures r.Success? ==> |r.value| == DayCount(dayLimit) * |SelectBranches(branchFilter)|
  {
    var dates := DatesFrom(date, legacyYears);
    assert forall i :: 0 <= i < DayCount(dayLimit) ==> dates(i) == OffsettedDateWith(date, i, legacyYears);
    PlanFrom(dates, 0, DayCount(dayLimit), SelectBranches(branchFilter))
  }

  /** `t` fetches one of the days `k .. days - 1` for one of `branches`, at that day's date. */
  predicate Planned(dateAt: nat -> Result<string, DateError>, k: nat, days: nat, branches: seq<Branch>, t: Target) {
    && k <= t.offset < days
    && dateAt(t.offset).Success?
    && exists j :: 0 <= j < |branches| && t == Target(TargetUrl(branches[j].keyword, dateAt(t.offset).value), branches[j].name, t.offset)
  }

  /** Every target names a planned day `i`, its computed date and one of the selected branches. */
  lemma {:induction false} PlanTargets(dateAt: nat -> Result<string, DateError>, k: nat, days: nat, branches: seq<Branch>)
    requires PlanFrom(dateAt, k, days, branches).Success?
    ensures forall p :: 0 <= p < |PlanFrom(dateAt, k, days, branches).value| ==>
      Planned(dateAt, k, days, branches, PlanFrom(dateAt, k, days, branches).value[p])
    decreases days - k
  {
    if k < days {
      PlanTargets(dateAt, k + 1, days, branches);
      var d := dateAt(k).value;
      var rest := PlanFrom(dateAt, k + 1, days, branches).value;
      var ts := DayTargets(d, branches, k);
      assert PlanFrom(dateAt, k, days, branches).value == ts + rest;
      forall p | 0 <= p < |ts + rest|
        ensures Planned(dateAt, k, days, branches, (ts + rest)[p])
      {
        if p < |ts| {
          assert (ts + rest)[p] == ts[p];
          assert ts[p] == Target(TargetUrl(branches[p].keyword, d), branches[p].name, k);
        } else {
          assert (ts + rest)[p] == rest[p - |ts|];
        }
      }
    }
  }

  /** Every planned day pairs with every selected branch. */
  lemma {:induction false} PlanComplete(dateAt: nat -> Result<string, DateError>, k: nat, days: nat, branches: seq<Branch>, i: nat, j: nat)
    requires PlanFrom(dateAt, k, days, branches).Success?
    requires k <= i < days && j < |branches|
    ensures Target(TargetUrl(branches[j].keyword, dateAt(i).value), branches[j].name, i) in PlanFrom(dateAt, k, days, branches).value
    decreases days - k
  {
    var d := dateAt(k).value;
    var ts := DayTargets(d, branches, k);
    var rest := PlanFrom(dateAt, k + 1, days, branches);
    assert PlanFrom(dateAt, k, days, branches).value == ts + rest.value;
    if i == k {
      assert ts[j] in ts + rest.value;
    } else {
      PlanComplete(dateAt, k + 1, days, branches, i, j);
    }
  }

  /** Where day `day`'s target for the `j`-th of `width` branches sits in a plan. */
  function Slot(day: nat, width: nat, j: nat): nat {
    day * width + j
  }

  /** The target at position `(i - k) * |branches| + j` fetches day `i` for branch `j`:
      the plan is day-major, and within a day follows the order of `branches`. */
  lemma {:induction false} PlanAt(dateAt: nat -> Result<string, DateError>, k: nat, days: nat, branches: seq<Branch>, i: nat, j: nat)
    requires PlanFrom(dateAt, k, days, branches).Success?
    requires k <= i < days && j < |branches|
    ensures Slot(i - k, |branches|, j) < |PlanFrom(dateAt, k, days, branches).value|
    ensures PlanFrom(dateAt, k, days, branches).value[Slot(i - k, |branches|, j)] ==
      Target(TargetUrl(branches[j].keyword, dateAt(i).value), branches[j].name, i)
    decreases days - k
  {
    var d := dateAt(k).value;
    var ts := DayTargets(d, branches, k);
    var rest := PlanFrom(dateAt, k + 1, days, branches).value;
    assert PlanFrom(dateAt, k, days, branches).value == ts + rest;
    if i == k {
      assert (ts + rest)[j] == ts[j];
    } else {
      PlanAt(dateAt, k + 1, days, branches, i, j);
      var p := Slot(i - (k + 1), |branches|, j);
      NextDaySlot(i - (k + 1), |branches|, j);
      assert (ts + rest)[|ts| + p] == rest[p];
    }
  }

  /** `PlanAt` for a whole plan, which starts at day 0, with day `i`'s date named `d`. */
  lemma {:induction false} PlanSlot(dateAt: nat -> Result<string, DateError>, days: nat, branches: seq<Branch>, i: nat, j: nat, d: string)
    requires PlanFrom(dateAt, 0, days, branches).Success?
    requires i < days && j < |branches| && dateAt(i) == Success(d)
    ensures Slot(i, |branches|, j) < |PlanFrom(dateAt, 0, days, branches).value|
    ensures PlanFrom(dateAt, 0, days, branches).value[Slot(i, |branches|, j)] ==
      Target(TargetUrl(branches[j].keyword, d), branches[j].name, i)
  {
    PlanAt(dateAt, 0, days, branches, i, j);
  }

  /** Skipping one day of `width` targets moves a position by `width`. */
  lemma NextDaySlot(d: nat, width: nat, j: nat)
    ensures Slot(d + 1, width, j) == width + Slot(d, width, j)
  {
  }

  /** Targets are ordered day by day: offsets never decrease along the plan. */
  lemma {:induction false} PlanDayMajor(dateAt: nat -> Result<string, DateError>, k: nat, days: nat, branches: seq<Branch>)
    requires PlanFrom(dateAt, k, days, branches).Success?
    ensures forall p, q :: 0 <= p < q < |PlanFrom(dateAt, k, days, branches).value| ==>
      PlanFrom(dateAt, k, days, branches).value[p].offset <= PlanFrom(dateAt, k, days, branches).value[q].offset
    decreases days - k
  {
    if k < days {
      PlanDayMajor(dateAt, k + 1, days, branches);
      PlanTargets(dateAt, k + 1, days, branches);
      var d := dateAt(k).value;
      var ts := DayTargets(d, branches, k);
      var rest := PlanFrom(dateAt, k + 1, days, branches).value;
      assert forall p :: 0 <= p < |rest| ==> Planned(dateAt, k + 1, days, branches, rest[p]);
      var all := ts + rest;
      assert PlanFrom(dateAt, k, days, branches).value == all;
      forall p, q | 0 <= p < q < |all|
        ensures all[p].offset <= all[q].offset
      {
        if q < |ts| {
        } else if p < |ts| {
          assert all[q] == rest[q - |ts|];
        } else {
          assert all[p] == rest[p - |ts|] && all[q] == rest[q - |ts|];
        }
      }
    }
  }

  /** A NaN, zero or negative day limit plans nothing, whatever the date says. */
  lemma {:induction false} NoDaysNoPlan(date: string, dayLimit: Option<int>, branchFilter: Option<string>, legacyYears: bool)
    requires dayLimit.None? || dayLimit.value <= 0
    ensures RequestPlan(date, dayLimit, branchFilter, legacyYears) == Success([])
  {
  }

  /** An empty `limit` parameter is NaN, not the default of three days. */
  lemma {:induction false} EmptyLimitIsNaN(empty: string)
    requires empty == ""
    ensures DayLimit(Some(empty)) == None
  {
    assert TrimStart(empty) == empty;
  }

  /** An absent `limit` parameter plans three days. */
  lemma {:induction false} DefaultLimitIsThree()
    ensures DayLimit(None) == Some(3)
  {
    assert NumberToString(Some(3)) == DefaultDayLimit;
    ParseIntOfString(3);
  }

  /** The handler's plan: it exists exactly when every planned day has a date; it then holds
      one target per (day, selected branch) pair, ordered day by day. */
  lemma {:induction false} RequestPlanShape(date: string, dayLimit: Option<int>, branchFilter: Option<string>, legacyYears: bool)
    ensures RequestPlan(date, dayLimit, branchFilter, legacyYears).Success? <==>
      forall i :: 0 <= i < DayCount(dayLimit) ==> OffsettedDateWith(date, i, legacyYears).Success?
    ensures RequestPlan(date, dayLimit, branchFilter, legacyYears).Success? ==>
      var plan := RequestPlan(date, dayLimit, branchFilter, legacyYears).value;
      && |plan| == DayCount(dayLimit) * |SelectBranches(branchFilter)|
      && (forall p :: 0 <= p < |plan| ==> Planned(DatesFrom(date, legacyYears), 0, DayCount(dayLimit), SelectBranches(branchFilter), plan[p]))
      && (forall p, q :: 0 <= p < q < |plan| ==> plan[p].offset <= plan[q].offset)
  {
    var dates := DatesFrom(date, legacyYears);
    var n := DayCount(dayLimit);
    var bs := SelectBranches(branchFilter);
    if PlanFrom(dates, 0, n, bs).Success? {
      PlanTargets(dates, 0, n, bs);
      PlanDayMajor(dates, 0, n, bs);
    }
  }

  /** Where each target sits in the handler's plan: day `i`'s target for the `j`-th selected
      branch is at position `i * |branches| + j`, at that day's computed date. */
  lemma {:induction false} RequestPlanAt(date: string, dayLimit: Option<int>, branchFilter: Option<string>, legacyYears: bool, i: nat, j: nat)
    requires RequestPlan(date, dayLimit, branchFilter, legacyYears).Success?
    requires i < DayCount(dayLimit) && j < |SelectBranches(branchFilter)|
    ensures Slot(i, |SelectBranches(branchFilter)|, j) < |RequestPlan(date, dayLimit, branchFilter, legacyYears).value|
    ensures var b := SelectBranches(branchFilter)[j];
      RequestPlan(date, dayLimit, branchFilter, legacyYears).value[Slot(i, |SelectBranches(branchFilter)|, j)] ==
        Target(TargetUrl(b.keyword, OffsettedDateWith(date, i, legacyYears).value), b.name, i)
  {
    var d := OffsettedDateWith(date, i, legacyYears).value;
    PlanSlot(DatesFrom(date, legacyYears), DayCount(dayLimit), SelectBranches(branchFilter), i, j, d);
  }

  /** A start date that does not parse makes the handler throw as soon as one day is planned. */
  lemma {:induction false} MalformedDateFails(date: string, dayLimit: Option<int>, branchFilter: Option<string>, legacyYears: bool)
    requires StartDay(date, legacyYears).None? && DayCount(dayLimit) > 0
    ensures RequestPlan(date, dayLimit, branchFilter, legacyYears).Failure?
  {
    OffsetInvalidStart(date, 0, legacyYears);
  }

  /** The first day's targets fetch the requested date itself when it is canonical, under
      either reading of the year as long as it is 100 or later. */
  lemma {:induction false} FirstDayIsRequestedDate(date: string, dayLimit: Option<int>, branchFilter: Option<string>, legacyYears: bool, j: nat)
    requires IsIsoDate(date) && (!legacyYears || DateOf(date).year >= 100)
    requires RequestPlan(date, dayLimit, branchFilter, legacyYears).Success?
    requires DayCount(dayLimit) > 0 && j < |SelectBranches(branchFilter)|
    ensures var b := SelectBranches(branchFilter)[j];
      Target(TargetUrl(b.keyword, date), b.name, 0) in RequestPlan(date, dayLimit, branchFilter, legacyYears).value
  {
    OffsetZeroWith(date, legacyYears);
    PlanComplete(DatesFrom(date, legacyYears), 0, DayCount(dayLimit), SelectBranches(branchFilter), 0, j);
  }

  /** As written, a start date in the years 0 to 99 fetches its first day nineteen hundred
      years later: `0024-02-28` plans targets dated `1924-02-28`. */
  lemma {:induction false} FirstDayTwoDigitYear(date: string, fetched: string, dayLimit: Option<int>, branchFilter: Option<string>, j: nat)
    requires date == "0024-02-28" && fetched == "1924-02-28"
    requires RequestPlan(date, dayLimit, branchFilter, true).Success?
    requires DayCount(dayLimit) > 0 && j < |SelectBranches(branchFilter)|
    ensures var b := SelectBranches(branchFilter)[j];
      Target(TargetUrl(b.keyword, fetched), b.name, 0) in RequestPlan(date, dayLimit, branchFilter, true).value
  {
    TwoDigitYearShift(date, fetched);
    PlanComplete(DatesFrom(date, true), 0, DayCount(dayLimit), SelectBranches(branchFilter), 0, j);
  }
}
