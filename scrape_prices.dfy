/** The scrape run of `ScrapePrices.py`: which catalog items are due, the
    per-item retry schedule, and the merge of scraped prices back into the
    catalog. The browser is an oracle (one outcome per attempt), the clock a
    `now` parameter, and `asyncio.gather` a sequential map whose results come
    back in task order. */
module ScrapePrices {
  import opened Records
  import opened Timestamps

  const SetKey := "Set"
  const LinkKey := "Link"
  const PriceKey := "Current Price"
  const LastScrapeKey := "Last Scrape"

  /** `should_scrape(item, scrape_interval_hours)`, the clock read as `now`. */
  function ShouldScrape(item: Dict, intervalHours: int, now: DateTime): (due: bool)
    requires Valid(now)
    ensures intervalHours == 0 ==> due
    ensures !Truthy(Get(item, LastScrapeKey)) ==> due
    ensures Truthy(Get(item, LastScrapeKey)) && ParseStamp(Get(item, LastScrapeKey).value).None? ==> due
    ensures intervalHours != 0 && Truthy(Get(item, LastScrapeKey)) ==>
              match ParseStamp(Get(item, LastScrapeKey).value)
              case Some(last) => due <==> Micros(now) - Micros(last) >= intervalHours * MicrosPerHour
              case None => due
  {
    if intervalHours == 0 then true
    else
      var lastScrape := Get(item, LastScrapeKey);
      if !Truthy(lastScrape) then true
      else
        match ParseStamp(lastScrape.value)
        case Some(last) => Micros(now) - Micros(last) >= intervalHours * MicrosPerHour
        case None => true
  }

  /** The filter of the eligibility comprehension: a non-empty `Link` and due. */
  predicate IsEligible(item: Dict, intervalHours: int, now: DateTime)
    requires Valid(now)
  {
    Truthy(Get(item, LinkKey)) && ShouldScrape(item, intervalHours, now)
  }

  /** `items_to_scrape`, as the positions in `data` (from `from` on) of the
      items the comprehension keeps. */
  function EligibleFrom(data: seq<Dict>, from: nat, intervalHours: int, now: DateTime): (r: seq<nat>)
    requires Valid(now) && from <= |data|
    ensures forall j :: 0 <= j < |r| ==> from <= r[j] < |data|
    ensures forall j, l :: 0 <= j < l < |r| ==> r[j] < r[l]
    ensures forall i :: from <= i < |data| ==> (i in r <==> IsEligible(data[i], intervalHours, now))
    decreases |data| - from
  {
    if from == |data| then []
    else
      var rest := EligibleFrom(data, from + 1, intervalHours, now);
      if IsEligible(data[from], intervalHours, now) then [from] + rest else rest
  }

  /** The eligible items, in catalog order. */
  function Eligible(data: seq<Dict>, intervalHours: int, now: DateTime): (r: seq<nat>)
    requires Valid(now)
    ensures forall j :: 0 <= j < |r| ==> r[j] < |data|
    ensures forall j, l :: 0 <= j < l < |r| ==> r[j] < r[l]
    ensures forall i :: 0 <= i < |data| ==> (i in r <==> IsEligible(data[i], intervalHours, now))
  {
    EligibleFrom(data, 0, intervalHours, now)
  }

  /** What one attempt of the browser does: extract the price element's
      text, or raise (navigation error, timeout, missing element). */
  datatype Attempt = Fetched(text: string) | Failed

  /** The first of the first `n` attempts that fetches, if any does. */
  function FirstFetch(outcomes: seq<Attempt>, n: int): (r: Option<nat>)
    requires n <= |outcomes|
    ensures r.Some? ==> r.value < n && outcomes[r.value].Fetched?
    ensures r.Some? ==> forall i :: 0 <= i < r.value ==> outcomes[i].Failed?
    ensures r.None? ==> forall i :: 0 <= i < n ==> outcomes[i].Failed?
    decreases if n < 0 then 0 else n
  {
    if n <= 0 then None
    else
      match FirstFetch(outcomes, n - 1)
      case Some(j) => Some(j)
      case None => if outcomes[n - 1].Fetched? then Some(n - 1) else None
  }

  /** What `scrape_single_price` returns with `retries` attempts. */
  function Scraped(outcomes: seq<Attempt>, retries: int): (r: Option<string>)
    requires retries <= |outcomes|
    ensures r.None? <==> forall i :: 0 <= i < retries ==> outcomes[i].Failed?
    ensures r.Some? ==> exists j :: 0 <= j < retries && outcomes[j] == Fetched(r.value) &&
                                    forall i :: 0 <= i < j ==> outcomes[i].Failed?
  {
    match FirstFetch(outcomes, retries)
    case Some(j) => Some(outcomes[j].text)
    case None => None
  }

  function Pow2(n: nat): (p: nat)
    ensures p >= 1
  {
    if n == 0 then 1 else 2 * Pow2(n - 1)
  }

  /** The sleeps after the first `n` failed attempts: `2**attempt` each. */
  function Backoff(n: nat): (w: seq<nat>)
    ensures |w| == n && forall i :: 0 <= i < n ==> w[i] == Pow2(i)
  {
    seq(n, i requires 0 <= i < n => Pow2(i))
  }

  function TotalWait(waits: seq<nat>): nat {
    if waits == [] then 0 else TotalWait(waits[..|waits| - 1]) + waits[|waits| - 1]
  }

  /** The sleeps of a worker that has made `n + 1` attempts add up to
      `2**n - 1`: the backoff has no cap. */
  lemma {:induction false} BackoffTotal(n: nat)
    ensures TotalWait(Backoff(n)) == Pow2(n) - 1
  {
    if n > 0 {
      assert Backoff(n)[..n - 1] == Backoff(n - 1);
      BackoffTotal(n - 1);
    }
  }

  /** The retry loop of `scrape_single_price`: `attempts` is how many
      attempts were made and `waits` the sleeps between them. */
  method ScrapeSinglePrice(outcomes: seq<Attempt>, retries: int)
    returns (price: Option<string>, attempts: nat, waits: seq<nat>)
    requires retries <= |outcomes|
    ensures attempts == 0 || attempts <= retries
    ensures price == Scraped(outcomes, retries)
    ensures price.Some? ==> attempts >= 1 && outcomes[attempts - 1] == Fetched(price.value)
    ensures forall i :: 0 <= i < attempts - 1 ==> outcomes[i].Failed?
    ensures price.None? ==> attempts == (if retries > 0 then retries else 0)
    ensures waits == Backoff(if attempts == 0 then 0 else attempts - 1)
  {
    price, attempts, waits := None, 0, [];
    var attempt := 0;
    while attempt < retries
      invariant attempt == 0 || attempt < retries
      invariant attempts == attempt && price == None
      invariant forall i :: 0 <= i < attempt ==> outcomes[i].Failed?
      invariant waits == Backoff(attempt)
    {
      attempts := attempts + 1;
      match outcomes[attempt]
      case Fetched(text) =>
        price := Some(text);
        return;
      case Failed =>
        if attempt == retries - 1 {
          return;
        }
        waits := waits + [Pow2(attempt)];
      attempt := attempt + 1;
    }
  }

  /** The two assignments of a successful merge: the price, and the time of
      the run formatted as `"%Y-%m-%d %H:%M"`. */
  function Stamp(item: Dict, price: string, now: DateTime): (r: Dict)
    requires item.Valid() && Valid(now)
    ensures r.Valid()
    ensures Get(r, PriceKey) == Some(price)
    ensures Get(r, LastScrapeKey) == Some(FormatStamp(now))
    ensures forall k :: k != PriceKey && k != LastScrapeKey ==> Get(r, k) == Get(item, k)
    ensures item.keys <= r.keys
  {
    Set(Set(item, PriceKey, price), LastScrapeKey, FormatStamp(now))
  }

  /** An eligible item after the merge: stamped when its result is a
      non-empty string, untouched for `None` or `""`. */
  function Merged(item: Dict, result: Option<string>, now: DateTime): (r: Dict)
    requires item.Valid() && Valid(now)
    ensures r.Valid()
    ensures Truthy(result) ==>
      Get(r, PriceKey) == result && Get(r, LastScrapeKey) == Some(FormatStamp(now)) &&
      forall k :: k != PriceKey && k != LastScrapeKey ==> Get(r, k) == Get(item, k)
    ensures !Truthy(result) ==> r == item
  {
    if Truthy(result) then Stamp(item, result.value, now) else item
  }

  /** The tasks of `asyncio.gather`, one per eligible item, run in turn:
      `results[k]` is the outcome for `items[eligible[k]]`. `ok` is false when
      a task raises: `item["Set"]` on an item without that key raises
      `KeyError`, and gather passes it on. */
  method Gather(items: seq<Dict>, eligible: seq<nat>, fetch: seq<seq<Attempt>>, retries: int)
    returns (ok: bool, results: seq<Option<string>>)
    requires |fetch| == |items|
    requires forall j :: 0 <= j < |eligible| ==> eligible[j] < |items|
    requires forall i :: 0 <= i < |items| ==> retries <= |fetch[i]|
    ensures ok <==> forall j :: 0 <= j < |eligible| ==> SetKey in items[eligible[j]].entries
    ensures ok ==> |results| == |eligible|
    ensures ok ==> forall j :: 0 <= j < |eligible| ==> results[j] == Scraped(fetch[eligible[j]], retries)
  {
    results := [];
    for k := 0 to |eligible|
      invariant |results| == k
      invariant forall j :: 0 <= j < k ==> results[j] == Scraped(fetch[eligible[j]], retries)
      invariant forall j :: 0 <= j < k ==> SetKey in items[eligible[j]].entries
    {
      if SetKey !in items[eligible[k]].entries {
        return false, results;
      }
      var price, _, _ := ScrapeSinglePrice(fetch[eligible[k]], retries);
      results := results + [price];
    }
    ok := true;
  }

  /** The merge loop `for item, price in zip(items_to_scrape, results)`:
      `eligible[k]` is the catalog position of the k-th eligible item and
      `results[k]` its result, which `expected` gives by catalog position. */
  method Merge(data: array<Dict>, eligible: seq<nat>, results: seq<Option<string>>,
               ghost expected: seq<Option<string>>, now: DateTime)
    requires Valid(now) && |results| == |eligible| && |expected| == data.Length
    requires forall j :: 0 <= j < |eligible| ==> eligible[j] < data.Length
    requires forall j, l :: 0 <= j < l < |eligible| ==> eligible[j] < eligible[l]
    requires forall j :: 0 <= j < |eligible| ==> results[j] == expected[eligible[j]]
    requires forall i :: 0 <= i < data.Length ==> data[i].Valid()
    modifies data
    ensures forall i :: 0 <= i < data.Length ==>
              data[i] == if i in eligible then Merged(old(data[i]), expected[i], now) else old(data[i])
  {
    ghost var before := data[..];
    ghost var done: set<nat> := {};
    for k := 0 to |eligible|
      invariant forall i :: i in done <==> i in eligible[..k]
      invariant forall i :: 0 <= i < data.Length ==>
                  data[i] == if i in done then Merged(before[i], expected[i], now) else before[i]
    {
      var i := eligible[k];
      assert i !in eligible[..k];
      if Truthy(results[k]) {
        data[i] := Stamp(data[i], results[k].value, now);
      }
      PrefixGrows(eligible, k);
      done := done + {i};
    }
    assert eligible[..|eligible|] == eligible;
  }

  /** `scrape_prices(data, ...)` on the catalog `data`, updated in place.
      `fetch[i]` is what the browser does on each attempt for item `i`.
      `ok` is false when the run raises before anything is merged. */
  method ScrapePrices(data: array<Dict>, fetch: seq<seq<Attempt>>, retries: int,
                      intervalHours: int, now: DateTime)
    returns (ok: bool)
    requires Valid(now) && |fetch| == data.Length
    requires forall i :: 0 <= i < data.Length ==> data[i].Valid() && retries <= |fetch[i]|
    modifies data
    ensures ok <==> forall i :: 0 <= i < data.Length && IsEligible(old(data[i]), intervalHours, now) ==>
                                SetKey in old(data[i]).entries
    ensures !ok ==> data[..] == old(data[..])
    ensures ok ==> forall i :: 0 <= i < data.Length ==>
                     data[i] == if IsEligible(old(data[i]), intervalHours, now)
                                then Merged(old(data[i]), Scraped(fetch[i], retries), now)
                                else old(data[i])
  {
    var items := data[..];
    var eligible := Eligible(items, intervalHours, now);
    var results;
    ok, results := Gather(items, eligible, fetch, retries);
    assert ok <==> forall i :: 0 <= i < data.Length && IsEligible(items[i], intervalHours, now) ==>
                              SetKey in items[i].entries by {
      if ok {
        forall i | 0 <= i < data.Length && IsEligible(items[i], intervalHours, now)
          ensures SetKey in items[i].entries
        {
          var j :| 0 <= j < |eligible| && eligible[j] == i;
        }
      }
    }
    if !ok {
      return;
    }
    ghost var expected := seq(data.Length, i requires 0 <= i < data.Length => Scraped(fetch[i], retries));
    Merge(data, eligible, results, expected, now);
  }

  /** A just-stamped item is not due again at the same `now` for any
      interval of an hour or more: its stamp parses back to the minute it
      was written in. */
  lemma StampedNotDue(item: Dict, price: string, intervalHours: int, now: DateTime)
    requires item.Valid() && Valid(now) && intervalHours >= 1
    ensures !ShouldScrape(Stamp(item, price, now), intervalHours, now)
  {
    var stamped, text := Stamp(item, price, now), FormatStamp(now);
    ParseFormatStamp(now);
    TruncateWithinMinute(now);
    assert Get(stamped, LastScrapeKey) == Some(text) && |text| == 16;
    HoursAtLeastOne(intervalHours);
  }

  lemma HoursAtLeastOne(intervalHours: int)
    requires intervalHours >= 1
    ensures MicrosPerMinute < intervalHours * MicrosPerHour
  {
  }

  /** Once due, an item stays due as the clock advances. */
  lemma DueStaysDue(item: Dict, intervalHours: int, now: DateTime, later: DateTime)
    requires Valid(now) && Valid(later) && Micros(now) <= Micros(later)
    requires ShouldScrape(item, intervalHours, now)
    ensures ShouldScrape(item, intervalHours, later)
  {
  }
}
