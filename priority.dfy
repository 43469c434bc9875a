/** The per-event flags `prioritize_events` attaches, and its sort key. */
module Priority {
  import opened Records

  const SecondsPerHour: int := 3600
  const SecondsPerDay: int := 86400
  /** `timedelta(days=7)`: the forward window in which an event is "soon". */
  const SoonWindow: int := 7 * SecondsPerDay

  /** An event together with the four attributes written onto it. */
  datatype Annotated = Annotated(event: Event, isExpired: bool, isSoon: bool, daysLeft: int, hoursLeft: int)

  /** The flags for one event at instant `now`; `daysLeft` and `hoursLeft`
      are the floors of the time remaining in days and in hours. */
  function Annotate(e: Event, now: int): (a: Annotated)
    ensures a.event == e
    ensures a.daysLeft * SecondsPerDay <= e.date - now < (a.daysLeft + 1) * SecondsPerDay
    ensures a.hoursLeft * SecondsPerHour <= e.date - now < (a.hoursLeft + 1) * SecondsPerHour
  {
    var delta := e.date - now;
    Annotated(e, e.date < now, now <= e.date <= now + SoonWindow, delta / SecondsPerDay, delta / SecondsPerHour)
  }

  /** Every event falls in exactly one of the three classes, and the counters
      are negative exactly for the past ones. */
  lemma Classification(e: Event, now: int)
    ensures var a := Annotate(e, now);
      !(a.isExpired && a.isSoon) &&
      (a.isExpired <==> e.date < now) &&
      (a.isSoon <==> now <= e.date <= now + SoonWindow) &&
      (!a.isExpired && !a.isSoon <==> e.date > now + SoonWindow) &&
      (a.isExpired <==> a.daysLeft < 0) &&
      (a.isExpired <==> a.hoursLeft < 0) &&
      (a.isSoon ==> a.daysLeft <= 7 && a.hoursLeft <= 7 * 24)
  {
  }

  /** The events behind a sequence of annotated entries. */
  function EventsOf(s: seq<Annotated>): seq<Event> {
    seq(|s|, i requires 0 <= i < |s| => s[i].event)
  }

  lemma EventsOfConcat(a: seq<Annotated>, b: seq<Annotated>)
    ensures EventsOf(a + b) == EventsOf(a) + EventsOf(b)
  {
  }

  /** The first component of `sort_key`: 0 soon, 1 upcoming, 2 expired. */
  function Bucket(a: Annotated): (b: int)
    ensures 0 <= b <= 2
  {
    if a.isSoon then 0 else if !a.isExpired then 1 else 2
  }

  /** The bucket of an event, described by its date alone. */
  lemma BucketByDate(e: Event, now: int)
    ensures var b := Bucket(Annotate(e, now));
      (b == 0 <==> now <= e.date <= now + SoonWindow) &&
      (b == 1 <==> now + SoonWindow < e.date) &&
      (b == 2 <==> e.date < now)
  {
  }

  datatype SortKey = SortKey(bucket: int, ts: int)

  /** `sort_key`: the bucket, then the timestamp, negated for expired events. */
  function KeyOf(a: Annotated): SortKey {
    SortKey(Bucket(a), if a.isExpired then -a.event.date else a.event.date)
  }

  /** Python's ordering of `(bucket, ts)` tuples. */
  predicate KeyLe(x: SortKey, y: SortKey) {
    x.bucket < y.bucket || (x.bucket == y.bucket && x.ts <= y.ts)
  }

  predicate KeyLt(x: SortKey, y: SortKey) {
    x.bucket < y.bucket || (x.bucket == y.bucket && x.ts < y.ts)
  }

  /** Scenario: an event three days ahead is soon, in bucket 0. */
  lemma ThreeDaysAhead(e: Event, now: int)
    requires e.date == now + 3 * SecondsPerDay
    ensures var a := Annotate(e, now);
      a.isSoon && !a.isExpired && Bucket(a) == 0 && a.daysLeft == 3 && a.hoursLeft == 72
  {
  }

  /** Scenario: an event two days ago is expired, in bucket 2. */
  lemma TwoDaysAgo(e: Event, now: int)
    requires e.date == now - 2 * SecondsPerDay
    ensures var a := Annotate(e, now);
      a.isExpired && !a.isSoon && Bucket(a) == 2 && a.daysLeft == -2 && a.hoursLeft == -48
  {
  }

  /** Scenario: an event thirty days ahead is upcoming, in bucket 1. */
  lemma ThirtyDaysAhead(e: Event, now: int)
    requires e.date == now + 30 * SecondsPerDay
    ensures var a := Annotate(e, now);
      !a.isSoon && !a.isExpired && Bucket(a) == 1 && a.daysLeft == 30
  {
  }
}
