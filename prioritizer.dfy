/** `prioritize_events`: annotate each event, then order them soon first,
    upcoming next, expired last. */
module Prioritizer {
  import opened Records
  import opened Priority
  import opened StableSort

  /** The annotated form of every event, in input order. */
  function AnnotateAll(events: seq<Event>, now: int): (r: seq<Annotated>)
    ensures |r| == |events|
    ensures forall i :: 0 <= i < |events| ==> r[i] == Annotate(events[i], now)
  {
    if events == [] then [] else AnnotateAll(events[..|events| - 1], now) + [Annotate(events[|events| - 1], now)]
  }

  /** The order the listing promises: soon events before upcoming ones before
      expired ones; dates ascending among soon and among upcoming events, and
      descending (most recently past first) among expired ones. */
  predicate RankedOrder(r: seq<Annotated>) {
    forall i, j :: 0 <= i < j < |r| ==>
      (r[j].isSoon ==> r[i].isSoon) &&
      (r[i].isExpired ==> r[j].isExpired) &&
      (r[i].isSoon == r[j].isSoon && !r[i].isExpired && !r[j].isExpired ==> r[i].event.date <= r[j].event.date) &&
      (r[i].isExpired && r[j].isExpired ==> r[i].event.date >= r[j].event.date)
  }

  /** No entry is both soon and expired. */
  predicate Consistent(r: seq<Annotated>) {
    forall i :: 0 <= i < |r| ==> !(r[i].isSoon && r[i].isExpired)
  }

  /** Ordering by `(bucket, ts)` realises the listing order. */
  lemma SortedIsRanked(r: seq<Annotated>)
    requires Consistent(r) && Sorted(r)
    ensures RankedOrder(r)
  {
    forall i, j | 0 <= i < j < |r|
      ensures (r[j].isSoon ==> r[i].isSoon) && (r[i].isExpired ==> r[j].isExpired)
    {
      assert KeyLe(KeyOf(r[i]), KeyOf(r[j]));
    }
  }

  /** What sorting the annotated events yields. */
  lemma RankingProperties(events: seq<Event>, now: int)
    ensures var ranked := SortByKey(AnnotateAll(events, now));
      |ranked| == |events| &&
      multiset(EventsOf(ranked)) == multiset(events) &&
      (forall i :: 0 <= i < |ranked| ==> ranked[i] == Annotate(ranked[i].event, now)) &&
      Sorted(ranked) && RankedOrder(ranked) &&
      forall k :: WithKey(ranked, k) == WithKey(AnnotateAll(events, now), k)
  {
    var annotated := AnnotateAll(events, now);
    var ranked := SortByKey(annotated);
    SortByKeySorted(annotated);
    forall k ensures WithKey(ranked, k) == WithKey(annotated, k) {
      SortByKeyStable(annotated, k);
    }
    forall i | 0 <= i < |ranked| ensures ranked[i] == Annotate(ranked[i].event, now) {
      assert ranked[i] in multiset(annotated);
    }
    forall i | 0 <= i < |ranked| ensures !(ranked[i].isSoon && ranked[i].isExpired) {
      Classification(ranked[i].event, now);
    }
    SortedIsRanked(ranked);
    SortByKeyEvents(annotated);
    assert EventsOf(annotated) == events;
  }

  /** `prioritize_events(events)` at instant `now`: every event annotated, then
      stably sorted by `sort_key`. */
  method PrioritizeEvents(events: seq<Event>, now: int) returns (ranked: seq<Annotated>)
    ensures ranked == SortByKey(AnnotateAll(events, now))
    ensures |ranked| == |events|
    ensures multiset(EventsOf(ranked)) == multiset(events)
    ensures forall i :: 0 <= i < |ranked| ==> ranked[i] == Annotate(ranked[i].event, now)
    ensures Sorted(ranked)
    ensures RankedOrder(ranked)
    ensures forall k :: WithKey(ranked, k) == WithKey(AnnotateAll(events, now), k)
  {
    var annotated: seq<Annotated> := [];
    for i := 0 to |events|
      invariant |annotated| == i
      invariant forall j :: 0 <= j < i ==> annotated[j] == Annotate(events[j], now)
    {
      var e := events[i];
      var delta := e.date - now;
      annotated := annotated + [Annotated(e, e.date < now, now <= e.date <= now + SoonWindow,
                                          delta / SecondsPerDay, delta / SecondsPerHour)];
    }
    assert annotated == AnnotateAll(events, now);
    ranked := SortByKey(annotated);
    RankingProperties(events, now);
  }
}
