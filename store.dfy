/** The event and registration tables and the handlers that change them:
    `create_event`, `update_event`, `delete_event`, `register_event`, and the
    `is_registered` check of `event_details`. */
module Store {
  import opened Records
  import opened PyText
  import opened Images

  /** The fields of `EventForm` as submitted. `dateText` is the raw date field;
      its parse is passed separately. */
  datatype EventForm = EventForm(
    title: string,
    organizerName: string,
    location: string,
    dateText: string,
    category: string,
    imageUrl: string,
    description: string)

  /** `form.validate_on_submit()` for `EventForm`: every field but the image
      URL is `DataRequired`. */
  predicate EventFormValid(f: EventForm) {
    Required(f.title) && Required(f.organizerName) && Required(f.location) &&
    Required(f.dateText) && Required(f.category) && Required(f.description)
  }

  datatype CreateOutcome = CreateLoginRequired | CreateInvalidForm | Created(id: int)
  datatype UpdateOutcome = UpdateLoginRequired | UpdateNotFound | UpdateNotOwner | UpdateInvalidForm | Updated
  datatype DeleteOutcome = DeleteLoginRequired | DeleteNotFound | DeleteNotOwner | Deleted
  datatype RegistrantsOutcome =
    | RegistrantsLoginRequired | RegistrantsNotFound | RegistrantsNotOwner
    | Registrants(list: seq<Registration>)
  datatype RegisterOutcome = RegisterLoginRequired | RegisterNotFound | MissingInfo | AlreadyRegistered | Registered

  /** `Event.query.get(event_id)`: the position of the event with that id. */
  function FindEvent(events: seq<Event>, id: int): (r: Option<nat>)
    ensures r.Some? ==> r.value < |events| && events[r.value].id == id
    ensures r.None? <==> !HasEvent(events, id)
  {
    if events == [] then None
    else if events[0].id == id then Some(0)
    else match FindEvent(events[1..], id)
      case None => None
      case Some(i) => Some(i + 1)
  }

  predicate HasEvent(events: seq<Event>, id: int) {
    exists e :: e in events && e.id == id
  }

  /** How many events carry `id`. */
  function CountId(events: seq<Event>, id: int): (n: nat)
    ensures n == 0 <==> !HasEvent(events, id)
  {
    if events == [] then 0
    else CountId(events[..|events| - 1], id) + (if events[|events| - 1].id == id then 1 else 0)
  }

  /** The id SQLite gives the next row: one more than the largest, 1 at first. */
  function NextEventId(events: seq<Event>): (id: int)
    ensures events == [] ==> id == 1
    ensures forall e :: e in events ==> e.id < id
    ensures events != [] ==> exists e :: e in events && e.id + 1 == id
  {
    if |events| <= 1 then
      if events == [] then 1 else events[0].id + 1
    else
      var rest := NextEventId(events[..|events| - 1]);
      var last := events[|events| - 1];
      assert events == events[..|events| - 1] + [last];
      if last.id + 1 > rest then last.id + 1 else rest
  }

  /** How many registrations link user `userId` to event `eventId`. */
  function CountPair(regs: seq<Registration>, userId: int, eventId: int): (n: nat)
    ensures n == 0 <==> forall r :: r in regs ==> !(r.userId == userId && r.eventId == eventId)
  {
    if regs == [] then 0
    else
      var last := regs[|regs| - 1];
      assert regs == regs[..|regs| - 1] + [last];
      CountPair(regs[..|regs| - 1], userId, eventId) + (if last.userId == userId && last.eventId == eventId then 1 else 0)
  }

  /** `db.session.delete(event)`: the events without the one deleted. */
  function WithoutEvent(events: seq<Event>, id: int): (r: seq<Event>)
    ensures forall e :: e in r <==> e in events && e.id != id
    ensures forall x :: CountId(r, x) <= CountId(events, x)
    ensures !HasEvent(r, id)
  {
    if events == [] then []
    else
      var init, last := events[..|events| - 1], events[|events| - 1];
      assert events == init + [last];
      var rest := WithoutEvent(init, id);
      if last.id != id then
        assert (rest + [last])[..|rest|] == rest;
        rest + [last]
      else rest
  }

  /** The `delete-orphan` cascade on `Event.registrations`: the registrations
      that do not belong to event `eventId`. */
  function WithoutRegistrationsOf(regs: seq<Registration>, eventId: int): (r: seq<Registration>)
    ensures forall x :: x in r <==> x in regs && x.eventId != eventId
    ensures forall u, e :: CountPair(r, u, e) <= CountPair(regs, u, e)
  {
    if regs == [] then []
    else
      var init, last := regs[..|regs| - 1], regs[|regs| - 1];
      assert regs == init + [last];
      var rest := WithoutRegistrationsOf(init, eventId);
      if last.eventId != eventId then
        assert (rest + [last])[..|rest|] == rest;
        rest + [last]
      else rest
  }

  /** The fields `update_event` assigns. */
  function ApplyUpdate(e: Event, f: EventForm, upload: Option<string>): (u: Event)
    ensures u.id == e.id && u.date == e.date && u.userId == e.userId
    ensures u.title == f.title && u.organizerName == f.organizerName && u.location == f.location
    ensures u.description == f.description && u.category == f.category
    ensures u.imageUrl == ImageUrlOnUpdate(e.imageUrl, f.imageUrl, upload)
  {
    e.(title := f.title, organizerName := f.organizerName, location := f.location,
       description := f.description, category := f.category,
       imageUrl := ImageUrlOnUpdate(e.imageUrl, f.imageUrl, upload))
  }

  /** Replacing an event by one with the same id leaves every id count alone. */
  lemma {:induction false} CountIdReplace(events: seq<Event>, i: nat, e: Event, x: int)
    requires i < |events| && e.id == events[i].id
    ensures CountId(events[i := e], x) == CountId(events, x)
  {
    var n := |events|;
    var updated := events[i := e];
    if i < n - 1 {
      assert updated[..n - 1] == events[..n - 1][i := e];
      CountIdReplace(events[..n - 1], i, e, x);
    } else {
      assert updated[..n - 1] == events[..n - 1];
    }
  }

  /** Replacing an event by one with the same id keeps ids unique and keeps
      every registration's event present. */
  lemma ReplaceKeepsIntegrity(events: seq<Event>, regs: seq<Registration>, i: nat, e: Event, updated: seq<Event>)
    requires i < |events| && e.id == events[i].id && updated == events[i := e]
    requires forall id :: CountId(events, id) <= 1
    requires forall j :: 0 <= j < |regs| ==> HasEvent(events, regs[j].eventId)
    ensures forall id :: CountId(updated, id) <= 1
    ensures forall j :: 0 <= j < |regs| ==> HasEvent(updated, regs[j].eventId)
  {
    forall x ensures CountId(updated, x) <= 1 {
      CountIdReplace(events, i, e, x);
    }
    forall j | 0 <= j < |regs| ensures HasEvent(updated, regs[j].eventId) {
      var b :| b in events && b.id == regs[j].eventId;
      var k :| 0 <= k < |events| && events[k] == b;
      assert updated[k].id == b.id;
    }
  }

  /** Appending an event with the next id keeps ids unique and keeps every
      registration's event present. */
  lemma AppendKeepsIntegrity(events: seq<Event>, regs: seq<Registration>, e: Event, added: seq<Event>)
    requires e.id == NextEventId(events) && added == events + [e]
    requires forall id :: CountId(events, id) <= 1
    requires forall j :: 0 <= j < |regs| ==> HasEvent(events, regs[j].eventId)
    ensures forall id :: CountId(added, id) <= 1
    ensures forall j :: 0 <= j < |regs| ==> HasEvent(added, regs[j].eventId)
  {
    assert added[..|added| - 1] == events;
    forall x ensures CountId(added, x) <= 1 {
      if x == e.id {
        assert !HasEvent(events, x);
      }
    }
    forall j | 0 <= j < |regs| ensures HasEvent(added, regs[j].eventId) {
      var b :| b in events && b.id == regs[j].eventId;
      assert b in added;
    }
  }

  /** Pairwise-unique registrations count at most one per pair. */
  ghost predicate UniquePairs(regs: seq<Registration>) {
    forall u, e :: CountPair(regs, u, e) <= 1
  }

  /** Two registrations for one pair make its count at least two. */
  lemma {:induction false} DuplicatePairCounted(regs: seq<Registration>, i: nat, j: nat)
    requires i < j < |regs|
    requires regs[i].userId == regs[j].userId && regs[i].eventId == regs[j].eventId
    ensures CountPair(regs, regs[j].userId, regs[j].eventId) >= 2
  {
    var init := regs[..|regs| - 1];
    if j == |regs| - 1 {
      assert regs[i] in init;
    } else {
      DuplicatePairCounted(init, i, j);
    }
  }

  /** The invariant on registrations says no two of them share a pair. */
  lemma UniquePairsDistinct(regs: seq<Registration>)
    requires UniquePairs(regs)
    ensures forall i, j :: 0 <= i < j < |regs| ==>
              !(regs[i].userId == regs[j].userId && regs[i].eventId == regs[j].eventId)
  {
    forall i, j | 0 <= i < j < |regs| && regs[i].userId == regs[j].userId && regs[i].eventId == regs[j].eventId
      ensures false
    {
      DuplicatePairCounted(regs, i, j);
    }
  }

  /** Two events with one id make its count at least two. */
  lemma {:induction false} DuplicateIdCounted(events: seq<Event>, i: nat, j: nat)
    requires i < j < |events| && events[i].id == events[j].id
    ensures CountId(events, events[j].id) >= 2
  {
    var init := events[..|events| - 1];
    if j == |events| - 1 {
      assert events[i] in init;
    } else {
      DuplicateIdCounted(init, i, j);
    }
  }

  /** The invariant on events says no two of them share an id. */
  lemma UniqueIdsDistinct(events: seq<Event>)
    requires forall id :: CountId(events, id) <= 1
    ensures forall i, j :: 0 <= i < j < |events| ==> events[i].id != events[j].id
  {
    forall i, j | 0 <= i < j < |events| && events[i].id == events[j].id
      ensures false
    {
      DuplicateIdCounted(events, i, j);
    }
  }

  class EventStore {
    var events: seq<Event>
    var registrations: seq<Registration>

    /** Event ids are unique, each (user, event) pair is registered at most
        once, and every registration belongs to a stored event. */
    ghost predicate Valid()
      reads this
    {
      (forall id :: CountId(events, id) <= 1) &&
      UniquePairs(registrations) &&
      forall i :: 0 <= i < |registrations| ==> HasEvent(events, registrations[i].eventId)
    }

    constructor ()
      ensures Valid()
      ensures events == [] && registrations == []
    {
      events := [];
      registrations := [];
    }

    /** `create_event`: a new event owned by the viewer, dated by the parsed
        date field or, when that does not parse, by `now`. */
    method CreateEvent(viewer: Viewer, form: EventForm, parsedDate: Option<int>, now: int, upload: Option<string>)
      returns (outcome: CreateOutcome)
      requires Valid()
      modifies this
      ensures Valid()
      ensures registrations == old(registrations)
      ensures outcome == CreateLoginRequired <==> viewer.Anonymous?
      ensures outcome == CreateInvalidForm <==> viewer.Authenticated? && !EventFormValid(form)
      ensures outcome.Created? ==>
                outcome.id == NextEventId(old(events)) &&
                events == old(events) + [Event(outcome.id, form.title, form.location,
                                               match parsedDate case Some(d) => d case None => now,
                                               form.description, form.category,
                                               ImageUrlOnCreate(form.imageUrl, upload),
                                               form.organizerName, viewer.id)]
      ensures !outcome.Created? ==> events == old(events)
    {
      if viewer.Anonymous? {
        return CreateLoginRequired;
      }
      if !EventFormValid(form) {
        return CreateInvalidForm;
      }
      var date := match parsedDate case Some(d) => d case None => now;
      var imageUrl := ImageUrlOnCreate(form.imageUrl, upload);
      var id := NextEventId(events);
      var e := Event(id, form.title, form.location, date, form.description, form.category,
                     imageUrl, form.organizerName, viewer.id);
      AppendKeepsIntegrity(events, registrations, e, events + [e]);
      events := events + [e];
      outcome := Created(id);
    }

    /** `update_event`: only the owner, with a valid form, changes the event,
        and never its id, date or owner. */
    method UpdateEvent(viewer: Viewer, eventId: int, form: EventForm, upload: Option<string>)
      returns (outcome: UpdateOutcome)
      requires Valid()
      modifies this
      ensures Valid()
      ensures registrations == old(registrations)
      ensures outcome == UpdateLoginRequired <==> viewer.Anonymous?
      ensures outcome == UpdateNotFound <==> viewer.Authenticated? && !HasEvent(old(events), eventId)
      ensures outcome == UpdateNotOwner <==>
                viewer.Authenticated? && FindEvent(old(events), eventId).Some? &&
                old(events)[FindEvent(old(events), eventId).value].userId != viewer.id
      ensures outcome == Updated <==>
                viewer.Authenticated? && FindEvent(old(events), eventId).Some? &&
                old(events)[FindEvent(old(events), eventId).value].userId == viewer.id &&
                EventFormValid(form)
      ensures outcome == Updated ==>
                var i := FindEvent(old(events), eventId).value;
                old(events)[i].userId == viewer.id && EventFormValid(form) &&
                events == old(events)[i := ApplyUpdate(old(events)[i], form, upload)]
      ensures outcome != Updated ==> events == old(events)
      ensures |events| == |old(events)|
      ensures forall i :: 0 <= i < |events| ==>
                events[i].id == old(events)[i].id && events[i].date == old(events)[i].date &&
                events[i].userId == old(events)[i].userId
    {
      if viewer.Anonymous? {
        return UpdateLoginRequired;
      }
      var found := FindEvent(events, eventId);
      if found.None? {
        return UpdateNotFound;
      }
      var i := found.value;
      if events[i].userId != viewer.id {
        return UpdateNotOwner;
      }
      if !EventFormValid(form) {
        return UpdateInvalidForm;
      }
      var updated := ApplyUpdate(events[i], form, upload);
      ReplaceKeepsIntegrity(events, registrations, i, updated, events[i := updated]);
      ghost var before := events;
      events := events[i := updated];
      forall k | 0 <= k < |events|
        ensures events[k].id == before[k].id && events[k].date == before[k].date &&
                events[k].userId == before[k].userId
      {
        if k == i {
          assert events[k] == updated;
        }
      }
      outcome := Updated;
    }

    /** `delete_event`: the owner's delete removes the event and, by the
        cascade, its registrations; anything else changes nothing. */
    method DeleteEvent(viewer: Viewer, eventId: int) returns (outcome: DeleteOutcome)
      requires Valid()
      modifies this
      ensures Valid()
      ensures outcome == DeleteLoginRequired <==> viewer.Anonymous?
      ensures outcome == DeleteNotFound <==> viewer.Authenticated? && !HasEvent(old(events), eventId)
      ensures outcome == Deleted <==>
                viewer.Authenticated? && FindEvent(old(events), eventId).Some? &&
                old(events)[FindEvent(old(events), eventId).value].userId == viewer.id
      ensures outcome == Deleted ==>
                events == WithoutEvent(old(events), eventId) &&
                registrations == WithoutRegistrationsOf(old(registrations), eventId)
      ensures outcome != Deleted ==> events == old(events) && registrations == old(registrations)
    {
      if viewer.Anonymous? {
        return DeleteLoginRequired;
      }
      var found := FindEvent(events, eventId);
      if found.None? {
        return DeleteNotFound;
      }
      if events[found.value].userId != viewer.id {
        return DeleteNotOwner;
      }
      ghost var before, regsBefore := events, registrations;
      events := WithoutEvent(events, eventId);
      registrations := WithoutRegistrationsOf(registrations, eventId);
      forall x ensures CountId(events, x) <= 1 {
        assert CountId(events, x) <= CountId(before, x);
      }
      forall u, e ensures CountPair(registrations, u, e) <= 1 {
        assert CountPair(registrations, u, e) <= CountPair(regsBefore, u, e);
      }
      forall j | 0 <= j < |registrations| ensures HasEvent(events, registrations[j].eventId) {
        var r := registrations[j];
        assert r in regsBefore && r.eventId != eventId;
        var k :| 0 <= k < |regsBefore| && regsBefore[k] == r;
        var b :| b in before && b.id == r.eventId;
        assert b in events;
      }
      outcome := Deleted;
    }

    /** `register_event`: a valid form adds a registration for the viewer
        unless one already exists; the pair is then registered exactly once. */
    method RegisterEvent(viewer: Viewer, eventId: int, shortInfo: string, createdAt: int)
      returns (outcome: RegisterOutcome)
      requires Valid()
      modifies this
      ensures Valid()
      ensures events == old(events)
      ensures outcome == RegisterLoginRequired <==> viewer.Anonymous?
      ensures outcome == RegisterNotFound <==> viewer.Authenticated? && !HasEvent(events, eventId)
      ensures outcome == MissingInfo <==> viewer.Authenticated? && HasEvent(events, eventId) && !Required(shortInfo)
      ensures outcome == Registered <==>
                viewer.Authenticated? && HasEvent(events, eventId) && Required(shortInfo) &&
                CountPair(old(registrations), viewer.id, eventId) == 0
      ensures outcome == Registered ==>
                registrations == old(registrations) + [Registration(viewer.id, eventId, shortInfo, createdAt)]
      ensures outcome != Registered ==> registrations == old(registrations)
      ensures outcome == Registered || outcome == AlreadyRegistered ==>
                CountPair(registrations, viewer.id, eventId) == 1
    {
      if viewer.Anonymous? {
        return RegisterLoginRequired;
      }
      var found := FindEvent(events, eventId);
      if found.None? {
        return RegisterNotFound;
      }
      if !Required(shortInfo) {
        return MissingInfo;
      }
      if CountPair(registrations, viewer.id, eventId) != 0 {
        return AlreadyRegistered;
      }
      ghost var before := registrations;
      var r := Registration(viewer.id, eventId, shortInfo, createdAt);
      registrations := registrations + [r];
      assert registrations[..|registrations| - 1] == before;
      forall u, e ensures CountPair(registrations, u, e) <= 1 {
        if u == viewer.id && e == eventId {
          assert CountPair(before, u, e) == 0;
        }
      }
      outcome := Registered;
    }

    /** `is_registered` in `event_details`: None when the event does not
        exist; otherwise whether the viewer is logged in and registered. */
    function IsRegistered(viewer: Viewer, eventId: int): (r: Option<bool>)
      reads this
      ensures r.None? <==> !HasEvent(events, eventId)
      ensures r == Some(true) <==>
                HasEvent(events, eventId) && viewer.Authenticated? &&
                CountPair(registrations, viewer.id, eventId) > 0
    {
      match FindEvent(events, eventId)
      case None => None
      case Some(_) =>
        Some(viewer.Authenticated? &&
             exists reg :: reg in registrations && reg.eventId == eventId && reg.userId == viewer.id)
    }

    /** `event_registrations`: only the event's owner sees who registered,
        newest registration first. */
    function EventRegistrations(viewer: Viewer, eventId: int): (r: RegistrantsOutcome)
      reads this
      ensures r == RegistrantsLoginRequired <==> viewer.Anonymous?
      ensures r == RegistrantsNotFound <==> viewer.Authenticated? && !HasEvent(events, eventId)
      ensures r == RegistrantsNotOwner <==>
                viewer.Authenticated? && FindEvent(events, eventId).Some? &&
                events[FindEvent(events, eventId).value].userId != viewer.id
      ensures r.Registrants? ==>
                viewer.Authenticated? && FindEvent(events, eventId).Some? &&
                events[FindEvent(events, eventId).value].userId == viewer.id &&
                NewestFirst(r.list) &&
                forall x :: multiset(r.list)[x] == if x.eventId == eventId then multiset(registrations)[x] else 0
    {
      if viewer.Anonymous? then RegistrantsLoginRequired
      else match FindEvent(events, eventId)
        case None => RegistrantsNotFound
        case Some(i) =>
          if events[i].userId != viewer.id then RegistrantsNotOwner
          else Registrants(SortNewestFirst(RegistrationsOf(registrations, eventId)))
    }
  }

  /** `filter_by(event_id=…)`: the registrations belonging to event `eventId`,
      each as often as it is stored, in table order. */
  function RegistrationsOf(regs: seq<Registration>, eventId: int): (r: seq<Registration>)
    ensures forall x :: multiset(r)[x] == if x.eventId == eventId then multiset(regs)[x] else 0
    ensures forall x :: x in r <==> x in regs && x.eventId == eventId
  {
    if regs == [] then []
    else
      assert regs == [regs[0]] + regs[1..];
      (if regs[0].eventId == eventId then [regs[0]] else []) + RegistrationsOf(regs[1..], eventId)
  }

  /** `order_by(Registration.created_at.desc())`: no entry is newer than one
      before it. */
  predicate NewestFirst(s: seq<Registration>) {
    forall i, j :: 0 <= i < j < |s| ==> s[i].createdAt >= s[j].createdAt
  }

  /** An entry at least as new as all of a newest-first list may go in front. */
  lemma PrependNewest(y: Registration, t: seq<Registration>)
    requires NewestFirst(t)
    requires forall j :: 0 <= j < |t| ==> y.createdAt >= t[j].createdAt
    ensures NewestFirst([y] + t)
  {
    forall i, j | 0 <= i < j < |[y] + t| ensures ([y] + t)[i].createdAt >= ([y] + t)[j].createdAt {
      assert ([y] + t)[j] == t[j - 1];
      if i > 0 {
        assert ([y] + t)[i] == t[i - 1];
      }
    }
  }

  /** Places `x` after every entry at least as new, before the first older one. */
  function InsertNewest(x: Registration, s: seq<Registration>): (r: seq<Registration>)
    requires NewestFirst(s)
    ensures multiset(r) == multiset(s) + multiset{x}
    ensures NewestFirst(r)
  {
    if s == [] || s[0].createdAt < x.createdAt then
      PrependNewest(x, s);
      [x] + s
    else
      assert s == [s[0]] + s[1..];
      var t := InsertNewest(x, s[1..]);
      forall j | 0 <= j < |t| ensures s[0].createdAt >= t[j].createdAt {
        assert t[j] in multiset(t);
        if t[j] != x {
          assert t[j] in s[1..];
        }
      }
      PrependNewest(s[0], t);
      [s[0]] + t
  }

  /** The registrations sorted newest first; entries with equal times keep
      their table order. */
  function SortNewestFirst(s: seq<Registration>): (r: seq<Registration>)
    ensures multiset(r) == multiset(s)
    ensures NewestFirst(r)
  {
    if s == [] then []
    else
      assert s == s[..|s| - 1] + [s[|s| - 1]];
      InsertNewest(s[|s| - 1], SortNewestFirst(s[..|s| - 1]))
  }

  /** Scenario: registering twice for the same event leaves one registration. */
  method RegisterTwice(store: EventStore, user: int, eventId: int, info: string, t1: int, t2: int)
    requires store.Valid() && HasEvent(store.events, eventId) && Required(info)
    modifies store
    ensures CountPair(store.registrations, user, eventId) == 1
    ensures store.IsRegistered(Authenticated(user), eventId) == Some(true)
  {
    var first := store.RegisterEvent(Authenticated(user), eventId, info, t1);
    var second := store.RegisterEvent(Authenticated(user), eventId, info, t2);
    assert second == AlreadyRegistered;
  }
}
