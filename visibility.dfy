/** Which events the home page (`index`) and the event list (`events`) show. */
module Visibility {
  import opened Records

  /** The account whose events everybody sees. */
  const AdminUsername: string := "Nepal_Admin"
  /** The admin id assumed when no such account exists. */
  const FallbackAdminId: int := 1
  /** The id an anonymous viewer is compared as in `events`. */
  const AnonymousId: int := -1

  /** `User.query.filter_by(username="Nepal_Admin").first()`, then its id or 1. */
  function AdminId(users: seq<User>): (id: int)
    ensures (forall u :: u in users ==> u.username != AdminUsername) ==> id == FallbackAdminId
    ensures (exists u :: u in users && u.username == AdminUsername) ==>
              exists u :: u in users && u.username == AdminUsername && u.id == id
  {
    if users == [] then FallbackAdminId
    else if users[0].username == AdminUsername then users[0].id
    else AdminId(users[1..])
  }

  predicate UniqueUsernames(users: seq<User>) {
    forall i, j :: 0 <= i < j < |users| ==> users[i].username != users[j].username
  }

  /** With usernames unique (the column is `unique`), the admin id is the id
      of the one admin account. */
  lemma {:induction false} AdminIdOfAdmin(users: seq<User>, admin: User)
    requires UniqueUsernames(users)
    requires admin in users && admin.username == AdminUsername
    ensures AdminId(users) == admin.id
  {
    if users[0] != admin {
      assert users[0].username != AdminUsername by {
        var j :| 0 <= j < |users| && users[j] == admin;
        assert j != 0;
      }
      assert UniqueUsernames(users[1..]);
      AdminIdOfAdmin(users[1..], admin);
    }
  }

  /** The events of `s` satisfying `keep`, in their order in `s`. */
  function Select(s: seq<Event>, keep: Event -> bool): (r: seq<Event>)
    ensures forall e :: multiset(r)[e] == if keep(e) then multiset(s)[e] else 0
  {
    if s == [] then []
    else
      assert s == [s[0]] + s[1..];
      (if keep(s[0]) then [s[0]] else []) + Select(s[1..], keep)
  }

  /** Whether a viewer's privacy rule on the home page lets `e` through. */
  predicate ShownOnIndex(e: Event, adminId: int, viewer: Viewer) {
    e.userId == adminId || (viewer.Authenticated? && e.userId == viewer.id)
  }

  /** The id the event list compares the owner with, besides the admin's. */
  function ViewerId(viewer: Viewer): int {
    if viewer.Authenticated? then viewer.id else AnonymousId
  }

  /** `if cat:` keeps only events of a non-empty requested category. */
  predicate InCategory(e: Event, category: Option<string>) {
    category.None? || category.value == "" || e.category == category.value
  }

  /** The events the home page lists, before prioritizing. */
  function IndexEvents(events: seq<Event>, users: seq<User>, viewer: Viewer): (r: seq<Event>)
    ensures forall e :: multiset(r)[e] == if ShownOnIndex(e, AdminId(users), viewer) then multiset(events)[e] else 0
    ensures forall e :: e in r <==> e in events && ShownOnIndex(e, AdminId(users), viewer)
  {
    var adminId := AdminId(users);
    if viewer.Authenticated? then
      Select(events, (e: Event) => e.userId == adminId || e.userId == viewer.id)
    else
      Select(events, (e: Event) => e.userId == adminId)
  }

  /** The events the event list shows, before prioritizing. */
  function ListEvents(events: seq<Event>, users: seq<User>, viewer: Viewer, category: Option<string>): (r: seq<Event>)
    ensures forall e :: multiset(r)[e] ==
              if (e.userId == AdminId(users) || e.userId == ViewerId(viewer)) && InCategory(e, category)
              then multiset(events)[e] else 0
    ensures forall e :: e in r <==> e in events && (e.userId == AdminId(users) || e.userId == ViewerId(viewer)) && InCategory(e, category)
  {
    var adminId := AdminId(users);
    var viewerId := ViewerId(viewer);
    var visible := Select(events, (e: Event) => e.userId == adminId || e.userId == viewerId);
    if category.Some? && category.value != "" then
      Select(visible, (e: Event) => e.category == category.value)
    else
      visible
  }

  /** Listed events belong to the admin or to the viewer; an anonymous viewer
      sees only the admin's events on the home page. */
  lemma IndexPrivacy(events: seq<Event>, users: seq<User>, viewer: Viewer, e: Event)
    requires e in IndexEvents(events, users, viewer)
    ensures e.userId == AdminId(users) || (viewer.Authenticated? && e.userId == viewer.id)
    ensures viewer.Anonymous? ==> e.userId == AdminId(users)
  {
  }

  /** On the event list an anonymous viewer also sees only the admin's events,
      as long as no event is owned by id -1. */
  lemma ListPrivacy(events: seq<Event>, users: seq<User>, viewer: Viewer, category: Option<string>, e: Event)
    requires forall x :: x in events ==> x.userId != AnonymousId
    requires e in ListEvents(events, users, viewer, category)
    ensures e.userId == AdminId(users) || (viewer.Authenticated? && e.userId == viewer.id)
    ensures viewer.Anonymous? ==> e.userId == AdminId(users)
    ensures category.Some? && category.value != "" ==> e.category == category.value
  {
  }

  /** Two filters that keep the same events of `s` select the same sequence. */
  lemma {:induction false} SelectSame(s: seq<Event>, p: Event -> bool, q: Event -> bool)
    requires forall e :: e in s ==> p(e) == q(e)
    ensures Select(s, p) == Select(s, q)
  {
    if s != [] {
      SelectSame(s[1..], p, q);
    }
  }

  /** Without a category filter, and without events owned by id -1, the event
      list and the home page select the same events in the same order. */
  lemma ListMatchesIndex(events: seq<Event>, users: seq<User>, viewer: Viewer)
    requires viewer.Authenticated? || forall x :: x in events ==> x.userId != AnonymousId
    ensures ListEvents(events, users, viewer, None) == IndexEvents(events, users, viewer)
  {
    var adminId, viewerId := AdminId(users), ViewerId(viewer);
    if viewer.Authenticated? {
      SelectSame(events, (e: Event) => e.userId == adminId || e.userId == viewerId, (e: Event) => e.userId == adminId || e.userId == viewer.id);
    } else {
      SelectSame(events, (e: Event) => e.userId == adminId || e.userId == viewerId, (e: Event) => e.userId == adminId);
    }
  }
}
