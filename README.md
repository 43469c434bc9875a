# Event listing and registration: a Dafny model

This project models the decision logic of a small Flask web application in
which users browse events, create and manage the events they organise, and
register for events. `FrontEnd/app.py` holds all of it:

- **Prioritizer** (`prioritize_events`): each event gets four attributes
  relative to the current instant (`is_expired`, `is_soon`, `days_left`,
  `hours_left`), and the list is stably sorted by `(bucket, ts)`. Soon events
  (bucket 0) come first, then upcoming events (bucket 1), then expired ones
  (bucket 2). The timestamp is negated for expired events.
- **Visibility filter** (`index`, `events`): a viewer sees the events of the
  admin account (`Nepal_Admin`, or id 1 when no such account exists) and their
  own events. `events` adds an optional category filter.
- **Store handlers** (`create_event`, `update_event`, `delete_event`,
  `register_event`, `event_registrations`, and the `is_registered` check of
  `event_details`): the event and registration tables live in one object
  (`EventStore`), and each handler is a method or a reading function of it.
- **Image checks** (`allowed_image`, and the image URL each form stores).

Times are whole seconds. The clock (`datetime.utcnow()`) is a parameter
`now`. The request's session is a `Viewer` parameter: `Anonymous` or
`Authenticated(id)`. Each handler's redirect or re-render becomes an outcome
value. Uploads are passed as the file name after `secure_filename`.

Modules, one file each:

- `records.dfy` (Records): the entities.
- `pytext.dfy` (PyText): `str.isspace`, `strip`, `lower` and `rfind`.
- `images.dfy` (Images): `os.path.splitext`, `allowed_image`, image URLs.
- `priority.dfy` (Priority): the annotation and `sort_key`.
- `stablesort.dfy` (StableSort): `sorted` as a stable insertion sort.
- `prioritizer.dfy` (Prioritizer): the `prioritize_events` loop.
- `visibility.dfy` (Visibility): the listing filters.
- `store.dfy` (Store): the tables and the handlers.

Facts used about the code:

- `days_left` and `hours_left` are the floors of the remaining time. Dafny's
  `/` with a positive divisor is floor division, like Python's `//`, also for
  negative differences.
- Python's `sorted` is stable. The model states stability as an equation:
  for every key, the entries with that key form the same subsequence in the
  output as in the input (`WithKey`). `SortByKeyUnique` shows that being
  sorted plus this equation fixes the output completely.
- `update_event` requires a date in the form but never assigns it. So an
  update never moves an event in time. The model keeps this behaviour.
- On update, an image URL field holding only whitespace is truthy. It
  strips to `""` and clears the stored image, because update has no
  placeholder fallback (`BlankUrlClearsImageOnUpdate`).
- On the event list an anonymous viewer is compared as owner id `-1`, while
  the home page leaves that comparison out. The two agree whenever no event
  is owned by id `-1` (`ListMatchesIndex`).

## Model

| member | source | states |
|---|---|---|
| `Images.AllowedImage` | FrontEnd/app.py:33-35 | `allowed_image`: the extension of the lower-cased name is one of the five allowed; AllowedImageIff states what that means |
| `Images.SplitExt` | FrontEnd/app.py:34 | root and extension concatenate back to the name; the extension is empty or a single leading dot followed by no dot and no slash; SplitExtIff states when it is found |
| `Images.ExtensionFound` | FrontEnd/app.py:34 | when a name ends in a dot-led suffix without further dots or slashes, after a character other than a dot in its last path component, `splitext` returns exactly that suffix |
| `Images.ExtensionEndsName` | FrontEnd/app.py:34 | a non-empty extension returned by `splitext` ends the name after such a base-name character |
| `Images.SplitExtIff` | FrontEnd/app.py:34 | for every name, `splitext` finds an extension exactly when the name ends in one after a real base name, and then it is that one |
| `Images.AllowedImageIff` | FrontEnd/app.py:31-35 | a name is accepted exactly when, lower-cased, it ends in .jpg, .jpeg, .png, .gif or .webp preceded by a base name with a character other than a dot, in its last path component |
| `Images.AllowedImageIgnoresCase` | FrontEnd/app.py:34 | the answer for a name equals the answer for its lower-cased form |
| `Images.AcceptsUpperCaseExtension` | FrontEnd/app.py:31-35 | "Poster.JPG" is accepted |
| `Images.AcceptsLastOfSeveralExtensions` | FrontEnd/app.py:31-35 | "a.tar.webp" is accepted |
| `Images.RejectsHiddenName` | FrontEnd/app.py:31-35 | ".png" (a dot-file) has no extension and is refused |
| `Images.RefusedExtension` | FrontEnd/app.py:31-35 | a name whose lower-cased form ends in an extension outside the five (after a real base name) is refused |
| `Images.RejectsOtherFinalExtension` | FrontEnd/app.py:31-35 | only the last extension counts: "a.png.exe" is refused |
| `Images.UploadedImageUrl` | FrontEnd/app.py:180-186 | an upload yields a URL exactly when its name passes the extension check, and that URL is the upload folder path plus the name |
| `Images.ImageUrlOnCreate` | FrontEnd/app.py:178-188 | the stored URL is never empty: an accepted upload wins, else the stripped typed URL, else the placeholder |
| `Images.ImageUrlOnUpdate` | FrontEnd/app.py:211-220 | an accepted upload wins; an empty URL field keeps the current image; otherwise the stripped field replaces it |
| `Images.BlankUrlClearsImageOnUpdate` | FrontEnd/app.py:211-220 | a whitespace-only URL field clears the image on update but yields the placeholder on create |
| `PyText.IsSpace` | FrontEnd/app.py:178 | the characters `str.isspace` accepts, which `strip()` removes |
| `PyText.Required` | FrontEnd/app.py:82-95 | `DataRequired`: a field passes exactly when it is not empty after stripping |
| `PyText.Lower` | FrontEnd/app.py:34 | same length; each character lower-cased on its own |
| `PyText.RFind` | FrontEnd/app.py:34 | the last index holding the character, or -1 when there is none |
| `PyText.Strip` | FrontEnd/app.py:178 | the result is empty exactly when the input is all whitespace; otherwise it starts and ends with non-whitespace and is the input minus whitespace runs at both ends |
| `PyText.LowerIdempotent` | FrontEnd/app.py:34 | lower-casing twice equals lower-casing once |
| `Priority.Bucket` | FrontEnd/app.py:108-113 | the bucket is 0, 1 or 2: 0 for soon, else 1 for not expired, else 2 |
| `Priority.KeyOf` | FrontEnd/app.py:107-117 | `sort_key`: the bucket, then the date, negated for expired events |
| `Priority.KeyLe` | FrontEnd/app.py:117-118 | Python's order on `(bucket, ts)` tuples: bucket first, then timestamp |
| `Priority.Annotate` | FrontEnd/app.py:99-106 | the annotation keeps the event; days_left and hours_left are the floors of (date - now) / 86400 and / 3600 |
| `Priority.Classification` | FrontEnd/app.py:99-106 | is_expired and is_soon are never both true; expired iff date < now; soon iff now <= date <= now + 604800; neither iff date > now + 604800; both counters negative exactly for expired events; soon events have at most 7 days / 168 hours left |
| `Priority.BucketByDate` | FrontEnd/app.py:107-113 | bucket 0 iff the date is in the 7-day window, 1 iff after it, 2 iff before now |
| `Priority.ThreeDaysAhead` | FrontEnd/app.py:99-113 | an event at now + 3 days is soon, not expired, bucket 0, with 3 days and 72 hours left |
| `Priority.TwoDaysAgo` | FrontEnd/app.py:99-113 | an event at now - 2 days is expired, not soon, bucket 2, with -2 days and -48 hours left |
| `Priority.ThirtyDaysAhead` | FrontEnd/app.py:99-113 | an event at now + 30 days is neither soon nor expired, bucket 1 |
| `StableSort.Insert` | FrontEnd/app.py:118 | inserting adds exactly the one entry: the multiset grows by it |
| `StableSort.SortByKey` | FrontEnd/app.py:118 | the sorted list is a permutation of its input |
| `StableSort.InsertSorted` | FrontEnd/app.py:118 | inserting into a sorted sequence keeps it sorted |
| `StableSort.InsertWithKey` | FrontEnd/app.py:118 | inserting into a sorted sequence appends the entry to the run of its key and leaves other keys' runs alone |
| `StableSort.SortByKeySorted` | FrontEnd/app.py:107-118 | the output's (bucket, ts) keys never decrease |
| `StableSort.SortByKeyStable` | FrontEnd/app.py:118 | for every key, the entries with that key appear in the output in their input order |
| `StableSort.SortByKeyEvents` | FrontEnd/app.py:118 | the events behind the sorted entries are a permutation of the input events |
| `StableSort.SortByKeyUnique` | FrontEnd/app.py:118 | any sorted sequence with the same per-key subsequences as the input is the sort's output |
| `StableSort.SortedRunsEqual` | FrontEnd/app.py:118 | two sorted sequences with equal per-key subsequences are equal |
| `Prioritizer.AnnotateAll` | FrontEnd/app.py:101-106 | one annotation per event, position by position |
| `Prioritizer.SortedIsRanked` | FrontEnd/app.py:107-117 | ordering by (bucket, ts) puts soon before upcoming before expired, dates ascending among soon and among upcoming events, descending among expired ones |
| `Prioritizer.RankingProperties` | FrontEnd/app.py:98-118 | the prioritized list is a permutation of the events, each entry carries its own annotation, it is sorted, ranked and stable |
| `Prioritizer.PrioritizeEvents` | FrontEnd/app.py:98-118 | the loop annotates every event; the result is the stable sort of the annotations with all properties of RankingProperties |
| `Visibility.AdminId` | FrontEnd/app.py:123-124 | the id is 1 when no user is named Nepal_Admin, and otherwise the id of such a user |
| `Visibility.AdminIdOfAdmin` | FrontEnd/app.py:123-124 | with unique usernames the admin id is the admin account's id |
| `Visibility.ShownOnIndex` | FrontEnd/app.py:125-129 | the home page shows an event owned by the admin id, or by a logged-in viewer |
| `Visibility.ViewerId` | FrontEnd/app.py:138 | the viewer's id when logged in, else -1 |
| `Visibility.InCategory` | FrontEnd/app.py:139 | an absent or empty category keeps every event; otherwise only events of that category |
| `Visibility.Select` | FrontEnd/app.py:127 | the filter keeps every occurrence of a satisfying event and no other event |
| `Visibility.IndexEvents` | FrontEnd/app.py:123-129 | the home page lists exactly the stored events owned by the admin id or, for a logged-in viewer, by the viewer, with their multiplicities |
| `Visibility.ListEvents` | FrontEnd/app.py:135-140 | the event list holds exactly the stored events owned by the admin id or by the viewer's id (-1 when anonymous) and, for a non-empty category, of that category |
| `Visibility.IndexPrivacy` | FrontEnd/app.py:125-129 | every listed event is the admin's or the viewer's; anonymous viewers see only admin events |
| `Visibility.ListPrivacy` | FrontEnd/app.py:136-140 | with no event owned by id -1, every listed event is the admin's or the viewer's, anonymous viewers see only admin events, and a category filter holds for all |
| `Visibility.SelectSame` | FrontEnd/app.py:127 | filters that agree on the stored events select the same sequence |
| `Visibility.ListMatchesIndex` | FrontEnd/app.py:125-140 | without a category, the event list equals the home page's list, in order, unless an anonymous viewer meets an event owned by id -1 |
| `Store.FindEvent` | FrontEnd/app.py:202 | finds a position holding the requested id exactly when some stored event has it |
| `Store.CountId` | FrontEnd/app.py:46 | the count is zero exactly when no event has the id |
| `Store.NextEventId` | FrontEnd/app.py:189-193 | the new id is 1 for an empty table, and otherwise exactly one more than the largest stored id |
| `Store.CountPair` | FrontEnd/app.py:257 | the count is zero exactly when no registration links the user to the event |
| `Store.WithoutEvent` | FrontEnd/app.py:237 | exactly the events with another id remain; no id count grows; the deleted id is gone |
| `Store.WithoutRegistrationsOf` | FrontEnd/app.py:55 | exactly the registrations of other events remain; no pair count grows |
| `Store.RegistrationsOf` | FrontEnd/app.py:269 | `filter_by(event_id=…)`: the event's registrations, each as often as stored, and no other |
| `Store.NewestFirst` | FrontEnd/app.py:269 | `created_at` never increases along the list |
| `Store.PrependNewest` | FrontEnd/app.py:269 | an entry at least as new as every entry of a newest-first list keeps it newest first when put in front |
| `Store.InsertNewest` | FrontEnd/app.py:269 | inserting into a newest-first list adds exactly that entry and keeps it newest first |
| `Store.SortNewestFirst` | FrontEnd/app.py:269 | `order_by(created_at.desc())`: the result is newest first and a permutation of its input |
| `Store.EventFormValid` | FrontEnd/app.py:82-91 | `validate_on_submit` for the event form: every field but the image URL passes DataRequired |
| `Store.ApplyUpdate` | FrontEnd/app.py:205-220 | title, organizer, location, description, category and image URL come from the form; id, date and owner are unchanged |
| `Store.CountIdReplace` | FrontEnd/app.py:205-221 | replacing an event by one with the same id leaves every id count unchanged |
| `Store.ReplaceKeepsIntegrity` | FrontEnd/app.py:205-221 | such a replacement keeps ids unique and every registration's event present |
| `Store.AppendKeepsIntegrity` | FrontEnd/app.py:189-193 | adding an event with the next id keeps ids unique and every registration's event present |
| `Store.DuplicatePairCounted` | FrontEnd/app.py:257-260 | two registrations of one pair count at least two |
| `Store.UniquePairsDistinct` | FrontEnd/app.py:257-260 | the registration invariant means no two registrations share a (user, event) pair |
| `Store.DuplicateIdCounted` | FrontEnd/app.py:46 | two events with one id count at least two |
| `Store.UniqueIdsDistinct` | FrontEnd/app.py:46 | the event invariant means no two events share an id |
| `Store.EventStore.constructor` | FrontEnd/app.py:316-317 | a fresh store is empty and valid |
| `Store.EventStore.CreateEvent` | FrontEnd/app.py:171-194 | login and a valid form are required; the new event gets the next id, the viewer as owner, the parsed date or now, and a non-empty image URL; registrations are untouched |
| `Store.EventStore.UpdateEvent` | FrontEnd/app.py:199-221 | the update happens exactly for the logged-in owner with a valid form and rewrites that one event by ApplyUpdate; anonymous, unknown event, non-owner and invalid form leave the store unchanged; no event's id, date or owner ever changes |
| `Store.EventStore.DeleteEvent` | FrontEnd/app.py:232-238 | deletion happens exactly for the logged-in owner, and removes the event and its registrations and nothing else; every other case changes nothing |
| `Store.EventStore.RegisterEvent` | FrontEnd/app.py:249-261 | a registration is added exactly when the viewer is logged in, the event exists, the note is non-blank and the pair is not yet registered; after a new or repeated attempt the pair is registered exactly once; every other case changes nothing |
| `Store.EventStore.IsRegistered` | FrontEnd/app.py:244-246 | none for an unknown event; true exactly for a logged-in viewer with a registration for the event |
| `Store.EventStore.EventRegistrations` | FrontEnd/app.py:263-270 | login required; unknown event is not found; exactly a non-owner is turned away; the owner gets the event's registrations, each as often as stored, newest first |
| `Store.RegisterTwice` | FrontEnd/app.py:257-260 | two registrations by one user for one event leave exactly one, and the user shows as registered |

## Left out

- Flask routing, templates, `flash` messages and redirects: each handler's
  response is an outcome value.
- Session and login state (`login_user`, `current_user`, `login_required`):
  the viewer is a parameter.
- The GET branches that prefill forms (FrontEnd/app.py:195-196, 222-229): they
  change no state.
- `register`, `login`, `logout`, `dashboard`, `about`, `contact`
  (FrontEnd/app.py:144-169, 272-277): these are password hashing, session
  calls and plain lookups without decision logic; users are never deleted,
  so the user-side cascade (FrontEnd/app.py:43) is not modelled.
- The `attendees` property (FrontEnd/app.py:57-59): it is a plain projection.
- CSRF checking inside `validate_on_submit`: form validity is the
  `DataRequired` test only.
- `datetime.strptime` (FrontEnd/app.py:176): the parsed date is an optional
  input. The fallback to `now` on a parse failure is modelled.
- `secure_filename`, saving the file and `os.makedirs`: the upload is given
  as the already-sanitised name. The 4 MiB request limit is not modelled.
- Float `total_seconds()` and `timestamp()`: times are whole seconds, so
  sub-second parts and time-zone shifts of the naive `timestamp()` are out.
  The order of timestamps is kept.
- The annotation loop writes attributes onto the ORM objects in place. The
  model builds annotated copies instead, so aliasing of those objects is out.
- `order_by(Event.date.asc())` on the listings: the filters keep table
  order. Each listing goes straight into the prioritizer, whose stable sort
  orders by bucket and date. Entries with equal keys have equal dates, and
  SQL leaves the order of equal dates unspecified too.
- Store.EventStore.EventRegistrations: `order_by(Registration.created_at.desc())`
  leaves registrations with equal times in an order SQL does not specify.
  `SortNewestFirst` keeps them in table order, and the contract promises
  only the newest-first order and the multiset.
- Store.EventStore.RegisterEvent: each handler is modelled as one atomic
  step, so concurrent requests are left out. The source keeps (user, event)
  pairs unique only by looking for a row and then inserting (FrontEnd/app.py:257-260);
  the registrations table has no unique constraint (FrontEnd/app.py:61-67).
  `UniquePairs` in `Valid()` is therefore an invariant of requests served one
  at a time, not a database guarantee.
- `.first()` on the admin lookup takes table order. Usernames are unique, so
  `AdminIdOfAdmin` shows that order does not matter.
- `str.lower` handles ASCII letters only. `str.isspace` follows Python's
  full whitespace list.
- `os.path.splitext` is the POSIX version; Windows backslash separators are
  not modelled.
- Registration primary keys are not modelled. `created_at` is a parameter.
  New event ids follow SQLite's rule of the largest id plus one; the random
  fallback past 2^63 - 1 is not modelled.
- The seed data (FrontEnd/app.py:280-314) and `FrontEnd/static/JS/main.js`
  (page animation and navigation) are not part of this model.
- `index` and `events` run the filter and then the prioritizer. That
  composition is not a separate member.
- PrioritizeEvents: does not return `now` alongside the list, because the caller supplies it.
