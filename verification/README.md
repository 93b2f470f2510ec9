# Spott event data layer in Dafny

A model of the event/registration data layer of Spott, an event-hosting
application backed by a Convex document store. It covers:

- the two event mutations in `convex/events.js`:
  - `createEvent` checks the free-tier quota and the Pro-only theme colour,
    derives the URL slug, inserts the event and bumps the quota counter;
  - `deleteEvent` checks existence and then ownership, deletes every
    registration of the event, deletes the event and rolls the quota back;
- the two reads in the same file, `getEventBySlug` and `getMyEvents`;
- the dashboard query `getEventDashboard` in `convex/dashboard.js`, which
  authorizes the caller and derives check-in, revenue and timing statistics
  from the event's registrations.

The store is a value: one map per table (`users`, `events`,
`registrations`) plus the next event id. Each mutation is a pure function
from a store to `Result<(Store, value), message>`; a thrown `Error` becomes
`Failure` carrying the source's message string. Every mutation takes one
explicit `now` (milliseconds). The files:

- `wrappers.dfy` — `Option` and `Result`.
- `slug.dfy` — module `Slug`:
  - the three passes of the slug transformation and the decimal timestamp
    suffix;
  - the inverse that splits a stored slug back into base and timestamp;
  - shape, idempotence and injectivity lemmas.
- `model.dfy` — module `Model`:
  - the documents (`User`, `EventData`, `Event`, `Registration`, `Store`);
  - fresh-id allocation;
  - the store invariant `Valid`: counters non-negative, ids allocated,
    slugs unique and derived from title and creation time, no registration
    without its event.
- `events.dfy` — module `Events`: `CreateEvent` (gates plus `InsertEvent`),
  `DeleteEvent` with the deletion loop `DeleteRegistrations`,
  `GetEventBySlug`, `GetMyEvents`.
- `dashboard.dfy` — module `Dashboard`: `GetEventDashboard`, `ComputeStats`
  and the arithmetic pieces.
- `properties.dfy` — module `Properties`:
  - the invariants each mutation keeps;
  - what a sequence of calls observes: create then look up, create then
    delete, delete twice.

The model follows the code as written, including:

- An empty-string `themeColor` from a non-Pro caller is falsy in JavaScript.
  It is therefore not rejected, and the default colour is stored
  (`ThemeGated`).
- Only `createEvent` wraps its errors with `"Failed to create event: "`.
  `deleteEvent` throws its two messages unwrapped, and the dashboard throws
  a bare `"Unauthorized"`.
- `createEvent` raises the counter for every non-Pro event, paid or free.
  `deleteEvent` lowers it only for free events. `CreateThenDeleteQuota`
  states the consequence.

## Model

| member | source | states |
|---|---|---|
| Slug.Lower | convex/events.js:60 | ASCII lower-casing keeps the length, maps each of `A`-`Z` to the matching letter of `a`-`z`, and keeps every other character |
| Slug.Collapse | convex/events.js:61 | collapsing runs of characters outside `[a-z0-9]` keeps every letter and digit of the input, in order. The result has only `[a-z0-9-]` and no `--`, and is no longer than the input. It starts with the input's first character when that is a letter or digit, and with `-` when the input starts with a run. Where each hyphen goes is stated by `CollapseConcat` and `RunIsOneHyphen` |
| Slug.CollapseConcat | convex/events.js:61 | no run crosses a letter or digit: split just after one, the input collapses as its two parts collapsed separately and joined |
| Slug.RunIsOneHyphen | convex/events.js:61 | a non-empty run with no letter or digit, followed by a letter, a digit or nothing, becomes exactly one `-` in front of the rest's collapse |
| Slug.TrimHyphens | convex/events.js:62 | the input is the result with one `-` put back at the start exactly when the input started with `-`, and one at the end exactly when the rest ended with `-`. On a collapsed string the result has no hyphen at either end, only `[a-z0-9-]` and no `--` |
| Slug.Base | convex/events.js:59-62 | the base slug of any title keeps exactly the letters and digits of the lower-cased title, in order. It contains only `[a-z0-9-]`, has no `--`, and neither starts nor ends with `-`. `TwoWordsBase` pins where the hyphen goes |
| Slug.TwoWordsBase | convex/events.js:59-62 | two non-empty `[a-z0-9]` words separated by any non-empty run of characters whose lower-case form is not a letter or digit give the words joined by exactly one `-` ("hello world" and "hello, world" both give "hello-world") |
| Slug.BaseIdempotent | convex/events.js:59-62 | deriving a base slug from a base slug returns it unchanged |
| Slug.Decimal | convex/events.js:68 | the timestamp suffix is a non-empty string of decimal digits without a leading zero |
| Slug.DecimalRoundTrip | convex/events.js:68 | reading the decimal suffix back gives the timestamp |
| Slug.LastHyphenOfJoin | convex/events.js:68 | in `base-digits` the last hyphen is the joining one, whatever hyphens the base holds |
| Slug.SplitSlugFor | convex/events.js:59-68 | splitting a stored slug at its last hyphen recovers the base slug and the creation timestamp |
| Slug.SlugForInjective | convex/events.js:59-68 | two stored slugs are equal only when their bases and timestamps are, so different timestamps always give different slugs |
| Model.FreshEventId | convex/events.js:65 | the id the insert uses is not taken by any stored event and is the first free id from the counter on |
| Events.WrapCreateError | convex/events.js:84-85 | a wrapped create error is the prefix `Failed to create event: ` followed by the original message, which can be read back |
| Events.InsertEvent | convex/events.js:57-81 | the insert adds exactly one event under a fresh id. The event keeps the payload except the theme colour, which is the requested one for Pro and the default otherwise. Its slug is `base-now`, it is owned by the caller under the caller's name, and it starts with 0 registrations. The counter rises by 1 for non-Pro and is unchanged for Pro. Nothing else changes |
| Events.CreateEvent | convex/events.js:29-86 | create fails exactly when a non-Pro caller is over quota or asks for a non-default colour. The quota error takes precedence. Both errors are wrapped and leave the store as it was. Otherwise the result is the insert |
| Events.DeleteRegistrations | convex/events.js:127-134 | deleting the scanned registrations one at a time, in any order, removes exactly those of the event and leaves every other registration as it was |
| Events.DeleteEvent | convex/events.js:117-145 | a missing event gives `Event not found` before any ownership check, and a non-owner gets the authorization message. Otherwise the event and all its registrations are gone and everything else is unchanged. The counter drops by 1 exactly when the event was free and the counter was positive, so it never goes negative. The result is `success: true` |
| Events.GetEventBySlug | convex/events.js:93-97 | returns the event with the given slug, or nothing exactly when no event has it |
| Events.EventsOfBelow | convex/events.js:106-110 | the organizer's events with ids below a bound, each exactly as stored, with none missing and ids strictly decreasing |
| Events.GetMyEvents | convex/events.js:103-111 | returns exactly the caller's events, each as stored, newest (highest creation id) first |
| Dashboard.CheckedInOf | convex/dashboard.js:30 | the checked-in registrations are a subset of the event's registrations, and precisely those flagged `checkedIn` |
| Dashboard.CheckInRate | convex/dashboard.js:60-63 | the rate is 0 without registrations. Otherwise it is the nearest whole percentage of checked-in over total, halves rounded up. It lies in [0,100], is 100 when all are checked in and 0 when none are |
| Dashboard.RateBounds | convex/dashboard.js:63 | the quotient `(200c+t) div 2t` brackets `100c/t` within half a unit and so lies in [0,100] when `c <= t` |
| Dashboard.HoursUntil | convex/dashboard.js:39-42 | hours until the start are never negative and are 0 once the start is not in the future. Otherwise they are the ceiling of the distance in hours: `(h-1)·3600000 < start−now <= h·3600000` |
| Dashboard.Revenue | convex/dashboard.js:44-47 | projected revenue is 0 for a free event and 0 for a paid event without a price. For a paid event with a price it is the number of registrations times that price, so it is 0 when there are no registrations |
| Dashboard.ComputeStats | convex/dashboard.js:23-64 | totals count only this event's registrations. Checked-in plus pending is the total, and checked-in never exceeds it. The rate is `CheckInRate` of the two counts, so it lies in [0,100], is 0 without registrations and is the nearest whole percentage otherwise. Hours are `HoursUntil` of start and now: 0 once the start has passed, otherwise the ceiling in hours. `isEventPast` holds iff `endDate < now`. Revenue is total × price (absent price = 0) for paid events, and 0 for free events or when there are no registrations. Capacity is the event's |
| Dashboard.GetEventDashboard | convex/dashboard.js:10-66 | no current user gives null, a missing event gives null, and a non-organizer gets `Unauthorized`. The organizer of an existing event always gets the stored event unchanged with its computed statistics, and a dashboard is returned in no other case. Nothing is written |
| Dashboard.DashboardIgnoresOtherEvents | convex/dashboard.js:23-31 | adding a registration of another event leaves the dashboard result unchanged |
| Dashboard.CheckInMovesOneFromPending | convex/dashboard.js:30-31 | checking in one pending registration raises the checked-in count by 1, lowers pending by 1 and keeps the total |
| Dashboard.CheckInRateExample | convex/dashboard.js:60-63 | 6 of 10 checked in is 60%, and no registrations is 0% |
| Dashboard.RevenueExample | convex/dashboard.js:44-47 | 3 registrations of a paid event at 500 project 1500; an absent price or a free event projects 0 |
| Dashboard.HoursUntilExample | convex/dashboard.js:39-42 | an event 5 hours away, or a millisecond less, is 5 hours away |
| Properties.FreshSlug | convex/events.js:68 | a slug minted at `now` for a title collides with no stored slug, unless an event with the same base slug was stored in the same millisecond |
| Properties.SameMillisecondTwinCollides | convex/events.js:59-68 | the collision the scheme accepts: inserting in the same millisecond as a stored event with the same base slug gives two events with one slug, so slugs are no longer unique |
| Properties.InsertPreservesValid | convex/events.js:59-81 | the insert keeps every store invariant, including slug uniqueness, whenever no event with the same base slug was stored in the same millisecond. The new id is above every existing one |
| Properties.CreatePreservesValid | convex/events.js:29-86 | a successful create keeps every store invariant under the same no-twin condition, and gives the new event the highest id |
| Properties.LookupOwnSlug | convex/events.js:93-97 | in a store with unique slugs, looking up an event's slug returns that event |
| Properties.NewestHeadsListing | convex/events.js:106-110 | the caller's event with the highest id comes first in the caller's listing |
| Properties.DeletePreservesValid | convex/events.js:117-145 | a successful delete keeps every store invariant, in particular no registration is left without its event |
| Properties.SecondFreeCreateRejected | convex/events.js:38-81 | after a non-Pro caller's first successful create from a zero counter, every further non-Pro create by that caller fails with the wrapped quota message |
| Properties.CreateThenLookup | convex/events.js:65-97 | after a create with no same-millisecond, same-base twin, looking up the new slug returns exactly the new event. It carries the payload (theme colour aside), is owned by the caller, has 0 registrations, and heads the caller's listing |
| Properties.CreateThenDeleteQuota | convex/events.js:77-142 | a non-Pro create followed by deleting that event returns the counter to its start for a free event and leaves it one higher for a paid one |
| Properties.DeleteTwice | convex/events.js:120-142 | a second delete of the same event reports `Event not found`, so the counter moves at most once across the two calls |
| Properties.DeleteThenLookup | convex/events.js:127-136 | after a delete the event's slug no longer resolves, none of its registrations remain, and its dashboard is null |
| Properties.NonOrganizerRefused | convex/events.js:120-125 | for an existing event, a non-organizer gets the authorization error from delete. The dashboard gives `Unauthorized` (convex/dashboard.js:19-21). Neither answers not-found |

## Left out

- Session resolution (`getCurrentUser`) is not part of this model. The
  caller is a user id that is present in the store. For the dashboard, a
  null user is modelled (`None`). With a null user, `createEvent` and
  `getMyEvents` always crash on a field access rather than fail by design,
  so they require a resolved user.
- Events.DeleteEvent requires a resolved user too. With a null user the
  source still answers `Event not found` for a missing event, because
  that check comes before `user._id` is read; it crashes only when the
  event exists. The requires excludes that designed not-found answer.
- Convex's index and query engine is not modelled. Tables are maps, and an
  index scan is a set comprehension over a map.
- `.unique()` throwing on duplicate slugs: `GetEventBySlug` instead requires
  slugs to be unique. Every create keeps slugs unique unless an event with
  the same base slug was created in the same millisecond. That collision
  is the known limit of a millisecond suffix and is stated by
  `SameMillisecondTwinCollides`.
- Events.GetMyEvents: newest-first is stated on event ids. Ids are handed out
  in creation order, which stands for Convex's `_creationTime` ordering.
  The function requires every stored id to be below the id counter.
- Several `Date.now()` calls within one mutation are modelled as a single
  `now`, so the slug suffix, `createdAt` and `updatedAt` agree.
- `isEventToday` depends on the process locale and time zone. It is modelled
  through a `dayOf` parameter mapping an instant to its calendar day.
- Floating point is not modelled: timestamps, `capacity` and `ticketPrice`
  are integers.
- Dashboard.CheckInRate rounds the exact rational `100·c/t` half up. At an
  exact .5 tie, JavaScript's floating-point division can fall just below the
  tie and round down.
- Dashboard.ComputeStats: `ticketPrice || 0` also maps `NaN` to 0, which
  integers cannot express.
- Slug.Lower: only ASCII case folding is modelled. Every non-ASCII
  character counts as outside `[a-z0-9]`. JavaScript's Unicode
  `toLowerCase` can turn some non-ASCII characters (the Kelvin sign, for
  example) into ASCII letters.
- Concurrency between mutations is not modelled: each mutation is one
  atomic step, as Convex runs it in one transaction.
- Store failures inside a mutation are not modelled. In particular
  `createEvent`'s catch-all wrapping applies only to the two gate errors.
- The event-description generator (`app/api/generate-event/route.js`) is
  a network call to an external text-generation service and is not part of
  this model.
- `registrationCount` is set to 0 at creation and never maintained here. The
  dashboard counts registrations live instead.
