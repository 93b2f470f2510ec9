/** Event mutations and reads: creation under the free-tier quota and the
    Pro-only theme gate, cascading deletion with quota rollback, lookup by
    slug and the organizer's own listing. Each mutation is one atomic step
    from a store to a store. */
module Events {
  import opened Wrappers
  import opened Slug
  import opened Model

  const DefaultThemeColor := "#1e3a8a"
  const QuotaMessage := "Free event limit reached. Please upgrade to Pro to create more events."
  const ThemeMessage := "Custom theme colors are a Pro feature. Please upgrade to Pro."
  const CreateFailurePrefix := "Failed to create event: "
  const NotFoundMessage := "Event not found"
  const NotOwnerMessage := "You are not authorized to delete this event"

  /** The arguments of `createEvent`: the event payload and the runtime-only
      Pro flag, which is never stored. */
  datatype CreateArgs = CreateArgs(data: EventData, hasPro: Option<bool>)

  /** The value `deleteEvent` returns on success. */
  datatype DeleteOutcome = DeleteOutcome(success: bool)

  /** `!!hasPro`: only an explicit `true` grants Pro. */
  predicate IsPro(hasPro: Option<bool>) {
    hasPro == Some(true)
  }

  /** A non-Pro caller who has already created a free-tier event. */
  predicate QuotaReached(user: User, pro: bool) {
    !pro && user.freeEventsCreated >= 1
  }

  /** A non-Pro caller asking for a theme colour other than the default; an
      absent or empty colour is falsy in the source and is not gated. */
  predicate ThemeGated(color: Option<string>, pro: bool) {
    !pro && color.Some? && color.value != "" && color.value != DefaultThemeColor
  }

  /** Every error thrown inside `createEvent` is rethrown with this prefix. */
  function WrapCreateError(message: string): (wrapped: string)
    ensures |wrapped| == |CreateFailurePrefix| + |message|
    ensures wrapped[..|CreateFailurePrefix|] == CreateFailurePrefix
    ensures wrapped[|CreateFailurePrefix|..] == message
  {
    CreateFailurePrefix + message
  }

  /** The theme colour `createEvent` stores: the requested one for Pro,
      the default otherwise. */
  function StoredThemeColor(requested: Option<string>, pro: bool): Option<string> {
    if pro then requested else Some(DefaultThemeColor)
  }

  /** The write step of `createEvent`, once both gates have passed: inserts
      the event with its server-assigned fields and, for a non-Pro caller,
      raises the quota counter by one. Nothing else changes. */
  function InsertEvent(s: Store, caller: UserId, args: CreateArgs, now: nat): (r: (Store, EventId))
    requires caller in s.users
    ensures var (s', id) := r;
      && id !in s.events && id >= s.nextEventId
      && s'.events.Keys == s.events.Keys + {id}
      && (forall other :: other in s.events ==> s'.events[other] == s.events[other])
      && s'.nextEventId > id
      && s'.registrations == s.registrations
    ensures var (s', id) := r;
      var e := s'.events[id];
      && e.data.(themeColor := args.data.themeColor) == args.data
      && e.data.themeColor == StoredThemeColor(args.data.themeColor, IsPro(args.hasPro))
      && e.slug == SlugFor(args.data.title, now)
      && e.organizerId == caller && e.organizerName == s.users[caller].name
      && e.registrationCount == 0 && e.createdAt == now && e.updatedAt == now
    ensures var (s', id) := r;
      var user := s.users[caller];
      && s'.users.Keys == s.users.Keys
      && s'.users[caller].name == user.name
      && s'.users[caller].freeEventsCreated
         == (if IsPro(args.hasPro) then user.freeEventsCreated else user.freeEventsCreated + 1)
      && (forall u :: u in s.users && u != caller ==> s'.users[u] == s.users[u])
  {
    var user := s.users[caller];
    var pro := IsPro(args.hasPro);
    var event := Event(
      args.data.(themeColor := StoredThemeColor(args.data.themeColor, pro)),
      SlugFor(args.data.title, now),
      caller,
      user.name,
      0,
      now,
      now);
    var id := FreshEventId(s.events, s.nextEventId);
    var users := if pro then s.users
                 else s.users[caller := user.(freeEventsCreated := user.freeEventsCreated + 1)];
    (s.(events := s.events[id := event], users := users, nextEventId := id + 1), id)
  }

  /** `createEvent`: rejects a non-Pro caller over quota, then a non-Pro
      custom colour, each with the wrapped message and no write; otherwise
      performs the insert. */
  function CreateEvent(s: Store, caller: UserId, args: CreateArgs, now: nat): (r: Result<(Store, EventId), string>)
    requires caller in s.users
    ensures var pro := IsPro(args.hasPro);
      r.Failure? <==> QuotaReached(s.users[caller], pro) || ThemeGated(args.data.themeColor, pro)
    ensures QuotaReached(s.users[caller], IsPro(args.hasPro)) ==>
      r == Failure(WrapCreateError(QuotaMessage))
    ensures !QuotaReached(s.users[caller], IsPro(args.hasPro)) && ThemeGated(args.data.themeColor, IsPro(args.hasPro)) ==>
      r == Failure(WrapCreateError(ThemeMessage))
    ensures r.Success? ==> r.value == InsertEvent(s, caller, args, now)
  {
    var pro := IsPro(args.hasPro);
    if QuotaReached(s.users[caller], pro) then
      Failure(WrapCreateError(QuotaMessage))
    else if ThemeGated(args.data.themeColor, pro) then
      Failure(WrapCreateError(ThemeMessage))
    else
      Success(InsertEvent(s, caller, args, now))
  }

  /** The registrations table with every registration of event `eid`
      removed and every other one kept as it was. */
  function WithoutRegistrationsOf(regs: map<RegistrationId, Registration>, eid: EventId): map<RegistrationId, Registration> {
    map r | r in regs && regs[r].eventId != eid :: regs[r]
  }

  /** The deletion loop of `deleteEvent`: scans the `by_event` index for
      `eid` and deletes the registrations it finds one at a time, in any
      order, before the event itself is touched. */
  method DeleteRegistrations(regs: map<RegistrationId, Registration>, eid: EventId)
    returns (remaining: map<RegistrationId, Registration>)
    ensures forall r :: r in remaining <==> r in regs && regs[r].eventId != eid
    ensures forall r :: r in remaining ==> remaining[r] == regs[r]
    ensures remaining == WithoutRegistrationsOf(regs, eid)
  {
    var scanned := RegistrationsOf(regs, eid);
    var todo := scanned;
    remaining := regs;
    while todo != {}
      invariant todo <= scanned
      invariant forall r :: r in remaining <==> r in regs && (r in scanned ==> r in todo)
      invariant forall r :: r in remaining ==> remaining[r] == regs[r]
      decreases todo
    {
      var r :| r in todo;
      remaining := map x | x in remaining && x != r :: remaining[x];
      todo := todo - {r};
    }
    assert remaining.Keys == WithoutRegistrationsOf(regs, eid).Keys;
  }

  /** `deleteEvent`: not-found before not-owner; on success removes every
      registration of the event, then the event, and gives back one unit of
      free-tier quota when the event was free and the counter is positive. */
  function DeleteEvent(s: Store, caller: UserId, eventId: EventId): (r: Result<(Store, DeleteOutcome), string>)
    requires caller in s.users
    ensures eventId !in s.events ==> r == Failure(NotFoundMessage)
    ensures eventId in s.events && s.events[eventId].organizerId != caller ==> r == Failure(NotOwnerMessage)
    ensures r.Success? <==> eventId in s.events && s.events[eventId].organizerId == caller
    ensures r.Success? ==>
      var (s', outcome) := r.value;
      var user := s.users[caller];
      var refund := s.events[eventId].data.ticketType == Free && user.freeEventsCreated > 0;
      && outcome.success
      && s'.events.Keys == s.events.Keys - {eventId}
      && (forall e :: e in s'.events ==> s'.events[e] == s.events[e])
      && (forall reg :: reg in s'.registrations <==> reg in s.registrations && s.registrations[reg].eventId != eventId)
      && (forall reg :: reg in s'.registrations ==> s'.registrations[reg] == s.registrations[reg])
      && s'.users.Keys == s.users.Keys
      && s'.users[caller].name == user.name
      && (refund ==> s'.users[caller].freeEventsCreated == user.freeEventsCreated - 1)
      && (!refund ==> s'.users[caller].freeEventsCreated == user.freeEventsCreated)
      && (user.freeEventsCreated >= 0 ==> s'.users[caller].freeEventsCreated >= 0)
      && (forall u :: u in s.users && u != caller ==> s'.users[u] == s.users[u])
      && s'.nextEventId == s.nextEventId
  {
    var user := s.users[caller];
    if eventId !in s.events then
      Failure(NotFoundMessage)
    else
      var event := s.events[eventId];
      if event.organizerId != caller then
        Failure(NotOwnerMessage)
      else
        var regs := WithoutRegistrationsOf(s.registrations, eventId);
        var events := map e | e in s.events && e != eventId :: s.events[e];
        var users := if event.data.ticketType == Free && user.freeEventsCreated > 0
                     then s.users[caller := user.(freeEventsCreated := user.freeEventsCreated - 1)]
                     else s.users;
        Success((s.(registrations := regs, events := events, users := users), DeleteOutcome(true)))
  }

  /** `getEventBySlug`: the one event with this slug, or nothing. */
  function GetEventBySlug(s: Store, slug: string): (r: Option<(EventId, Event)>)
    requires SlugsUnique(s.events)
    ensures r.None? <==> forall id :: id in s.events ==> s.events[id].slug != slug
    ensures r.Some? ==> r.value.0 in s.events && s.events[r.value.0] == r.value.1 && r.value.1.slug == slug
  {
    var ids := set id | id in s.events && s.events[id].slug == slug;
    if ids == {} then
      assert forall id :: id in s.events && s.events[id].slug == slug ==> id in ids;
      None
    else
      var id :| id in ids;
      Some((id, s.events[id]))
  }

  /** The events of `organizer` with ids below `bound`, highest id first. */
  function EventsOfBelow(events: map<EventId, Event>, organizer: UserId, bound: nat): (r: seq<(EventId, Event)>)
    ensures forall i :: 0 <= i < |r| ==> r[i].0 < bound
    ensures forall i :: 0 <= i < |r| ==> r[i].0 in events && events[r[i].0] == r[i].1 && r[i].1.organizerId == organizer
    ensures forall id :: id in events && id < bound && events[id].organizerId == organizer ==> (id, events[id]) in r
    ensures forall i, j :: 0 <= i < j < |r| ==> r[i].0 > r[j].0
  {
    if bound == 0 then []
    else
      var id := bound - 1;
      var rest := EventsOfBelow(events, organizer, id);
      if id in events && events[id].organizerId == organizer then
        [(id, events[id])] + rest
      else rest
  }

  /** `getMyEvents`: every event the caller organizes, newest first. */
  function GetMyEvents(s: Store, caller: UserId): (r: seq<(EventId, Event)>)
    requires IdsAllocated(s)
    ensures forall i :: 0 <= i < |r| ==> r[i].0 in s.events && s.events[r[i].0] == r[i].1 && r[i].1.organizerId == caller
    ensures forall id :: id in s.events && s.events[id].organizerId == caller ==> (id, s.events[id]) in r
    ensures forall i, j :: 0 <= i < j < |r| ==> r[i].0 > r[j].0
  {
    EventsOfBelow(s.events, caller, s.nextEventId)
  }
}
