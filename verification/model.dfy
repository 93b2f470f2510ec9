/** The documents of the store: users (principals), events and
    registrations, each table a map from document id to document, and the
    invariants every reachable store keeps. */
module Model {
  import opened Wrappers
  import opened Slug

  type UserId = nat
  type EventId = nat
  type RegistrationId = nat

  datatype TicketType = Free | Paid
  datatype LocationType = Physical | Online

  /** A principal; `freeEventsCreated` is the free-tier quota counter. */
  datatype User = User(name: string, freeEventsCreated: int)

  /** The caller-supplied fields of an event: the arguments of `createEvent`
      without the runtime-only `hasPro` flag. */
  datatype EventData = EventData(
    title: string,
    description: string,
    category: string,
    tags: seq<string>,
    startDate: int,
    endDate: int,
    timezone: string,
    locationType: LocationType,
    venue: Option<string>,
    address: Option<string>,
    city: string,
    state: Option<string>,
    country: string,
    capacity: int,
    ticketType: TicketType,
    ticketPrice: Option<int>,
    coverImage: Option<string>,
    themeColor: Option<string>)

  /** A stored event: the payload plus the server-assigned fields. */
  datatype Event = Event(
    data: EventData,
    slug: string,
    organizerId: UserId,
    organizerName: string,
    registrationCount: int,
    createdAt: nat,
    updatedAt: nat)

  datatype Registration = Registration(
    eventId: EventId,
    attendeeName: string,
    attendeeEmail: string,
    qrCode: string,
    checkedIn: bool,
    registeredAt: int)

  /** The store. Event ids are handed out by `nextEventId` in creation order,
      which stands for the store's creation-time ordering. */
  datatype Store = Store(
    users: map<UserId, User>,
    events: map<EventId, Event>,
    registrations: map<RegistrationId, Registration>,
    nextEventId: EventId)

  /** Ids of the registrations that reference event `eid` (the `by_event`
      index scan). */
  function RegistrationsOf(regs: map<RegistrationId, Registration>, eid: EventId): (ids: set<RegistrationId>)
    ensures forall r :: r in ids <==> r in regs && regs[r].eventId == eid
  {
    set r | r in regs && regs[r].eventId == eid
  }

  /** The ids at or above `k` already in use. */
  function IdsFrom(events: map<EventId, Event>, k: nat): set<EventId> {
    set id | id in events && id >= k
  }

  /** The first id at or above `k` not in use: the store's fresh document
      id for an insert. */
  function FreshEventId(events: map<EventId, Event>, k: nat): (id: EventId)
    ensures id !in events && id >= k
    ensures forall j :: k <= j < id ==> j in events
    decreases |IdsFrom(events, k)|
  {
    if k !in events then k
    else
      assert IdsFrom(events, k) == IdsFrom(events, k + 1) + {k};
      FreshEventId(events, k + 1)
  }

  /** No quota counter is negative. */
  predicate CountersNonNegative(s: Store) {
    forall u :: u in s.users ==> s.users[u].freeEventsCreated >= 0
  }

  /** Every stored event id was handed out by the counter. */
  predicate IdsAllocated(s: Store) {
    forall id :: id in s.events ==> id < s.nextEventId
  }

  /** No two events share a slug. */
  predicate SlugsUnique(events: map<EventId, Event>) {
    forall a, b :: a in events && b in events && events[a].slug == events[b].slug ==> a == b
  }

  /** Every slug is derived from its event's title and creation time. */
  predicate SlugsDerived(events: map<EventId, Event>) {
    forall id :: id in events ==> events[id].slug == SlugFor(events[id].data.title, events[id].createdAt)
  }

  /** No registration outlives its event. */
  predicate RegistrationsReferenceLiveEvents(s: Store) {
    forall r :: r in s.registrations ==> s.registrations[r].eventId in s.events
  }

  predicate Valid(s: Store) {
    && CountersNonNegative(s)
    && IdsAllocated(s)
    && SlugsUnique(s.events)
    && SlugsDerived(s.events)
    && RegistrationsReferenceLiveEvents(s)
  }

  /** No stored event was created at `now` with the same base slug as
      `title`: the one situation in which a slug minted at `now` for `title`
      could already be in use. */
  predicate NoSlugTwin(s: Store, title: string, now: nat) {
    forall id :: id in s.events && s.events[id].createdAt == now ==>
      Base(s.events[id].data.title) != Base(title)
  }
}
