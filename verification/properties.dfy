/** Properties relating several calls: the store invariants each mutation
    keeps, and what a sequence of mutations and reads observes. */
module Properties {
  import opened Wrappers
  import opened Slug
  import opened Model
  import opened Events
  import Dashboard

  /** A slug minted at `now` for `title` is new to a store with no event
      created in the same millisecond under the same base slug: a stored
      slug differs from it in its base or in its timestamp. */
  lemma FreshSlug(s: Store, title: string, now: nat)
    requires SlugsDerived(s.events) && NoSlugTwin(s, title, now)
    ensures forall id :: id in s.events ==> s.events[id].slug != SlugFor(title, now)
  {
    forall id | id in s.events
      ensures s.events[id].slug != SlugFor(title, now)
    {
      SlugForInjective(s.events[id].data.title, s.events[id].createdAt, title, now);
    }
  }

  /** The collision the slug scheme accepts: an insert in the same
      millisecond as a stored event with the same base slug produces a
      second event with that slug. */
  lemma SameMillisecondTwinCollides(s: Store, caller: UserId, args: CreateArgs, now: nat, twin: EventId)
    requires SlugsDerived(s.events) && caller in s.users
    ensures twin in s.events && s.events[twin].createdAt == now && Base(s.events[twin].data.title) == Base(args.data.title) ==>
      var (s', id) := InsertEvent(s, caller, args, now);
      id != twin && twin in s'.events && s'.events[id].slug == s'.events[twin].slug && !SlugsUnique(s'.events)
  {
  }

  /** Adding an event whose slug is new keeps slugs unique and derived. */
  lemma AddEventKeepsSlugs(events: map<EventId, Event>, id: EventId, e: Event)
    requires SlugsUnique(events) && SlugsDerived(events) && id !in events
    requires e.slug == SlugFor(e.data.title, e.createdAt)
    requires forall x :: x in events ==> events[x].slug != e.slug
    ensures SlugsUnique(events[id := e]) && SlugsDerived(events[id := e])
  {
  }

  /** The insert step keeps every store invariant unless an event with the
      same base slug was created in the same millisecond (see
      SameMillisecondTwinCollides): the new slug differs from every stored
      one in its base or its timestamp. The new event gets the next id,
      above every existing one, so it is the newest. */
  lemma InsertPreservesValid(s: Store, caller: UserId, args: CreateArgs, now: nat)
    requires Valid(s) && caller in s.users && NoSlugTwin(s, args.data.title, now)
    ensures var (s', id) := InsertEvent(s, caller, args, now);
      Valid(s') && id == s.nextEventId && forall other :: other in s.events ==> other < id
  {
    var (s', id) := InsertEvent(s, caller, args, now);
    var e := s'.events[id];
    assert id == s.nextEventId;
    FreshSlug(s, args.data.title, now);
    assert s'.events == s.events[id := e];
    AddEventKeepsSlugs(s.events, id, e);
    forall u | u in s'.users
      ensures s'.users[u].freeEventsCreated >= 0
    {
      if u != caller {
        assert s'.users[u] == s.users[u];
      }
    }
  }

  /** A successful create keeps every store invariant (see
      InsertPreservesValid). */
  lemma CreatePreservesValid(s: Store, caller: UserId, args: CreateArgs, now: nat)
    requires Valid(s) && caller in s.users && NoSlugTwin(s, args.data.title, now)
    ensures CreateEvent(s, caller, args, now).Success? ==>
      var (s', id) := CreateEvent(s, caller, args, now).value;
      Valid(s') && id == s.nextEventId && forall other :: other in s.events ==> other < id
  {
    InsertPreservesValid(s, caller, args, now);
  }

  /** A successful delete keeps every store invariant; in particular no
      registration is left pointing at the deleted event. */
  lemma DeletePreservesValid(s: Store, caller: UserId, eventId: EventId)
    requires Valid(s) && caller in s.users
    ensures DeleteEvent(s, caller, eventId).Success? ==> Valid(DeleteEvent(s, caller, eventId).value.0)
  {
    var r := DeleteEvent(s, caller, eventId);
    if r.Success? {
      DropEventKeepsValid(s, r.value.0, caller, eventId);
    }
  }

  /** Any store that drops one event and its registrations, and changes
      only the caller's non-negative counter, keeps every invariant. */
  lemma DropEventKeepsValid(s: Store, s': Store, caller: UserId, eventId: EventId)
    requires Valid(s) && caller in s.users
    requires s'.events.Keys == s.events.Keys - {eventId}
    requires forall e :: e in s'.events ==> s'.events[e] == s.events[e]
    requires forall reg :: reg in s'.registrations ==> reg in s.registrations && s.registrations[reg].eventId != eventId
    requires forall reg :: reg in s'.registrations ==> s'.registrations[reg] == s.registrations[reg]
    requires s'.users.Keys == s.users.Keys && s'.users[caller].freeEventsCreated >= 0
    requires forall u :: u in s.users && u != caller ==> s'.users[u] == s.users[u]
    requires s'.nextEventId == s.nextEventId
    ensures Valid(s')
  {
    assert SlugsUnique(s'.events);
  }

  /** After a non-Pro caller's first successful create, any further non-Pro
      create by that caller is refused with the wrapped quota message and
      changes nothing. */
  lemma SecondFreeCreateRejected(s: Store, caller: UserId, args: CreateArgs, now: nat, args2: CreateArgs, now2: nat)
    requires caller in s.users && s.users[caller].freeEventsCreated == 0
    requires !IsPro(args.hasPro) && !IsPro(args2.hasPro)
    ensures CreateEvent(s, caller, args, now).Success? ==>
      var s' := CreateEvent(s, caller, args, now).value.0;
      caller in s'.users && CreateEvent(s', caller, args2, now2) == Failure(WrapCreateError(QuotaMessage))
  {
  }

  /** In a store with unique slugs, an event's own slug finds it. */
  lemma LookupOwnSlug(s: Store, id: EventId)
    requires SlugsUnique(s.events) && id in s.events
    ensures GetEventBySlug(s, s.events[id].slug) == Some((id, s.events[id]))
  {
  }

  /** The caller's event with the highest id heads the caller's listing. */
  lemma NewestHeadsListing(s: Store, caller: UserId, id: EventId)
    requires IdsAllocated(s) && id in s.events && s.events[id].organizerId == caller
    requires forall other :: other in s.events ==> other <= id
    ensures |GetMyEvents(s, caller)| > 0 && GetMyEvents(s, caller)[0] == (id, s.events[id])
  {
    var mine := GetMyEvents(s, caller);
    assert (id, s.events[id]) in mine;
  }

  /** Creating an event and then looking up its slug finds exactly that
      event, carrying the caller's payload (theme colour aside) and the
      server-assigned fields; it also heads the caller's listing. */
  lemma CreateThenLookup(s: Store, caller: UserId, args: CreateArgs, now: nat)
    requires Valid(s) && caller in s.users && NoSlugTwin(s, args.data.title, now)
    ensures CreateEvent(s, caller, args, now).Success? ==>
      var (s', id) := CreateEvent(s, caller, args, now).value;
      && SlugsUnique(s'.events) && IdsAllocated(s')
      && GetEventBySlug(s', SlugFor(args.data.title, now)) == Some((id, s'.events[id]))
      && s'.events[id].data.(themeColor := args.data.themeColor) == args.data
      && s'.events[id].organizerId == caller && s'.events[id].registrationCount == 0
      && |GetMyEvents(s', caller)| > 0 && GetMyEvents(s', caller)[0] == (id, s'.events[id])
  {
    if CreateEvent(s, caller, args, now).Success? {
      InsertPreservesValid(s, caller, args, now);
      var (s', id) := InsertEvent(s, caller, args, now);
      assert s'.events.Keys == s.events.Keys + {id};
      LookupOwnSlug(s', id);
      NewestHeadsListing(s', caller, id);
    }
  }

  /** The quota asymmetry: a non-Pro caller who creates an event and
      deletes it again gets the counter back only for a free event; a paid
      one leaves it one higher than before. */
  lemma CreateThenDeleteQuota(s: Store, caller: UserId, args: CreateArgs, now: nat)
    requires Valid(s) && caller in s.users && !IsPro(args.hasPro)
    ensures CreateEvent(s, caller, args, now).Success? ==>
      var (s', id) := CreateEvent(s, caller, args, now).value;
      var d := DeleteEvent(s', caller, id);
      && d.Success?
      && d.value.0.users[caller].freeEventsCreated
         == s.users[caller].freeEventsCreated + (if args.data.ticketType == Paid then 1 else 0)
  {
  }

  /** Deleting the same event twice: the second call reports not-found and
      changes nothing, so the quota counter moves at most once. */
  lemma DeleteTwice(s: Store, caller: UserId, eventId: EventId)
    requires caller in s.users
    requires DeleteEvent(s, caller, eventId).Success?
    ensures var s' := DeleteEvent(s, caller, eventId).value.0;
      caller in s'.users && DeleteEvent(s', caller, eventId) == Failure(NotFoundMessage)
      && s.users[caller].freeEventsCreated - 1 <= s'.users[caller].freeEventsCreated <= s.users[caller].freeEventsCreated
  {
  }

  /** Once an event is deleted its slug no longer resolves, and its
      dashboard is empty. */
  lemma DeleteThenLookup(s: Store, caller: UserId, eventId: EventId, now: int, dayOf: int -> int)
    requires Valid(s) && caller in s.users
    ensures DeleteEvent(s, caller, eventId).Success? ==>
      var s' := DeleteEvent(s, caller, eventId).value.0;
      && SlugsUnique(s'.events)
      && GetEventBySlug(s', s.events[eventId].slug).None?
      && RegistrationsOf(s'.registrations, eventId) == {}
      && Dashboard.GetEventDashboard(s', Some(caller), eventId, now, dayOf) == Success(None)
  {
    if DeleteEvent(s, caller, eventId).Success? {
      var s' := DeleteEvent(s, caller, eventId).value.0;
      forall e | e in s'.events
        ensures s'.events[e].slug != s.events[eventId].slug
      {
        assert e != eventId && e in s.events;
      }
    }
  }

  /** A caller who does not organize an existing event is refused by both
      the delete and the dashboard with an authorization error, never a
      not-found one. */
  lemma NonOrganizerRefused(s: Store, caller: UserId, eventId: EventId, now: int, dayOf: int -> int)
    requires caller in s.users && eventId in s.events && s.events[eventId].organizerId != caller
    ensures DeleteEvent(s, caller, eventId) == Failure(NotOwnerMessage)
    ensures Dashboard.GetEventDashboard(s, Some(caller), eventId, now, dayOf) == Failure(Dashboard.UnauthorizedMessage)
  {
  }
}
