/** `getEventDashboard`: a read-only snapshot of one event and statistics
    recomputed from its registrations at query time `now`. */
module Dashboard {
  import opened Wrappers
  import opened Model

  const HourMillis := 1000 * 60 * 60
  const UnauthorizedMessage := "Unauthorized"

  datatype Stats = Stats(
    capacity: int,
    totalRegistrations: nat,
    checkedInCount: nat,
    pendingCount: int,
    totalRevenue: int,
    isEventPast: bool,
    isEventToday: bool,
    hoursUntilEvent: int,
    checkInRate: int)

  datatype EventDashboard = EventDashboard(event: Event, stats: Stats)

  /** Ids of the checked-in registrations of event `eid`. */
  function CheckedInOf(regs: map<RegistrationId, Registration>, eid: EventId): (ids: set<RegistrationId>)
    ensures ids <= RegistrationsOf(regs, eid)
    ensures forall r :: r in ids <==> r in regs && regs[r].eventId == eid && regs[r].checkedIn
  {
    set r | r in regs && regs[r].eventId == eid && regs[r].checkedIn
  }

  /** `Math.round(checkedIn / total * 100)`, or 0 without registrations, in
      exact arithmetic: the nearest whole percentage, halves rounded up. */
  function CheckInRate(checkedIn: nat, total: nat): (rate: int)
    ensures total == 0 ==> rate == 0
    ensures total > 0 ==> 2 * total * rate <= 200 * checkedIn + total < 2 * total * (rate + 1)
    ensures checkedIn <= total ==> 0 <= rate <= 100
    ensures total > 0 && checkedIn == total ==> rate == 100
    ensures checkedIn == 0 ==> rate == 0
  {
    if total == 0 then 0
    else
      var rate := (200 * checkedIn + total) / (2 * total);
      RateBounds(checkedIn, total, rate);
      rate
  }

  lemma MulMonotone(d: int, a: int, b: int)
    requires d > 0 && a <= b
    ensures d * a <= d * b
  {
    assert d * b - d * a == d * (b - a);
  }

  /** The Euclidean quotient `(200c + t) div 2t` brackets `200c + t`, and so
      lies in [0, 100] when `c <= t`. */
  lemma RateBounds(checkedIn: nat, total: nat, rate: int)
    requires total > 0 && rate == (200 * checkedIn + total) / (2 * total)
    ensures 2 * total * rate <= 200 * checkedIn + total < 2 * total * (rate + 1)
    ensures checkedIn <= total ==> 0 <= rate <= 100
    ensures checkedIn == total ==> rate == 100
    ensures checkedIn == 0 ==> rate == 0
  {
    var n, d := 200 * checkedIn + total, 2 * total;
    assert n == d * rate + n % d && 0 <= n % d < d;
    assert d * (rate + 1) == d * rate + d;
    if rate < 0 {
      MulMonotone(d, rate, -1);
    }
    if checkedIn <= total {
      assert n <= 201 * total;
      if rate > 100 {
        MulMonotone(d, 101, rate);
      }
    }
    if checkedIn == total {
      assert n == d * 100 + total;
      if rate < 100 {
        MulMonotone(d, rate + 1, 100);
      } else if rate > 100 {
        MulMonotone(d, 101, rate);
      }
    }
    if checkedIn == 0 {
      assert n == total;
      if rate > 0 {
        MulMonotone(d, 1, rate);
      }
    }
  }

  /** A subset of the registrations of an event is no larger than it. */
  lemma SubsetCardinality(a: set<RegistrationId>, b: set<RegistrationId>)
    requires a <= b
    ensures |a| <= |b|
  {
    assert b == a + (b - a);
  }

  /** `Math.max(0, Math.ceil((startDate - now) / HourMillis))`: whole hours
      until the start, rounded up, and 0 once the start has passed. */
  function HoursUntil(startDate: int, now: int): (hours: int)
    ensures hours >= 0
    ensures startDate <= now ==> hours == 0
    ensures startDate > now ==> (hours - 1) * HourMillis < startDate - now <= hours * HourMillis
  {
    var ceiling := -((now - startDate) / HourMillis);
    if ceiling < 0 then 0 else ceiling
  }

  /** Projected revenue: every registration of a paid event at the ticket
      price, an absent price counting as 0; nothing for a free event. */
  function Revenue(ticketType: TicketType, ticketPrice: Option<int>, total: nat): (revenue: int)
    ensures ticketType == Free ==> revenue == 0
    ensures ticketType == Paid && ticketPrice.None? ==> revenue == 0
    ensures ticketType == Paid && ticketPrice.Some? ==> revenue == total * ticketPrice.value
    ensures total == 0 ==> revenue == 0
  {
    if ticketType == Paid then total * ticketPrice.GetOr(0) else 0
  }

  /** The statistics of event `eid` as stored in `event`, at time `now`;
      `dayOf` maps an instant to its calendar day in the evaluating process's
      time zone. */
  function ComputeStats(event: Event, regs: map<RegistrationId, Registration>, eid: EventId, now: int, dayOf: int -> int): (st: Stats)
    ensures st.capacity == event.data.capacity
    ensures st.totalRegistrations == |RegistrationsOf(regs, eid)|
    ensures st.checkedInCount == |CheckedInOf(regs, eid)|
    ensures st.checkedInCount + st.pendingCount == st.totalRegistrations
    ensures st.checkedInCount <= st.totalRegistrations
    ensures st.checkInRate == CheckInRate(st.checkedInCount, st.totalRegistrations)
    ensures 0 <= st.checkInRate <= 100
    ensures st.isEventPast <==> event.data.endDate < now
    ensures st.isEventToday <==> dayOf(event.data.startDate) == dayOf(now)
    ensures st.hoursUntilEvent == HoursUntil(event.data.startDate, now)
    ensures st.hoursUntilEvent >= 0
    ensures event.data.ticketType == Paid ==> st.totalRevenue == st.totalRegistrations * event.data.ticketPrice.GetOr(0)
    ensures event.data.ticketType != Paid || st.totalRegistrations == 0 ==> st.totalRevenue == 0
  {
    var total := |RegistrationsOf(regs, eid)|;
    var checkedIn := |CheckedInOf(regs, eid)|;
    SubsetCardinality(CheckedInOf(regs, eid), RegistrationsOf(regs, eid));
    Stats(
      event.data.capacity,
      total,
      checkedIn,
      total - checkedIn,
      Revenue(event.data.ticketType, event.data.ticketPrice, total),
      event.data.endDate < now,
      dayOf(event.data.startDate) == dayOf(now),
      HoursUntil(event.data.startDate, now),
      CheckInRate(checkedIn, total))
  }

  /** `getEventDashboard`: nothing without a current user or without the
      event, an error for anyone but the organizer, otherwise the stored
      event with its statistics. Writes nothing. */
  function GetEventDashboard(s: Store, caller: Option<UserId>, eventId: EventId, now: int, dayOf: int -> int)
    : (r: Result<Option<EventDashboard>, string>)
    ensures caller.None? ==> r == Success(None)
    ensures caller.Some? && eventId !in s.events ==> r == Success(None)
    ensures caller.Some? && eventId in s.events && s.events[eventId].organizerId != caller.value ==>
      r == Failure(UnauthorizedMessage)
    ensures r.Success? && r.value.Some? ==>
      && caller.Some? && eventId in s.events && s.events[eventId].organizerId == caller.value
      && r.value.value.event == s.events[eventId]
      && r.value.value.stats == ComputeStats(s.events[eventId], s.registrations, eventId, now, dayOf)
    ensures caller.Some? && eventId in s.events && s.events[eventId].organizerId == caller.value ==>
      r == Success(Some(EventDashboard(s.events[eventId], ComputeStats(s.events[eventId], s.registrations, eventId, now, dayOf))))
  {
    if caller.None? then Success(None)
    else if eventId !in s.events then Success(None)
    else
      var event := s.events[eventId];
      if event.organizerId != caller.value then Failure(UnauthorizedMessage)
      else Success(Some(EventDashboard(event, ComputeStats(event, s.registrations, eventId, now, dayOf))))
  }

  // ---------------------------------------------------------------------
  // Properties
  // ---------------------------------------------------------------------

  /** Registrations of other events do not affect an event's dashboard. */
  lemma DashboardIgnoresOtherEvents(s: Store, caller: Option<UserId>, eventId: EventId, now: int, dayOf: int -> int,
                                    rid: RegistrationId, reg: Registration)
    requires rid !in s.registrations && reg.eventId != eventId
    ensures GetEventDashboard(s.(registrations := s.registrations[rid := reg]), caller, eventId, now, dayOf)
         == GetEventDashboard(s, caller, eventId, now, dayOf)
  {
    var regs' := s.registrations[rid := reg];
    assert RegistrationsOf(regs', eventId) == RegistrationsOf(s.registrations, eventId);
    assert CheckedInOf(regs', eventId) == CheckedInOf(s.registrations, eventId);
  }

  /** Checking in one pending registration moves it from pending to checked
      in and leaves the total unchanged. */
  lemma CheckInMovesOneFromPending(event: Event, regs: map<RegistrationId, Registration>, eid: EventId, now: int,
                                   dayOf: int -> int, rid: RegistrationId)
    requires rid in regs && regs[rid].eventId == eid && !regs[rid].checkedIn
    ensures var before := ComputeStats(event, regs, eid, now, dayOf);
            var after := ComputeStats(event, regs[rid := regs[rid].(checkedIn := true)], eid, now, dayOf);
            && after.totalRegistrations == before.totalRegistrations
            && after.checkedInCount == before.checkedInCount + 1
            && after.pendingCount == before.pendingCount - 1
  {
    var regs' := regs[rid := regs[rid].(checkedIn := true)];
    assert RegistrationsOf(regs', eid) == RegistrationsOf(regs, eid);
    assert CheckedInOf(regs', eid) == CheckedInOf(regs, eid) + {rid};
  }

  /** 6 of 10 registrations checked in is a 60% check-in rate. */
  lemma CheckInRateExample()
    ensures CheckInRate(6, 10) == 60 && CheckInRate(0, 0) == 0
  {
    RateBounds(6, 10, 1210 / 20);
  }

  /** Three registrations of a paid event at price 500 project 1500. */
  lemma RevenueExample()
    ensures Revenue(Paid, Some(500), 3) == 1500
    ensures Revenue(Paid, None, 3) == 0 && Revenue(Free, Some(500), 3) == 0
  {
  }

  /** An event starting five hours from now, or a millisecond less, is five
      hours away. */
  lemma HoursUntilExample(now: int)
    ensures HoursUntil(now + 5 * HourMillis, now) == 5
    ensures HoursUntil(now + 5 * HourMillis - 1, now) == 5
  {
    assert (now - (now + 5 * HourMillis)) / HourMillis == -5;
    assert (now - (now + 5 * HourMillis - 1)) / HourMillis == -5;
  }
}
