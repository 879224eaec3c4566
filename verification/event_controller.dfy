/** The stricter registration handlers of the event controller. They reject a
    missing caller first, reject registration for a past event and
    unregistration of a caller who is not registered. No router mounts them,
    and they load the event model from `../models/eventModel`, a different
    path from the `../models/Event` the mounted routes use; they are modelled
    against the same event store. */
module EventController {
  import opened Base
  import opened Seqs
  import opened Store
  import opened EventModel
  import EventRoutes

  const NotAuthenticated: string := "User not authenticated"
  const NoUpcoming: string := "No upcoming events found"
  const PastEvent: string := "Cannot register for past events"
  const RegisteredOk: string := "Registered successfully"
  const NotRegistered: string := "You are not registered for this event"
  const UnregisteredOk: string := "Unregistered successfully"

  /** An upcoming event with the caller's registration flag. */
  datatype Decorated = Decorated(event: Event, isRegistered: bool)

  /** getUpcomingEvents: an empty result is answered with 404. */
  function GetUpcomingEvents(events: seq<Event>, caller: Option<Id>, now: int): (r: Response<seq<Decorated>>)
    ensures caller.None? ==> r == Msg(401, NotAuthenticated)
    ensures r.status == 404 <==> caller.Some? && forall k | 0 <= k < |events| :: events[k].date < now
    ensures r.status == 404 ==> r == Msg(404, NoUpcoming)
    ensures r.status == 200 <==> caller.Some? && exists k | 0 <= k < |events| :: events[k].date >= now
    ensures r.status == 200 ==>
            var up := EventRoutes.UpcomingEvents(events, now);
            && r.body.Json? && |r.body.value| == |up|
            && forall k | 0 <= k < |up| ::
                 r.body.value[k].event == up[k]
                 && (r.body.value[k].isRegistered <==> caller.value in up[k].registeredUsers)
  {
    if caller.None? then Msg(401, NotAuthenticated)
    else
      var up := EventRoutes.UpcomingEvents(events, now);
      if |up| == 0 then
        Msg(404, NoUpcoming)
      else
        Response(200, Json(seq(|up|, k requires 0 <= k < |up| => Decorated(up[k], caller.value in up[k].registeredUsers))))
  }

  /** getUpcomingEvents as written: the registrant list is populated with user
      documents before the flag is computed, and a document's `toString()`
      prints the document rather than its id, so no entry ever matches the
      caller and every flag is false. */
  function GetUpcomingEventsAsWritten(events: seq<Event>, caller: Option<Id>, now: int)
    : (r: Response<seq<Decorated>>)
    ensures r.status == GetUpcomingEvents(events, caller, now).status
    ensures r.status != 200 ==> r == GetUpcomingEvents(events, caller, now)
    ensures r.status == 200 ==>
            var up := EventRoutes.UpcomingEvents(events, now);
            && r.body.Json? && |r.body.value| == |up|
            && forall k | 0 <= k < |up| :: r.body.value[k].event == up[k] && !r.body.value[k].isRegistered
  {
    if caller.None? then Msg(401, NotAuthenticated)
    else
      var up := EventRoutes.UpcomingEvents(events, now);
      if |up| == 0 then
        Msg(404, NoUpcoming)
      else
        Response(200, Json(seq(|up|, k requires 0 <= k < |up| => Decorated(up[k], false))))
  }

  /** A registered caller looking at a single upcoming event: the handler as
      written reports them as not registered, the corrected one as registered. */
  lemma UpcomingFlagAsWrittenIsWrong(e: Event, caller: Id, now: int)
    requires e.date >= now && caller in e.registeredUsers
    ensures GetUpcomingEventsAsWritten([e], Some(caller), now).body.value[0].isRegistered == false
    ensures GetUpcomingEvents([e], Some(caller), now).body.value[0].isRegistered == true
  {
    assert EventRoutes.UpcomingEvents([e], now) == [e];
  }

  /** registerEvent: missing caller 401, malformed id 400, unknown event 404,
      past event 400, already registered 400; otherwise the caller is appended. */
  function RegisterEvent(events: seq<Event>, caller: Option<Id>, eventId: string, now: int)
    : (t: Transition<(), seq<Event>>)
    ensures caller.None? ==> t == Transition(Msg(401, NotAuthenticated), events)
    ensures caller.Some? && !ValidObjectId(eventId) ==> t == Transition(Msg(400, EventRoutes.InvalidEventId), events)
    ensures caller.Some? && FindEvent(events, eventId).Absent? ==> t == Transition(Msg(404, EventRoutes.EventNotFound), events)
    ensures caller.Some? && FindEvent(events, eventId).Found? && events[FindEvent(events, eventId).index].date < now
            ==> t == Transition(Msg(400, PastEvent), events)
    ensures caller.Some? && FindEvent(events, eventId).Found?
            && events[FindEvent(events, eventId).index].date >= now
            && caller.value in events[FindEvent(events, eventId).index].registeredUsers
            ==> t == Transition(Msg(400, EventRoutes.AlreadyRegistered), events)
    ensures t.response.status == 200 <==>
            && caller.Some? && FindEvent(events, eventId).Found?
            && events[FindEvent(events, eventId).index].date >= now
            && caller.value !in events[FindEvent(events, eventId).index].registeredUsers
    ensures t.response.status != 200 ==> t.state == events
    ensures t.response.status == 200 ==>
            var i := FindEvent(events, eventId).index;
            && t.response == Msg(200, RegisteredOk)
            && OnlyRegistrantsChanged(events, t.state, i)
            && t.state[i].registeredUsers == events[i].registeredUsers + [caller.value]
  {
    if caller.None? then Transition(Msg(401, NotAuthenticated), events)
    else if !ValidObjectId(eventId) then Transition(Msg(400, EventRoutes.InvalidEventId), events)
    else match FindEvent(events, eventId)
      case CastError => Transition(Msg(500, EventRoutes.RegisterFailed), events)
      case Absent => Transition(Msg(404, EventRoutes.EventNotFound), events)
      case Found(i) =>
        var e := events[i];
        if e.date < now then Transition(Msg(400, PastEvent), events)
        else if caller.value in e.registeredUsers then Transition(Msg(400, EventRoutes.AlreadyRegistered), events)
        else Transition(Msg(200, RegisteredOk), events[i := e.(registeredUsers := e.registeredUsers + [caller.value])])
  }

  /** unregisterEvent: missing caller 401, malformed id 400, unknown event 404,
      caller not registered 400; otherwise every occurrence of the caller is removed. */
  function UnregisterEvent(events: seq<Event>, caller: Option<Id>, eventId: string): (t: Transition<(), seq<Event>>)
    ensures caller.None? ==> t == Transition(Msg(401, NotAuthenticated), events)
    ensures caller.Some? && !ValidObjectId(eventId) ==> t == Transition(Msg(400, EventRoutes.InvalidEventId), events)
    ensures caller.Some? && FindEvent(events, eventId).Absent? ==> t == Transition(Msg(404, EventRoutes.EventNotFound), events)
    ensures caller.Some? && FindEvent(events, eventId).Found?
            && caller.value !in events[FindEvent(events, eventId).index].registeredUsers
            ==> t == Transition(Msg(400, NotRegistered), events)
    ensures t.response.status == 200 <==>
            && caller.Some? && FindEvent(events, eventId).Found?
            && caller.value in events[FindEvent(events, eventId).index].registeredUsers
    ensures t.response.status != 200 ==> t.state == events
    ensures t.response.status == 200 ==>
            var i := FindEvent(events, eventId).index;
            && t.response == Msg(200, UnregisteredOk)
            && OnlyRegistrantsChanged(events, t.state, i)
            && t.state[i].registeredUsers == RemoveAll(events[i].registeredUsers, caller.value)
  {
    if caller.None? then Transition(Msg(401, NotAuthenticated), events)
    else if !ValidObjectId(eventId) then Transition(Msg(400, EventRoutes.InvalidEventId), events)
    else match FindEvent(events, eventId)
      case CastError => Transition(Msg(500, EventRoutes.UnregisterFailed), events)
      case Absent => Transition(Msg(404, EventRoutes.EventNotFound), events)
      case Found(i) =>
        var e := events[i];
        if caller.value !in e.registeredUsers then Transition(Msg(400, NotRegistered), events)
        else Transition(Msg(200, UnregisteredOk), events[i := e.(registeredUsers := RemoveAll(e.registeredUsers, caller.value))])
  }
}
