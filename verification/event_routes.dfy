/** The live event router: registration and unregistration, attendee
    marking, the admin create/update/delete operations, and the listing
    views. Each handler is a transition over the event sequence; the caller
    is the identity the access gate attached, and `now` is the server clock. */
module EventRoutes {
  import opened Base
  import opened Seqs
  import opened Store
  import opened EventModel
  import opened UserModel

  const InvalidEventId: string := "Invalid event ID"
  const EventNotFound: string := "Event not found"
  const AlreadyRegistered: string := "You have already registered for this event"
  const RegisteredOk: string := "Successfully registered for the event"
  const RegisterFailed: string := "Failed to register for the event"
  const UnregisteredOk: string := "Successfully unregistered from the event"
  const UnregisterFailed: string := "Failed to unregister from the event"
  const AttendeesOk: string := "Attendees updated successfully"
  const AttendeesFailed: string := "Failed to update attendees"
  const UpdateFailed: string := "Failed to update event"
  const DeletedOk: string := "Event deleted successfully"
  const DeleteFailed: string := "Failed to delete event"
  const CreateFailed: string := "Failed to create event"
  const RegistrantsFailed: string := "Failed to fetch registrants"

  // ---------------------------------------------------------------------
  // Registration

  /** POST /:id/register. The id must look like an ObjectId, the event must
      exist and the caller must not be registered yet; then the caller is
      appended. There is no check of the event's date. */
  function Register(events: seq<Event>, caller: Id, eventId: string): (t: Transition<(), seq<Event>>)
    ensures !ValidObjectId(eventId) ==> t == Transition(Msg(400, InvalidEventId), events)
    ensures FindEvent(events, eventId).Absent? ==> t == Transition(Msg(404, EventNotFound), events)
    ensures FindEvent(events, eventId).Found? && caller in events[FindEvent(events, eventId).index].registeredUsers
            ==> t == Transition(Msg(400, AlreadyRegistered), events)
    ensures t.response.status == 200 <==>
            FindEvent(events, eventId).Found? && caller !in events[FindEvent(events, eventId).index].registeredUsers
    ensures t.response.status != 200 ==> t.state == events
    ensures t.response.status == 200 ==>
            var i := FindEvent(events, eventId).index;
            && t.response == Msg(200, RegisteredOk)
            && OnlyRegistrantsChanged(events, t.state, i)
            && t.state[i].registeredUsers == events[i].registeredUsers + [caller]
  {
    if !ValidObjectId(eventId) then Transition(Msg(400, InvalidEventId), events)
    else match FindEvent(events, eventId)
      case CastError => Transition(Msg(500, RegisterFailed), events)
      case Absent => Transition(Msg(404, EventNotFound), events)
      case Found(i) =>
        var e := events[i];
        if caller in e.registeredUsers then Transition(Msg(400, AlreadyRegistered), events)
        else Transition(Msg(200, RegisteredOk), events[i := e.(registeredUsers := e.registeredUsers + [caller])])
  }

  /** DELETE /:id/unregister. Every occurrence of the caller is filtered out,
      and the handler succeeds whether or not the caller was registered. A
      malformed id is not checked first: the lookup's cast throws and the
      handler answers 500. */
  function Unregister(events: seq<Event>, caller: Id, eventId: string): (t: Transition<(), seq<Event>>)
    ensures !ValidObjectId(eventId) ==> t == Transition(Msg(500, UnregisterFailed), events)
    ensures FindEvent(events, eventId).Absent? ==> t == Transition(Msg(404, EventNotFound), events)
    ensures t.response.status == 200 <==> FindEvent(events, eventId).Found?
    ensures t.response.status != 200 ==> t.state == events
    ensures t.response.status == 200 ==>
            var i := FindEvent(events, eventId).index;
            && t.response == Msg(200, UnregisteredOk)
            && OnlyRegistrantsChanged(events, t.state, i)
            && t.state[i].registeredUsers == RemoveAll(events[i].registeredUsers, caller)
  {
    match FindEvent(events, eventId)
    case CastError => Transition(Msg(500, UnregisterFailed), events)
    case Absent => Transition(Msg(404, EventNotFound), events)
    case Found(i) =>
      var e := events[i];
      Transition(Msg(200, UnregisteredOk), events[i := e.(registeredUsers := RemoveAll(e.registeredUsers, caller))])
  }

  // ---------------------------------------------------------------------
  // Attendees

  /** The attendee list after marking: the stored attendees followed by the
      incoming ones, duplicates dropped at their first occurrence (the
      insertion order of a JavaScript `Set`). */
  function MergeAttendees(current: seq<Id>, incoming: seq<Id>): seq<Id> {
    AddAll([], current + incoming)
  }

  /** The merge is a union without duplicates that never drops an attendee,
      and a duplicate-free stored list stays in front, in its order. */
  lemma MergeAttendeesSpec(current: seq<Id>, incoming: seq<Id>)
    ensures forall k | 0 <= k < |current| :: current[k] in MergeAttendees(current, incoming)
    ensures forall k | 0 <= k < |incoming| :: incoming[k] in MergeAttendees(current, incoming)
    ensures forall x | x in MergeAttendees(current, incoming) :: x in current || x in incoming
    ensures Distinct(MergeAttendees(current, incoming))
    ensures Distinct(current) ==>
            |current| <= |MergeAttendees(current, incoming)|
            && MergeAttendees(current, incoming)[..|current|] == current
  {
    var all := current + incoming;
    var r := MergeAttendees(current, incoming);
    assert forall k | 0 <= k < |current| :: all[k] == current[k];
    assert forall k | 0 <= k < |incoming| :: all[|current| + k] == incoming[k];
    AddAllKeepsDistinct([], all);
    if Distinct(current) {
      AddAllConcat([], current, incoming);
      AddAllDistinct([], current);
      assert [] + current == current;
    }
  }

  /** Marking the same attendees again changes nothing. */
  lemma MergeAttendeesIdempotent(current: seq<Id>, incoming: seq<Id>)
    ensures MergeAttendees(MergeAttendees(current, incoming), incoming) == MergeAttendees(current, incoming)
  {
    var r := MergeAttendees(current, incoming);
    MergeAttendeesSpec(current, incoming);
    AddAllConcat([], r, incoming);
    AddAllDistinct([], r);
    assert [] + r == r;
    AddAllCovered(r, incoming);
  }

  /** The merge as the handler writes it: the stored entries are ObjectId
      objects, which a JavaScript `Set` compares by reference, so none of them
      equals another entry or an incoming string. All stored entries are kept,
      and only the incoming strings are deduplicated among themselves. */
  function MergeAttendeesAsWritten(current: seq<Id>, incoming: seq<Id>): (r: seq<Id>)
    ensures |current| <= |r| && r[..|current|] == current
    ensures forall k | 0 <= k < |incoming| :: incoming[k] in r[|current|..]
  {
    var added := AddAll([], incoming);
    assert (current + added)[|current|..] == added;
    current + added
  }

  /** Adding an element once or twice to nothing gives the one-element list. */
  lemma AddAllSingleton(a: Id)
    ensures AddAll([], [a]) == [a]
    ensures AddAll([], [a, a]) == [a]
  {
    assert [a][1..] == [];
    assert [a, a][1..] == [a];
    assert AddAll([a], []) == [a];
    assert AddAll([a], [a]) == AddAll([a], []);
  }

  /** Marking an attendee who is already marked stores a second copy under
      the handler as written, and repeating the request adds a further copy;
      the value-based merge keeps one copy and is unchanged by the repeat. */
  lemma MergeAttendeesAsWrittenDuplicates(a: Id)
    ensures MergeAttendeesAsWritten([a], [a]) == [a, a]
    ensures !Distinct(MergeAttendeesAsWritten([a], [a]))
    ensures MergeAttendeesAsWritten([a, a], [a]) == [a, a, a]
    ensures MergeAttendees([a], [a]) == [a]
  {
    AddAllSingleton(a);
    assert [a] + [a] == [a, a];
    assert [a, a] + [a] == [a, a, a];
    assert [a, a][0] == [a, a][1];
  }

  /** PUT /:id/attendees. The body's `attendees` list is merged into the
      stored one. A missing list (spreading `undefined`) or an entry that is
      not an ObjectId (the cast on save) makes the handler answer 500. */
  function MarkAttendees(events: seq<Event>, eventId: string, incoming: Option<seq<Id>>): (t: Transition<(), seq<Event>>)
    ensures !ValidObjectId(eventId) ==> t == Transition(Msg(500, AttendeesFailed), events)
    ensures FindEvent(events, eventId).Absent? ==> t == Transition(Msg(404, EventNotFound), events)
    ensures FindEvent(events, eventId).Found?
            && (incoming.None? || exists k | 0 <= k < |incoming.value| :: !ValidObjectId(incoming.value[k]))
            ==> t == Transition(Msg(500, AttendeesFailed), events)
    ensures t.response.status == 200 <==>
            FindEvent(events, eventId).Found? && incoming.Some?
            && forall k | 0 <= k < |incoming.value| :: ValidObjectId(incoming.value[k])
    ensures t.response.status != 200 ==> t.state == events
    ensures t.response.status == 200 ==>
            var i := FindEvent(events, eventId).index;
            && t.response == Msg(200, AttendeesOk)
            && OnlyAttendeesChanged(events, t.state, i)
            && t.state[i].attendees == MergeAttendees(events[i].attendees, incoming.value)
  {
    match FindEvent(events, eventId)
    case CastError => Transition(Msg(500, AttendeesFailed), events)
    case Absent => Transition(Msg(404, EventNotFound), events)
    case Found(i) =>
      if incoming.None? then Transition(Msg(500, AttendeesFailed), events)
      else if exists k | 0 <= k < |incoming.value| :: !ValidObjectId(incoming.value[k]) then
        Transition(Msg(500, AttendeesFailed), events)
      else
        var e := events[i];
        Transition(Msg(200, AttendeesOk), events[i := e.(attendees := MergeAttendees(e.attendees, incoming.value))])
  }

  // ---------------------------------------------------------------------
  // Admin create, update, delete

  /** The stored path of an uploaded image file. */
  function UploadPath(filename: string): string {
    "/uploads/" + filename
  }

  /** POST /. Creates an event owned by the caller with empty registrant and
      attendee lists. A missing or empty required field fails the schema
      validation, which the handler answers with 500. `newId` is the fresh id
      the store assigns. */
  function CreateEvent(events: seq<Event>, caller: Id, form: EventForm, file: Option<string>, newId: Id)
    : (t: Transition<Event, seq<Event>>)
    requires ValidObjectId(newId)
    requires forall j | 0 <= j < |events| :: events[j].id != newId
    ensures t.response.status == 201 <==>
            Truthy(form.title) && Truthy(form.description) && form.date.Some? && Truthy(form.location)
    ensures t.response.status != 201 ==> t == Transition(Msg(500, CreateFailed), events)
    ensures t.response.status == 201 ==>
            && |t.state| == |events| + 1
            && t.state[..|events|] == events
            && var e := t.state[|events|];
            && t.response.body == Json(e)
            && e.id == newId && e.createdBy == caller
            && e.title == form.title.value && e.description == form.description.value
            && e.date == form.date.value && e.location == form.location.value
            && e.image == (if file.Some? then Some(UploadPath(file.value)) else None)
            && e.registeredUsers == [] && e.attendees == []
  {
    if Truthy(form.title) && Truthy(form.description) && form.date.Some? && Truthy(form.location) then
      var image := if file.Some? then Some(UploadPath(file.value)) else None;
      var e := Event(newId, form.title.value, form.description.value, form.date.value,
                     form.location.value, image, caller, [], []);
      assert (events + [e])[..|events|] == events;
      Transition(Response(201, Json(e)), events + [e])
    else Transition(Msg(500, CreateFailed), events)
  }

  /** The partial merge of an update: each text field and the date are replaced
      only by a truthy value, the image only by an uploaded file, and the id,
      owner and both id sequences are kept. */
  predicate MergedUpdate(before: Event, form: EventForm, file: Option<string>, after: Event) {
    && after.title == (if Truthy(form.title) then form.title.value else before.title)
    && after.description == (if Truthy(form.description) then form.description.value else before.description)
    && after.date == (if form.date.Some? then form.date.value else before.date)
    && after.location == (if Truthy(form.location) then form.location.value else before.location)
    && after.image == (if file.Some? then Some(UploadPath(file.value)) else before.image)
    && after.id == before.id
    && after.createdBy == before.createdBy
    && after.registeredUsers == before.registeredUsers
    && after.attendees == before.attendees
  }

  /** PUT /:id. */
  function UpdateEvent(events: seq<Event>, eventId: string, form: EventForm, file: Option<string>)
    : (t: Transition<Event, seq<Event>>)
    ensures !ValidObjectId(eventId) ==> t == Transition(Msg(500, UpdateFailed), events)
    ensures FindEvent(events, eventId).Absent? ==> t == Transition(Msg(404, EventNotFound), events)
    ensures t.response.status == 200 <==> FindEvent(events, eventId).Found?
    ensures t.response.status == 200 ==>
            var i := FindEvent(events, eventId).index;
            && |t.state| == |events|
            && (forall j | 0 <= j < |events| && j != i :: t.state[j] == events[j])
            && MergedUpdate(events[i], form, file, t.state[i])
            && t.response.body == Json(t.state[i])
  {
    match FindEvent(events, eventId)
    case CastError => Transition(Msg(500, UpdateFailed), events)
    case Absent => Transition(Msg(404, EventNotFound), events)
    case Found(i) =>
      var e := events[i];
      var e' := e.(
        title := OrElse(form.title, e.title),
        description := OrElse(form.description, e.description),
        date := if form.date.Some? then form.date.value else e.date,
        location := OrElse(form.location, e.location),
        image := if file.Some? then Some(UploadPath(file.value)) else e.image);
      Transition(Response(200, Json(e')), events[i := e'])
  }

  /** DELETE /:id. */
  function DeleteEvent(events: seq<Event>, eventId: string): (t: Transition<(), seq<Event>>)
    ensures !ValidObjectId(eventId) ==> t == Transition(Msg(500, DeleteFailed), events)
    ensures FindEvent(events, eventId).Absent? ==> t == Transition(Msg(404, EventNotFound), events)
    ensures t.response.status == 200 <==> FindEvent(events, eventId).Found?
    ensures t.response.status == 200 ==>
            var i := FindEvent(events, eventId).index;
            t.state == events[..i] + events[i + 1..]
    ensures t.response.status == 200 ==> t.response == Msg(200, DeletedOk)
  {
    match FindEvent(events, eventId)
    case CastError => Transition(Msg(500, DeleteFailed), events)
    case Absent => Transition(Msg(404, EventNotFound), events)
    case Found(i) => Transition(Msg(200, DeletedOk), events[..i] + events[i + 1..])
  }

  // ---------------------------------------------------------------------
  // Listings and views

  /** The selectors of the three event queries. */
  function CreatedBy(owner: Id): Event -> bool {
    (e: Event) => e.createdBy == owner
  }

  function NotPastAt(now: int): Event -> bool {
    (e: Event) => e.date >= now
  }

  function RegisteredIn(caller: Id): Event -> bool {
    (e: Event) => caller in e.registeredUsers
  }

  /** GET /: every event for an admin, otherwise the events the caller
      created, each as often as it is stored. */
  function ListEvents(events: seq<Event>, caller: Profile): (r: seq<Event>)
    ensures caller.role == AdminRole ==> r == events
    ensures forall k | 0 <= k < |r| :: r[k] in events && (caller.role == AdminRole || r[k].createdBy == caller.id)
    ensures forall k | 0 <= k < |events| && (caller.role == AdminRole || events[k].createdBy == caller.id) :: events[k] in r
    ensures forall e :: Count(r, e) == if caller.role == AdminRole || e.createdBy == caller.id then Count(events, e) else 0
  {
    if caller.role == AdminRole then events
    else
      FilterSpec(events, CreatedBy(caller.id));
      FilterCounts(events, CreatedBy(caller.id));
      Filter(events, CreatedBy(caller.id))
  }

  /** The query `{ date: { $gte: now } }`: the events not yet past, each as
      often as it is stored. */
  function UpcomingEvents(events: seq<Event>, now: int): (r: seq<Event>)
    ensures forall k | 0 <= k < |r| :: r[k] in events && r[k].date >= now
    ensures forall k | 0 <= k < |events| && events[k].date >= now :: events[k] in r
    ensures |r| == 0 <==> forall k | 0 <= k < |events| :: events[k].date < now
    ensures forall e :: Count(r, e) == if e.date >= now then Count(events, e) else 0
  {
    FilterSpec(events, NotPastAt(now));
    FilterCounts(events, NotPastAt(now));
    Filter(events, NotPastAt(now))
  }

  /** GET /myevents: the events whose registrant list contains the caller,
      each as often as it is stored. */
  function MyEvents(events: seq<Event>, caller: Id): (r: seq<Event>)
    ensures forall k | 0 <= k < |r| :: r[k] in events && caller in r[k].registeredUsers
    ensures forall k | 0 <= k < |events| && caller in events[k].registeredUsers :: events[k] in r
    ensures forall e :: Count(r, e) == if caller in e.registeredUsers then Count(events, e) else 0
  {
    FilterSpec(events, RegisteredIn(caller));
    FilterCounts(events, RegisteredIn(caller));
    Filter(events, RegisteredIn(caller))
  }

  /** Filtering a one-element store keeps the element exactly when it is selected. */
  lemma FilterSingleton(e: Event, p: Event -> bool)
    ensures Filter([e], p) == if p(e) then [e] else []
  {
    assert [e][1..] == [];
  }

  /** The queries list events in store order: an event stored after the
      others is listed after them, and only when the query selects it. */
  lemma ListEventsAppend(events: seq<Event>, e: Event, caller: Profile)
    ensures ListEvents(events + [e], caller)
            == ListEvents(events, caller) + (if caller.role == AdminRole || e.createdBy == caller.id then [e] else [])
  {
    if caller.role != AdminRole {
      FilterConcat(events, [e], CreatedBy(caller.id));
      FilterSingleton(e, CreatedBy(caller.id));
    }
  }

  lemma UpcomingEventsAppend(events: seq<Event>, e: Event, now: int)
    ensures UpcomingEvents(events + [e], now) == UpcomingEvents(events, now) + (if e.date >= now then [e] else [])
  {
    FilterConcat(events, [e], NotPastAt(now));
    FilterSingleton(e, NotPastAt(now));
  }

  lemma MyEventsAppend(events: seq<Event>, e: Event, caller: Id)
    ensures MyEvents(events + [e], caller) == MyEvents(events, caller) + (if caller in e.registeredUsers then [e] else [])
  {
    FilterConcat(events, [e], RegisteredIn(caller));
    FilterSingleton(e, RegisteredIn(caller));
  }

  /** One entry of the /upcoming and /available responses. */
  datatype EventView = EventView(
    id: Id,
    title: string,
    description: string,
    date: int,
    location: string,
    image: Option<string>,
    totalRegistrants: nat,
    isRegistered: bool)

  /** An event as the caller sees it; `origin` is the request's
      `protocol://host`, prefixed to a stored image path. */
  function View(e: Event, caller: Id, origin: string): EventView {
    EventView(
      e.id, e.title, e.description, e.date, e.location,
      if Truthy(e.image) then Some(origin + e.image.value) else None,
      |e.registeredUsers|,
      caller in e.registeredUsers)
  }

  /** The decorated list of /upcoming and /available: one view per event, in
      order, carrying the event's fields, the image as a full URL, the number
      of registrants and whether the caller is one of them. */
  function Views(events: seq<Event>, caller: Id, origin: string): (r: seq<EventView>)
    ensures |r| == |events|
    ensures forall k | 0 <= k < |events| ::
              && r[k].id == events[k].id && r[k].title == events[k].title
              && r[k].description == events[k].description && r[k].date == events[k].date
              && r[k].location == events[k].location
              && (Truthy(events[k].image) ==> r[k].image == Some(origin + events[k].image.value))
              && (!Truthy(events[k].image) ==> r[k].image.None?)
              && r[k].totalRegistrants == |events[k].registeredUsers|
              && (r[k].isRegistered <==> caller in events[k].registeredUsers)
  {
    seq(|events|, k requires 0 <= k < |events| => View(events[k], caller, origin))
  }

  /** The flag in the caller's views marks exactly the events GET /myevents lists. */
  lemma ViewsFlagMatchesMyEvents(events: seq<Event>, caller: Id, origin: string)
    ensures forall k | 0 <= k < |events| ::
              Views(events, caller, origin)[k].isRegistered <==> events[k] in MyEvents(events, caller)
  {
    var mine := MyEvents(events, caller);
    forall k | 0 <= k < |events| ensures events[k] in mine ==> caller in events[k].registeredUsers {
      if events[k] in mine {
        var j :| 0 <= j < |mine| && mine[j] == events[k];
      }
    }
  }

  /** GET /upcoming: 200 with the views of the events not yet past, in store
      order; an empty selection is an empty list, not a 404. */
  function Upcoming(events: seq<Event>, caller: Id, now: int, origin: string): (r: Response<seq<EventView>>)
    ensures r.status == 200 && r.body.Json?
    ensures |r.body.value| == |UpcomingEvents(events, now)|
    ensures forall k | 0 <= k < |r.body.value| ::
              && r.body.value[k].id == UpcomingEvents(events, now)[k].id
              && r.body.value[k].date >= now
              && r.body.value[k].totalRegistrants == |UpcomingEvents(events, now)[k].registeredUsers|
              && (r.body.value[k].isRegistered <==> caller in UpcomingEvents(events, now)[k].registeredUsers)
    ensures r.body.value == [] <==> forall k | 0 <= k < |events| :: events[k].date < now
  {
    Response(200, Json(Views(UpcomingEvents(events, now), caller, origin)))
  }

  /** GET /available: 200 with the views of every stored event, in store order. */
  function Available(events: seq<Event>, caller: Id, origin: string): (r: Response<seq<EventView>>)
    ensures r.status == 200 && r.body.Json?
    ensures |r.body.value| == |events|
    ensures forall k | 0 <= k < |events| ::
              && r.body.value[k].id == events[k].id
              && r.body.value[k].totalRegistrants == |events[k].registeredUsers|
              && (r.body.value[k].isRegistered <==> caller in events[k].registeredUsers)
  {
    Response(200, Json(Views(events, caller, origin)))
  }

  /** An entry of GET /:eventId/registrants: a registered user's id and name. */
  datatype NamedRef = NamedRef(id: Id, name: string)

  /** Populating the registrant ids with names: ids with no stored user drop
      out, the others keep their order and carry the stored user's name. */
  function PopulateNames(users: seq<User>, ids: seq<Id>): (r: seq<NamedRef>)
    ensures |r| <= |ids|
    ensures (forall k | 0 <= k < |ids| :: FindUser(users, ids[k]).Found?) ==>
            |r| == |ids| && forall k | 0 <= k < |ids| :: r[k].id == ids[k]
    ensures forall k | 0 <= k < |r| :: r[k].id in ids
  {
    if |ids| == 0 then []
    else
      var rest := PopulateNames(users, ids[1..]);
      assert forall k | 1 <= k < |ids| :: ids[1..][k - 1] == ids[k];
      assert forall k | 0 <= k < |rest| :: rest[k].id in ids by {
        forall k | 0 <= k < |rest| ensures rest[k].id in ids {
          var m :| 0 <= m < |ids[1..]| && ids[1..][m] == rest[k].id;
          assert ids[m + 1] == rest[k].id;
        }
      }
      match FindUser(users, ids[0])
      case Found(j) =>
        var r := [NamedRef(ids[0], users[j].name)] + rest;
        assert forall k | 1 <= k < |r| :: r[k] == rest[k - 1];
        r
      case _ => rest
  }

  /** The ids of a populated list, in order. */
  function NamedIds(r: seq<NamedRef>): (ids: seq<Id>)
    ensures |ids| == |r|
  {
    if |r| == 0 then [] else [r[0].id] + NamedIds(r[1..])
  }

  /** A stored user exists for this id. */
  predicate HasUser(users: seq<User>, id: Id) {
    FindUser(users, id).Found?
  }

  /** Populating keeps exactly the registrants that have a stored user, in
      their order: the others drop out. */
  lemma {:induction false} PopulateNamesIds(users: seq<User>, ids: seq<Id>)
    ensures NamedIds(PopulateNames(users, ids)) == Filter(ids, (id: Id) => HasUser(users, id))
  {
    if |ids| > 0 {
      var rest := PopulateNames(users, ids[1..]);
      PopulateNamesIds(users, ids[1..]);
      if HasUser(users, ids[0]) {
        var x := NamedRef(ids[0], users[FindUser(users, ids[0]).index].name);
        assert PopulateNames(users, ids) == [x] + rest;
        assert ([x] + rest)[1..] == rest;
      } else {
        assert PopulateNames(users, ids) == rest;
      }
    }
  }

  /** The entry names the stored user its id finds. */
  predicate NamedAfterStoredUser(users: seq<User>, x: NamedRef) {
    HasUser(users, x.id) && x.name == users[FindUser(users, x.id).index].name
  }

  /** Every populated entry names the stored user its id finds. */
  lemma {:induction false} PopulateNamesNamed(users: seq<User>, ids: seq<Id>)
    ensures forall x | x in PopulateNames(users, ids) :: NamedAfterStoredUser(users, x)
  {
    if |ids| > 0 {
      var rest := PopulateNames(users, ids[1..]);
      PopulateNamesNamed(users, ids[1..]);
      match FindUser(users, ids[0])
      case Found(i) =>
        var x := NamedRef(ids[0], users[i].name);
        assert NamedAfterStoredUser(users, x);
        assert PopulateNames(users, ids) == [x] + rest;
      case _ =>
        assert PopulateNames(users, ids) == rest;
    }
  }

  /** GET /:eventId/registrants. */
  function Registrants(events: seq<Event>, users: seq<User>, eventId: string): (r: Response<seq<NamedRef>>)
    ensures !ValidObjectId(eventId) ==> r == Msg(500, RegistrantsFailed)
    ensures FindEvent(events, eventId).Absent? ==> r == Msg(404, EventNotFound)
    ensures FindEvent(events, eventId).Found? ==>
            r == Response(200, Json(PopulateNames(users, events[FindEvent(events, eventId).index].registeredUsers)))
  {
    match FindEvent(events, eventId)
    case CastError => Msg(500, RegistrantsFailed)
    case Absent => Msg(404, EventNotFound)
    case Found(i) => Response(200, Json(PopulateNames(users, events[i].registeredUsers)))
  }
}
