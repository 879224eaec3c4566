/** The event record of the event store and the rules the schema and the
    handlers keep about it. */
module EventModel {
  import opened Base
  import opened Seqs
  import opened Store

  /** A stored event. `date` is a timestamp; `image` is the stored upload path,
      if any; `createdBy` is the creating user; `registeredUsers` and
      `attendees` are independent sequences of user ids. */
  datatype Event = Event(
    id: Id,
    title: string,
    description: string,
    date: int,
    location: string,
    image: Option<string>,
    createdBy: Id,
    registeredUsers: seq<Id>,
    attendees: seq<Id>)

  /** The fields of a create or update request body, as far as they arrived:
      `None` for a field that is absent (or, for the date, empty). */
  datatype EventForm = EventForm(
    title: Option<string>,
    description: Option<string>,
    date: Option<int>,
    location: Option<string>)

  function EventKey(e: Event): Id { e.id }

  /** `Event.findById(id)`. */
  function FindEvent(events: seq<Event>, id: Id): Lookup {
    FindById(events, EventKey, id)
  }

  /** `title`, `description` and `location` are required strings, so none may
      be empty; `date` is required and always present in this model. */
  predicate HasRequiredFields(e: Event) {
    e.title != "" && e.description != "" && e.location != ""
  }

  /** The schema imposes no uniqueness on the two id sequences; that no user
      appears twice in either is kept by the handlers. */
  predicate EventWellFormed(e: Event) {
    && ValidObjectId(e.id)
    && HasRequiredFields(e)
    && Distinct(e.registeredUsers)
    && Distinct(e.attendees)
  }

  /** What the event store maintains. */
  predicate EventsInvariant(events: seq<Event>) {
    && (forall i | 0 <= i < |events| :: EventWellFormed(events[i]))
    && IdsUnique(events, EventKey)
  }

  /** `after` differs from `before` at most in the registrant list of event `i`. */
  predicate OnlyRegistrantsChanged(before: seq<Event>, after: seq<Event>, i: nat) {
    && i < |before| && |after| == |before|
    && after[i] == before[i].(registeredUsers := after[i].registeredUsers)
    && forall j | 0 <= j < |before| && j != i :: after[j] == before[j]
  }

  /** `after` differs from `before` at most in the attendee list of event `i`. */
  predicate OnlyAttendeesChanged(before: seq<Event>, after: seq<Event>, i: nat) {
    && i < |before| && |after| == |before|
    && after[i] == before[i].(attendees := after[i].attendees)
    && forall j | 0 <= j < |before| && j != i :: after[j] == before[j]
  }
}
