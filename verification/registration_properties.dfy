/** Properties of the live event router that relate several calls: round
    trips, idempotence, how a registration shows in the views, and the store
    invariant every handler keeps. */
module RegistrationProperties {
  import opened Base
  import opened Seqs
  import opened Store
  import opened EventModel
  import opened EventRoutes

  /** Handlers that touch one event's lists leave every id where it was,
      so a later lookup finds the same position. */
  lemma SameLookupAfter(before: seq<Event>, after: seq<Event>, i: nat, id: Id)
    requires i < |before| && |after| == |before|
    requires after[i].id == before[i].id
    requires forall j | 0 <= j < |before| && j != i :: after[j] == before[j]
    ensures FindEvent(after, id) == FindEvent(before, id)
  {
    FindByIdSameIds(after, before, EventKey, id);
  }

  /** Registering a caller and unregistering them again restores the store. */
  lemma RegisterThenUnregisterRestores(events: seq<Event>, caller: Id, eventId: string)
    requires Register(events, caller, eventId).response.status == 200
    ensures Unregister(Register(events, caller, eventId).state, caller, eventId)
            == Transition(Msg(200, UnregisteredOk), events)
  {
    var t := Register(events, caller, eventId);
    var i := FindEvent(events, eventId).index;
    SameLookupAfter(events, t.state, i, eventId);
    AppendThenRemove(events[i].registeredUsers, caller);
    assert t.state[i := t.state[i].(registeredUsers := events[i].registeredUsers)] == events;
  }

  /** Unregistering twice leaves the store as unregistering once. */
  lemma UnregisterIdempotent(events: seq<Event>, caller: Id, eventId: string)
    ensures Unregister(Unregister(events, caller, eventId).state, caller, eventId).state
            == Unregister(events, caller, eventId).state
  {
    var t := Unregister(events, caller, eventId);
    if t.response.status == 200 {
      var i := FindEvent(events, eventId).index;
      SameLookupAfter(events, t.state, i, eventId);
      RemoveAllIdempotent(events[i].registeredUsers, caller);
      assert t.state[i := t.state[i].(registeredUsers := RemoveAll(t.state[i].registeredUsers, caller))] == t.state;
    }
  }

  /** A second registration by the same caller is rejected and changes nothing. */
  lemma RegisterTwiceConflicts(events: seq<Event>, caller: Id, eventId: string)
    requires Register(events, caller, eventId).response.status == 200
    ensures var s := Register(events, caller, eventId).state;
            Register(s, caller, eventId) == Transition(Msg(400, AlreadyRegistered), s)
  {
    var t := Register(events, caller, eventId);
    var i := FindEvent(events, eventId).index;
    SameLookupAfter(events, t.state, i, eventId);
    assert t.state[i].registeredUsers[|events[i].registeredUsers|] == caller;
  }

  /** After a successful registration the views show the caller as
      registered, with one more registrant than before. */
  lemma RegisterReflectedInViews(events: seq<Event>, caller: Id, eventId: string, origin: string)
    requires Register(events, caller, eventId).response.status == 200
    ensures var i := FindEvent(events, eventId).index;
            var before := View(events[i], caller, origin);
            var after := View(Register(events, caller, eventId).state[i], caller, origin);
            && !before.isRegistered && after.isRegistered
            && after.totalRegistrants == before.totalRegistrants + 1
  {
  }

  /** After a successful unregistration the views no longer show the caller,
      and the count drops by the caller's occurrences. */
  lemma UnregisterReflectedInViews(events: seq<Event>, caller: Id, eventId: string, origin: string)
    requires Unregister(events, caller, eventId).response.status == 200
    ensures var i := FindEvent(events, eventId).index;
            var before := View(events[i], caller, origin);
            var after := View(Unregister(events, caller, eventId).state[i], caller, origin);
            && !after.isRegistered
            && after.totalRegistrants == before.totalRegistrants - Count(events[i].registeredUsers, caller)
  {
  }

  /** Replacing one event by a well-formed one with the same id keeps the invariant. */
  lemma ReplaceKeepsInvariant(events: seq<Event>, i: nat, e: Event)
    requires EventsInvariant(events)
    requires i < |events| && e.id == events[i].id && EventWellFormed(e)
    ensures EventsInvariant(events[i := e])
  {
    var after := events[i := e];
    forall a, b | 0 <= a < b < |after| ensures EventKey(after[a]) != EventKey(after[b]) {
      assert EventKey(after[a]) == EventKey(events[a]);
      assert EventKey(after[b]) == EventKey(events[b]);
    }
  }

  lemma RegisterPreservesInvariant(events: seq<Event>, caller: Id, eventId: string)
    requires EventsInvariant(events)
    ensures EventsInvariant(Register(events, caller, eventId).state)
  {
    var t := Register(events, caller, eventId);
    if t.response.status == 200 {
      var i := FindEvent(events, eventId).index;
      var regs := events[i].registeredUsers;
      assert Distinct(regs + [caller]) by {
        forall a, b | 0 <= a < b < |regs + [caller]| ensures (regs + [caller])[a] != (regs + [caller])[b] {
          if b == |regs| {
            assert (regs + [caller])[a] == regs[a];
          } else {
            assert (regs + [caller])[a] == regs[a] && (regs + [caller])[b] == regs[b];
          }
        }
      }
      ReplaceKeepsInvariant(events, i, t.state[i]);
      assert t.state == events[i := t.state[i]];
    }
  }

  lemma UnregisterPreservesInvariant(events: seq<Event>, caller: Id, eventId: string)
    requires EventsInvariant(events)
    ensures EventsInvariant(Unregister(events, caller, eventId).state)
  {
    var t := Unregister(events, caller, eventId);
    if t.response.status == 200 {
      var i := FindEvent(events, eventId).index;
      RemoveAllDistinct(events[i].registeredUsers, caller);
      ReplaceKeepsInvariant(events, i, t.state[i]);
      assert t.state == events[i := t.state[i]];
    }
  }

  lemma MarkAttendeesPreservesInvariant(events: seq<Event>, eventId: string, incoming: Option<seq<Id>>)
    requires EventsInvariant(events)
    ensures EventsInvariant(MarkAttendees(events, eventId, incoming).state)
  {
    var t := MarkAttendees(events, eventId, incoming);
    if t.response.status == 200 {
      var i := FindEvent(events, eventId).index;
      MergeAttendeesSpec(events[i].attendees, incoming.value);
      ReplaceKeepsInvariant(events, i, t.state[i]);
      assert t.state == events[i := t.state[i]];
    }
  }

  lemma UpdateEventPreservesInvariant(events: seq<Event>, eventId: string, form: EventForm, file: Option<string>)
    requires EventsInvariant(events)
    ensures EventsInvariant(UpdateEvent(events, eventId, form, file).state)
  {
    var t := UpdateEvent(events, eventId, form, file);
    if t.response.status == 200 {
      var i := FindEvent(events, eventId).index;
      ReplaceKeepsInvariant(events, i, t.state[i]);
      assert t.state == events[i := t.state[i]];
    }
  }

  lemma DeleteEventPreservesInvariant(events: seq<Event>, eventId: string)
    requires EventsInvariant(events)
    ensures EventsInvariant(DeleteEvent(events, eventId).state)
  {
    var t := DeleteEvent(events, eventId);
    if t.response.status == 200 {
      var i := FindEvent(events, eventId).index;
      var after := t.state;
      assert forall k | 0 <= k < |after| :: after[k] == (if k < i then events[k] else events[k + 1]);
    }
  }

  /** A deleted event can no longer be found. */
  lemma DeleteEventRemoves(events: seq<Event>, eventId: string)
    requires EventsInvariant(events)
    requires DeleteEvent(events, eventId).response.status == 200
    ensures FindEvent(DeleteEvent(events, eventId).state, eventId).Absent?
    ensures |DeleteEvent(events, eventId).state| == |events| - 1
  {
    var after := DeleteEvent(events, eventId).state;
    var i := FindEvent(events, eventId).index;
    forall k | 0 <= k < |after| ensures after[k].id != eventId {
      if k < i {
        assert after[k] == events[k];
      } else {
        assert after[k] == events[k + 1];
        assert EventKey(events[i]) != EventKey(events[k + 1]);
      }
    }
  }

  lemma CreateEventPreservesInvariant(events: seq<Event>, caller: Id, form: EventForm, file: Option<string>, newId: Id)
    requires EventsInvariant(events)
    requires ValidObjectId(newId)
    requires forall j | 0 <= j < |events| :: events[j].id != newId
    ensures EventsInvariant(CreateEvent(events, caller, form, file, newId).state)
  {
    var t := CreateEvent(events, caller, form, file, newId);
    if t.response.status == 201 {
      var after := t.state;
      assert forall k | 0 <= k < |events| :: after[k] == events[k];
    }
  }
}
