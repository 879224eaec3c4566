/** How the unmounted controller handlers relate to the live router:
    wherever the controller succeeds the live route succeeds with the same
    store, and the two differ only where the controller adds a check. */
module Variants {
  import opened Base
  import opened Seqs
  import opened Store
  import opened EventModel
  import EventRoutes
  import EventController
  import RegistrationProperties

  /** A successful controller registration is a successful live registration
      with the same resulting store. */
  lemma ControllerRegisterImpliesLive(events: seq<Event>, caller: Id, eventId: string, now: int)
    requires EventController.RegisterEvent(events, Some(caller), eventId, now).response.status == 200
    ensures EventRoutes.Register(events, caller, eventId).response.status == 200
    ensures EventRoutes.Register(events, caller, eventId).state
            == EventController.RegisterEvent(events, Some(caller), eventId, now).state
  {
    var i := FindEvent(events, eventId).index;
    var c := EventController.RegisterEvent(events, Some(caller), eventId, now).state;
    var l := EventRoutes.Register(events, caller, eventId).state;
    assert |c| == |l|;
    assert forall j | 0 <= j < |c| :: c[j] == l[j];
  }

  /** A successful controller unregistration is a successful live
      unregistration with the same resulting store. */
  lemma ControllerUnregisterImpliesLive(events: seq<Event>, caller: Id, eventId: string)
    requires EventController.UnregisterEvent(events, Some(caller), eventId).response.status == 200
    ensures EventRoutes.Unregister(events, caller, eventId).response.status == 200
    ensures EventRoutes.Unregister(events, caller, eventId).state
            == EventController.UnregisterEvent(events, Some(caller), eventId).state
  {
    var c := EventController.UnregisterEvent(events, Some(caller), eventId).state;
    var l := EventRoutes.Unregister(events, caller, eventId).state;
    assert |c| == |l|;
    assert forall j | 0 <= j < |c| :: c[j] == l[j];
  }

  /** Registering through the controller and unregistering through it again
      answers 200 and restores the store. */
  lemma {:induction false} ControllerRegisterThenUnregisterRestores(events: seq<Event>, caller: Id, eventId: string, now: int)
    requires EventController.RegisterEvent(events, Some(caller), eventId, now).response.status == 200
    ensures var after := EventController.RegisterEvent(events, Some(caller), eventId, now).state;
            EventController.UnregisterEvent(after, Some(caller), eventId)
            == Transition(Msg(200, EventController.UnregisteredOk), events)
  {
    var after := EventController.RegisterEvent(events, Some(caller), eventId, now).state;
    var i := FindEvent(events, eventId).index;
    ControllerRegisterImpliesLive(events, caller, eventId, now);
    RegistrationProperties.RegisterThenUnregisterRestores(events, caller, eventId);
    RegistrationProperties.SameLookupAfter(events, after, i, eventId);
    assert after[i].registeredUsers[|events[i].registeredUsers|] == caller;
    UnregisterVariantsSameStore(after, caller, eventId);
  }

  /** For an authenticated caller the two registration handlers give the same
      status and store, except on a past event: there the live route registers
      the caller and the controller refuses. */
  lemma RegisterVariantsDifferOnlyOnPastEvents(events: seq<Event>, caller: Id, eventId: string, now: int)
    ensures var l := FindEvent(events, eventId);
            var live := EventRoutes.Register(events, caller, eventId);
            var ctrl := EventController.RegisterEvent(events, Some(caller), eventId, now);
            if l.Found? && events[l.index].date < now && caller !in events[l.index].registeredUsers then
              live.response.status == 200 && ctrl == Transition(Msg(400, EventController.PastEvent), events)
            else
              live.response.status == ctrl.response.status && live.state == ctrl.state
  {
    var l := FindEvent(events, eventId);
    var live := EventRoutes.Register(events, caller, eventId);
    var ctrl := EventController.RegisterEvent(events, Some(caller), eventId, now);
    if live.response.status == 200 && ctrl.response.status == 200 {
      ControllerRegisterImpliesLive(events, caller, eventId, now);
    }
  }

  /** For an authenticated caller the two unregistration handlers always leave
      the same store: where the controller refuses a caller who is not
      registered, the live route's filter removes nothing. */
  lemma UnregisterVariantsSameStore(events: seq<Event>, caller: Id, eventId: string)
    ensures EventRoutes.Unregister(events, caller, eventId).state
            == EventController.UnregisterEvent(events, Some(caller), eventId).state
  {
    var live := EventRoutes.Unregister(events, caller, eventId);
    var ctrl := EventController.UnregisterEvent(events, Some(caller), eventId);
    if ctrl.response.status == 200 {
      ControllerUnregisterImpliesLive(events, caller, eventId);
    } else if live.response.status == 200 {
      var i := FindEvent(events, eventId).index;
      RemoveAllAbsent(events[i].registeredUsers, caller);
      assert events[i := events[i]] == events;
    }
  }

  /** When the controller lists upcoming events it lists the live route's
      events, in the same order, with the same registration flags. */
  lemma UpcomingVariantsAgree(events: seq<Event>, caller: Id, now: int, origin: string)
    requires EventController.GetUpcomingEvents(events, Some(caller), now).status == 200
    ensures var ctrl := EventController.GetUpcomingEvents(events, Some(caller), now).body.value;
            var live := EventRoutes.Upcoming(events, caller, now, origin).body.value;
            && |ctrl| == |live|
            && forall k | 0 <= k < |ctrl| ::
                 ctrl[k].event.id == live[k].id && ctrl[k].isRegistered == live[k].isRegistered
  {
  }

  /** The live listing answers an empty upcoming set with an empty list,
      where the controller answers 404. */
  lemma UpcomingEmptyDiffers(events: seq<Event>, caller: Id, now: int, origin: string)
    requires forall k | 0 <= k < |events| :: events[k].date < now
    ensures EventRoutes.Upcoming(events, caller, now, origin) == Response(200, Json([]))
    ensures EventController.GetUpcomingEvents(events, Some(caller), now) == Msg(404, EventController.NoUpcoming)
  {
  }

  /** The scenario of a user registering twice and unregistering twice for a
      future event under the controller: 200, 400, 200, 400, ending where it began. */
  lemma ControllerScenario(u: Id, eventId: Id, owner: Id, now: int)
    requires ValidObjectId(eventId)
    ensures
      var e1 := Event(eventId, "Talk", "About", now + 86400000, "Hall", None, owner, [], []);
      var s0 := [e1];
      var r1 := EventController.RegisterEvent(s0, Some(u), eventId, now);
      var r2 := EventController.RegisterEvent(r1.state, Some(u), eventId, now);
      var r3 := EventController.UnregisterEvent(r2.state, Some(u), eventId);
      var r4 := EventController.UnregisterEvent(r3.state, Some(u), eventId);
      && r1.response.status == 200 && r1.state[0].registeredUsers == [u]
      && r2.response == Msg(400, EventRoutes.AlreadyRegistered) && r2.state == r1.state
      && r3.response.status == 200 && r3.state == s0
      && r4.response == Msg(400, EventController.NotRegistered) && r4.state == s0
  {
    var e1 := Event(eventId, "Talk", "About", now + 86400000, "Hall", None, owner, [], []);
    var s0 := [e1];
    FindByIdUnique(s0, EventKey, 0);
    assert FindEvent(s0, eventId) == Found(0);
    assert s0[0].date >= now;
    assert u !in s0[0].registeredUsers;
    var r1 := EventController.RegisterEvent(s0, Some(u), eventId, now);
    assert r1.response.status == 200;
    assert r1.state[0].registeredUsers == [u];
    assert r1.state == [e1.(registeredUsers := [u])];
    FindByIdUnique(r1.state, EventKey, 0);
    var r2 := EventController.RegisterEvent(r1.state, Some(u), eventId, now);
    var r3 := EventController.UnregisterEvent(r2.state, Some(u), eventId);
    assert RemoveAll([u], u) == [];
    assert r3.state == s0;
  }
}
