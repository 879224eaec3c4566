/** The user routes: the listing of all users and the caller's profile update. */
module UserRoutes {
  import opened Base
  import opened Text
  import opened Store
  import opened Oracles
  import opened UserModel
  import opened AuthMiddleware
  import opened AdminMiddleware

  const ServerError: string := "Server error"
  const NotFound: string := "User not found"

  /** What a guarded route does: answer, or throw before answering (the
      request is then left without a response). */
  datatype Outcome<T> = Answered(response: Response<T>) | Unanswered

  /** `User.find().select('-password')`: every stored user, in store order,
      without the password. */
  function ListUsers(users: seq<User>): (r: seq<Profile>)
    ensures |r| == |users|
    ensures forall k | 0 <= k < |r| :: r[k] == Public(users[k])
  {
    seq(|users|, k requires 0 <= k < |users| => Public(users[k]))
  }

  /** The answer a route gives after its gates. */
  function Guarded<T>(gate: Gate, handler: Profile -> Response<T>): Outcome<T> {
    match gate
    case Proceed(caller) => Answered(handler(caller))
    case Deny(status, text) => Answered(Msg(status, text))
    case Thrown => Unanswered
  }

  /** `GET /` as mounted: behind `protect` alone. */
  function GetUsersRoute(users: seq<User>, authorization: Option<string>, jwt: Jwt): (o: Outcome<seq<Profile>>)
    ensures o.Unanswered? <==> Protect(users, authorization, jwt).Thrown?
    ensures o.Answered? && o.response.status == 200 <==> Protect(users, authorization, jwt).Proceed?
    ensures Protect(users, authorization, jwt).Proceed? ==> o == Answered(Response(200, Json(ListUsers(users))))
    ensures o.Answered? && o.response.status != 200 ==> o.response.status == 401
    ensures Protect(users, authorization, jwt).Deny? ==>
            o == Answered(Msg(Protect(users, authorization, jwt).status, Protect(users, authorization, jwt).text))
  {
    Guarded(Authorize(users, authorization, jwt, false), (_: Profile) => Response(200, Json(ListUsers(users))))
  }

  /** Any authenticated caller, whatever the role, receives the whole user
      list, although the route is documented as admin only. */
  lemma GetUsersOpenToEveryRole(users: seq<User>, authorization: Option<string>, jwt: Jwt)
    requires Protect(users, authorization, jwt).Proceed?
    requires Protect(users, authorization, jwt).caller.role != AdminRole
    ensures GetUsersRoute(users, authorization, jwt) == Answered(Response(200, Json(ListUsers(users))))
    ensures GetUsersAdminOnly(users, authorization, jwt) == Answered(Msg(403, AccessDenied))
  {
    AuthenticatedNonAdminForbidden(users, authorization, jwt);
  }

  /** `GET /` with the role gate its documentation asks for. */
  function GetUsersAdminOnly(users: seq<User>, authorization: Option<string>, jwt: Jwt): (o: Outcome<seq<Profile>>)
    ensures o.Answered? && o.response.status == 200 ==>
            && Protect(users, authorization, jwt).Proceed?
            && Protect(users, authorization, jwt).caller.role == AdminRole
            && o.response == Response(200, Json(ListUsers(users)))
    ensures Protect(users, authorization, jwt).Proceed? && Protect(users, authorization, jwt).caller.role == AdminRole
            ==> o == Answered(Response(200, Json(ListUsers(users))))
  {
    Guarded(Authorize(users, authorization, jwt, true), (_: Profile) => Response(200, Json(ListUsers(users))))
  }

  /** The record after `user.name = name || user.name; user.email = email || user.email`;
      the name setter trims whichever value is assigned. */
  function Edited(u: User, name: Option<string>, email: Option<string>): User {
    u.(name := Trim(OrElse(name, u.name)), email := OrElse(email, u.email))
  }

  /** Another stored user already has this email: the unique index refuses the save. */
  predicate EmailHeldByOther(users: seq<User>, i: nat, email: string) {
    exists j | 0 <= j < |users| :: j != i && users[j].email == email
  }

  /** The save of the edited record `users[i]` goes through: it passes the
      schema and its email is not held by another user. */
  predicate UpdateAllowed(users: seq<User>, i: nat, name: Option<string>, email: Option<string>)
    requires i < |users|
  {
    var u := Edited(users[i], name, email);
    PassesValidation(u) && !EmailHeldByOther(users, i, u.email)
  }

  /** `PUT /update` for the caller `protect` attached. The password is not
      modified, so the save hook keeps the hash. A failed validation or a
      duplicate email is caught as a 500. The response carries the saved
      record as stored, password hash included. */
  function UpdateProfile(users: seq<User>, callerId: Id, name: Option<string>, email: Option<string>)
    : (t: Transition<User, seq<User>>)
    ensures FindUser(users, callerId).CastError? ==> t == Transition(Msg(500, ServerError), users)
    ensures FindUser(users, callerId).Absent? ==> t == Transition(Msg(404, NotFound), users)
    ensures FindUser(users, callerId).Found? && !UpdateAllowed(users, FindUser(users, callerId).index, name, email)
            ==> t == Transition(Msg(500, ServerError), users)
    ensures t.response.status != 200 ==> t.state == users
    ensures t.response.status == 200 <==>
            FindUser(users, callerId).Found? && UpdateAllowed(users, FindUser(users, callerId).index, name, email)
    ensures t.response.status == 200 ==>
            var i := FindUser(users, callerId).index;
            && |t.state| == |users|
            && (forall j | 0 <= j < |users| && j != i :: t.state[j] == users[j])
            && t.state[i].id == users[i].id && t.state[i].password == users[i].password
            && t.state[i].role == users[i].role
            && t.state[i].name == Trim(if Truthy(name) then name.value else users[i].name)
            && t.state[i].email == (if Truthy(email) then email.value else users[i].email)
            && t.response == Response(200, Json(t.state[i]))
  {
    match FindUser(users, callerId)
    case CastError => Transition(Msg(500, ServerError), users)
    case Absent => Transition(Msg(404, NotFound), users)
    case Found(i) =>
      if !UpdateAllowed(users, i, name, email) then Transition(Msg(500, ServerError), users)
      else
        var u := Edited(users[i], name, email);
        Transition(Response(200, Json(u)), users[i := u])
  }

  /** A caller who got past `protect` is always found again: the update
      answers 200 or 500, never 404. */
  lemma UpdateAfterProtectFindsCaller(users: seq<User>, authorization: Option<string>, jwt: Jwt,
                                      name: Option<string>, email: Option<string>)
    requires Protect(users, authorization, jwt).Proceed?
    ensures UpdateProfile(users, Protect(users, authorization, jwt).caller.id, name, email).response.status in {200, 500}
  {
  }

  /** Writing back the record that is already there leaves the store as it is. */
  lemma WriteBackSame(users: seq<User>, i: nat)
    requires i < |users|
    ensures users[i := users[i]] == users
  {
  }

  /** A stored record, saved with neither field given, is saved as it is. */
  lemma StoredUserUpdateAllowed(users: seq<User>, i: nat)
    requires UsersInvariant(users) && i < |users|
    ensures Edited(users[i], None, None) == users[i]
    ensures UpdateAllowed(users, i, None, None)
  {
    assert UserWellFormed(users[i]);
    forall j | 0 <= j < |users| && j != i ensures users[j].email != users[i].email {
      if j < i {
        assert users[j].email != users[i].email;
      } else {
        assert users[i].email != users[j].email;
      }
    }
  }

  /** An update with neither field given saves the record unchanged. */
  lemma UpdateWithoutFieldsKeepsStore(users: seq<User>, callerId: Id)
    requires UsersInvariant(users)
    requires FindUser(users, callerId).Found?
    ensures UpdateProfile(users, callerId, None, None)
            == Transition(Response(200, Json(users[FindUser(users, callerId).index])), users)
  {
    var i := FindUser(users, callerId).index;
    StoredUserUpdateAllowed(users, i);
    WriteBackSame(users, i);
  }

  /** Applying the same edit twice is applying it once. */
  lemma EditedIdempotent(u: User, name: Option<string>, email: Option<string>)
    ensures Edited(Edited(u, name, email), name, email) == Edited(u, name, email)
  {
    var v := Edited(u, name, email);
    if Truthy(name) {
      assert OrElse(name, v.name) == name.value;
    } else {
      assert OrElse(name, v.name) == v.name == Trim(u.name);
      TrimIdempotent(u.name);
    }
    assert OrElse(email, v.email) == v.email;
  }

  /** A successful update stores the edited record in the caller's slot. */
  lemma UpdateProfileSaves(users: seq<User>, callerId: Id, i: nat, name: Option<string>, email: Option<string>)
    requires FindUser(users, callerId) == Found(i) && i < |users|
    requires UpdateAllowed(users, i, name, email)
    ensures UpdateProfile(users, callerId, name, email).state == users[i := Edited(users[i], name, email)]
  {
  }

  /** Once an edit is saved, the same edit is allowed again and saves the
      store as it already is. */
  lemma UpdateProfileAgain(users: seq<User>, callerId: Id, i: nat, name: Option<string>, email: Option<string>)
    requires FindUser(users, callerId) == Found(i) && i < |users|
    requires UpdateAllowed(users, i, name, email)
    ensures var once := users[i := Edited(users[i], name, email)];
            UpdateProfile(once, callerId, name, email).state == once
  {
    var u := Edited(users[i], name, email);
    var once := users[i := u];
    assert FindUser(once, callerId) == Found(i) by {
      FindByIdSameIds(once, users, UserKey, callerId);
    }
    assert UpdateAllowed(once, i, name, email) by {
      assert Edited(u, name, email) == u by {
        EditedIdempotent(users[i], name, email);
      }
      assert !EmailHeldByOther(users, i, u.email);
      forall j | 0 <= j < |once| && j != i ensures once[j].email != u.email {
        assert once[j] == users[j];
      }
    }
    UpdateProfileSaves(once, callerId, i, name, email);
    assert once[i := Edited(once[i], name, email)] == once by {
      EditedIdempotent(users[i], name, email);
      WriteBackSame(once, i);
    }
  }

  /** Repeating an update changes nothing further. */
  lemma UpdateProfileIdempotent(users: seq<User>, callerId: Id, name: Option<string>, email: Option<string>)
    ensures var once := UpdateProfile(users, callerId, name, email).state;
            UpdateProfile(once, callerId, name, email).state == once
  {
    var f := FindUser(users, callerId);
    if f.Found? && UpdateAllowed(users, f.index, name, email) {
      UpdateProfileSaves(users, callerId, f.index, name, email);
      UpdateProfileAgain(users, callerId, f.index, name, email);
    }
  }

  /** A profile update keeps the identity store's invariant. */
  lemma UpdateProfilePreservesInvariant(users: seq<User>, callerId: Id, name: Option<string>, email: Option<string>)
    requires UsersInvariant(users)
    ensures UsersInvariant(UpdateProfile(users, callerId, name, email).state)
  {
    var t := UpdateProfile(users, callerId, name, email);
    if t.response.status == 200 {
      var i := FindUser(users, callerId).index;
      var after := t.state;
      assert UserWellFormed(after[i]) by {
        TrimIdempotent(OrElse(name, users[i].name));
      }
      assert !EmailHeldByOther(users, i, after[i].email);
      ReplaceKeepsUsersInvariant(users, i, after[i]);
      assert after == users[i := after[i]];
    }
  }
}
