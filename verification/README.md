# Event registration backend — a Dafny model

This project models the server of an event-management application. Its core is how
a user's membership in an event's registrant list changes: registering, unregistering,
and an admin marking attendees. Around that core it models:

- the read projections built from those lists: upcoming, available, my events,
  the owner or admin listing, and registrants;
- the admin create, update and delete operations;
- the user record and its schema rules: the email pattern, the trimmed name, the
  role default, and rehashing a modified password on save;
- the account routes: register, login and refresh;
- the user routes: list users and update profile;
- the two gates every route passes through: `protect`, which checks the bearer
  token and loads the caller, and `admin`, which checks the caller's role.

There are two sets of registration handlers. The router in
`server/routes/eventRoutes.js` is the one the server mounts. The controller in
`server/controllers/eventController.js` is stricter, but no router mounts it.
Both are modelled, and `Variants` proves how they relate.

## How the model is built

- **Stores.** The document stores are sequences (`seq<Event>`, `seq<User>`) kept in
  natural order.
- **Lookups.** `findById` is `Store.FindById`. It returns the first record with the
  id, `Absent` when there is none, or `CastError` when the id is not 24 hex digits.
  A `CastError` is the exception the handlers' `catch` blocks turn into 500.
- **Ids.** The id types are a single string type: an ObjectId and its string form
  are treated as the same value, except where that difference is the point of a
  finding below. Ids are compared as plain strings, case included, while mongoose
  casts a hex string to an ObjectId whatever the case of its digits A-F; the gap
  is recorded under "Left out" (`Store.FindById`).
- **Handlers.** Every handler is a pure function from the store (and the request
  fields) to a `Transition`: the response sent and the store afterwards.
- **Environment as parameters.** The clock is a parameter `now`. The new document
  id and the bcrypt salt are parameters. The request's `protocol://host` is a
  parameter `origin`.
- **Hashing and tokens.** bcrypt and jsonwebtoken are uninterpreted functions,
  packaged as `Oracles.Crypto` and `Oracles.Jwt`. What the proofs assume about
  them is stated as predicates in the `requires` of the lemmas that need them:
  - `HashSound`: a password matches its own hash;
  - `TokensSound`: a token verifies to the id it was signed for;
  - `TokensCompact`: a token is non-empty and contains no space;
  - `HashesNonEmpty`: a hash is never empty.

Modules, in dependency order:

- `Base`
- `Seqs`
- `Store`
- `Text`
- `Oracles`
- `UserModel`
- `EventModel`
- `EventRoutes`
- `EventController`
- `AuthMiddleware`
- `AdminMiddleware`
- `AuthRoutes`
- `UserRoutes`
- `RegistrationProperties`
- `Variants`

The mounted routes are modelled as they are, even where the unmounted
controller behaves differently.

- **Past events and non-registrants.** Refusing registration for a past event,
  and treating the unregistration of a non-registrant as an error, happen only in
  the unmounted controller; the live router does neither.
  `EventRoutes.Register` and `EventRoutes.Unregister` therefore have no such
  checks, and `Variants.RegisterVariantsDifferOnlyOnPastEvents` states exactly
  where the two behaviours part.
- **Empty upcoming list.** The live `/upcoming` answers an empty list with 200.
  The controller answers it with 404.

## Model

| member | source | states |
|---|---|---|
| Store.FindById | server/routes/eventRoutes.js:100-103 | the lookup fails with a cast error exactly when the id is not 24 hex digits; when it finds a record, that is the first record carrying the id; it reports absence only when no record carries the id |
| Store.FindByIdUnique | server/models/Event.js:3 | in a store with unique ids, looking up a record's own id finds that record |
| Seqs.RemoveAll | server/routes/eventRoutes.js:130-132 | the filter removes every occurrence of the caller and nothing else: each remaining entry was in the list, each other entry survives, and the length drops by the number of occurrences |
| Seqs.AppendThenRemove | server/routes/eventRoutes.js:109-132 | appending an id absent from a list and then filtering it out gives back the list |
| Seqs.AddAll | server/routes/eventRoutes.js:236 | the insertion-ordered set union contains every added element, only elements from its inputs, and keeps the accumulated prefix in front |
| Text.TrimSpec | server/models/User.js:7-11 | the trimmed name is an infix of the input with only whitespace cut from both ends, does not start or end with whitespace, and is empty exactly when the input is all whitespace |
| Text.TrimIdempotent | server/models/User.js:10 | trimming a trimmed name changes nothing |
| Text.JoinSplit | server/middleware/auth.js:8 | joining the fields of a split on spaces rebuilds the header |
| Text.SplitJoin | server/middleware/auth.js:8 | splitting space-free fields joined by spaces gives back the fields |
| UserModel.ValidEmailIffPattern | server/models/User.js:16 | the decision procedure accepts exactly the strings that can be cut into local part, `@`, domain, `.` and 2 to 6 letters as the regular expression requires |
| UserModel.AcceptedEmailShape | server/models/User.js:16 | every accepted email holds exactly one `@` and ends in a dot followed by 2 to 6 ASCII letters |
| UserModel.NewUserNameTrimmed | server/models/User.js:7-25 | a new user's name has no surrounding whitespace, becomes empty only for an all-whitespace name, and the role defaults to "user" |
| UserModel.FindByEmail | server/routes/authRoutes.js:54 | the lookup returns the first user with exactly this email, and reports none only when no user has it |
| UserModel.IsEmailTaken | server/models/User.js:58-61 | true exactly when some stored user has the email |
| UserModel.AppendKeepsUsersInvariant | server/models/User.js:12-16 | adding a well-formed user with a new id and a new email keeps ids and emails unique and every user well formed |
| UserModel.ReplaceKeepsUsersInvariant | server/models/User.js:12-16 | replacing a user by a well-formed record with the same id and an email no other user holds keeps the store invariant |
| AuthRoutes.PreSaveHashVerifies | server/models/User.js:31-55 | a saved password that was modified verifies against its plain text through the hash comparison; an unmodified record is saved as it is |
| AuthMiddleware.BearerTokenOfStandardHeader | server/middleware/auth.js:7-8 | the header "Bearer <token>" yields the token when the token has no space |
| AuthMiddleware.BearerTokenIsSecondField | server/middleware/auth.js:7-8 | the token is whatever follows the first space, so "Bearerx y" passes the prefix test and yields "y" |
| AuthMiddleware.BearerTokenIgnoresRest | server/middleware/auth.js:8 | anything after a second space is ignored |
| AuthMiddleware.BearerTokenAbsentWithoutSpace | server/middleware/auth.js:8-11 | a header with no space has no token field |
| AuthMiddleware.Protect | server/middleware/auth.js:4-40 | no Bearer prefix gives 401 "no token"; a prefixed header with no space throws; an empty token gives 401 "token missing"; each verification error gives its own 401 message; a verified id with no stored user gives 401 "user not found"; the request proceeds only with the stored user the token names, minus the password |
| AdminMiddleware.Admin | server/middleware/adminMiddleware.js:3-21 | admits exactly a stored caller whose role is "admin"; answers 404 for an unknown caller, 403 for any other role and 500 for a malformed id |
| AdminMiddleware.AuthorizeAdmitsOnlyAdmins | server/middleware/adminMiddleware.js:11-16 | a route behind both gates reaches its handler only with an admin caller, and then with the caller `protect` attached; without the role gate the route behaves as `protect` alone |
| AdminMiddleware.AuthenticatedNonAdminForbidden | server/middleware/adminMiddleware.js:5-16 | a caller who passed `protect` is found again by the role gate, so they get through exactly when admin and are otherwise refused with 403 |
| AuthRoutes.RegisterUser | server/routes/authRoutes.js:18-44 | a missing or empty field gives 400 and a taken email gives 400; a trimmed-empty name or an email not matching the pattern gives 500; otherwise 201, and exactly one user is appended with the assigned id, the trimmed name, the default role and the hashed password |
| AuthRoutes.Login | server/routes/authRoutes.js:47-89 | 200 exactly when the first user with the email has a password that compares equal; then the access and refresh tokens are signed for that user's id and the profile omits the password; every failure is the same 400 |
| AuthRoutes.Refresh | server/routes/authRoutes.js:93-112 | a missing token gives 400; a token that does not verify under the refresh secret gives 403; otherwise a new access token is issued for the verified subject |
| AuthRoutes.RegisterThenLogin | server/routes/authRoutes.js:36-84 | right after a successful registration, logging in with the same email and password succeeds and reports the new user with the trimmed name and the default role |
| AuthRoutes.LoginThenRefresh | server/routes/authRoutes.js:68-110 | the refresh token a login hands out buys an access token for the same user |
| AuthRoutes.LoginThenProtect | server/routes/authRoutes.js:8-9 | the access token a login hands out, sent as "Bearer <token>", takes the same user past `protect` |
| AuthRoutes.RegisterUserPreservesInvariant | server/routes/authRoutes.js:29-37 | registration keeps every user well formed and keeps ids and emails unique |
| UserRoutes.ListUsers | server/routes/userRoutes.js:9 | one entry per stored user, in store order, each the user without the password |
| UserRoutes.GetUsersRoute | server/routes/userRoutes.js:7-14 | the listing answers 200 with every user exactly when `protect` lets the caller through, whatever the caller's role; otherwise it relays the gate's 401 with the gate's own message, and an exception in the gate leaves the request unanswered |
| UserRoutes.GetUsersOpenToEveryRole | server/routes/userRoutes.js:6-7 | an authenticated non-admin receives the whole user list, where the admin-gated version answers 403 |
| UserRoutes.GetUsersAdminOnly | server/routes/userRoutes.js:6 | with the role gate added, the list is returned only to an authenticated admin, and always to one |
| UserRoutes.UpdateProfile | server/routes/userRoutes.js:17-32 | an unknown caller gives 404; a save that fails validation or hits a duplicate email gives 500; otherwise only the caller's record changes: name (trimmed) and email are replaced by the given non-empty values, and id, password and role are kept; the response carries the stored record |
| UserRoutes.UpdateAfterProtectFindsCaller | server/routes/userRoutes.js:20-27 | behind `protect` the update never answers 404 |
| UserRoutes.UpdateWithoutFieldsKeepsStore | server/routes/userRoutes.js:22-24 | an update with neither name nor email saves the caller's record unchanged |
| UserRoutes.EditedIdempotent | server/routes/userRoutes.js:22-23 | assigning the same name and email a second time leaves the record as the first assignment made it, the name setter's trim included |
| UserRoutes.UpdateProfileIdempotent | server/routes/userRoutes.js:22-25 | repeating an update changes nothing further |
| UserRoutes.UpdateProfilePreservesInvariant | server/routes/userRoutes.js:22-24 | a profile update keeps every user well formed and keeps ids and emails unique |
| EventRoutes.Register | server/routes/eventRoutes.js:91-118 | a malformed id gives 400, an unknown event 404 and an already-registered caller 400; otherwise 200, the caller is appended to that event's registrants, and nothing else in the store changes; there is no date check |
| EventRoutes.Unregister | server/routes/eventRoutes.js:122-140 | a malformed id gives 500 (the cast fails inside the try) and an unknown event 404; otherwise 200 whether or not the caller was registered, every occurrence of the caller is removed, and nothing else changes |
| EventRoutes.MergeAttendeesSpec | server/routes/eventRoutes.js:236 | the corrected merge keeps every stored and every incoming attendee, adds nothing else, has no duplicates, and keeps a duplicate-free stored list in front in its order |
| EventRoutes.MergeAttendeesIdempotent | server/routes/eventRoutes.js:236 | marking the same attendees again leaves the corrected merge unchanged |
| EventRoutes.MergeAttendeesAsWritten | server/routes/eventRoutes.js:236 | as written, every stored attendee is kept in front and each incoming id appears after them |
| EventRoutes.MergeAttendeesAsWrittenDuplicates | server/routes/eventRoutes.js:236 | as written, re-marking a marked attendee stores a second copy, and each repeat adds another |
| EventRoutes.MarkAttendees | server/routes/eventRoutes.js:227-243 | an unknown event gives 404; a malformed event id, a missing list or a non-ObjectId entry gives 500; otherwise only that event's attendees change, to the corrected (by-value) merge of the stored and incoming lists |
| EventRoutes.CreateEvent | server/routes/eventRoutes.js:16-36 | 201 exactly when title, description, date and location are present; the new event is appended with the assigned id, owned by the caller, with the upload path as image and empty registrant and attendee lists; otherwise 500 with no change |
| EventRoutes.UpdateEvent | server/routes/eventRoutes.js:182-207 | an unknown event gives 404 and a malformed id 500; otherwise only that event changes: each field is replaced only by a truthy value, the image only by an upload, and id, owner, registrants and attendees are kept |
| EventRoutes.DeleteEvent | server/routes/eventRoutes.js:210-224 | an unknown event gives 404 and a malformed id 500; otherwise the event is cut out, the other events keep their order, and the answer is the 200 "Event deleted successfully" message |
| EventRoutes.ListEvents | server/routes/eventRoutes.js:50-61 | an admin gets every event; anyone else gets exactly the events they created, each as many times as it is stored |
| EventRoutes.ListEventsAppend | server/routes/eventRoutes.js:52-54 | the listing keeps store order: an event stored after the others is listed after them, and only if the caller may see it |
| EventRoutes.UpcomingEvents | server/routes/eventRoutes.js:67 | exactly the events dated now or later, each as many times as it is stored; empty exactly when every event is past |
| EventRoutes.UpcomingEventsAppend | server/routes/eventRoutes.js:67 | the query keeps store order: an event stored after the others is listed after them, and only if it is not past |
| EventRoutes.MyEvents | server/routes/eventRoutes.js:167-178 | exactly the events whose registrants include the caller, each as many times as it is stored |
| EventRoutes.MyEventsAppend | server/routes/eventRoutes.js:169-171 | the query keeps store order: an event stored after the others is listed after them, and only if the caller is among its registrants |
| EventRoutes.Views | server/routes/eventRoutes.js:147-156 | one view per event, in order, carrying its id, title, description, date and location, the image prefixed with the request origin when set and null otherwise, the number of registrants, and a flag set exactly when the caller is a registrant |
| EventRoutes.ViewsFlagMatchesMyEvents | server/routes/eventRoutes.js:155 | the registration flag of a view is set exactly when that event is among the caller's registered events (GET /myevents) |
| EventRoutes.Upcoming | server/routes/eventRoutes.js:65-81 | always 200, even when nothing is upcoming (an empty list, no 404); one view per not-yet-past event in store order, with its id, registrant count and the caller's flag |
| EventRoutes.Available | server/routes/eventRoutes.js:143-158 | always 200 with one view per stored event in store order, with its id, registrant count and the caller's flag |
| EventRoutes.PopulateNames | server/routes/eventRoutes.js:248 | populating never adds entries and only returns ids from the registrant list; when every registrant has a stored user, the ids come back in order |
| EventRoutes.PopulateNamesIds | server/routes/eventRoutes.js:248 | the populated ids are exactly the registrants that have a stored user, in their order: a registrant with no stored user drops out |
| EventRoutes.PopulateNamesNamed | server/routes/eventRoutes.js:248 | every populated entry carries the name of the stored user its id finds |
| EventRoutes.Registrants | server/routes/eventRoutes.js:246-258 | an unknown event gives 404 and a malformed id 500; otherwise 200 with the event's registrants, named |
| EventController.GetUpcomingEvents | server/controllers/eventController.js:6-30 | a missing caller gives 401; 404 exactly when no event is upcoming; otherwise the upcoming events in order, each flagged exactly when the caller is registered |
| EventController.GetUpcomingEventsAsWritten | server/controllers/eventController.js:19-27 | as written, the status is always the corrected handler's (401 without a caller, 404 with nothing upcoming, else 200) and every non-200 answer is the same; the 200 answer lists the upcoming events in store order, each with its flag false |
| EventController.UpcomingFlagAsWrittenIsWrong | server/controllers/eventController.js:23-25 | for a registered caller and one upcoming event, the handler as written reports them as not registered and the corrected one as registered |
| EventController.RegisterEvent | server/controllers/eventController.js:33-63 | no caller gives 401, a malformed id 400, an unknown event 404, a past event 400 and an already-registered caller 400; otherwise 200 and the caller is appended |
| EventController.UnregisterEvent | server/controllers/eventController.js:66-95 | no caller gives 401, a malformed id 400, an unknown event 404 and a caller who is not registered 400; otherwise 200 and every occurrence of the caller is removed |
| RegistrationProperties.SameLookupAfter | server/routes/eventRoutes.js:109-110 | a handler that edits only one event's lists leaves every later lookup finding the same position |
| RegistrationProperties.RegisterThenUnregisterRestores | server/routes/eventRoutes.js:91-140 | a successful registration followed by unregistration gives 200 and the original store |
| RegistrationProperties.UnregisterIdempotent | server/routes/eventRoutes.js:130-134 | unregistering twice leaves the store as unregistering once |
| RegistrationProperties.RegisterTwiceConflicts | server/routes/eventRoutes.js:105-107 | a second registration is answered 400 and changes nothing |
| RegistrationProperties.RegisterReflectedInViews | server/routes/eventRoutes.js:154-155 | after registering, the caller's view shows them registered and the count up by one |
| RegistrationProperties.UnregisterReflectedInViews | server/routes/eventRoutes.js:130-132 | after unregistering, the caller's view shows them not registered and the count down by their occurrences |
| RegistrationProperties.ReplaceKeepsInvariant | server/models/Event.js:3-12 | replacing an event by a well-formed one with the same id keeps the event store invariant |
| RegistrationProperties.RegisterPreservesInvariant | server/routes/eventRoutes.js:105-110 | registration keeps every registrant list duplicate-free, ids unique and required fields present |
| RegistrationProperties.UnregisterPreservesInvariant | server/routes/eventRoutes.js:130-134 | unregistration keeps the event store invariant |
| RegistrationProperties.MarkAttendeesPreservesInvariant | server/routes/eventRoutes.js:235-237 | marking attendees, with the corrected merge, keeps every attendee list duplicate-free |
| RegistrationProperties.UpdateEventPreservesInvariant | server/routes/eventRoutes.js:192-201 | an update keeps the event store invariant |
| RegistrationProperties.DeleteEventPreservesInvariant | server/routes/eventRoutes.js:218 | a deletion keeps the event store invariant |
| RegistrationProperties.DeleteEventRemoves | server/routes/eventRoutes.js:210-224 | after a deletion the event can no longer be found and the store is one shorter |
| RegistrationProperties.CreateEventPreservesInvariant | server/routes/eventRoutes.js:22-29 | creating an event with a fresh id keeps the event store invariant |
| Variants.ControllerRegisterImpliesLive | server/controllers/eventController.js:33-63 | wherever the controller registers, the live route registers too, with the same resulting store |
| Variants.ControllerUnregisterImpliesLive | server/controllers/eventController.js:66-95 | wherever the controller unregisters, the live route does too, with the same resulting store |
| Variants.RegisterVariantsDifferOnlyOnPastEvents | server/controllers/eventController.js:51-53 | for an authenticated caller the two registrations agree on status and store, except for a past event the caller is not registered for: the live route accepts it and the controller refuses it |
| Variants.UnregisterVariantsSameStore | server/controllers/eventController.js:84-86 | the two unregistrations always leave the same store |
| Variants.UpcomingVariantsAgree | server/controllers/eventController.js:12-27 | when the controller lists upcoming events, it lists the live route's events in the same order with the same flags |
| Variants.UpcomingEmptyDiffers | server/controllers/eventController.js:15-17 | with no upcoming event, the live route answers an empty list and the controller answers 404 |
| Variants.ControllerRegisterThenUnregisterRestores | server/controllers/eventController.js:33-95 | for every store, a successful controller registration followed by a controller unregistration answers 200 and gives back the original store |
| Variants.ControllerScenario | server/controllers/eventController.js:33-95 | register, register, unregister, unregister under the controller answers 200, 400, 200, 400 and ends with the store it began with |

## Left out

- Server wiring (`server/server.js`: CORS, mounting), the contact route and the upload configuration: no registration logic lives there.
- `server/controllers/userController.js` and the `generateHash`/`generateToken` scripts: nothing mounts the first, and the others are one-off scripts.
- `GET /admin-events`: returns the whole store unchanged, which is the admin branch of `EventRoutes.ListEvents`; it has no member of its own.
- EventRoutes.CreateEvent: the date is an integer timestamp, so a date string mongoose cannot cast (a 500) is not modelled.
- EventRoutes.UpdateEvent: the date is an integer timestamp, so a date string mongoose cannot cast (a 500) is not modelled.
- AuthRoutes.Login: takes the email and password as present strings; a request missing them (a query on `undefined`) is not modelled.
- Request body fields are strings or absent, except `attendees`, which is an array of strings or absent; other JSON values are not modelled.
- EventRoutes.MarkAttendees: a string `attendees` value, which the spread at server/routes/eventRoutes.js:235 splits into one-character entries (so `""` adds nothing and answers 200, and any other string fails the cast and answers 500), is not modelled.
- Store.FindById: ids are compared case-sensitively, so an upper-case spelling of a stored 24-hex-digit id gives `Absent` (a 404 in `Register`, `Unregister`, `MarkAttendees`, `UpdateEvent`, `DeleteEvent` and `Registrants`) where mongoose's cast folds the hex case and finds the record; likewise `MarkAttendees` stores an incoming upper-case id as written where mongoose stores the lower-case ObjectId. The model holds for ids in the lower-case form the application itself produces.
- Extra response fields are not modelled: the `error` field of the registration 500 and the schema's timestamps.
- EventController.GetUpcomingEvents: the events it returns carry populated registrant documents (name and email) rather than bare ids; the model returns the stored events.
- When the header is exactly "Bearer", `protect` throws outside its try block; this is modelled as `Thrown` (`Unanswered` for a route), and what Express then does is not modelled.
- A token payload without an `id` is not modelled: the verifier's verdict always carries a subject.
- bcrypt and jsonwebtoken internals (hashing, salt generation and its failure, expiry times, signature checks) are abstracted into the oracles; an exception from the password comparison is not modelled.
- Database failures other than the id cast error (connection errors, timeouts) are not modelled.
- Concurrency: requests interleaving read-check-write on the same document are not modelled; each handler is one atomic transition.
- `ObjectId.isValid` also accepts any 12-character string; validity is modelled as exactly 24 hex digits, the form the application produces.
- UserRoutes.UpdateProfile: validates the whole edited record rather than only the modified paths; for a store that satisfies the invariant the two agree.

## Findings

| source | as written | input that shows it | evidently intended | confidence | as-written member | corrected member |
|---|---|---|---|---|---|---|
| server/routes/eventRoutes.js:236 | the stored attendees are ObjectId objects, which a `Set` compares by reference, so an incoming id equal to a stored one is not recognised as a duplicate and is stored again | event attendees `["000000000000000000000000"]`, request attendees `["000000000000000000000000"]` gives two copies; repeating the request gives three | a union by id value: each attendee once, and re-marking changes nothing | medium, not executed | EventRoutes.MergeAttendeesAsWritten, EventRoutes.MergeAttendeesAsWrittenDuplicates | EventRoutes.MergeAttendees, EventRoutes.MergeAttendeesSpec, EventRoutes.MergeAttendeesIdempotent |
| server/controllers/eventController.js:23-25 | the registrant list is populated with user documents before the flag is computed, and a document's `toString()` is not its id, so the flag is always false | a caller registered for the only upcoming event gets `isRegistered: false` | the flag is true exactly when the caller is a registrant | medium, not executed | EventController.GetUpcomingEventsAsWritten, EventController.UpcomingFlagAsWrittenIsWrong | EventController.GetUpcomingEvents, Variants.UpcomingVariantsAgree |
| server/routes/userRoutes.js:6-7 | the user listing, documented as admin only, sits behind `protect` alone | any authenticated caller with role "user" receives every user's name, email and role | only admins may list users | medium, not executed | UserRoutes.GetUsersRoute, UserRoutes.GetUsersOpenToEveryRole | UserRoutes.GetUsersAdminOnly |
