/** The user record of the identity store and its schema rules: the email
    pattern, required and trimmed fields, the role default, the
    rehash-on-modify save hook and the email lookup. */
module UserModel {
  import opened Base
  import opened Seqs
  import opened Text
  import opened Store
  import opened Oracles

  /** A stored user; `password` holds the hash, never the plain text. */
  datatype User = User(id: Id, name: string, email: string, password: string, role: string)

  /** A user as responses show it: the stored record without its password. */
  datatype Profile = Profile(id: Id, name: string, email: string, role: string)

  const DefaultRole: string := "user"
  const AdminRole: string := "admin"

  function Public(u: User): Profile {
    Profile(u.id, u.name, u.email, u.role)
  }

  function UserKey(u: User): Id { u.id }

  /** `User.findById(id)`. */
  function FindUser(users: seq<User>, id: Id): Lookup {
    FindById(users, UserKey, id)
  }

  // ---------------------------------------------------------------------
  // The email pattern /^[a-zA-Z0-9._-]+@[a-zA-Z0-9.-]+\.[a-zA-Z]{2,6}$/

  predicate LocalPartChar(c: char) {
    AsciiLetter(c) || AsciiDigit(c) || c == '.' || c == '_' || c == '-'
  }

  predicate DomainChar(c: char) {
    AsciiLetter(c) || AsciiDigit(c) || c == '.' || c == '-'
  }

  /** `s` matches the pattern with its `@` at `at` and the dot before the
      final letters at `dot`: a non-empty local part, `@`, a non-empty domain,
      `.`, and 2 to 6 ASCII letters ending the string. */
  predicate EmailSplitAt(s: string, at: int, dot: int) {
    && 0 < at && at + 1 < dot && dot < |s|
    && s[at] == '@' && s[dot] == '.'
    && (forall k | 0 <= k < at :: LocalPartChar(s[k]))
    && (forall k | at < k < dot :: DomainChar(s[k]))
    && 2 <= |s| - dot - 1 <= 6
    && (forall k | dot < k < |s| :: AsciiLetter(s[k]))
  }

  /** The regular expression's meaning: some way of cutting `s` fits it. */
  ghost predicate MatchesEmailPattern(s: string) {
    exists at, dot :: EmailSplitAt(s, at, dot)
  }

  /** The decision procedure: only the first `@` and the last `.` can be the cut points. */
  function ValidEmail(s: string): bool {
    match (IndexOf(s, '@'), LastIndexOf(s, '.'))
    case (Some(at), Some(dot)) => EmailSplitAt(s, at, dot)
    case _ => false
  }

  /** The decision procedure accepts exactly the strings the pattern matches. */
  lemma ValidEmailIffPattern(s: string)
    ensures ValidEmail(s) <==> MatchesEmailPattern(s)
  {
    if MatchesEmailPattern(s) {
      var a, d :| EmailSplitAt(s, a, d);
      var i := IndexOf(s, '@');
      var j := LastIndexOf(s, '.');
      assert i == Some(a) by {
        assert s[a] == '@';
        assert !LocalPartChar('@');
      }
      assert j == Some(d) by {
        assert s[d] == '.';
        assert !AsciiLetter('.');
      }
    }
  }

  /** `s` ends in `n` ASCII letters preceded by a dot. */
  predicate TopLevelDomain(s: string, n: int) {
    2 <= n <= 6 && n + 1 <= |s| && s[|s| - n - 1] == '.'
    && forall k | |s| - n <= k < |s| :: AsciiLetter(s[k])
  }

  /** Every accepted email holds exactly one `@` and ends in 2 to 6 letters
      preceded by a dot. */
  lemma AcceptedEmailShape(s: string)
    requires ValidEmail(s)
    ensures Count(s, '@') == 1
    ensures exists n :: TopLevelDomain(s, n)
  {
    var at := IndexOf(s, '@').value;
    var dot := LastIndexOf(s, '.').value;
    assert TopLevelDomain(s, |s| - dot - 1);
    var pre, post := s[..at], s[at + 1..];
    assert '@' !in pre by {
      forall k | 0 <= k < |pre| ensures pre[k] != '@' {
        assert pre[k] == s[k] && LocalPartChar(s[k]);
      }
    }
    assert '@' !in post by {
      forall k | 0 <= k < |post| ensures post[k] != '@' {
        assert post[k] == s[at + 1 + k];
        assert DomainChar(s[at + 1 + k]);
      }
    }
    assert s == pre + [s[at]] + post;
    CountConcat(pre + [s[at]], post, '@');
    CountConcat(pre, [s[at]], '@');
  }

  // ---------------------------------------------------------------------
  // Schema rules

  /** The schema's validators for a user about to be saved: `name` (after its
      trim setter), `email` and `password` are required, and `email` must
      match the pattern. A required string is missing when it is empty. */
  predicate PassesValidation(u: User) {
    u.name != "" && u.email != "" && ValidEmail(u.email) && u.password != ""
  }

  /** `new User({ name, email, password })`: the name goes through the trim
      setter, the role takes its default. */
  function NewUser(id: Id, name: string, email: string, password: string): User {
    User(id, Trim(name), email, password, DefaultRole)
  }

  /** A new user's name is trimmed once and for all, and the role is the default. */
  lemma NewUserNameTrimmed(id: Id, name: string, email: string, password: string)
    ensures var u := NewUser(id, name, email, password);
            && u.name == Trim(u.name)
            && (u.name == [] || (!IsJsWhitespace(u.name[0]) && !IsJsWhitespace(u.name[|u.name| - 1])))
            && (u.name == [] <==> AllWhitespace(name))
            && u.role == DefaultRole
  {
    var u := NewUser(id, name, email, password);
    assert u.name == Trim(name);
    assert u.name == Trim(u.name) by { TrimIdempotent(name); }
    assert u.name == [] || (!IsJsWhitespace(u.name[0]) && !IsJsWhitespace(u.name[|u.name| - 1])) by { TrimSpec(name); }
    assert u.name == [] <==> AllWhitespace(name) by { TrimSpec(name); }
  }

  /** The pre-save hook: only a modified password is replaced by its salted hash. */
  function PreSave(u: User, passwordModified: bool, salt: string, crypto: Crypto): User {
    if passwordModified then u.(password := crypto.hash(u.password, salt)) else u
  }

  /** `User.findOne({ email })`: the first user whose email is exactly `email`. */
  function FindByEmail(users: seq<User>, email: string): (r: Option<nat>)
    ensures r.Some? ==> r.value < |users| && users[r.value].email == email
    ensures r.Some? ==> forall j | 0 <= j < r.value :: users[j].email != email
    ensures r.None? ==> forall j | 0 <= j < |users| :: users[j].email != email
  {
    FirstIndex(users, (u: User) => u.email == email)
  }

  /** `User.isEmailTaken(email)`. */
  function IsEmailTaken(users: seq<User>, email: string): (taken: bool)
    ensures taken <==> exists i | 0 <= i < |users| :: users[i].email == email
  {
    FindByEmail(users, email).Some?
  }

  /** The unique index on `email`. */
  predicate EmailsUnique(users: seq<User>) {
    forall i, j | 0 <= i < j < |users| :: users[i].email != users[j].email
  }

  /** A stored user satisfies the schema, with the name already trimmed. */
  predicate UserWellFormed(u: User) {
    ValidObjectId(u.id) && PassesValidation(u) && u.name == Trim(u.name)
  }

  /** What the identity store maintains: well-formed users, unique ids, unique emails. */
  predicate UsersInvariant(users: seq<User>) {
    && (forall i | 0 <= i < |users| :: UserWellFormed(users[i]))
    && IdsUnique(users, UserKey)
    && EmailsUnique(users)
  }

  /** Appending a well-formed user whose id and email are new keeps the
      identity store's invariant. */
  lemma AppendKeepsUsersInvariant(users: seq<User>, u: User)
    requires UsersInvariant(users) && UserWellFormed(u)
    requires forall j | 0 <= j < |users| :: users[j].id != u.id && users[j].email != u.email
    ensures UsersInvariant(users + [u])
  {
    var after := users + [u];
    forall a, b | 0 <= a < b < |after|
      ensures UserKey(after[a]) != UserKey(after[b]) && after[a].email != after[b].email
    {
      assert after[a] == users[a];
      if b < |users| {
        assert after[b] == users[b];
      }
    }
  }

  /** Replacing a user by a well-formed record with the same id whose email no
      other user holds keeps the identity store's invariant. */
  lemma ReplaceKeepsUsersInvariant(users: seq<User>, i: nat, u: User)
    requires UsersInvariant(users) && i < |users| && UserWellFormed(u) && u.id == users[i].id
    requires forall j | 0 <= j < |users| && j != i :: users[j].email != u.email
    ensures UsersInvariant(users[i := u])
  {
    var after := users[i := u];
    forall a, b | 0 <= a < b < |after|
      ensures UserKey(after[a]) != UserKey(after[b]) && after[a].email != after[b].email
    {
      if a != i && b != i {
        assert after[a] == users[a] && after[b] == users[b];
      } else if a == i {
        assert after[b] == users[b];
      } else {
        assert after[a] == users[a];
      }
    }
  }
}
