/** Accounts: registration with role normalisation, a duplicate-email check
    and a hashed password, and login that signs the user's id and role. The
    password hasher (`hash`, `compare`) and the token signer (`sign`) are
    parameters of the service; the users table is the database's. */
module AuthService {
  import opened Store
  import opened Text

  /** `allowedRoles`. */
  const ALLOWED_ROLES := [USER, ORGANIZER, ADMIN]

  const CREDENTIALS_REQUIRED := Failure(VALIDATION_ERROR, "Email and password are required")
  const EMAIL_TAKEN := Failure(EMAIL_EXISTS, "Email already in use")
  const BAD_CREDENTIALS := Failure(INVALID_CREDENTIALS, "Invalid credentials")
  /** `users.name` is `NOT NULL`: registering without a name fails in the
      insert, after the sequence has handed out an id. */
  const NAME_NOT_NULL := Failure("23502", "null value in column \"name\" of relation \"users\" violates not-null constraint")

  /** The body of `register`; `None` for a key that is absent or null. */
  datatype RegisterInput = RegisterInput(name: Option<string>, email: Option<string>, password: Option<string>, role: Option<string>)

  /** A user as the service returns it: every field of the row except the
      password. */
  datatype SafeUser = SafeUser(id: int, name: string, email: string, role: string, createdAt: int, updatedAt: int)

  /** What `login` returns: the signed token and the user. */
  datatype Session = Session(token: string, user: SafeUser)

  /** `(role || 'USER').toUpperCase()`, replaced by USER when it is not one
      of the allowed roles. */
  function NormalizeRole(role: Option<string>): (r: string)
    ensures r in ALLOWED_ROLES
  {
    var upper := Upper(if Filled(role) then role.value else USER);
    if upper in ALLOWED_ROLES then upper else USER
  }

  /** An allowed role in any letter case is kept, upper-cased; anything else,
      including no role, becomes USER; normalising twice changes nothing. */
  lemma NormalizeRoleCases(role: Option<string>)
    ensures Filled(role) && Upper(role.value) in ALLOWED_ROLES ==> NormalizeRole(role) == Upper(role.value)
    ensures Filled(role) && Upper(role.value) !in ALLOWED_ROLES ==> NormalizeRole(role) == USER
    ensures !Filled(role) ==> NormalizeRole(role) == USER
    ensures NormalizeRole(Some(NormalizeRole(role))) == NormalizeRole(role)
  {
    var r := NormalizeRole(role);
    assert Upper(USER) == USER && Upper(ORGANIZER) == ORGANIZER && Upper(ADMIN) == ADMIN;
    assert Upper(r) == r;
  }

  lemma NormalizeRoleExamples()
    ensures NormalizeRole(Some("admin")) == ADMIN
    ensures NormalizeRole(Some("Organizer")) == ORGANIZER
    ensures NormalizeRole(Some("superuser")) == USER
    ensures NormalizeRole(Some("")) == USER && NormalizeRole(None) == USER
  {
    assert Upper("admin") == ADMIN;
    assert Upper("Organizer") == ORGANIZER;
    assert Upper("superuser") == "SUPERUSER";
    assert Upper(USER) == USER;
  }

  /** `const { password, ...safeUser } = user`. */
  function Strip(u: User): SafeUser {
    SafeUser(u.id, u.name, u.email, u.role, u.createdAt, u.updatedAt)
  }

  function WithPassword(s: SafeUser, password: string): User {
    User(s.id, s.name, s.email, password, s.role, s.createdAt, s.updatedAt)
  }

  /** Stripping loses the password and nothing else. */
  lemma StripRoundTrip(u: User, s: SafeUser, password: string)
    ensures WithPassword(Strip(u), u.password) == u
    ensures Strip(WithPassword(s, password)) == s
  {
  }

  /** `findByEmail(email)`: the first row with that email, or null. */
  function FindByEmail(users: seq<User>, email: string): (r: Option<User>)
    ensures r.Some? <==> exists i :: 0 <= i < |users| && users[i].email == email
    ensures r.Some? ==> r.value in users && r.value.email == email
  {
    if users == [] then None
    else if users[0].email == email then Some(users[0])
    else
      var r := FindByEmail(users[1..], email);
      assert forall i :: 1 <= i < |users| ==> users[i] == users[1..][i - 1];
      r
  }

  /** `email TEXT NOT NULL UNIQUE`. */
  predicate UniqueEmails(users: seq<User>) {
    forall i, j :: 0 <= i < j < |users| ==> users[i].email != users[j].email
  }

  /** The outcome of `register` and the table and sequence afterwards. */
  datatype Registration = Registration(result: Result<SafeUser>, users: seq<User>, nextUserId: int)

  /** `register(input)` on the users table, with `nextId` the sequence's
      next value and `hash` the hasher. */
  function RegisterStep(users: seq<User>, nextId: int, input: RegisterInput, hash: string -> string, now: int): Registration {
    if !Filled(input.email) || !Filled(input.password) then Registration(Err(CREDENTIALS_REQUIRED), users, nextId)
    else if FindByEmail(users, input.email.value).Some? then Registration(Err(EMAIL_TAKEN), users, nextId)
    else if input.name.None? then Registration(Err(NAME_NOT_NULL), users, nextId + 1)
    else
      var u := User(nextId, input.name.value, input.email.value, hash(input.password.value),
                    NormalizeRole(input.role), now, now);
      Registration(Ok(Strip(u)), users + [u], nextId + 1)
  }

  /** Missing credentials are refused before any lookup, a known email is
      refused, and neither touches the table. A successful registration
      appends exactly one row, holding the hash of the password and the
      normalised role, and returns that row without its password. */
  lemma RegisterOutcome(users: seq<User>, nextId: int, input: RegisterInput, hash: string -> string, now: int)
    ensures var reg := RegisterStep(users, nextId, input, hash, now);
            && (!Filled(input.email) || !Filled(input.password) ==>
                  reg == Registration(Err(CREDENTIALS_REQUIRED), users, nextId))
            && (Filled(input.email) && Filled(input.password) &&
                (exists i :: 0 <= i < |users| && users[i].email == input.email.value) ==>
                  reg == Registration(Err(EMAIL_TAKEN), users, nextId))
            && (reg.result.Ok? <==>
                  && Filled(input.email) && Filled(input.password) && input.name.Some?
                  && forall i :: 0 <= i < |users| ==> users[i].email != input.email.value)
            && (reg.result.Ok? ==>
                  && |reg.users| == |users| + 1 && reg.users[..|users|] == users
                  && reg.nextUserId == nextId + 1
                  && var u := reg.users[|users|];
                     && u.id == nextId && u.name == input.name.value && u.email == input.email.value
                     && u.password == hash(input.password.value)
                     && u.role == NormalizeRole(input.role) && u.role in ALLOWED_ROLES
                     && reg.result.value == Strip(u))
            && (reg.result.Err? ==> reg.users == users)
  {
  }

  /** Registration keeps emails unique: the duplicate check enforces the
      table's constraint. */
  lemma RegisterKeepsEmailsUnique(users: seq<User>, nextId: int, input: RegisterInput, hash: string -> string, now: int)
    requires UniqueEmails(users)
    ensures UniqueEmails(RegisterStep(users, nextId, input, hash, now).users)
  {
    var reg := RegisterStep(users, nextId, input, hash, now);
    if reg.result.Ok? {
      RegisterOutcome(users, nextId, input, hash, now);
      var after := reg.users;
      forall i, j | 0 <= i < j < |after| ensures after[i].email != after[j].email {
        if j == |users| {
          assert after[i] == users[i];
        } else {
          assert after[i] == users[i] && after[j] == users[j];
        }
      }
    }
  }

  /** `login({ email, password })` against the users table, with `compare`
      the hasher's check and `sign` the token signer. */
  function LoginStep(users: seq<User>, email: Option<string>, password: Option<string>,
                     compare: (string, string) -> bool, sign: Claim -> string): Result<Session> {
    if !Filled(email) || !Filled(password) then Err(CREDENTIALS_REQUIRED)
    else
      match FindByEmail(users, email.value)
      case None => Err(BAD_CREDENTIALS)
      case Some(u) =>
        if !compare(password.value, u.password) then Err(BAD_CREDENTIALS)
        else Ok(Session(sign(Claim(u.id, u.role)), Strip(u)))
  }

  /** Missing credentials are refused first; an unknown email and a wrong
      password are refused with the same error, so a caller cannot tell them
      apart; a successful login signs exactly the found user's id and role
      and returns that user without the password. */
  lemma LoginOutcome(users: seq<User>, email: Option<string>, password: Option<string>,
                     compare: (string, string) -> bool, sign: Claim -> string)
    ensures var r := LoginStep(users, email, password, compare, sign);
            && (!Filled(email) || !Filled(password) ==> r == Err(CREDENTIALS_REQUIRED))
            && (Filled(email) && Filled(password) &&
                (forall i :: 0 <= i < |users| ==> users[i].email != email.value) ==>
                  r == Err(BAD_CREDENTIALS))
            && (Filled(email) && Filled(password) && FindByEmail(users, email.value).Some? &&
                !compare(password.value, FindByEmail(users, email.value).value.password) ==>
                  r == Err(BAD_CREDENTIALS))
            && (r.Ok? ==> && Filled(email) && Filled(password)
                          && exists u :: u in users && u.email == email.value
                                       && compare(password.value, u.password)
                                       && r.value == Session(sign(Claim(u.id, u.role)), Strip(u)))
  {
  }

  lemma {:induction false} FindByEmailAppend(users: seq<User>, u: User)
    requires forall i :: 0 <= i < |users| ==> users[i].email != u.email
    ensures FindByEmail(users + [u], u.email) == Some(u)
    decreases |users|
  {
    if users == [] {
      assert users + [u] == [u];
    } else {
      assert (users + [u])[0] == users[0];
      assert (users + [u])[1..] == users[1..] + [u];
      FindByEmailAppend(users[1..], u);
    }
  }

  /** A user who has just registered can log in with the same email and
      password, provided the hasher accepts its own hash of that password,
      and the session carries the new id and the normalised role. */
  lemma RegisterThenLogin(users: seq<User>, nextId: int, input: RegisterInput, hash: string -> string,
                          compare: (string, string) -> bool, sign: Claim -> string, now: int)
    requires input.password.Some? ==> compare(input.password.value, hash(input.password.value))
    ensures var reg := RegisterStep(users, nextId, input, hash, now);
            reg.result.Ok? ==>
              LoginStep(reg.users, input.email, input.password, compare, sign)
              == Ok(Session(sign(Claim(nextId, NormalizeRole(input.role))), reg.result.value))
  {
    var reg := RegisterStep(users, nextId, input, hash, now);
    if reg.result.Ok? {
      RegisterOutcome(users, nextId, input, hash, now);
      var u := reg.users[|users|];
      assert reg.users == users + [u];
      FindByEmailAppend(users, u);
    }
  }

  class AuthService {
    const store: Database
    const hash: string -> string
    const compare: (string, string) -> bool
    const sign: Claim -> string

    constructor (store: Database, hash: string -> string, compare: (string, string) -> bool, sign: Claim -> string)
      ensures this.store == store && this.hash == hash && this.compare == compare && this.sign == sign
    {
      this.store := store;
      this.hash := hash;
      this.compare := compare;
      this.sign := sign;
    }

    /** `register(input)`. */
    method Register(input: RegisterInput, now: int) returns (r: Result<SafeUser>)
      requires store.Valid()
      modifies store
      ensures store.Valid()
      ensures var reg := RegisterStep(old(store.users), old(store.nextUserId), input, hash, now);
              r == reg.result && store.users == reg.users && store.nextUserId == reg.nextUserId
      ensures store.events == old(store.events) && store.nextEventId == old(store.nextEventId)
      ensures store.tickets == old(store.tickets) && store.nextTicketId == old(store.nextTicketId)
      ensures store.categories == old(store.categories) && store.nextCategoryId == old(store.nextCategoryId)
    {
      if !Filled(input.email) || !Filled(input.password) {
        return Err(CREDENTIALS_REQUIRED);
      }
      var role := NormalizeRole(input.role);
      var existing := FindByEmail(store.users, input.email.value);
      if existing.Some? {
        return Err(EMAIL_TAKEN);
      }
      var hashed := hash(input.password.value);
      var id := store.nextUserId;
      store.nextUserId := id + 1;
      if input.name.None? {
        return Err(NAME_NOT_NULL);
      }
      var u := User(id, input.name.value, input.email.value, hashed, role, now, now);
      store.users := store.users + [u];
      r := Ok(Strip(u));
    }

    /** `login({ email, password })`: reads the table and changes nothing. */
    method Login(email: Option<string>, password: Option<string>) returns (r: Result<Session>)
      ensures r == LoginStep(store.users, email, password, compare, sign)
    {
      if !Filled(email) || !Filled(password) {
        return Err(CREDENTIALS_REQUIRED);
      }
      var user := FindByEmail(store.users, email.value);
      if user.None? {
        return Err(BAD_CREDENTIALS);
      }
      var isMatch := compare(password.value, user.value.password);
      if !isMatch {
        return Err(BAD_CREDENTIALS);
      }
      var token := sign(Claim(user.value.id, user.value.role));
      r := Ok(Session(token, Strip(user.value)));
    }
  }
}
