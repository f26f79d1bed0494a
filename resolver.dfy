/**
  The authentication resolver: the `me` query and the `register` and `login`
  mutations, over the user table and the session's `UserID`.

  Each operation is first given as a function from the state before the call
  to the state after it and the reply (`MeQuery`, `RegisterStep`,
  `LoginStep`); their contracts state the outcomes. The class `UserResolver`
  holds the same state in fields and performs each operation step by step;
  its methods are proved to agree with the step functions.
 */
module Resolver {
  import opened Wrappers
  import opened Entities

  // ---------------------------------------------------------------------------
  // Replies
  // ---------------------------------------------------------------------------

  datatype FieldError = FieldError(field: string, message: string)

  const UsernameTooShort := FieldError("username", "username should be 2+ characters")
  const DuplicateUsername := FieldError("username", "Username already exists!")
  const UnknownUser := FieldError("username", "User does not exist!")
  const WrongPassword := FieldError("password", "Invalid password!")

  /** `UserResponse`: both fields are optional; an empty `errors` stands for an
      absent one. */
  datatype UserResponse = UserResponse(errors: seq<FieldError>, user: Option<UserView>)

  function Failure(e: FieldError): UserResponse
  {
    UserResponse([e], None)
  }

  function Success(v: UserView): UserResponse
  {
    UserResponse([], Some(v))
  }

  /** A response carries errors or a user, never both and never neither. */
  predicate WellFormed(r: UserResponse)
  {
    (r.errors == []) == r.user.Some?
  }

  /** How the resolver's promise settles: with a response, or rejected by an
      exception that escapes to the transport layer. */
  datatype Reply = Resolved(response: UserResponse) | Rejected

  // ---------------------------------------------------------------------------
  // State
  // ---------------------------------------------------------------------------

  /** `req.session.UserID`. */
  type Session = Option<nat>

  datatype AuthState = AuthState(store: Store, session: Session)

  datatype Outcome = Outcome(state: AuthState, reply: Reply)

  /** The store keeps its constraints and a bound session names a stored user. */
  ghost predicate Consistent(st: AuthState)
  {
    StoreValid(st.store) && (st.session.Some? ==> st.session.value in st.store.users)
  }

  const Initial: AuthState := AuthState(EmptyStore, None)

  // ---------------------------------------------------------------------------
  // me
  // ---------------------------------------------------------------------------

  /** `me`: the user the session is bound to, or null. */
  function MeQuery(st: AuthState): (r: Option<UserView>)
    ensures st.session.None? ==> r.None?
    ensures r.Some? ==>
      && st.session.Some?
      && st.session.value in st.store.users
      && r.value == View(st.store.users[st.session.value])
    ensures Consistent(st) && st.session.Some? ==>
      r == Some(View(st.store.users[st.session.value]))
  {
    match st.session
    case None => None
    case Some(id) =>
      // `!req.session.UserID` also holds of the id 0
      if id == 0 then None
      else
        match FindById(st.store.users, id)
        case None => None
        case Some(u) => Some(View(u))
  }

  // ---------------------------------------------------------------------------
  // register
  // ---------------------------------------------------------------------------

  /** JavaScript's `string.length`: the number of UTF-16 code units, so a
      character outside the Basic Multilingual Plane counts twice. */
  function Utf16Length(s: string): (n: nat)
    ensures |s| <= n <= 2 * |s|
    ensures n == |s| <==> forall i :: 0 <= i < |s| ==> s[i] as int < 0x1_0000
  {
    if s == [] then 0
    else Utf16Length(s[..|s| - 1]) + (if s[|s| - 1] as int < 0x1_0000 then 1 else 2)
  }

  /** The usernames `register` turns away as too short: the empty one and a
      single character of the Basic Multilingual Plane. One astral character
      such as U+1F600 is two code units long and is accepted. */
  lemma ShortUsernames(username: string)
    ensures Utf16Length(username) < 2 <==>
      username == [] || (|username| == 1 && username[0] as int < 0x1_0000)
  {
  }

  /** `register`: validate the username, hash the password, insert the user and
      bind the session. A store failure other than a unique violation is not
      handled: when the driver's error has a `detail`, control falls through to
      the session assignment with an entity the store never assigned an id to;
      when it has none, reading `detail` throws. */
  function RegisterStep(st: AuthState, username: string, password: string, salt: nat,
                        now: Clock, fault: StoreFault): (r: Outcome)
    // too short: one username error, nothing changes
    ensures Utf16Length(username) < 2 ==> r == Outcome(st, Resolved(Failure(UsernameTooShort)))
    // taken: one username error, nothing changes
    ensures Utf16Length(username) >= 2 && fault.Healthy? && UsernameTaken(st.store.users, username) ==>
      r == Outcome(st, Resolved(Failure(DuplicateUsername)))
    // free: exactly one new user holding the hash, session bound to it, user returned
    ensures Utf16Length(username) >= 2 && fault.Healthy? && !UsernameTaken(st.store.users, username) ==>
      var id := st.store.nextId;
      var u := User(id, username, None, Hash(password, salt), now, now);
      && r.state.store.users == st.store.users[id := u]
      && (StoreValid(st.store) ==> id !in st.store.users && |r.state.store.users| == |st.store.users| + 1)
      && r.state.session == Some(id)
      && r.reply == Resolved(Success(View(u)))
      && (forall attempt :: Verify(u.password, attempt) <==> attempt == password)
    // another store failure with a detail: table unchanged, session unbound, an id-less user returned
    ensures Utf16Length(username) >= 2 && fault == Faulty(true) ==>
      r == Outcome(AuthState(st.store, None),
                   Resolved(Success(UserView(None, username, None, now, now))))
    // another store failure without a detail: the resolver throws, nothing changes
    ensures Utf16Length(username) >= 2 && fault == Faulty(false) ==> r == Outcome(st, Rejected)
    ensures r.reply.Resolved? ==> WellFormed(r.reply.response)
    ensures Consistent(st) ==> Consistent(r.state)
  {
    if Utf16Length(username) < 2 then
      Outcome(st, Resolved(Failure(UsernameTooShort)))
    else
      var hashed := Hash(password, salt);
      var (store, result) := Create(st.store, username, None, hashed, now, fault);
      match result
      case UniqueViolation => Outcome(st, Resolved(Failure(DuplicateUsername)))
      case Failed(hasDetail) =>
        if hasDetail then
          Outcome(AuthState(st.store, None), Resolved(Success(UserView(None, username, None, now, now))))
        else
          Outcome(st, Rejected)
      case Persisted(id) =>
        Outcome(AuthState(store, Some(id)), Resolved(Success(View(store.users[id]))))
  }

  // ---------------------------------------------------------------------------
  // login
  // ---------------------------------------------------------------------------

  /** `login`: look the username up, verify the password, bind the session. */
  function LoginStep(st: AuthState, username: string, password: string): (r: Outcome)
    requires TableValid(st.store.users)
    ensures r.state.store == st.store
    ensures r.reply.Resolved? && WellFormed(r.reply.response)
    ensures !UsernameTaken(st.store.users, username) ==>
      r == Outcome(st, Resolved(Failure(UnknownUser)))
    ensures forall id :: id in st.store.users && st.store.users[id].username == username ==>
      if Verify(st.store.users[id].password, password) then
        r == Outcome(AuthState(st.store, Some(id)), Resolved(Success(View(st.store.users[id]))))
      else
        r == Outcome(st, Resolved(Failure(WrongPassword)))
    // after a successful login, `me` in the same session returns the same user
    // (serial ids start at 1; a user keyed 0 would read as unbound)
    ensures StoreValid(st.store) && r.reply.response.user.Some? ==>
      MeQuery(r.state) == r.reply.response.user
    ensures Consistent(st) ==> Consistent(r.state)
  {
    match FindByUsername(st.store.users, username)
    case None => Outcome(st, Resolved(Failure(UnknownUser)))
    case Some(u) =>
      if !Verify(u.password, password) then
        Outcome(st, Resolved(Failure(WrongPassword)))
      else
        Outcome(AuthState(st.store, Some(u.id)), Resolved(Success(View(u))))
  }

  // ---------------------------------------------------------------------------
  // Sequences of requests
  // ---------------------------------------------------------------------------

  datatype Request =
    | MeRequest
    | RegisterRequest(username: string, password: string, salt: nat, now: Clock, fault: StoreFault)
    | LoginRequest(username: string, password: string)

  /** The state after serving one request. */
  function Step(st: AuthState, req: Request): (r: AuthState)
    requires Consistent(st)
    ensures Consistent(r)
    ensures r.store.users.Keys >= st.store.users.Keys
    ensures forall id :: id in st.store.users ==> r.store.users[id] == st.store.users[id]
  {
    match req
    case MeRequest => st
    case RegisterRequest(username, password, salt, now, fault) =>
      RegisterStep(st, username, password, salt, now, fault).state
    case LoginRequest(username, password) =>
      LoginStep(st, username, password).state
  }

  /** The state after serving the requests one after another. */
  function Run(st: AuthState, reqs: seq<Request>): (r: AuthState)
    requires Consistent(st)
    ensures Consistent(r)
    ensures r.store.users.Keys >= st.store.users.Keys
    ensures forall id :: id in st.store.users ==> r.store.users[id] == st.store.users[id]
    decreases |reqs|
  {
    if reqs == [] then st else Run(Step(st, reqs[0]), reqs[1..])
  }

  /** From an empty table, any sequence of requests keeps the constraints and
      leaves the session unbound or bound to a stored user. */
  lemma RunFromInitial(reqs: seq<Request>)
    ensures Consistent(Run(Initial, reqs))
  {
  }

  // ---------------------------------------------------------------------------
  // Properties spanning several requests
  // ---------------------------------------------------------------------------

  /** After registering a fresh username, logging in with it succeeds exactly
      for the registered password and then binds the session to the new id. */
  lemma LoginAfterRegister(st: AuthState, username: string, password: string, salt: nat,
                           now: Clock, attempt: string)
    requires Consistent(st)
    requires Utf16Length(username) >= 2 && !UsernameTaken(st.store.users, username)
    ensures
      var reg := RegisterStep(st, username, password, salt, now, Healthy);
      var log := LoginStep(reg.state, username, attempt);
      && (attempt == password ==>
            log.reply == reg.reply && log.state == reg.state
            && log.state.session == Some(st.store.nextId))
      && (attempt != password ==>
            log.reply == Resolved(Failure(WrongPassword)) && log.state == reg.state)
  {
  }

  /** Registering the same username a second time reports it as taken and
      changes nothing, whatever the second password. */
  lemma RegisterTwice(st: AuthState, username: string, password: string, salt: nat, now: Clock,
                      password': string, salt': nat, now': Clock)
    requires Consistent(st)
    requires Utf16Length(username) >= 2 && !UsernameTaken(st.store.users, username)
    ensures
      var first := RegisterStep(st, username, password, salt, now, Healthy);
      var second := RegisterStep(first.state, username, password', salt', now', Healthy);
      second == Outcome(first.state, Resolved(Failure(DuplicateUsername)))
  {
  }

  // ---------------------------------------------------------------------------
  // The resolver as an object over the table and the session
  // ---------------------------------------------------------------------------

  class UserResolver {
    var users: Table
    var nextId: nat
    var session: Session

    function State(): AuthState
      reads this
    {
      AuthState(Store(users, nextId), session)
    }

    ghost predicate Valid()
      reads this
    {
      Consistent(State())
    }

    constructor ()
      ensures Valid() && State() == Initial
    {
      users := map[];
      nextId := 1;
      session := None;
    }

    /** `me` on this resolver's table and session. */
    function Me(): (r: Option<UserView>)
      reads this
      ensures session.None? ==> r.None?
      ensures r.Some? ==> session.Some? && session.value in users && r.value == View(users[session.value])
      ensures Valid() && session.Some? ==> r == Some(View(users[session.value]))
    {
      MeQuery(State())
    }

    method Register(username: string, password: string, salt: nat, now: Clock, fault: StoreFault)
      returns (reply: Reply)
      requires Valid()
      modifies this
      ensures Valid()
      ensures Outcome(State(), reply) == RegisterStep(old(State()), username, password, salt, now, fault)
    {
      if Utf16Length(username) < 2 {
        return Resolved(Failure(UsernameTooShort));
      }
      var hashed := Hash(password, salt);
      var (store, result) := Create(Store(users, nextId), username, None, hashed, now, fault);
      match result {
        case UniqueViolation =>
          return Resolved(Failure(DuplicateUsername));
        case Failed(hasDetail) =>
          if !hasDetail {
            return Rejected;
          }
          session := None;
          return Resolved(Success(UserView(None, username, None, now, now)));
        case Persisted(id) =>
          users, nextId := store.users, store.nextId;
          session := Some(id);
          return Resolved(Success(View(users[id])));
      }
    }

    method Login(username: string, password: string) returns (reply: Reply)
      requires Valid()
      modifies this
      ensures Valid()
      ensures users == old(users) && nextId == old(nextId)
      ensures Outcome(State(), reply) == LoginStep(old(State()), username, password)
    {
      var found := FindByUsername(users, username);
      if found.None? {
        return Resolved(Failure(UnknownUser));
      }
      var user := found.value;
      if !Verify(user.password, password) {
        return Resolved(Failure(WrongPassword));
      }
      session := Some(user.id);
      return Resolved(Success(View(user)));
    }
  }
}
