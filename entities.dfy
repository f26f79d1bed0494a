/**
  The `User` entity and the relational table that stores it.

  The table is a map from primary key to record plus the counter of the id
  sequence; its invariant is the set of column constraints the entity
  declares: `id` is the primary key, `username` is unique, `email` is unique
  when present. Password hashing is abstract: a hash remembers the salt drawn
  for it and the password it was computed from, and only `Verify` looks inside.
 */
module Entities {
  import opened Wrappers

  /** A point in time. `new Date()` becomes a value the caller supplies. */
  type Clock = nat

  // ---------------------------------------------------------------------------
  // Password hashing
  // ---------------------------------------------------------------------------

  /** The output of argon2: the random salt drawn for this call and the secret. */
  datatype PasswordHash = Argon2(salt: nat, secret: string)

  /** `argon2.hash(password)`; the salt is the randomness the library draws. */
  function Hash(password: string, salt: nat): PasswordHash
  {
    Argon2(salt, password)
  }

  /** `argon2.verify(hash, password)`. */
  predicate Verify(h: PasswordHash, password: string)
  {
    h.secret == password
  }

  /** A hash verifies exactly the password it was made from, whatever its salt;
      two hashes of one password with different salts differ. */
  lemma VerifyAcceptsOnlyThePassword(password: string, salt: nat, attempt: string, salt': nat)
    ensures Verify(Hash(password, salt), attempt) <==> attempt == password
    ensures salt != salt' ==> Hash(password, salt) != Hash(password, salt')
  {
  }

  // ---------------------------------------------------------------------------
  // The entity
  // ---------------------------------------------------------------------------

  /** A row of the `user` table. */
  datatype User = User(
    id: nat,
    username: string,
    email: Option<string>,
    password: PasswordHash,
    createdAt: Clock,
    updatedAt: Clock)

  /** What the GraphQL schema exposes of a user: every field but `password`.
      `id` is absent for an entity the store never assigned a key to. */
  datatype UserView = UserView(
    id: Option<nat>,
    username: string,
    email: Option<string>,
    createdAt: Clock,
    updatedAt: Clock)

  function View(u: User): UserView
  {
    UserView(Some(u.id), u.username, u.email, u.createdAt, u.updatedAt)
  }

  /** The view hides the password hash and nothing else. */
  lemma ViewOmitsOnlyPassword(u: User, w: User)
    ensures View(u) == View(w) <==> u == w.(password := u.password)
  {
  }

  /** The `onUpdate` hook: a write to an existing record refreshes `updatedAt`. */
  function Touch(u: User, now: Clock): User
  {
    u.(updatedAt := now)
  }

  // ---------------------------------------------------------------------------
  // The table and its constraints
  // ---------------------------------------------------------------------------

  type Table = map<nat, User>

  /** `@PrimaryKey() id`: each record sits under its own id. */
  ghost predicate KeyedById(t: Table)
  {
    forall id :: id in t ==> t[id].id == id
  }

  /** `@Property({ unique: true }) username`. */
  ghost predicate UniqueUsernames(t: Table)
  {
    forall a, b :: a in t && b in t && t[a].username == t[b].username ==> a == b
  }

  /** `@Property({ unique: true, nullable: true }) email`: NULLs never collide. */
  ghost predicate UniqueEmails(t: Table)
  {
    forall a, b :: a in t && b in t && t[a].email.Some? && t[a].email == t[b].email ==> a == b
  }

  /** `updatedAt` starts equal to `createdAt` and only moves forward. */
  ghost predicate TimestampsOrdered(t: Table)
  {
    forall id :: id in t ==> t[id].createdAt <= t[id].updatedAt
  }

  ghost predicate TableValid(t: Table)
  {
    KeyedById(t) && UniqueUsernames(t) && UniqueEmails(t) && TimestampsOrdered(t)
  }

  /** Refreshing one record with a later clock keeps every constraint and the creation time. */
  lemma TouchKeepsTableValid(t: Table, id: nat, now: Clock)
    requires TableValid(t) && id in t && t[id].updatedAt <= now
    ensures TableValid(t[id := Touch(t[id], now)])
    ensures t[id := Touch(t[id], now)][id].createdAt == t[id].createdAt
    ensures t[id := Touch(t[id], now)][id].updatedAt == now
  {
  }

  /** The table together with the next value of its serial id sequence. */
  datatype Store = Store(users: Table, nextId: nat)

  /** Serial ids start at 1 and every stored id was handed out already. */
  ghost predicate StoreValid(s: Store)
  {
    TableValid(s.users) && 1 <= s.nextId && forall id :: id in s.users ==> 1 <= id < s.nextId
  }

  const EmptyStore: Store := Store(map[], 1)

  // ---------------------------------------------------------------------------
  // Queries
  // ---------------------------------------------------------------------------

  /** `em.findOne(User, { id })`. */
  function FindById(t: Table, id: nat): Option<User>
  {
    if id in t then Some(t[id]) else None
  }

  predicate UsernameTaken(t: Table, username: string)
  {
    exists id :: id in t && t[id].username == username
  }

  /** `em.findOne(User, { username })`: the unique record with that username, if any. */
  function FindByUsername(t: Table, username: string): (r: Option<User>)
    requires TableValid(t)
    ensures r.Some? <==> UsernameTaken(t, username)
    ensures r.Some? ==> r.value.id in t && t[r.value.id] == r.value && r.value.username == username
    ensures forall id :: id in t && t[id].username == username ==> r == Some(t[id])
  {
    if UsernameTaken(t, username) then
      var id :| id in t && t[id].username == username;
      Some(t[id])
    else
      None
  }

  // ---------------------------------------------------------------------------
  // Insertion
  // ---------------------------------------------------------------------------

  /** A failure of the database unrelated to the row being written (unreachable,
      timed out, ...). `hasDetail` tells whether the driver's error carries a
      `detail` string. */
  datatype StoreFault = Healthy | Faulty(hasDetail: bool)

  /** What `em.persistAndFlush` of a new entity reports, as a tag instead of a
      driver message. */
  datatype PersistResult = Persisted(id: nat) | UniqueViolation | Failed(hasDetail: bool)

  /** Would a new row with these values break a unique constraint? */
  predicate Conflicts(t: Table, username: string, email: Option<string>)
  {
    exists id :: id in t && (t[id].username == username || (email.Some? && t[id].email == email))
  }

  /** `em.create(User, ...)` followed by `em.persistAndFlush`: the record is
      stamped with `now` on construction and keyed by the next serial id. */
  function Create(s: Store, username: string, email: Option<string>, password: PasswordHash,
                  now: Clock, fault: StoreFault): (r: (Store, PersistResult))
    ensures fault.Faulty? ==> r == (s, Failed(fault.hasDetail))
    ensures fault.Healthy? ==> (r.1.UniqueViolation? <==> Conflicts(s.users, username, email))
    ensures r.1.Persisted? <==> fault.Healthy? && !Conflicts(s.users, username, email)
    ensures !r.1.Persisted? ==> r.0 == s
    ensures r.1.Persisted? ==>
      && r.0.users == s.users[r.1.id := User(r.1.id, username, email, password, now, now)]
      && (StoreValid(s) ==> r.1.id !in s.users && |r.0.users| == |s.users| + 1)
    ensures StoreValid(s) ==> StoreValid(r.0)
  {
    if fault.Faulty? then
      (s, Failed(fault.hasDetail))
    else if Conflicts(s.users, username, email) then
      (s, UniqueViolation)
    else
      var id := s.nextId;
      (Store(s.users[id := User(id, username, email, password, now, now)], id + 1), Persisted(id))
  }
}
