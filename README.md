# Authentication resolver of a GraphQL backend, modelled in Dafny

The backend's `UserResolver` serves three operations over a relational `user`
table and the HTTP session:

- `me` reads the user id stored in the session and returns that user, or null;
- `register` checks that the username is at least two UTF-16 code units long
  (JavaScript's `length`), hashes the password with argon2, inserts the user,
  binds the session to the new id and returns the user, or reports a field
  error;
- `login` looks the username up, verifies the password against the stored
  hash, binds the session and returns the user, or reports a field error.

The model has three files:

- `wrappers.dfy`: the `Option` datatype.
- `entities.dfy` (module `Entities`): the `User` record, and `UserView`, which is
  the record without its password hash as the schema exposes it. It also holds
  the abstract argon2 hash, the table with its constraints, and the store
  operations the resolver uses. The table is a `map` from primary key to record
  plus the next value of the serial id sequence. Its invariant is what the
  entity declares: each record sits under its own id, usernames are unique,
  emails are unique when present. The model adds one assumption of its own,
  `createdAt <= updatedAt` (`TimestampsOrdered`): the entity declares no such
  ordering, but the model's clock never steps back.
- `resolver.dfy` (module `Resolver`): the `FieldError` / `UserResponse` shapes,
  the four error messages, and one step function per operation. A step function
  maps the state before the call (table plus session) to the state after it and
  the reply. The file also has `Run`, which serves a sequence of requests. The
  class `UserResolver` holds the table, the id counter and the session's
  `UserID` in fields. Its `Register` and `Login` methods do the work step by step
  (`modifies this`), and their `ensures` tie the new state and the reply to the
  step functions.

argon2 is abstract. A hash is `Argon2(salt, secret)`, where the salt is the
randomness the library draws and is passed in as a parameter. `Verify(h, p)`
holds exactly when `p` is the password the hash was made from. So the stored
password is a `PasswordHash`, never the plaintext `string`, and it verifies
exactly the registered password.

The store's insert reports a tag (`Persisted(id)`, `UniqueViolation`,
`Failed(hasDetail)`) instead of a driver message. A failure of the database
that has nothing to do with the row is a parameter, `StoreFault`. The resolver
only handles errors whose `detail` says "already exists"
(src/resolvers/user.ts:72-84). The model keeps what the code does with any
other persist error:

- If the error has a `detail`, control falls through to line 86. The session is
  set to the id of an entity that never got one, so it ends up unbound. The
  resolver returns a response with no errors and a user whose `id` is missing.
  `RegisterStep` states this outcome rather than correcting it. So the
  resolver's own return value reports a failed insert as a successful
  registration, and the call logs out whoever was logged in. (The schema
  declares `id` non-null, so a client that selects `user { id }` would see a
  GraphQL error instead; the schema layer is not modelled.)
- If the error has no `detail`, reading `detail.includes` throws and the
  resolver's promise rejects (`Rejected`). Nothing changes.

A handler that rethrew non-duplicate errors would reject the request in both
cases instead.

`register` never sets `email`, so a new row never collides on the email
column. A duplicate can only be a duplicate username, which is the error the
code reports.

## Model

| member | source | states |
|---|---|---|
| `Entities.VerifyAcceptsOnlyThePassword` | src/resolvers/user.ts:111-114 | a hash verifies an attempt iff the attempt is the password it was made from; hashes of one password with different salts differ |
| `Entities.ViewOmitsOnlyPassword` | src/entities/User.ts:19-20 | two records have the same exposed view iff they agree on every field but the password hash |
| `Entities.TouchKeepsTableValid` | src/entities/User.ts:23-28 | the `onUpdate` refresh of one record with a later clock sets `updatedAt`, keeps `createdAt` and keeps every table constraint |
| `Entities.FindByUsername` | src/resolvers/user.ts:96-98 | on a table with unique usernames, returns a user iff one has that username, and then exactly the stored record under its own id |
| `Entities.Create` | src/resolvers/user.ts:66-71 | an insert on a healthy store violates a unique constraint iff the username (or a present email) is taken; on success it adds exactly one record, under a fresh id, stamped `createdAt == updatedAt == now`; on any failure the store is unchanged; it keeps the id, username and email constraints |
| `Resolver.MeQuery` | src/resolvers/user.ts:45-51 | an unbound session gives null; a result is always the view of the table entry under the session's id; on a consistent state a bound session gives exactly that entry |
| `Resolver.Utf16Length` | src/resolvers/user.ts:58 | `string.length` in UTF-16 code units: between the number of characters and twice it, and equal to it iff every character lies in the Basic Multilingual Plane |
| `Resolver.ShortUsernames` | src/resolvers/user.ts:58-64 | the usernames rejected as too short are exactly the empty one and a single BMP character; one astral character (length 2) passes |
| `Resolver.RegisterStep` | src/resolvers/user.ts:54-89 | a username under 2 UTF-16 code units gives the single error `username should be 2+ characters` and changes nothing; a taken username gives `Username already exists!` and changes nothing; otherwise exactly one user is added with the hash of the password (which verifies that password and no other), the session is bound to its id and it is returned without errors; the two non-duplicate store failures behave as the code does; every resolved reply has errors or a user, not both; consistency is kept |
| `Resolver.LoginStep` | src/resolvers/user.ts:92-130 | never changes the table; an unknown username gives `User does not exist!` with the session unchanged; a wrong password gives `Invalid password!` with the session unchanged; a right one binds the session to that user's id and returns the user; afterwards `me` returns the same user; every reply has errors or a user, not both |
| `Resolver.Step` | src/resolvers/user.ts:43-130 | serving one request keeps the table constraints and the session binding consistent, and never changes or removes a stored user |
| `Resolver.Run` | src/resolvers/user.ts:43-130 | serving any sequence of requests keeps consistency and every existing record unchanged |
| `Resolver.RunFromInitial` | src/entities/User.ts:8-17 | from an empty table, after any sequence of requests, ids key their records, usernames and present emails are unique and a bound session names a stored user |
| `Resolver.LoginAfterRegister` | src/resolvers/user.ts:65-71 | after registering a free username, logging in with it succeeds exactly for the registered password, returns the same user and binds the session to the new id; any other password gives `Invalid password!` |
| `Resolver.RegisterTwice` | src/resolvers/user.ts:66-83 | registering a username a second time gives `Username already exists!` and leaves table and session as the first registration left them |
| `Resolver.UserResolver.constructor` | src/resolvers/user.ts:42-43 | the resolver starts with an empty table, id sequence at 1 and no bound session |
| `Resolver.UserResolver.Me` | src/resolvers/user.ts:44-51 | on the resolver's own fields: null for an unbound session; any result is the view of the table entry under the session's id; in a valid state a bound session gives exactly that entry |
| `Resolver.UserResolver.Register` | src/resolvers/user.ts:54-89 | validates, hashes, inserts and binds step by step; the new table, counter, session and reply are those of `RegisterStep`, and consistency is kept |
| `Resolver.UserResolver.Login` | src/resolvers/user.ts:92-130 | looks up, verifies and binds step by step; table and counter are unchanged, and session and reply are those of `LoginStep` |

## Left out

- GraphQL schema wiring (`@ObjectType`, `@Field`, `@Query`, `@Mutation`, `@Ctx`, the `UsernamePasswordInput` input type): transport, not logic. `UserView` models the schema's hiding of `password`. The schema's non-null declarations of `id` and `email` (src/entities/User.ts:7-9, 15-17) are not modelled: a user with no id (the fall-through above) or with a NULL email (every user `register` creates) is returned by the resolver as it is, and what the GraphQL layer then does with it is out of scope.
- The ORM calls (`em.create`, `em.persistAndFlush`, `em.findOne`) are replaced by functions over the abstract table. The driver-message substring test at src/resolvers/user.ts:74 is replaced by the `UniqueViolation` tag.
- The id sequence: a failed insert does not advance the counter here, while a PostgreSQL sequence would leave a gap. Ids are still fresh and unique.
- argon2's salting, memory-hardness and timing behaviour: the hash is abstract.
- `Date` values: timestamps are an abstract `Clock` value supplied by the caller. The two separate `new Date()` initialisers of `createdAt` and `updatedAt` (src/entities/User.ts:24, 28) are collapsed into one `now`, so a new record has `createdAt == updatedAt` exactly.
- `TimestampsOrdered` (`createdAt <= updatedAt`) and the `updatedAt <= now` requirement of `Entities.TouchKeepsTableValid` assume a clock that never steps back; wall-clock `Date` values can, and the entity itself declares no ordering.
- `console.log` at src/resolvers/user.ts:73: output with no effect on behaviour.
- src/util/sleep.ts: a timer promise with no logic.
- The commented-out `updatePost` / `deletePost` at src/resolvers/user.ts:132-155: dead code about a `Post` entity that is not part of this model.
- Logout, forgot-password, change-password, reset tokens and mail: they are not in the modelled source.
- Other exceptions the resolver can raise (a failing `argon2.hash`, an unreachable store during `findOne`): they only propagate, so they are not modelled. The one exception modelled is the `detail` read at line 74.
- Async execution and concurrent requests: requests are served one at a time, and there is one session.
- An empty `errors` list stands for an absent `errors` field. The resolver never returns an empty list.
- The `onUpdate` refresh of `updatedAt`: no modelled operation updates an existing record, so it only appears as `Touch` and its lemma.
