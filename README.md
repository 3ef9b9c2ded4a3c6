# GraphQL user resolvers of a chat backend, modelled in Dafny

This project models the decision logic of the three user resolvers of a small
Apollo/Sequelize chat backend (`graphql/resolvers/users.js`):

- `Query.getUsers` rejects a request that carries no authenticated identity
  with `AuthenticationError('Unauthenticated')`. Otherwise it lists every user
  except the caller, projected to `username`, `imageUrl` and `createdAt`. It
  attaches to each user the first message, in the caller's newest-first
  message list, that the user sent or received (`latestMessage`).
- `Query.login` checks both fields with the trim rule and reports all blank
  fields together. It then ends in one of three ways: the user is not found,
  the password is incorrect, or it succeeds with the user's row plus a signed
  `token`.
- `Mutation.register` runs all five field checks into one `errors` map. If the
  map is non-empty it fails. Otherwise it hashes the password, derives the
  avatar and creates the row. `catch` turns storage rejections
  (unique-constraint and validation violations) into the same map, and every
  caught error leaves as `UserInputError('Bad input', { errors })`.

The collaborators are parameters:

- `bcrypt.compare` is `matches: (string, string) -> bool`.
- `bcrypt.hash(·, 6)` is `hash: string -> string`.
- `jwt.sign` is `sign: string -> string` (username to token).
- `gravatar.url` is `avatar: string -> string`.
- The outcome of `User.create` is a `CreateOutcome` value.
- The Users and Messages tables are input sequences.

`login` and `register` are methods that build the `errors` map one assignment
at a time, as the source does. They also return the list of collaborator
calls they made (`calls`). This states exactly when a lookup, a hash or a
create happens and when none does. `getUsers` is a function that filters and
maps sequences, as in the source.

Files and modules:

- `strings.dfy`, module `Strings`: `trim` and the emptiness rule, and `split`/`join`.
- `records.dfy`, module `Records`: rows, identity, error map, API errors, collaborator calls.
- `directory.dfy`, module `UserDirectory`: `getUsers`.
- `login.dfy`, module `LoginResolver`: `login`.
- `register.dfy`, module `RegisterResolver`: `register`.

Notes on the source's behaviour:

- The `catch` block of `register` turns every error into
  `UserInputError('Bad input', { errors })`, a failure of `bcrypt.hash`
  included.
- `login`'s three failures carry the messages `'bad input'`, `'user not found'`
  and `'password is incorrect'`. `register`'s failures carry `'Bad input'`.
- `register` returns the created row including the stored password hash.

## Model

| member | source | states |
|---|---|---|
| `Strings.Trim` | graphql/resolvers/users.js:46 | `trim` never lengthens the string, and a non-empty result neither starts nor ends with whitespace |
| `Strings.TrimStartSpec` | graphql/resolvers/users.js:46 | the leading-whitespace cut leaves a suffix that does not start with whitespace, and only whitespace is dropped |
| `Strings.TrimEndSpec` | graphql/resolvers/users.js:46 | the trailing-whitespace cut leaves a prefix that does not end with whitespace, and only whitespace is dropped |
| `Strings.TrimKeepsCore` | graphql/resolvers/users.js:46 | `trim` keeps one contiguous piece of the string, surrounded only by whitespace, whose first and last characters are not whitespace |
| `Strings.BlankIffAllWhitespace` | graphql/resolvers/users.js:46-49 | a field trims to `''` exactly when every character of it is whitespace |
| `Strings.Split` | graphql/resolvers/users.js:142 | `split(sep)` always yields at least one piece (`""` splits into `[""]`) |
| `Strings.SplitPiecesLackSeparator` | graphql/resolvers/users.js:142 | no piece of `split('.')` contains a dot |
| `Strings.JoinSplit` | graphql/resolvers/users.js:142 | joining the pieces of `split` with the separator gives back the original path |
| `Strings.SplitJoin` | graphql/resolvers/users.js:142 | splitting a join of separator-free pieces gives back exactly those pieces |
| `UserDirectory.OtherUsers` | graphql/resolvers/users.js:15-18 | the user query returns no more rows than the table holds |
| `UserDirectory.OtherUsersCount` | graphql/resolvers/users.js:15-18 | the user query keeps every row whose username is not the caller's, with its multiplicity, and drops every row of the caller |
| `UserDirectory.OtherUsersAppend` | graphql/resolvers/users.js:15-18 | the user query keeps table order: filtering a concatenation is the concatenation of the filtered parts |
| `UserDirectory.CallerMessages` | graphql/resolvers/users.js:20-23 | the message query returns no more messages than the table holds |
| `UserDirectory.CallerMessagesCount` | graphql/resolvers/users.js:20-23 | the message query keeps exactly the messages with `from` or `to` equal to the caller, with their multiplicity |
| `UserDirectory.SortNewestFirst` | graphql/resolvers/users.js:24 | the ordering keeps the number of messages |
| `UserDirectory.InsertNewestFirstSpec` | graphql/resolvers/users.js:24 | inserting into a newest-first list keeps it newest-first and adds exactly the one message |
| `UserDirectory.SortNewestFirstSpec` | graphql/resolvers/users.js:24 | `ORDER BY createdAt DESC` yields a permutation of the messages, non-increasing in `createdAt` |
| `UserDirectory.SortNewestFirstStable` | graphql/resolvers/users.js:24 | the ordering keeps, for every timestamp, the messages with that `createdAt` in their table order |
| `UserDirectory.FirstInvolvingIndex` | graphql/resolvers/users.js:28-30 | the position where `find` stops: the first message involving the user, or the list's length when none does |
| `UserDirectory.FirstInvolving` | graphql/resolvers/users.js:28-30 | `find` is absent exactly when no message involves the user; otherwise it is a message involving the user with no earlier such message |
| `UserDirectory.FirstInvolvingIsNewest` | graphql/resolvers/users.js:24-30 | on a newest-first list the first match has the greatest `createdAt` among the matches |
| `UserDirectory.Entry` | graphql/resolvers/users.js:27-33 | the attached `latestMessage` is absent exactly when no message of the caller's list involves the user; when present it is in that list and involves the user |
| `UserDirectory.GetUsers` | graphql/resolvers/users.js:11-35 | with no identity: `AuthenticationError('Unauthenticated')` whatever the tables hold; otherwise one entry per non-caller user, in the filtered order, carrying that user's `username`, `imageUrl` and `createdAt` |
| `UserDirectory.CallerMessagesSorted` | graphql/resolvers/users.js:20-25 | the ordered message list holds exactly the table's messages that involve the caller |
| `UserDirectory.LatestMessageIsMostRecent` | graphql/resolvers/users.js:20-33 | `latestMessage` is absent exactly when the caller and the user exchanged no message; when present it is one of their messages, and none of theirs is more recent |
| `UserDirectory.ThreeUsersExample` | graphql/resolvers/users.js:27-35 | caller U0 with U1→U0 at 1, U0→U2 at 2 and U2→U0 at 3: U1 gets the message at 1, U2 the one at 3, and U3 none |
| `LoginResolver.FindUserByName` | graphql/resolvers/users.js:54-56 | `findOne` finds nothing exactly when no row has that username; a found row is in the table and has that username |
| `LoginResolver.ValidateLogin` | graphql/resolvers/users.js:43-49 | the map has `username` exactly when the username is blank and `password` exactly when the password is blank, each with its "must not be empty" message, and no other key |
| `LoginResolver.LoginFieldErrorsExact` | graphql/resolvers/users.js:46-52 | the field checks determine the map completely; it is empty exactly when both fields contain a non-whitespace character |
| `LoginResolver.Login` | graphql/resolvers/users.js:41-84 | blank fields: `'bad input'` with every blank field and no calls at all; unknown username: exactly `{username: 'User not found'}` after one lookup; wrong password: exactly `{password: 'Password is incorrect'}` and no token; success exactly otherwise, returning the row found plus `sign(username)` |
| `RegisterResolver.ValidateRegistration` | graphql/resolvers/users.js:89-105 | each of the four fields that is blank gets its "must not be empty" message; `confirmPassword` gets 'Passwords must match' whenever the untrimmed passwords differ, overriding its emptiness message; no other key |
| `RegisterResolver.RegistrationErrorsEmptyIff` | graphql/resolvers/users.js:93-116 | the map is empty exactly when all four fields are non-blank and the passwords are identical |
| `RegisterResolver.RegistrationErrorsUnique` | graphql/resolvers/users.js:93-105 | the field checks determine the error map completely |
| `RegisterResolver.ConfirmEmptyOnlyWithPasswordEmpty` | graphql/resolvers/users.js:99-105 | 'Confirm password must not be empty' survives only when both passwords are the same all-whitespace string, and then `password` is reported too |
| `RegisterResolver.MismatchedPasswordsExample` | graphql/resolvers/users.js:93-105 | `register("a", "a@x.com", "p1", "p2")` reports exactly `{confirmPassword: 'Passwords must match'}` |
| `RegisterResolver.SecondSegmentOfQualifiedPath` | graphql/resolvers/users.js:142-145 | a `table.column` path (with any further pieces) is keyed by its column |
| `RegisterResolver.SecondSegmentOfBarePath` | graphql/resolvers/users.js:142-145 | a path without a dot has no second piece: it writes the key "undefined" with 'Email address already in use!' |
| `RegisterResolver.UniqueKeysMembers` | graphql/resolvers/users.js:140-146 | a key is written by the unique-constraint translation exactly when some entry's path yields it |
| `RegisterResolver.ItemPathsMembers` | graphql/resolvers/users.js:147-148 | a key is written by the validation translation exactly when some entry has that path |
| `RegisterResolver.TranslateUniqueViolation` | graphql/resolvers/users.js:139-146 | the map gains exactly the entries' keys (the second path segment, or "undefined"); each holds 'This username is already taken.' when it is `username` and 'Email address already in use!' otherwise; existing keys not written keep their values |
| `RegisterResolver.UniqueTranslationPerEntry` | graphql/resolvers/users.js:140-146 | after the unique-constraint translation, each entry's key is present and holds the message that entry wrote |
| `RegisterResolver.LastMessageOfLastEntry` | graphql/resolvers/users.js:147-148 | when no later entry has the same path, an entry's path is written and holds that entry's message |
| `RegisterResolver.ValidationTranslationPerEntry` | graphql/resolvers/users.js:147-148 | after the validation translation, an entry that no later entry overrides leaves its `message` under its `path` |
| `RegisterResolver.TranslateValidationViolation` | graphql/resolvers/users.js:147-148 | the map gains exactly the entries' paths as keys; each holds the `message` of the last entry with that path; existing keys not written keep their values |
| `RegisterResolver.Register` | graphql/resolvers/users.js:87-152 | every failure is `UserInputError('Bad input', …)`; invalid input fails with the full non-empty field map and no hash, avatar or create call; valid input hashes, derives the avatar and creates with the untrimmed fields; it returns the created row, or the translated unique or validation map, or an empty map for any other storage failure |

## Left out

- The server process (`server.js`), with Apollo construction, `dotenv`, `listen` and the database-connection log. It holds no resolver logic.
- bcrypt is an uninterpreted comparison and hash function. The cost factor 6 is not modelled.
- `jwt.sign` is a function of the username. The secret from `process.env.JWT_SECRET_KEY` and the one-hour expiry (wall-clock time) are not modelled.
- `gravatar.url` is a function of the email. Its options (size 200, rating pg, default mp) are not modelled.
- Sequelize `findAll`/`findOne`/`create` are filters over input sequences and an outcome parameter. The model does not decide whether the database keeps usernames or emails unique.
- `LoginResolver.FindUserByName`, `UserDirectory.OtherUsers`, `UserDirectory.CallerMessages`: use exact string equality. A database collation that compares usernames case-insensitively, or that ignores trailing spaces, is not modelled. Under such a collation the token signs the username as typed, so the caller's identity could differ in case from the stored row; the model does not capture this.
- `UserDirectory.SortNewestFirstSpec`: SQL does not fix the order of messages with equal `createdAt`. The model keeps their table order (`UserDirectory.SortNewestFirstStable`), so among such ties the model picks one of the orders the database may return.
- `async`/`await`, request concurrency and `console.log` are left out. They do not change any result.
- The commented-out uniqueness pre-check of `register` is dead code and is not modelled.
- A rejection of `User.findAll`, `Message.findAll` or `User.findOne`, or a throw from `bcrypt.compare` (a malformed stored hash) or `jwt.sign` (no secret configured), inside `getUsers` or `login`. The source's `catch` blocks log such an error and rethrow it unchanged, without turning it into `UserInputError`. The model takes the tables as given and `matches` and `sign` as total functions, so these error paths are not modelled.
- A failure of `bcrypt.hash` or `gravatar.url` inside `register` is not a separate case. The source ends it exactly like `CreateOutcome.OtherFailure` (an empty `errors` map), but with fewer calls made.
- Columns other than username, email, password, imageUrl and createdAt (ids, `updatedAt`) are not modelled. `toJSON` and the `user.token` assignment on the instance are reduced to pairing the row with the token.
- The error map is a Dafny `map`. The insertion order of a JavaScript object's keys is not modelled. Neither is the special handling of a key named `__proto__`.
- Repeated requests. In the model `GetUsers` is a function of its inputs, so the same tables give the same answer. The source gives the same answer only when the database returns rows in the same order both times: the user query has no `order`, and `ORDER BY createdAt DESC` leaves messages with equal `createdAt` unordered.
