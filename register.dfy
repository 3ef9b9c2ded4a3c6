/** `Mutation.register`: validate the four fields into one error map, hash
    the password, derive the avatar, create the row, and translate the
    storage layer's rejections into the same error map. bcrypt, gravatar
    and `User.create` are parameters. */
module RegisterResolver {
  import opened Strings
  import opened Records

  /** One entry of a Sequelize error's `errors` list. */
  datatype StorageErrorItem = StorageErrorItem(path: string, message: string)

  /** What `User.create` does with the new row: store it (the database
      assigns `createdAt`), reject it with a `SequelizeUniqueConstraintError`
      (only the `path` of each entry is read), reject it with a
      `SequelizeValidationError`, or fail in any other way. */
  datatype CreateOutcome =
    | Created(createdAt: Timestamp)
    | UniqueViolation(paths: seq<string>)
    | ValidationViolation(items: seq<StorageErrorItem>)
    | OtherFailure

  const UsernameTaken := "This username is already taken."
  const EmailInUse := "Email address already in use!"

  // ---------------------------------------------------------------------
  // Field validation

  /** All four fields are non-blank and the two passwords are identical. */
  predicate RegistrationValid(username: string, email: string, password: string, confirmPassword: string) {
    !IsBlank(username) && !IsBlank(email) && !IsBlank(password) && !IsBlank(confirmPassword)
    && password == confirmPassword
  }

  /** The error map the field checks of `register` must produce: one entry
      per blank field with its message, and for `confirmPassword` the
      mismatch message whenever the untrimmed passwords differ, in place of
      its emptiness message. */
  predicate RegistrationErrors(errors: ErrorMap, username: string, email: string, password: string, confirmPassword: string) {
    && errors.Keys <= {"username", "email", "password", "confirmPassword"}
    && ("username" in errors <==> IsBlank(username))
    && ("email" in errors <==> IsBlank(email))
    && ("password" in errors <==> IsBlank(password))
    && ("confirmPassword" in errors <==> IsBlank(confirmPassword) || password != confirmPassword)
    && ("username" in errors ==> errors["username"] == "Username must not be empty")
    && ("email" in errors ==> errors["email"] == "Email must not be empty")
    && ("password" in errors ==> errors["password"] == "Password must not be empty")
    && ("confirmPassword" in errors ==>
          errors["confirmPassword"] == if password != confirmPassword then "Passwords must match" else "Confirm password must not be empty")
  }

  /** The five checks, each run regardless of the others, into one map. */
  method ValidateRegistration(username: string, email: string, password: string, confirmPassword: string)
    returns (errors: ErrorMap)
    ensures RegistrationErrors(errors, username, email, password, confirmPassword)
  {
    errors := map[];
    if Trim(username) == "" {
      errors := errors["username" := "Username must not be empty"];
    }
    if Trim(email) == "" {
      errors := errors["email" := "Email must not be empty"];
    }
    if Trim(password) == "" {
      errors := errors["password" := "Password must not be empty"];
    }
    if Trim(confirmPassword) == "" {
      errors := errors["confirmPassword" := "Confirm password must not be empty"];
    }
    if password != confirmPassword {
      errors := errors["confirmPassword" := "Passwords must match"];
    }
  }

  /** The map is empty exactly when the input is valid. */
  lemma RegistrationErrorsEmptyIff(errors: ErrorMap, username: string, email: string, password: string, confirmPassword: string)
    requires RegistrationErrors(errors, username, email, password, confirmPassword)
    ensures errors == map[] <==> RegistrationValid(username, email, password, confirmPassword)
  {
  }

  /** The checks determine the map completely. */
  lemma RegistrationErrorsUnique(a: ErrorMap, b: ErrorMap, username: string, email: string, password: string, confirmPassword: string)
    requires RegistrationErrors(a, username, email, password, confirmPassword)
    requires RegistrationErrors(b, username, email, password, confirmPassword)
    ensures a == b
  {
  }

  /** "Confirm password must not be empty" survives only when the two
      passwords are the same blank string, so the password is reported too. */
  lemma ConfirmEmptyOnlyWithPasswordEmpty(errors: ErrorMap, username: string, email: string, password: string, confirmPassword: string)
    requires RegistrationErrors(errors, username, email, password, confirmPassword)
    requires "confirmPassword" in errors && errors["confirmPassword"] == "Confirm password must not be empty"
    ensures password == confirmPassword && AllWhitespace(password)
    ensures "password" in errors && errors["password"] == "Password must not be empty"
  {
    assert "Confirm password must not be empty" != "Passwords must match";
    BlankIffAllWhitespace(confirmPassword);
  }

  /** register("a", "a@x.com", "p1", "p2"): the only error is the mismatch. */
  lemma MismatchedPasswordsExample(errors: ErrorMap)
    requires RegistrationErrors(errors, "a", "a@x.com", "p1", "p2")
    ensures errors == map["confirmPassword" := "Passwords must match"]
  {
  }

  // ---------------------------------------------------------------------
  // Storage-error translation

  /** `e.path.split('.')[1]`: the second dot-separated piece of the path,
      absent (`undefined` in JavaScript) when the path has no dot. */
  function SecondSegment(path: string): Option<string> {
    var parts := Split(path, '.');
    if |parts| > 1 then Some(parts[1]) else None
  }

  /** The key `errors[e.path.split('.')[1]]` writes: a missing piece turns
      into the property name "undefined". */
  function UniqueKey(path: string): string {
    match SecondSegment(path)
    case Some(column) => column
    case None => "undefined"
  }

  /** The message written for one entry of a unique-constraint violation. */
  function UniqueMessage(path: string): string {
    if SecondSegment(path) == Some("username") then UsernameTaken else EmailInUse
  }

  /** A `table.column` path (with any further pieces after it) is keyed by
      its column. */
  lemma SecondSegmentOfQualifiedPath(table: string, column: string, more: seq<string>)
    requires '.' !in table && '.' !in column
    requires forall i :: 0 <= i < |more| ==> '.' !in more[i]
    ensures SecondSegment(Join([table, column] + more, '.')) == Some(column)
    ensures UniqueKey(Join([table, column] + more, '.')) == column
  {
    var parts := [table, column] + more;
    forall i | 0 <= i < |parts| ensures '.' !in parts[i] {
      if i >= 2 { assert parts[i] == more[i - 2]; }
    }
    SplitJoin(parts, '.');
  }

  /** A path without a dot has no second piece. */
  lemma SecondSegmentOfBarePath(path: string)
    requires '.' !in path
    ensures SecondSegment(path) == None && UniqueKey(path) == "undefined"
    ensures UniqueMessage(path) == EmailInUse
  {
    SplitJoin([path], '.');
  }

  /** The message a unique-constraint entry writes under key `k`. */
  function KeyMessage(k: string): string {
    if k == "username" then UsernameTaken else EmailInUse
  }

  /** Every unique-constraint entry's message depends on its key alone. */
  lemma UniqueMessageByKey(path: string)
    ensures UniqueMessage(path) == KeyMessage(UniqueKey(path))
  {
  }

  /** The keys the entries write, collected in `forEach` order. */
  ghost function UniqueKeys(paths: seq<string>): set<string> {
    if paths == [] then {} else UniqueKeys(paths[..|paths| - 1]) + {UniqueKey(paths[|paths| - 1])}
  }

  lemma {:induction false} UniqueKeysMembers(paths: seq<string>, k: string)
    ensures k in UniqueKeys(paths) <==> exists i :: 0 <= i < |paths| && UniqueKey(paths[i]) == k
  {
    if paths != [] {
      var init := paths[..|paths| - 1];
      UniqueKeysMembers(init, k);
      if k in UniqueKeys(init) {
        var i :| 0 <= i < |init| && UniqueKey(init[i]) == k;
        assert paths[i] == init[i];
      }
      forall i | 0 <= i < |init| ensures paths[i] == init[i] { }
    }
  }

  /** `after` is `before` with the unique-constraint entries written in:
      one key per entry's column, holding the username or email message,
      and every other key unchanged. */
  ghost predicate UniqueTranslation(before: ErrorMap, paths: seq<string>, after: ErrorMap) {
    && after.Keys == before.Keys + UniqueKeys(paths)
    && (forall k :: k in UniqueKeys(paths) ==> k in after && after[k] == KeyMessage(k))
    && (forall k :: k in before && k !in UniqueKeys(paths) ==> after[k] == before[k])
  }

  /** Read entry by entry: each entry's key is present and holds
      'This username is already taken.' when it is `username` and
      'Email address already in use!' otherwise. */
  lemma UniqueTranslationPerEntry(before: ErrorMap, paths: seq<string>, after: ErrorMap, i: int)
    requires UniqueTranslation(before, paths, after)
    requires 0 <= i < |paths|
    ensures UniqueKey(paths[i]) in after
    ensures after[UniqueKey(paths[i])] == if UniqueKey(paths[i]) == "username" then UsernameTaken else EmailInUse
    ensures after[UniqueKey(paths[i])] == UniqueMessage(paths[i])
  {
    UniqueKeysMembers(paths, UniqueKey(paths[i]));
    UniqueMessageByKey(paths[i]);
  }

  /** `err.errors.forEach(e => errors[e.path.split('.')[1]] = …)`. */
  method TranslateUniqueViolation(errors: ErrorMap, paths: seq<string>) returns (out: ErrorMap)
    ensures UniqueTranslation(errors, paths, out)
  {
    out := errors;
    var n := 0;
    while n < |paths|
      invariant 0 <= n <= |paths|
      invariant UniqueTranslation(errors, paths[..n], out)
    {
      var path := paths[n];
      var key := UniqueKey(path);
      UniqueMessageByKey(path);
      assert paths[..n + 1][..n] == paths[..n];
      assert UniqueKeys(paths[..n + 1]) == UniqueKeys(paths[..n]) + {key};
      out := out[key := UniqueMessage(path)];
      n := n + 1;
    }
    assert paths[..n] == paths;
  }

  /** The keys the entries write, collected in `forEach` order. */
  ghost function ItemPaths(items: seq<StorageErrorItem>): set<string> {
    if items == [] then {} else ItemPaths(items[..|items| - 1]) + {items[|items| - 1].path}
  }

  lemma {:induction false} ItemPathsMembers(items: seq<StorageErrorItem>, k: string)
    ensures k in ItemPaths(items) <==> exists i :: 0 <= i < |items| && items[i].path == k
  {
    if items != [] {
      var init := items[..|items| - 1];
      ItemPathsMembers(init, k);
      if k in ItemPaths(init) {
        var i :| 0 <= i < |init| && init[i].path == k;
        assert items[i] == init[i];
      }
      forall i | 0 <= i < |init| ensures items[i] == init[i] { }
    }
  }

  /** No entry after position `i` writes the same key as entry `i`. */
  ghost predicate LastForPath(items: seq<StorageErrorItem>, i: int)
    requires 0 <= i < |items|
  {
    forall j :: i < j < |items| ==> items[j].path != items[i].path
  }

  /** The message the last entry with path `k` carries. */
  ghost function LastMessage(items: seq<StorageErrorItem>, k: string): string
    requires k in ItemPaths(items)
  {
    var e := items[|items| - 1];
    if e.path == k then e.message else LastMessage(items[..|items| - 1], k)
  }

  /** The entry no later entry overrides supplies the message for its path. */
  lemma {:induction false} LastMessageOfLastEntry(items: seq<StorageErrorItem>, i: int)
    requires 0 <= i < |items| && LastForPath(items, i)
    ensures items[i].path in ItemPaths(items)
    ensures LastMessage(items, items[i].path) == items[i].message
  {
    ItemPathsMembers(items, items[i].path);
    if i < |items| - 1 {
      var init := items[..|items| - 1];
      assert init[i] == items[i];
      assert LastForPath(init, i) by {
        forall j | i < j < |init| ensures init[j].path != init[i].path {
          assert init[j] == items[j];
        }
      }
      LastMessageOfLastEntry(init, i);
    }
  }

  /** `after` is `before` with the validation entries written in order: one
      key per path, each holding the message of the last entry for that
      path, and every other key unchanged. */
  ghost predicate ValidationTranslation(before: ErrorMap, items: seq<StorageErrorItem>, after: ErrorMap) {
    && after.Keys == before.Keys + ItemPaths(items)
    && (forall k :: k in ItemPaths(items) ==> k in after && after[k] == LastMessage(items, k))
    && (forall k :: k in before && k !in ItemPaths(items) ==> after[k] == before[k])
  }

  /** Read entry by entry: an entry that no later entry overrides leaves its
      `message` verbatim under its `path`. */
  lemma ValidationTranslationPerEntry(before: ErrorMap, items: seq<StorageErrorItem>, after: ErrorMap, i: int)
    requires ValidationTranslation(before, items, after)
    requires 0 <= i < |items| && LastForPath(items, i)
    ensures items[i].path in after && after[items[i].path] == items[i].message
  {
    LastMessageOfLastEntry(items, i);
  }

  /** `err.errors.forEach(e => errors[e.path] = e.message)`. */
  method TranslateValidationViolation(errors: ErrorMap, items: seq<StorageErrorItem>) returns (out: ErrorMap)
    ensures ValidationTranslation(errors, items, out)
  {
    out := errors;
    var n := 0;
    while n < |items|
      invariant 0 <= n <= |items|
      invariant ValidationTranslation(errors, items[..n], out)
    {
      var e := items[n];
      assert items[..n + 1][..n] == items[..n] && items[..n + 1][n] == e;
      assert ItemPaths(items[..n + 1]) == ItemPaths(items[..n]) + {e.path};
      out := out[e.path := e.message];
      n := n + 1;
    }
    assert items[..n] == items;
  }

  // ---------------------------------------------------------------------
  // The resolver

  /** `Mutation.register(_, { username, email, password, confirmPassword })`.
      `hash` stands for `bcrypt.hash(·, 6)`, `avatar` for `gravatar.url` and
      `outcome` for what `User.create` does; `calls` lists, in order, the
      calls made into bcrypt, gravatar and the database. */
  method Register(username: string, email: string, password: string, confirmPassword: string,
                  hash: string -> string, avatar: string -> string, outcome: CreateOutcome)
    returns (r: Result<User>, calls: seq<Call>)
    // Every failure leaves as UserInputError('Bad input', { errors }).
    ensures r.Failure? ==> r.error.UserInputError? && r.error.message == "Bad input"
    // Invalid input: all field problems at once; no hashing, no avatar, no create.
    ensures !RegistrationValid(username, email, password, confirmPassword) ==>
      && calls == []
      && r.Failure? && r.error.UserInputError?
      && r.error.errors != map[]
      && RegistrationErrors(r.error.errors, username, email, password, confirmPassword)
    // Valid input: hash, avatar and create, in that order, with the untrimmed fields.
    ensures RegistrationValid(username, email, password, confirmPassword) ==>
      calls == [HashPassword(password), AvatarUrl(email), CreateUser(username, email, hash(password), avatar(email))]
    ensures RegistrationValid(username, email, password, confirmPassword) && outcome.Created? ==>
      r == Success(User(username, email, hash(password), avatar(email), outcome.createdAt))
    ensures RegistrationValid(username, email, password, confirmPassword) && outcome.UniqueViolation? ==>
      r.Failure? && r.error.UserInputError? && UniqueTranslation(map[], outcome.paths, r.error.errors)
    ensures RegistrationValid(username, email, password, confirmPassword) && outcome.ValidationViolation? ==>
      r.Failure? && r.error.UserInputError? && ValidationTranslation(map[], outcome.items, r.error.errors)
    ensures RegistrationValid(username, email, password, confirmPassword) && outcome.OtherFailure? ==>
      r == Failure(UserInputError("Bad input", map[]))
  {
    calls := [];
    var errors := ValidateRegistration(username, email, password, confirmPassword);
    RegistrationErrorsEmptyIff(errors, username, email, password, confirmPassword);

    // What reaches the catch block: the thrown `errors` object itself (no
    // `name`, so neither branch applies) or the outcome of `User.create`.
    var thrown: CreateOutcome;
    if |errors| > 0 {
      thrown := OtherFailure;
    } else {
      calls := calls + [HashPassword(password)];
      var hashed := hash(password);
      calls := calls + [AvatarUrl(email)];
      var imageUrl := avatar(email);
      calls := calls + [CreateUser(username, email, hashed, imageUrl)];
      match outcome {
        case Created(createdAt) =>
          return Success(User(username, email, hashed, imageUrl, createdAt)), calls;
        case _ =>
          thrown := outcome;
      }
    }

    if thrown.UniqueViolation? {
      errors := TranslateUniqueViolation(errors, thrown.paths);
    } else if thrown.ValidationViolation? {
      errors := TranslateValidationViolation(errors, thrown.items);
    }
    r := Failure(UserInputError("Bad input", errors));
  }
}
