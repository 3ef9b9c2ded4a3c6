/** `Query.login`: validate the two fields, look the user up by username,
    check the password against the stored hash and issue a token. The
    database, bcrypt and jsonwebtoken are parameters. */
module LoginResolver {
  import opened Strings
  import opened Records

  /** The successful answer: the user's row plus the issued `token`. */
  datatype LoggedIn = LoggedIn(user: User, token: string)

  /** `User.findOne({ where: { username } })`: the first row whose username
      is exactly `username`, if there is one. */
  function FindUserByName(users: seq<User>, username: string): (r: Option<User>)
    ensures r.None? <==> forall i :: 0 <= i < |users| ==> users[i].username != username
    ensures r.Some? ==> r.value in users && r.value.username == username
  {
    if users == [] then None
    else if users[0].username == username then Some(users[0])
    else FindUserByName(users[1..], username)
  }

  /** The error map the field checks of `login` must produce: an entry for
      each blank field, with that field's message, and nothing else. */
  predicate LoginFieldErrors(errors: ErrorMap, username: string, password: string) {
    && errors.Keys <= {"username", "password"}
    && ("username" in errors <==> IsBlank(username))
    && ("password" in errors <==> IsBlank(password))
    && ("username" in errors ==> errors["username"] == "Username must not be empty")
    && ("password" in errors ==> errors["password"] == "Password must not be empty")
  }

  /** The two field checks, run one after the other into one map. */
  method ValidateLogin(username: string, password: string) returns (errors: ErrorMap)
    ensures LoginFieldErrors(errors, username, password)
  {
    errors := map[];
    if Trim(username) == "" {
      errors := errors["username" := "Username must not be empty"];
    }
    if Trim(password) == "" {
      errors := errors["password" := "Password must not be empty"];
    }
  }

  /** The checks pin the map down completely, and the map is empty exactly
      when both fields have a non-whitespace character. */
  lemma LoginFieldErrorsExact(errors: ErrorMap, username: string, password: string)
    requires LoginFieldErrors(errors, username, password)
    ensures errors == map[] <==> !AllWhitespace(username) && !AllWhitespace(password)
    ensures errors ==
      (if IsBlank(username) then map["username" := "Username must not be empty"] else map[]) +
      (if IsBlank(password) then map["password" := "Password must not be empty"] else map[])
  {
    BlankIffAllWhitespace(username);
    BlankIffAllWhitespace(password);
    if IsBlank(username) {
      assert "username" in errors;
    } else if IsBlank(password) {
      assert "password" in errors;
    }
  }

  /** `Query.login(_, { username, password })`. `matches` stands for
      `bcrypt.compare` and `sign` for `jwt.sign`; `calls` lists, in order,
      the calls made into the database, bcrypt and jsonwebtoken. */
  method Login(username: string, password: string, users: seq<User>,
               matches: (string, string) -> bool, sign: string -> string)
    returns (r: Result<LoggedIn>, calls: seq<Call>)
    // Blank fields: every blank field is reported, and nothing is looked up.
    ensures IsBlank(username) || IsBlank(password) ==>
      && calls == []
      && r.Failure? && r.error.UserInputError? && r.error.message == "bad input"
      && LoginFieldErrors(r.error.errors, username, password)
    // No such user: exactly `{username: 'User not found'}` after one lookup.
    ensures !IsBlank(username) && !IsBlank(password) && FindUserByName(users, username).None? ==>
      && calls == [FindUser(username)]
      && r == Failure(UserInputError("user not found", map["username" := "User not found"]))
    // Wrong password: exactly `{password: 'Password is incorrect'}`, no token.
    ensures !IsBlank(username) && !IsBlank(password) && FindUserByName(users, username).Some? &&
            !matches(password, FindUserByName(users, username).value.password) ==>
      && calls == [FindUser(username), ComparePassword(password, FindUserByName(users, username).value.password)]
      && r == Failure(UserInputError("password is incorrect", map["password" := "Password is incorrect"]))
    // Success: the row found, with a token signed for its username.
    ensures r.Success? <==>
      !IsBlank(username) && !IsBlank(password) && FindUserByName(users, username).Some? &&
      matches(password, FindUserByName(users, username).value.password)
    ensures r.Success? ==>
      && r.value.user == FindUserByName(users, username).value
      && r.value.user in users && r.value.user.username == username
      && matches(password, r.value.user.password)
      && r.value.token == sign(r.value.user.username)
      && calls == [FindUser(username), ComparePassword(password, r.value.user.password), SignToken(username)]
  {
    calls := [];
    var errors := ValidateLogin(username, password);
    if |errors| > 0 {
      assert "username" in errors || "password" in errors;
      return Failure(UserInputError("bad input", errors)), calls;
    }
    assert errors == map[];

    calls := calls + [FindUser(username)];
    var user := FindUserByName(users, username);
    if user.None? {
      errors := errors["username" := "User not found"];
      return Failure(UserInputError("user not found", errors)), calls;
    }

    calls := calls + [ComparePassword(password, user.value.password)];
    var correctPassword := matches(password, user.value.password);
    if !correctPassword {
      errors := errors["password" := "Password is incorrect"];
      return Failure(UserInputError("password is incorrect", errors)), calls;
    }

    calls := calls + [SignToken(username)];
    var token := sign(username);
    r := Success(LoggedIn(user.value, token));
  }
}
