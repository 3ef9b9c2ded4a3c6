/** The rows, identities and errors the resolvers exchange with their
    callers and with the storage layer. */
module Records {

  datatype Option<+T> = None | Some(value: T)

  /** Storage timestamps; only their order matters to the resolvers. */
  type Timestamp = int

  /** A row of the Users table. `password` holds the stored hash. */
  datatype User = User(username: string, email: string, password: string, imageUrl: string, createdAt: Timestamp)

  /** A row of the Messages table: a direct message from one user to another. */
  datatype Message = Message(from: string, to: string, content: string, createdAt: Timestamp)

  /** The caller identity the request context carries after verifying a token. */
  datatype Identity = Identity(username: string)

  /** The `errors` object: field name to human-readable message. */
  type ErrorMap = map<string, string>

  /** What a resolver throws: Apollo's `UserInputError(message, {errors})`
      and `AuthenticationError(message)`. */
  datatype ApiError =
    | UserInputError(message: string, errors: ErrorMap)
    | AuthenticationError(message: string)

  datatype Result<+T> = Success(value: T) | Failure(error: ApiError)

  /** The calls a resolver makes into its collaborators, in order: the
      database (`User.findOne`, `User.create`), bcrypt, jsonwebtoken and gravatar. */
  datatype Call =
    | FindUser(username: string)
    | ComparePassword(plain: string, hash: string)
    | SignToken(username: string)
    | HashPassword(plain: string)
    | AvatarUrl(email: string)
    | CreateUser(username: string, email: string, password: string, imageUrl: string)
}
