/** The user-creation handler (src/handlers/users.rs). */
module UserHandlers {
  import opened Wrappers
  import opened Database
  import opened Models
  import opened Http
  import opened Requests
  import opened Text
  import UserRepository
  import Middleware

  function Welcome(username: string, key: string): string
  {
    "Welcome " + username + "! Your api key is: " + key + " Don't lose it!"
  }

  function UsernameTaken(username: string): string
  {
    "The username \"" + username + "\" is already taken"
  }

  const InsertUserFailed: string := "Failed to insert user"

  /** The response `post_user` gives for the outcome of the insert: 200 with
      the key exactly when the insert succeeded, 422 exactly on a unique
      violation, 500 for any other failure. */
  function PostUserResponse(request: CreateUserRequest, key: string, r: Result<User, DbError>): (resp: Response)
    ensures resp.status == OK <==> r.Ok?
    ensures resp.status == UNPROCESSABLE_ENTITY <==> r == Err(UniqueViolation)
    ensures resp.status == INTERNAL_SERVER_ERROR <==> r.Err? && r.error != UniqueViolation
    ensures r.Ok? ==> resp.body == Text(Welcome(r.value.username, key))
    ensures r == Err(UniqueViolation) ==> resp.body == Text(UsernameTaken(request.username))
    ensures r.Err? && r.error != UniqueViolation ==> resp.body == Text(InsertUserFailed)
  {
    match r
    case Ok(user) => Response(OK, Text(Welcome(user.username, key)))
    case Err(UniqueViolation) => Response(UNPROCESSABLE_ENTITY, Text(UsernameTaken(request.username)))
    case Err(_) => Response(INTERNAL_SERVER_ERROR, Text(InsertUserFailed))
  }

  /** `post_user` with the freshly generated key `key`: stores the username
      and the decimal hash of the key, never the key itself, and hands the
      key back once. */
  method PostUser(table: UserRepository.UserTable, request: CreateUserRequest, key: string, hash: string -> u64)
    returns (resp: Response)
    requires table.Valid()
    modifies table
    ensures table.Valid()
    ensures (exists u :: u in old(table.rows) && u.username == request.username) ==>
      resp == Response(UNPROCESSABLE_ENTITY, Text(UsernameTaken(request.username)))
      && table.rows == old(table.rows)
    ensures (forall u :: u in old(table.rows) ==> u.username != request.username) ==>
      && resp == Response(OK, Text(Welcome(request.username, key)))
      && table.rows == old(table.rows) + [User(old(table.nextId), request.username, Middleware.KeyHash(key, hash))]
  {
    var keyHash := NatToString(hash(key) as nat);
    var newUser := NewUser(request.username, keyHash);
    var r := table.InsertUser(newUser);
    resp := PostUserResponse(request, key, r);
  }
}
