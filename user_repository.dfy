/** The users table and its repository operations (src/repositories/users.rs). */
module UserRepository {
  import opened Wrappers
  import opened Database
  import opened Models

  /** `SELECT ... WHERE key_hash = h LIMIT 1`: the first user, in table
      order, whose stored key hash is `h`, or `NotFound`. */
  function FindByKeyHash(rows: seq<User>, h: string): (r: Result<User, DbError>)
    ensures r.Ok? <==> exists u :: u in rows && u.keyHash == h
    ensures r.Ok? ==> exists i :: 0 <= i < |rows| && rows[i] == r.value && rows[i].keyHash == h
                        && forall j :: 0 <= j < i ==> rows[j].keyHash != h
    ensures r.Err? ==> r.error == NotFound
  {
    if rows == [] then Err(NotFound)
    else if rows[0].keyHash == h then Ok(rows[0])
    else FindByKeyHash(rows[1..], h)
  }

  /** A user whose key hash no earlier user has is the one a lookup finds. */
  lemma {:induction false} FindAppended(rows: seq<User>, u: User)
    requires forall v :: v in rows ==> v.keyHash != u.keyHash
    ensures FindByKeyHash(rows + [u], u.keyHash) == Ok(u)
  {
    if rows == [] {
      assert rows + [u] == [u];
    } else {
      assert (rows + [u])[1..] == rows[1..] + [u];
      FindAppended(rows[1..], u);
    }
  }

  /** The users table. `nextId` is the next value of the `id` sequence. */
  class UserTable {
    var rows: seq<User>
    var nextId: int

    /** Ids come from the sequence; usernames are unique (the unique index). */
    ghost predicate Valid()
      reads this
    {
      && (forall i :: 0 <= i < |rows| ==> rows[i].id < nextId)
      && (forall i, j :: 0 <= i < j < |rows| ==> rows[i].id != rows[j].id)
      && (forall i, j :: 0 <= i < j < |rows| ==> rows[i].username != rows[j].username)
    }

    constructor ()
      ensures Valid() && rows == [] && nextId == 1
    {
      rows := [];
      nextId := 1;
    }

    /** `get_users`: every row, in table order. */
    function GetUsers(): (r: seq<User>)
      reads this
      ensures r == rows
    {
      rows
    }

    /** `get_user_by_key_hash`. */
    function GetUserByKeyHash(h: string): Result<User, DbError>
      reads this
    {
      FindByKeyHash(rows, h)
    }

    /** `insert_user`: appends one row with the given username and key hash
        and returns it; a taken username is a unique violation and changes
        nothing. */
    method InsertUser(n: NewUser) returns (r: Result<User, DbError>)
      requires Valid()
      modifies this
      ensures Valid()
      ensures (exists u :: u in old(rows) && u.username == n.username) ==>
        r == Err(UniqueViolation) && rows == old(rows) && nextId == old(nextId)
      ensures (forall u :: u in old(rows) ==> u.username != n.username) ==>
        && r == Ok(InsertedUser(n, old(nextId)))
        && rows == old(rows) + [r.value] && nextId == old(nextId) + 1
    {
      if exists u :: u in rows && u.username == n.username {
        r := Err(UniqueViolation);
      } else {
        var user := InsertedUser(n, nextId);
        rows := rows + [user];
        nextId := nextId + 1;
        r := Ok(user);
      }
    }
  }
}
