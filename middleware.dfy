/** The authentication middleware (src/middleware.rs): a per-request chain
    of checks that either rejects the request with 401 or forwards it with
    the caller's user id attached. */
module Middleware {
  import opened Wrappers
  import opened Text
  import opened Models
  import UserRepository

  newtype byte = x: int | 0 <= x < 256

  /** The bytes `HeaderValue::to_str` accepts: visible ASCII and tab. */
  predicate IsVisibleAscii(b: byte)
  {
    b == 9 || 32 <= b < 127
  }

  /** `HeaderValue::to_str`: the header as text when every byte is visible ASCII. */
  function HeaderToStr(value: seq<byte>): (r: Option<string>)
    ensures r.Some? <==> forall i :: 0 <= i < |value| ==> IsVisibleAscii(value[i])
    ensures r.Some? ==> |r.value| == |value| && forall i :: 0 <= i < |value| ==> r.value[i] as int == value[i] as int
  {
    if forall i :: 0 <= i < |value| ==> IsVisibleAscii(value[i])
    then Some(seq(|value|, i requires 0 <= i < |value| => value[i] as char))
    else None
  }

  predicate IsVisibleAsciiText(s: string)
  {
    forall i :: 0 <= i < |s| ==> s[i] == '\t' || ' ' <= s[i] <= '~'
  }

  /** The bytes a client sends for a text header. */
  function HeaderBytes(s: string): seq<byte>
    requires IsVisibleAsciiText(s)
  {
    seq(|s|, i requires 0 <= i < |s| => s[i] as int as byte)
  }

  /** A key of visible ASCII characters survives the trip through the header. */
  lemma HeaderRoundTrip(s: string)
    requires IsVisibleAsciiText(s)
    ensures HeaderToStr(HeaderBytes(s)) == Some(s)
  {
    var b := HeaderBytes(s);
    assert forall i :: 0 <= i < |b| ==> IsVisibleAscii(b[i]);
    var t := HeaderToStr(b).value;
    forall i | 0 <= i < |s|
      ensures t[i] == s[i]
    {
      assert t[i] as int == b[i] as int == s[i] as int;
    }
    assert t == s;
  }

  /** The stored form of a key: the decimal rendering of its hash. */
  function KeyHash(key: string, hash: string -> u64): string
  {
    NatToString(hash(key) as nat)
  }

  const MissingHeader: string := "Missing AUTHORIZATION header"
  const InvalidHeader: string := "Invalid AUTHORIZATION header value"
  const UnknownKey: string := "A user with this api key does not exist"

  datatype AuthOutcome =
    | Reject(status: nat, message: string)
    | Forward(userId: int)

  /** The decision of `auth` for a request whose `authorization` header is
      `header`, against the users table `users`. The checks run in order:
      missing header, header that is not visible ASCII, unknown key. */
  function Authenticate(header: Option<seq<byte>>, users: seq<User>, hash: string -> u64): (r: AuthOutcome)
    ensures header.None? ==> r == Reject(401, MissingHeader)
    ensures header.Some? && HeaderToStr(header.value).None? ==> r == Reject(401, InvalidHeader)
    ensures r.Reject? ==> r.status == 401 && r.message in {MissingHeader, InvalidHeader, UnknownKey}
    ensures header.Some? && HeaderToStr(header.value).Some? && r.Reject? ==> r == Reject(401, UnknownKey)
    ensures r.Forward? <==>
      header.Some? && HeaderToStr(header.value).Some? &&
      exists u :: u in users && u.keyHash == KeyHash(HeaderToStr(header.value).value, hash)
    ensures r.Forward? ==>
      exists i :: 0 <= i < |users| && users[i].id == r.userId
        && users[i].keyHash == KeyHash(HeaderToStr(header.value).value, hash)
        && forall j :: 0 <= j < i ==> users[j].keyHash != users[i].keyHash
  {
    match header
    case None => Reject(401, MissingHeader)
    case Some(value) =>
      match HeaderToStr(value)
      case None => Reject(401, InvalidHeader)
      case Some(apiKey) =>
        match UserRepository.FindByKeyHash(users, KeyHash(apiKey, hash))
        case Err(_) => Reject(401, UnknownKey)
        case Ok(user) => Forward(user.id)
  }

  /** A key just registered for a user authenticates as that user, provided
      no earlier user's stored hash equals it. */
  lemma SignUpThenAuthenticate(users: seq<User>, newUser: User, key: string, hash: string -> u64)
    requires IsVisibleAsciiText(key)
    requires newUser.keyHash == KeyHash(key, hash)
    requires forall u :: u in users ==> u.keyHash != newUser.keyHash
    ensures Authenticate(Some(HeaderBytes(key)), users + [newUser], hash) == Forward(newUser.id)
  {
    HeaderRoundTrip(key);
    UserRepository.FindAppended(users, newUser);
  }

  /** Two keys whose hashes differ never match each other's stored hash. */
  lemma DistinctHashesDoNotMatch(a: string, b: string, hash: string -> u64)
    requires hash(a) != hash(b)
    ensures KeyHash(a, hash) != KeyHash(b, hash)
  {
    NatToStringInjective(hash(a) as nat, hash(b) as nat);
  }

  /** An incoming request: its `authorization` header, if any, and the
      extension slot the middleware fills with the caller's id. */
  class Request {
    const authorization: Option<seq<byte>>
    var userId: Option<int>

    constructor (authorization: Option<seq<byte>>)
      ensures this.authorization == authorization && userId == None
    {
      this.authorization := authorization;
      userId := None;
    }
  }

  /** `auth`: decides, and on success attaches the user's id to the request
      before it is forwarded; a rejected request is left as it was and is
      not forwarded. */
  method Auth(request: Request, users: UserRepository.UserTable, hash: string -> u64) returns (outcome: AuthOutcome)
    modifies request
    ensures outcome == Authenticate(request.authorization, users.rows, hash)
    ensures outcome.Forward? ==> request.userId == Some(outcome.userId)
    ensures outcome.Reject? ==> request.userId == old(request.userId)
  {
    match request.authorization
    case None =>
      return Reject(401, MissingHeader);
    case Some(value) =>
      var apiKey := HeaderToStr(value);
      if apiKey.None? {
        return Reject(401, InvalidHeader);
      }
      var user := users.GetUserByKeyHash(KeyHash(apiKey.value, hash));
      if user.Err? {
        return Reject(401, UnknownKey);
      }
      request.userId := Some(user.value.id);
      outcome := Forward(user.value.id);
  }
}
