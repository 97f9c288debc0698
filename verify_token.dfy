/** The token-verification middleware: read the bearer token from the
    Authorization header, verify it, look the principal up in the Student
    collection (only there) and attach it to the request. */
module VerifyToken {
  import opened Common
  import opened Tokens
  import opened Db

  // ---------------------------------------------------------------------------
  // `header.split(" ")`

  /** `String.prototype.split(" ")`: the maximal space-free pieces between
      single spaces, empty pieces included. */
  function Split(s: string): (parts: seq<string>)
    ensures |parts| >= 1
    ensures forall i :: 0 <= i < |parts| ==> ' ' !in parts[i]
    ensures |parts| == 1 <==> ' ' !in s
  {
    if s == [] then [""]
    else
      var rest := Split(s[1..]);
      assert ' ' !in s[1..] ==> ' ' !in s || s[0] == ' ';
      if s[0] == ' ' then [""] + rest
      else
        assert ' ' in s ==> ' ' in s[1..];
        [[s[0]] + rest[0]] + rest[1..]
  }

  /** `parts.join(" ")`. */
  function Join(parts: seq<string>): string
    requires |parts| >= 1
  {
    if |parts| == 1 then parts[0] else parts[0] + " " + Join(parts[1..])
  }

  /** Splitting loses nothing: joining the pieces with single spaces gives
      back the header. */
  lemma {:induction false} JoinSplit(s: string)
    ensures Join(Split(s)) == s
  {
    if s != [] {
      var rest := Split(s[1..]);
      JoinSplit(s[1..]);
      if s[0] == ' ' {
        assert ([""] + rest)[1..] == rest;
        assert s == [' '] + s[1..];
      } else {
        var parts := [[s[0]] + rest[0]] + rest[1..];
        assert Split(s) == parts;
        if |rest| == 1 {
          assert s == [s[0]] + s[1..];
        } else {
          assert parts[1..] == rest[1..];
          assert Join(rest) == rest[0] + " " + Join(rest[1..]);
          assert s == [s[0]] + s[1..];
        }
      }
    }
  }

  /** A space-free word followed by a space splits off as the first piece. */
  lemma {:induction false} SplitWord(w: string, rest: string)
    requires ' ' !in w
    ensures Split(w + " " + rest) == [w] + Split(rest)
  {
    if w == [] {
      assert w + " " + rest == [' '] + rest;
      assert ([' '] + rest)[1..] == rest;
    } else {
      SplitWord(w[1..], rest);
      var s := w + " " + rest;
      assert s[0] == w[0];
      assert s[1..] == w[1..] + " " + rest;
      var tail := Split(s[1..]);
      assert tail == [w[1..]] + Split(rest);
      assert [w[0]] + w[1..] == w;
      assert tail[1..] == Split(rest);
    }
  }

  /** The token: the second space-separated field of the header, if any. */
  function BearerToken(header: string): (t: Option<string>)
    ensures t.None? <==> ' ' !in header
    ensures t.Some? ==> ' ' !in t.value
  {
    var parts := Split(header);
    if |parts| >= 2 then Some(parts[1]) else None
  }

  /** A header "<scheme> <token>" yields the token; the scheme word itself is
      never checked. */
  lemma BearerTokenOf(scheme: string, token: string)
    requires ' ' !in scheme && ' ' !in token
    ensures BearerToken(scheme + " " + token) == Some(token)
  {
    SplitWord(scheme, token);
    JoinSplit(token);
  }

  // ---------------------------------------------------------------------------
  // The middleware

  datatype SessionError = NoToken | BadToken | UserNotFound

  /** The reply the middleware sends for each failure. */
  function ErrorReply(e: SessionError): (r: Reply)
    ensures r.status == (if e == UserNotFound then 404 else 401)
  {
    match e
    case NoToken => Reply(401, "No token provided")
    case BadToken => Reply(401, "Invalid or expired token")
    case UserNotFound => Reply(404, "User not found")
  }

  /** The principal the middleware attaches for header `authorization`, or why
      it stops: no (or an empty) header, no token field or a token that does
      not verify, or a `userId` absent from the Student collection. */
  function Resolve(authorization: Option<string>, codec: Codec, now: nat, students: map<Id, Student>)
    : (r: Result<Student, SessionError>)
    ensures r == Err(NoToken) <==> authorization.None? || authorization.value == ""
    ensures authorization.Some? && authorization.value != "" && ' ' !in authorization.value ==> r == Err(BadToken)
    ensures r.Ok? ==> r.value in students.Values
    ensures authorization.Some? && authorization.value != "" ==>
      var t := BearerToken(authorization.value);
      && (t.Some? && Verify(codec, t.value, now).Err? ==> r == Err(BadToken))
      && (t.Some? && Verify(codec, t.value, now).Ok? ==>
            var id := Verify(codec, t.value, now).value.userId;
            r == (if id in students then Ok(students[id]) else Err(UserNotFound)))
  {
    match authorization
    case None => Err(NoToken)
    case Some(header) =>
      if header == "" then Err(NoToken)
      else match BearerToken(header)
        case None => Err(BadToken)
        case Some(token) =>
          match Verify(codec, token, now)
          case Err(_) => Err(BadToken)
          case Ok(claims) =>
            if claims.userId in students then Ok(students[claims.userId]) else Err(UserNotFound)
  }

  /** A live token issued by a faithful signer, sent as "<scheme> <token>",
      resolves to the student it names. */
  lemma ResolveIssued(scheme: string, codec: Codec, c: Claims, now: nat, students: map<Id, Student>)
    requires Faithful(codec) && scheme != "" && ' ' !in scheme
    requires !IsExpired(c, now) && c.userId in students
    ensures Resolve(Some(scheme + " " + codec.encode(c)), codec, now, students) == Ok(students[c.userId])
  {
    BearerTokenOf(scheme, codec.encode(c));
    VerifyIssued(codec, c, now);
  }

  /** An expired token is refused with 401, whoever it names. */
  lemma ExpiredRefused(scheme: string, codec: Codec, c: Claims, now: nat, students: map<Id, Student>)
    requires Faithful(codec) && scheme != "" && ' ' !in scheme
    requires IsExpired(c, now)
    ensures Resolve(Some(scheme + " " + codec.encode(c)), codec, now, students) == Err(BadToken)
  {
    BearerTokenOf(scheme, codec.encode(c));
    VerifyIssued(codec, c, now);
  }

  /** A token the key did not sign (one that does not decode) is refused
      with 401, whoever it claims to name. */
  lemma ForgedRefused(scheme: string, token: string, codec: Codec, now: nat, students: map<Id, Student>)
    requires scheme != "" && ' ' !in scheme && ' ' !in token
    requires codec.decode(token).None?
    ensures Resolve(Some(scheme + " " + token), codec, now, students) == Err(BadToken)
  {
    BearerTokenOf(scheme, token);
  }

  /** Only the Student collection is consulted: a live token naming an id
      that is not a student (an admin's User id, say) gets 404. */
  lemma NonStudentNotFound(scheme: string, codec: Codec, c: Claims, now: nat, students: map<Id, Student>)
    requires Faithful(codec) && scheme != "" && ' ' !in scheme
    requires !IsExpired(c, now) && c.userId !in students
    ensures Resolve(Some(scheme + " " + codec.encode(c)), codec, now, students) == Err(UserNotFound)
  {
    BearerTokenOf(scheme, codec.encode(c));
    VerifyIssued(codec, c, now);
  }

  /** The Express request object, reduced to what the middleware uses. */
  class HttpRequest {
    const authorization: Option<string>
    var user: Option<Student>

    constructor (authorization: Option<string>)
      ensures this.authorization == authorization && user.None?
    {
      this.authorization := authorization;
      user := None;
    }
  }

  /** The middleware itself: on success `req.user` becomes the student found
      and control passes to `next`; otherwise it answers with the error reply
      and leaves the request as it was. */
  method Handle(req: HttpRequest, codec: Codec, now: nat, db: Database) returns (flow: Flow)
    modifies req
    ensures var r := Resolve(req.authorization, codec, now, db.students);
      && (r.Ok? ==> flow == Continue && req.user == Some(r.value))
      && (r.Err? ==> flow == Halt(ErrorReply(r.error)) && req.user == old(req.user))
  {
    var r := Resolve(req.authorization, codec, now, db.students);
    if r.Ok? {
      req.user := Some(r.value);
      flow := Continue;
    } else {
      flow := Halt(ErrorReply(r.error));
    }
  }
}
