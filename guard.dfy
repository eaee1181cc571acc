/**
 * The `authenticateToken` middleware: take the second space-separated word
 * of the `Authorization` header as the token, reject with 401 when there is
 * none, with 403 when it does not verify, and otherwise attach the decoded
 * payload to the request and pass it on.
 */
module Guard {
  import opened Wrappers
  import opened Crypto
  import opened Http

  /**
   * JavaScript's `s.split(sep)` for a one-character separator: the pieces
   * between separators, an empty piece where two separators meet or one
   * stands at either end.
   */
  function Split(s: string, sep: char): (parts: seq<string>)
    ensures |parts| >= 1
    ensures forall i :: 0 <= i < |parts| ==> sep !in parts[i]
    ensures Join(parts, sep) == s
  {
    if |s| == 0 then [""]
    else
      var rest := Split(s[1..], sep);
      if s[0] == sep then
        [""] + rest
      else
        var first := [s[0]] + rest[0];
        JoinCons(rest, sep);
        [first] + rest[1..]
  }

  /** `parts.join(sep)`, the inverse of Split. */
  function Join(parts: seq<string>, sep: char): (s: string)
    requires |parts| >= 1
  {
    if |parts| == 1 then parts[0] else parts[0] + [sep] + Join(parts[1..], sep)
  }

  /** Joining is unaffected by which piece holds a leading character. */
  lemma JoinCons(parts: seq<string>, sep: char)
    requires |parts| >= 1
    ensures forall c: char :: Join([[c] + parts[0]] + parts[1..], sep) == [c] + Join(parts, sep)
  {
    forall c: char ensures Join([[c] + parts[0]] + parts[1..], sep) == [c] + Join(parts, sep) {
      var q := [[c] + parts[0]] + parts[1..];
      if |parts| > 1 {
        assert q[1..] == parts[1..];
      }
    }
  }

  /** A string without the separator splits into itself alone. */
  lemma {:induction false} SplitWithoutSeparator(s: string, sep: char)
    requires sep !in s
    ensures Split(s, sep) == [s]
  {
    if |s| > 0 {
      SplitWithoutSeparator(s[1..], sep);
    }
  }

  /** Splitting at the first separator: the word before it, then the pieces of the rest. */
  lemma {:induction false} SplitAtFirst(w: string, sep: char, rest: string)
    requires sep !in w
    ensures Split(w + [sep] + rest, sep) == [w] + Split(rest, sep)
  {
    var s := w + [sep] + rest;
    if |w| == 0 {
      assert s[1..] == rest;
    } else {
      assert s[1..] == w[1..] + [sep] + rest;
      SplitAtFirst(w[1..], sep, rest);
      assert [w[0]] + w[1..] == w;
    }
  }

  /** Split undoes Join whenever no piece contains the separator. */
  lemma {:induction false} SplitJoin(parts: seq<string>, sep: char)
    requires |parts| >= 1
    requires forall i :: 0 <= i < |parts| ==> sep !in parts[i]
    ensures Split(Join(parts, sep), sep) == parts
  {
    if |parts| == 1 {
      SplitWithoutSeparator(parts[0], sep);
    } else {
      SplitJoin(parts[1..], sep);
      SplitAtFirst(parts[0], sep, Join(parts[1..], sep));
      assert parts == [parts[0]] + parts[1..];
    }
  }

  /** The first piece of a split is empty exactly when the string is empty or starts with the separator. */
  lemma SplitFirstEmpty(s: string, sep: char)
    ensures Split(s, sep)[0] == [] <==> s == [] || s[0] == sep
  {
  }

  /** The first piece of a split is the longest prefix free of the separator. */
  lemma {:induction false} SplitFirstIsPrefix(s: string, sep: char)
    ensures Split(s, sep)[0] == s[..|Split(s, sep)[0]|]
    ensures |Split(s, sep)[0]| < |s| ==> s[|Split(s, sep)[0]|] == sep
  {
    if |s| > 0 && s[0] != sep {
      SplitFirstIsPrefix(s[1..], sep);
    }
  }

  /** `authHeader && authHeader.split(' ')[1]`, with a falsy result (absent, `''`, `undefined`) as None. */
  function BearerToken(header: Option<string>): (token: Option<string>)
    ensures token.Some? ==> header.Some? && token.value != [] && ' ' !in token.value
  {
    if header.None? || header.value == [] then None
    else
      var parts := Split(header.value, ' ');
      if |parts| < 2 || parts[1] == [] then None else Some(parts[1])
  }

  /** What the middleware decides: a 401, a 403, or `next()` with the decoded payload as `req.user`. */
  datatype GuardOutcome = Unauthorized | Forbidden | Proceed(user: Payload)

  /** The middleware's decision for a request carrying this header. */
  function Authenticate(header: Option<string>, j: Jwt): (outcome: GuardOutcome)
    ensures outcome.Unauthorized? <==> BearerToken(header).None?
    ensures outcome.Forbidden? <==> BearerToken(header).Some? && j.verify(BearerToken(header).value, SecretKey).None?
    ensures outcome.Proceed? ==> Some(outcome.user) == j.verify(BearerToken(header).value, SecretKey)
  {
    match BearerToken(header)
    case None => Unauthorized
    case Some(token) =>
      match j.verify(token, SecretKey)
      case None => Forbidden
      case Some(payload) => Proceed(payload)
  }

  /** `GET /protected`: the middleware, then `{ message: 'Protected route accessed' }`. */
  function ProtectedRoute(header: Option<string>, j: Jwt): (res: Response)
    ensures res.status == 401 <==> BearerToken(header).None?
    ensures res.status == 403 <==> Authenticate(header, j).Forbidden?
    ensures res.status == 200 <==> Authenticate(header, j).Proceed?
    ensures res.status in {200, 401, 403}
  {
    match Authenticate(header, j)
    case Unauthorized => Response(401, ErrorBody("Unauthorized"))
    case Forbidden => Response(403, ErrorBody("Forbidden"))
    case Proceed(_) => Response(200, MessageBody("Protected route accessed"))
  }

  /** An incoming request as the middleware sees it. */
  class Request {
    /** `req.headers['authorization']`. */
    const authorization: Option<string>
    /** `req.user`, set by the middleware on success. */
    var user: Option<Payload>

    constructor (authorization: Option<string>)
      ensures this.authorization == authorization && user == None
    {
      this.authorization := authorization;
      user := None;
    }

    /** `authenticateToken(req, res, next)`: decide, and on success set `req.user` before `next()`. */
    method AuthenticateToken(j: Jwt) returns (outcome: GuardOutcome)
      modifies this`user
      ensures outcome == Authenticate(authorization, j)
      ensures user == if outcome.Proceed? then Some(outcome.user) else old(user)
    {
      var token := BearerToken(authorization);
      if token.None? {
        return Unauthorized;
      }
      var decoded := j.verify(token.value, SecretKey);
      if decoded.None? {
        return Forbidden;
      }
      user := decoded;
      outcome := Proceed(decoded.value);
    }
  }

  /** A header without a space never yields a token: 401. */
  lemma UnauthorizedWithoutSpace(header: string, j: Jwt)
    requires ' ' !in header
    ensures Authenticate(Some(header), j) == Unauthorized
  {
    SplitWithoutSeparator(header, ' ');
  }

  /**
   * With a space present, the token is the longest space-free run right
   * after the first space, and there is none (401) exactly when that space
   * ends the header or is followed by another space. The first word is
   * never looked at.
   */
  lemma {:induction false} TokenAfterFirstSpace(w: string, rest: string)
    requires ' ' !in w
    ensures BearerToken(Some(w + " " + rest)).None? <==> rest == [] || rest[0] == ' '
    ensures BearerToken(Some(w + " " + rest)).Some? ==>
              var t := BearerToken(Some(w + " " + rest)).value;
              |t| <= |rest| && t == rest[..|t|] && (|t| == |rest| || rest[|t|] == ' ')
  {
    SplitAtFirst(w, ' ', rest);
    SplitFirstEmpty(rest, ' ');
    SplitFirstIsPrefix(rest, ' ');
    assert w + " " + rest == w + [' '] + rest;
  }

  /** The scheme word before the token is not checked: any space-free word works like "Bearer". */
  lemma SchemeWordIgnored(w: string, token: string, j: Jwt)
    requires ' ' !in w && ' ' !in token && token != []
    ensures BearerToken(Some(w + " " + token)) == Some(token)
    ensures Authenticate(Some(w + " " + token), j) == Authenticate(Some("Bearer " + token), j)
  {
    SplitWithoutSeparator(token, ' ');
    SplitAtFirst(w, ' ', token);
    SplitAtFirst("Bearer", ' ', token);
    assert w + " " + token == w + [' '] + token;
    assert "Bearer " + token == "Bearer" + [' '] + token;
  }

  /** A token signed with the server key, sent as "Bearer <token>", passes and attaches the signed payload. */
  lemma IssuedTokenAccepted(j: Jwt, p: Payload)
    requires JwtLaws(j)
    ensures Authenticate(Some("Bearer " + j.sign(p, SecretKey)), j) == Proceed(p)
    ensures ProtectedRoute(Some("Bearer " + j.sign(p, SecretKey)), j).status == 200
  {
    var token := j.sign(p, SecretKey);
    SchemeWordIgnored("Bearer", token, j);
  }
}
