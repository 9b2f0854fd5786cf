/**
 * The authentication middleware: `verifyJWT` checks the Authorization header
 * and the bearer token, `requireRole` checks the attached user's role.
 * Token verification (signature, expiry, secret) is an opaque function
 * giving the decoded payload or nothing.
 */
module Auth {
  import opened Wrappers

  /** The decoded token payload attached to the request as `req.user`. */
  datatype Claims = Claims(id: string, role: Option<string>)

  datatype AuthOutcome =
    | Unauthorized(message: string)  // 401
    | Proceed(user: Claims)          // `next()` with `req.user` set

  datatype RoleOutcome =
    | Forbidden                      // 403 'Forbidden: insufficient permissions'
    | Allowed                        // `next()`

  const BearerPrefix: string := "Bearer "

  predicate StartsWith(s: string, prefix: string) {
    |prefix| <= |s| && s[..|prefix|] == prefix
  }

  /** `s.split(sep)`: the pieces between separators; there is always at least one. */
  function Split(s: string, sep: char): (parts: seq<string>)
    ensures |parts| >= 1
    ensures forall i :: 0 <= i < |parts| ==> sep !in parts[i]
  {
    if s == [] then [[]]
    else
      var rest := Split(s[1..], sep);
      if s[0] == sep then [[]] + rest else [[s[0]] + rest[0]] + rest[1..]
  }

  /** `parts.join(sep)`. */
  function Join(parts: seq<string>, sep: char): string
    requires |parts| >= 1
  {
    if |parts| == 1 then parts[0] else parts[0] + [sep] + Join(parts[1..], sep)
  }

  /** Splitting loses nothing: joining the pieces gives the string back. */
  lemma {:induction false} JoinSplit(s: string, sep: char)
    ensures Join(Split(s, sep), sep) == s
  {
    if s != [] {
      var rest := Split(s[1..], sep);
      JoinSplit(s[1..], sep);
      if s[0] != sep {
        if |rest| == 1 {
          assert Split(s, sep) == [[s[0]] + rest[0]];
        } else {
          assert Split(s, sep)[1..] == rest[1..];
        }
      }
    }
  }

  /** A first piece without separators is split off as it is. */
  lemma {:induction false} SplitAfterWord(word: string, sep: char, rest: string)
    requires sep !in word
    ensures Split(word + [sep] + rest, sep) == [word] + Split(rest, sep)
    decreases |word|
  {
    var s := word + [sep] + rest;
    if word == [] {
      assert s[1..] == rest;
    } else {
      assert s[1..] == word[1..] + [sep] + rest;
      SplitAfterWord(word[1..], sep, rest);
      var r := Split(s[1..], sep);
      assert s[0] == word[0] && word[0] != sep;
      assert [s[0]] + r[0] == word;
    }
  }

  /** `authHeader.split(' ')[1]` for a header that starts with "Bearer ". */
  function TokenOfHeader(header: string): (token: string)
    requires StartsWith(header, BearerPrefix)
    ensures ' ' !in token
  {
    assert header == "Bearer" + [' '] + header[7..];
    SplitAfterWord("Bearer", ' ', header[7..]);
    Split(header, ' ')[1]
  }

  /** The token is what follows "Bearer " up to the next space. */
  lemma BearerToken(header: string)
    requires StartsWith(header, BearerPrefix)
    ensures TokenOfHeader(header) == Split(header[7..], ' ')[0]
    ensures ' ' !in header[7..] ==> TokenOfHeader(header) == header[7..]
  {
    assert header == "Bearer" + [' '] + header[7..];
    SplitAfterWord("Bearer", ' ', header[7..]);
    if ' ' !in header[7..] {
      JoinSplit(header[7..], ' ');
    }
  }

  /**
   * `verifyJWT`: a missing header, or one not starting with "Bearer ", is
   * refused; otherwise the extracted token is verified and its payload attached.
   */
  function VerifyJwt(authorization: Option<string>, verify: string -> Option<Claims>): (r: AuthOutcome)
    ensures r.Proceed? <==>
      authorization.Some? && StartsWith(authorization.value, BearerPrefix) && verify(TokenOfHeader(authorization.value)).Some?
    ensures r.Proceed? ==> r.user == verify(TokenOfHeader(authorization.value)).value
    ensures (authorization.None? || !StartsWith(authorization.value, BearerPrefix)) ==>
      r == Unauthorized("Missing or invalid Authorization header")
    ensures (authorization.Some? && StartsWith(authorization.value, BearerPrefix) &&
             verify(TokenOfHeader(authorization.value)).None?) ==>
      r == Unauthorized("Invalid or expired token")
  {
    match authorization
    case None => Unauthorized("Missing or invalid Authorization header")
    case Some(header) =>
      if header == "" || !StartsWith(header, BearerPrefix) then Unauthorized("Missing or invalid Authorization header")
      else match verify(TokenOfHeader(header))
        case None => Unauthorized("Invalid or expired token")
        case Some(claims) => Proceed(claims)
  }

  /** `requireRole(...roles)`: passes exactly when a user is attached and its role is listed. */
  function RequireRole(roles: seq<string>, user: Option<Claims>): (r: RoleOutcome)
    ensures r == Allowed <==> user.Some? && user.value.role.Some? && user.value.role.value in roles
  {
    if user.None? || user.value.role.None? || user.value.role.value !in roles then Forbidden else Allowed
  }
}
