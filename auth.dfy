/**
 * The admin authorization of server.js: the `authenticateToken` middleware
 * and the `/api/admin/login` handler.
 *
 * `jwt.verify`, `jwt.sign` and `bcrypt.compare` are foreign cryptographic
 * libraries; they are parameters here (`verify`, `sign`, `compare`), so every
 * result holds whatever those functions do.
 */
module Auth {
  import opened Common

  /** The payload a session token carries: the admin's id and username. */
  datatype Claims = Claims(id: int, username: string)

  /** A row of the `admin_users` table; `passwordHash` is the `password` column. */
  datatype Admin = Admin(id: int, username: string, passwordHash: string)

  /** The body of a successful login: `{ token, username }`. */
  datatype Session = Session(token: string, username: string)

  /** The middleware's decision: run the protected handler with `req.user`, or reject. */
  datatype Gate = Pass(user: Claims) | Deny(status: int, error: string)

  const ACCESS_DENIED := "访问被拒绝"
  const INVALID_TOKEN := "令牌无效"
  const USER_NOT_FOUND := "用户不存在"
  const WRONG_PASSWORD := "密码错误"

  // ---------------------------------------------------------------------
  // JavaScript's `s.split(' ')`
  // ---------------------------------------------------------------------

  /** The fields of `s` between single spaces; like `split(' ')`, never empty. */
  function Split(s: string): (fields: seq<string>)
    ensures |fields| >= 1
  {
    if s == [] then [""]
    else
      var rest := Split(s[1..]);
      if s[0] == ' ' then [""] + rest
      else [[s[0]] + rest[0]] + rest[1..]
  }

  /** The fields put back together with one space between neighbours (`join(' ')`). */
  function Join(fields: seq<string>): string
    requires |fields| >= 1
  {
    if |fields| == 1 then fields[0] else fields[0] + " " + Join(fields[1..])
  }

  predicate NoSpace(s: string)
  {
    forall i :: 0 <= i < |s| ==> s[i] != ' '
  }

  /** Splitting loses nothing: joining the fields gives the string back. */
  lemma {:induction false} JoinSplit(s: string)
    ensures Join(Split(s)) == s
  {
    if s != [] {
      JoinSplit(s[1..]);
      var rest := Split(s[1..]);
      if s[0] == ' ' {
        assert ([""] + rest)[1..] == rest;
      } else {
        if |rest| == 1 {
          assert s == [s[0]] + rest[0];
        } else {
          assert ([[s[0]] + rest[0]] + rest[1..])[1..] == rest[1..];
          assert Join(rest) == rest[0] + " " + Join(rest[1..]);
          assert s == [s[0]] + s[1..];
        }
      }
    }
  }

  /** No field of a split contains the separator. */
  lemma {:induction false} SplitFieldsHaveNoSpace(s: string)
    ensures forall i :: 0 <= i < |Split(s)| ==> NoSpace(Split(s)[i])
  {
    if s != [] {
      SplitFieldsHaveNoSpace(s[1..]);
      var rest := Split(s[1..]);
      if s[0] != ' ' {
        var first := [s[0]] + rest[0];
        assert NoSpace(first) by {
          forall i | 0 <= i < |first| ensures first[i] != ' ' {
            if i > 0 { assert first[i] == rest[0][i - 1]; }
          }
        }
      }
    }
  }

  /** A string without spaces is a single field. */
  lemma {:induction false} SplitNoSpace(a: string)
    requires NoSpace(a)
    ensures Split(a) == [a]
  {
    if a != [] {
      SplitNoSpace(a[1..]);
      assert [a[0]] + a[1..] == a;
    }
  }

  /** A space-free prefix before a space is the first field; the rest splits on its own. */
  lemma {:induction false} SplitAfterField(a: string, b: string)
    requires NoSpace(a)
    ensures Split(a + " " + b) == [a] + Split(b)
  {
    if a == [] {
      assert a + " " + b == [' '] + b;
      assert (a + " " + b)[1..] == b;
    } else {
      SplitAfterField(a[1..], b);
      assert (a + " " + b)[1..] == a[1..] + " " + b;
      assert [a[0]] + a[1..] == a;
    }
  }

  /** Splitting inverts joining for fields without spaces. */
  lemma {:induction false} SplitJoin(fields: seq<string>)
    requires |fields| >= 1
    requires forall i :: 0 <= i < |fields| ==> NoSpace(fields[i])
    ensures Split(Join(fields)) == fields
  {
    if |fields| == 1 {
      SplitNoSpace(fields[0]);
    } else {
      SplitJoin(fields[1..]);
      SplitAfterField(fields[0], Join(fields[1..]));
      assert [fields[0]] + fields[1..] == fields;
    }
  }

  // ---------------------------------------------------------------------
  // authenticateToken
  // ---------------------------------------------------------------------

  /**
   * `authHeader && authHeader.split(' ')[1]`, then the `!token` test: the
   * second space-separated field of the Authorization header, or None when
   * the header is missing or empty, has no space, or its second field is empty.
   * The scheme word before the space is not checked.
   */
  function BearerToken(authorization: Option<string>): (token: Option<string>)
    ensures authorization.None? || authorization == Some("") ==> token.None?
    ensures token.Some? ==> token.value != "" && NoSpace(token.value)
  {
    match authorization
    case None => None
    case Some(header) =>
      if header == "" then None
      else
        var fields := Split(header);
        SplitFieldsHaveNoSpace(header);
        if |fields| >= 2 && fields[1] != "" then Some(fields[1]) else None
  }

  /**
   * `header` is a space-free scheme word, one space, `token`, and then
   * nothing or more text that starts with a space.
   */
  predicate SecondFieldShape(header: string, scheme: string, token: string, rest: string)
  {
    NoSpace(scheme) && (rest == "" || rest[0] == ' ') && header == scheme + " " + token + rest
  }

  /**
   * The token is exactly the text between the header's first space and the
   * next space or the end of the header, when that text is not empty.
   */
  lemma BearerTokenIsSecondField(header: string, token: string)
    ensures BearerToken(Some(header)) == Some(token) <==>
      token != "" && NoSpace(token) &&
      exists scheme: string, rest: string :: SecondFieldShape(header, scheme, token, rest)
  {
    if BearerToken(Some(header)) == Some(token) {
      var scheme, rest := TokenHasSecondFieldShape(header, token);
      assert SecondFieldShape(header, scheme, token, rest);
    }
    if token != "" && NoSpace(token) &&
       exists scheme: string, rest: string :: SecondFieldShape(header, scheme, token, rest)
    {
      var scheme: string, rest: string :| SecondFieldShape(header, scheme, token, rest);
      SecondFieldShapeGivesToken(scheme, token, rest);
    }
  }

  lemma TokenHasSecondFieldShape(header: string, token: string) returns (scheme: string, rest: string)
    requires BearerToken(Some(header)) == Some(token)
    ensures token != "" && NoSpace(token) && NoSpace(scheme) && (rest == "" || rest[0] == ' ')
    ensures header == scheme + " " + token + rest
  {
    SplitFieldsHaveNoSpace(header);
    JoinSplit(header);
    var fields := Split(header);
    scheme := fields[0];
    rest := if |fields| == 2 then "" else " " + Join(fields[2..]);
    if |fields| == 2 {
      assert Join(fields[1..]) == fields[1];
    } else {
      assert Join(fields[1..]) == fields[1] + " " + Join(fields[2..]);
    }
    assert NoSpace(fields[1]);
  }

  lemma SecondFieldShapeGivesToken(scheme: string, token: string, rest: string)
    requires token != "" && NoSpace(token) && NoSpace(scheme) && (rest == "" || rest[0] == ' ')
    ensures BearerToken(Some(scheme + " " + token + rest)) == Some(token)
  {
    var header := scheme + " " + token + rest;
    assert header == scheme + " " + (token + rest);
    SplitAfterField(scheme, token + rest);
    if rest == "" {
      assert token + rest == token;
      SplitNoSpace(token);
    } else {
      assert token + rest == token + " " + rest[1..];
      SplitAfterField(token, rest[1..]);
    }
    assert Split(header)[1] == token;
  }

  /** The header a logged-in client sends, `Bearer <token>`, yields its token. */
  lemma BearerHeaderYieldsToken(token: string)
    requires token != "" && NoSpace(token)
    ensures BearerToken(Some("Bearer " + token)) == Some(token)
  {
    assert "Bearer " + token == "Bearer" + " " + token;
    SplitAfterField("Bearer", token);
    SplitNoSpace(token);
  }

  /**
   * `authenticateToken`: 401 without a token, 403 when `jwt.verify` rejects
   * it, otherwise the decoded payload is passed on as `req.user`.
   */
  function Authenticate(authorization: Option<string>, verify: string -> Option<Claims>): (gate: Gate)
    ensures gate == Deny(STATUS_UNAUTHORIZED, ACCESS_DENIED) <==> BearerToken(authorization).None?
    ensures gate == Deny(STATUS_FORBIDDEN, INVALID_TOKEN) <==>
      BearerToken(authorization).Some? && verify(BearerToken(authorization).value).None?
    ensures gate.Pass? <==>
      BearerToken(authorization).Some? && verify(BearerToken(authorization).value).Some?
    ensures gate.Pass? ==> verify(BearerToken(authorization).value) == Some(gate.user)
  {
    match BearerToken(authorization)
    case None => Deny(STATUS_UNAUTHORIZED, ACCESS_DENIED)
    case Some(token) =>
      match verify(token)
      case None => Deny(STATUS_FORBIDDEN, INVALID_TOKEN)
      case Some(user) => Pass(user)
  }

  // ---------------------------------------------------------------------
  // Login
  // ---------------------------------------------------------------------

  /** Row k is the first row of the table with that username. */
  predicate FirstWithName(admins: seq<Admin>, username: string, k: int)
  {
    0 <= k < |admins| && admins[k].username == username &&
    forall j :: 0 <= j < k ==> admins[j].username != username
  }

  /** `SELECT * FROM admin_users WHERE username = ?`: the rows with that username, in table order. */
  function Select(admins: seq<Admin>, username: string): (results: seq<Admin>)
    ensures forall a :: a in results <==> a in admins && a.username == username
    ensures results != [] ==> exists k :: FirstWithName(admins, username, k) && results[0] == admins[k]
  {
    if admins == [] then []
    else
      var rest := Select(admins[1..], username);
      if admins[0].username == username then
        assert FirstWithName(admins, username, 0);
        [admins[0]] + rest
      else
        assert forall k :: FirstWithName(admins[1..], username, k) ==> FirstWithName(admins, username, k + 1);
        rest
  }

  /**
   * The login handler: 500 on a query error, 401 when no admin has the
   * username, 401 when `bcrypt.compare(password, hash)` fails for the first
   * row with the username, otherwise a token signed over that row's
   * `{ id, username }` and its username.
   */
  function Login(admins: seq<Admin>, username: string, password: string, queryError: Option<string>,
                 compare: (string, string) -> bool, sign: Claims -> string): (r: Response<Session>)
    ensures queryError.Some? ==> r == Fail(STATUS_SERVER_ERROR, queryError.value)
    ensures queryError.None? && (forall a :: a in admins ==> a.username != username) ==>
      r == Fail(STATUS_UNAUTHORIZED, USER_NOT_FOUND)
    ensures forall k :: queryError.None? && FirstWithName(admins, username, k) ==>
      r == if compare(password, admins[k].passwordHash)
           then Ok(Session(sign(Claims(admins[k].id, admins[k].username)), admins[k].username))
           else Fail(STATUS_UNAUTHORIZED, WRONG_PASSWORD)
  {
    if queryError.Some? then Fail(STATUS_SERVER_ERROR, queryError.value)
    else
      var results := Select(admins, username);
      if |results| == 0 then Fail(STATUS_UNAUTHORIZED, USER_NOT_FOUND)
      else
        var admin := results[0];
        if !compare(password, admin.passwordHash) then Fail(STATUS_UNAUTHORIZED, WRONG_PASSWORD)
        else Ok(Session(sign(Claims(admin.id, admin.username)), admin.username))
  }

  /** A successful login was for the first admin row with that username, whose hash matched. */
  lemma LoginSucceeded(admins: seq<Admin>, username: string, password: string,
                       compare: (string, string) -> bool, sign: Claims -> string) returns (k: int)
    requires Login(admins, username, password, None, compare, sign).Ok?
    ensures FirstWithName(admins, username, k) && compare(password, admins[k].passwordHash)
    ensures Login(admins, username, password, None, compare, sign).body ==
      Session(sign(Claims(admins[k].id, username)), username)
  {
    var results := Select(admins, username);
    k :| FirstWithName(admins, username, k) && results[0] == admins[k];
  }

  /** With unique usernames, login succeeds exactly when the password matches the admin's hash. */
  lemma LoginUniqueAdmin(admins: seq<Admin>, k: int, password: string,
                         compare: (string, string) -> bool, sign: Claims -> string)
    requires 0 <= k < |admins|
    requires forall j :: 0 <= j < |admins| && j != k ==> admins[j].username != admins[k].username
    ensures var a := admins[k];
      Login(admins, a.username, password, None, compare, sign) ==
        if compare(password, a.passwordHash) then Ok(Session(sign(Claims(a.id, a.username)), a.username))
        else Fail(STATUS_UNAUTHORIZED, WRONG_PASSWORD)
  {
    assert FirstWithName(admins, admins[k].username, k);
  }

  /**
   * A token issued by a successful login, presented as `Bearer <token>`,
   * passes the gate with that admin's id and username, provided `verify`
   * accepts what `sign` produced (a JWT within its 24 hours) and the token
   * has no spaces (a JWT is three base64url parts joined by dots).
   */
  lemma LoginThenAuthenticate(admins: seq<Admin>, username: string, password: string,
                              compare: (string, string) -> bool, sign: Claims -> string,
                              verify: string -> Option<Claims>)
    requires Login(admins, username, password, None, compare, sign).Ok?
    requires forall c: Claims :: verify(sign(c)) == Some(c)
    requires forall c: Claims :: sign(c) != "" && NoSpace(sign(c))
    ensures forall k :: FirstWithName(admins, username, k) ==>
      var token := Login(admins, username, password, None, compare, sign).body.token;
      Authenticate(Some("Bearer " + token), verify) == Pass(Claims(admins[k].id, username))
  {
    var session := Login(admins, username, password, None, compare, sign).body;
    var k := LoginSucceeded(admins, username, password, compare, sign);
    BearerHeaderYieldsToken(session.token);
    assert verify(session.token) == Some(Claims(admins[k].id, username));
    forall k' | FirstWithName(admins, username, k') ensures k' == k { }
  }
}
