/** The basic-auth gate of `middleware.ts` and the route it rewrites to. The
    environment variables and the authorization header are inputs (an unset
    variable reads as the empty string); `atob` is a decoder passed in, which
    yields `None` where the browser function throws. */
module Middleware {

  datatype Option<T> = None | Some(value: T)

  // ---------------------------------------------------------------------------
  // `String.prototype.split` on one character

  /** `s.split(sep)`: the pieces between the occurrences of `sep`. */
  function Split(s: string, sep: char): (parts: seq<string>)
    ensures |parts| >= 1
    ensures forall i :: 0 <= i < |parts| ==> sep !in parts[i]
    ensures Join(parts, sep) == s
  {
    if s == [] then [""]
    else
      var rest := Split(s[1..], sep);
      if s[0] == sep then [""] + rest
      else
        var parts := [[s[0]] + rest[0]] + rest[1..];
        assert parts[1..] == rest[1..];
        parts
  }

  /** `parts.join(sep)`. */
  function Join(parts: seq<string>, sep: char): string
    requires |parts| >= 1
  {
    if |parts| == 1 then parts[0] else parts[0] + [sep] + Join(parts[1..], sep)
  }

  /** A string without the separator is one piece. */
  lemma {:induction false} SplitNone(s: string, sep: char)
    requires sep !in s
    ensures Split(s, sep) == [s]
  {
    if s != [] {
      SplitNone(s[1..], sep);
    }
  }

  /** A first piece without the separator, the separator, then the rest. */
  lemma {:induction false} SplitCons(w: string, sep: char, t: string)
    requires sep !in w
    ensures Split(w + [sep] + t, sep) == [w] + Split(t, sep)
  {
    if w == [] {
      assert w + [sep] + t == [sep] + t;
      assert ([sep] + t)[1..] == t;
    } else {
      assert (w + [sep] + t)[1..] == w[1..] + [sep] + t;
      SplitCons(w[1..], sep, t);
      assert [w[0]] + w[1..] == w;
    }
  }

  /** Splitting undoes joining pieces free of the separator. */
  lemma {:induction false} SplitJoin(parts: seq<string>, sep: char)
    requires |parts| >= 1 && forall i :: 0 <= i < |parts| ==> sep !in parts[i]
    ensures Split(Join(parts, sep), sep) == parts
  {
    if |parts| == 1 {
      SplitNone(parts[0], sep);
    } else {
      SplitJoin(parts[1..], sep);
      SplitCons(parts[0], sep, Join(parts[1..], sep));
    }
  }

  // ---------------------------------------------------------------------------
  // The credential check

  const DefaultUser: string := "admin"
  const DefaultPassword: string := "password"
  const AuthPath: string := "/api/auth"

  /** `process.env.BASIC_AUTH_USER || 'admin'`. */
  function ValidUser(envUser: string): (u: string)
    ensures envUser != "" ==> u == envUser
    ensures envUser == "" ==> u == DefaultUser
  {
    if envUser == "" then DefaultUser else envUser
  }

  /** `process.env.BASIC_AUTH_PASSWORD || 'password'`. */
  function ValidPassword(envPassword: string): (p: string)
    ensures envPassword != "" ==> p == envPassword
    ensures envPassword == "" ==> p == DefaultPassword
  {
    if envPassword == "" then DefaultPassword else envPassword
  }

  /** `basicAuth.split(' ')[1]` as `atob` receives it: a missing second field
      is `undefined`, which `atob` reads as the string "undefined". */
  function Token(header: string): (t: string)
    ensures ' ' !in t || t == "undefined"
  {
    var fields := Split(header, ' ');
    if |fields| >= 2 then fields[1] else "undefined"
  }

  /** `const [user, pwd] = decoded.split(':')` followed by the comparison; a
      missing second field is `undefined` and equals no string. */
  predicate Accepts(decoded: string, user: string, password: string) {
    var fields := Split(decoded, ':');
    fields[0] == user && |fields| >= 2 && fields[1] == password
  }

  /** The decoded text the check accepts: the user, a colon, the password and
      any further colon-separated fields. */
  lemma AcceptsExactly(decoded: string, user: string, password: string)
    ensures Accepts(decoded, user, password) <==>
      exists rest: seq<string> :: Shaped(decoded, user, password, rest)
  {
    if Accepts(decoded, user, password) {
      AcceptedShape(decoded, user, password);
    }
    if exists rest: seq<string> :: Shaped(decoded, user, password, rest) {
      var rest: seq<string> :| Shaped(decoded, user, password, rest);
      ShapeAccepted(decoded, user, password, rest);
    }
  }

  /** `decoded` joins the user, the password and the further fields `rest` with
      colons, none of them holding a colon. */
  predicate Shaped(decoded: string, user: string, password: string, rest: seq<string>) {
    && (forall i :: 0 <= i < |rest| ==> ':' !in rest[i])
    && ':' !in user && ':' !in password
    && decoded == Join([user, password] + rest, ':')
  }

  lemma AcceptedShape(decoded: string, user: string, password: string)
    requires Accepts(decoded, user, password)
    ensures Shaped(decoded, user, password, Split(decoded, ':')[2..])
  {
    var fields := Split(decoded, ':');
    var rest := fields[2..];
    assert fields == [user, password] + rest;
    forall i | 0 <= i < |rest| ensures ':' !in rest[i] {
      assert rest[i] == fields[i + 2];
    }
  }

  lemma ShapeAccepted(decoded: string, user: string, password: string, rest: seq<string>)
    requires Shaped(decoded, user, password, rest)
    ensures Accepts(decoded, user, password)
  {
    var all := [user, password] + rest;
    forall i | 0 <= i < |all| ensures ':' !in all[i] {
      if i >= 2 {
        assert all[i] == rest[i - 2];
      }
    }
    SplitJoin(all, ':');
  }

  /** A password that contains a colon is never accepted, whatever is sent. */
  lemma ColonPasswordRejected(decoded: string, user: string, password: string)
    requires ':' in password
    ensures !Accepts(decoded, user, password)
  {
  }

  /** The user, a colon and the password are accepted when neither holds a colon. */
  lemma AcceptsPair(user: string, password: string)
    requires ':' !in user && ':' !in password
    ensures Accepts(user + [':'] + password, user, password)
  {
    SplitCons(user, ':', password);
    SplitNone(password, ':');
  }

  /** Anything after a second colon is ignored: `admin:password:x` passes. */
  lemma ExtraFieldsIgnored(user: string, password: string, extra: string)
    requires ':' !in user && ':' !in password
    ensures Accepts(user + [':'] + password + [':'] + extra, user, password)
  {
    assert user + [':'] + password + [':'] + extra == user + [':'] + (password + [':'] + extra);
    SplitCons(user, ':', password + [':'] + extra);
    SplitCons(password, ':', extra);
  }

  // ---------------------------------------------------------------------------
  // The decision

  /** What `middleware` returns: `NextResponse.next()`, a rewrite to a path, or
      an exception thrown by `atob` on a token that is not base64. */
  datatype Outcome = Next | Rewrite(pathname: string) | Thrown

  /** `middleware(request)`; `enabled`, `envUser` and `envPassword` are the
      three environment variables and `header` the authorization header. */
  function Decide(enabled: string, envUser: string, envPassword: string,
                  header: Option<string>, atob: string -> Option<string>): (o: Outcome)
    ensures enabled != "true" ==> o == Next
    ensures o == Next <==>
      enabled != "true"
      || (header.Some? && header.value != "" && atob(Token(header.value)).Some?
          && Accepts(atob(Token(header.value)).value, ValidUser(envUser), ValidPassword(envPassword)))
    ensures o.Rewrite? ==> o.pathname == AuthPath
    ensures o == Thrown ==> enabled == "true" && header.Some? && atob(Token(header.value)).None?
  {
    if enabled != "true" then Next
    else if header.Some? && header.value != "" then
      match atob(Token(header.value))
      case None => Thrown
      case Some(decoded) =>
        if Accepts(decoded, ValidUser(envUser), ValidPassword(envPassword)) then Next
        else Rewrite(AuthPath)
    else Rewrite(AuthPath)
  }

  /** Only the field after the first space is decoded: the scheme word in front
      of it is never looked at. */
  lemma SchemeIgnored(scheme1: string, scheme2: string, rest: string)
    requires ' ' !in scheme1 && ' ' !in scheme2
    ensures Token(scheme1 + " " + rest) == Token(scheme2 + " " + rest)
  {
    SplitCons(scheme1, ' ', rest);
    SplitCons(scheme2, ' ', rest);
  }

  /** With neither credential variable set, `admin:password` gets through. */
  lemma DefaultCredentials(scheme: string, token: string, atob: string -> Option<string>)
    requires ' ' !in scheme && ' ' !in token && atob(token) == Some("admin:password")
    ensures Decide("true", "", "", Some(scheme + " " + token), atob) == Next
  {
    SplitCons(scheme, ' ', token);
    SplitNone(token, ' ');
    assert Accepts("admin:password", DefaultUser, DefaultPassword) by {
      assert "admin:password" == DefaultUser + [':'] + DefaultPassword;
      AcceptsPair(DefaultUser, DefaultPassword);
    }
  }

  /** A header with no space hands "undefined" to the decoder. */
  lemma NoSpaceHeader(header: string)
    requires ' ' !in header
    ensures Token(header) == "undefined"
  {
    SplitNone(header, ' ');
  }

  // ---------------------------------------------------------------------------
  // The matcher and the served response

  /** The alternatives of the matcher's negative look-ahead, as regular
      expressions: the `.` of `favicon.ico` matches any character. */
  const Exempt: seq<string> := ["api/auth", "_next/static", "_next/image", "favicon.ico"]

  /** `s` begins with a match of the dot-wildcard pattern `pattern`. */
  predicate MatchesAtStart(s: string, pattern: string) {
    |pattern| <= |s| && forall i :: 0 <= i < |pattern| ==> pattern[i] == '.' || s[i] == pattern[i]
  }

  /** `'/((?!api/auth|_next/static|_next/image|favicon.ico).*)'`: the paths
      the middleware runs on. */
  predicate Guarded(path: string) {
    |path| >= 1 && path[0] == '/'
    && forall k :: 0 <= k < |Exempt| ==> !MatchesAtStart(path[1..], Exempt[k])
  }

  /** A path that begins with an exempt prefix is not guarded, whatever follows;
      `/api/authx` and `/favicon-ico` are exempt too. */
  lemma ExemptPrefixes(rest: string, c: char)
    ensures !Guarded(AuthPath + rest)
    ensures !Guarded("/_next/static" + rest) && !Guarded("/_next/image" + rest)
    ensures !Guarded("/favicon" + [c] + "ico" + rest)
    ensures !Guarded("/api/authx")
  {
    assert (AuthPath + rest)[1..] == "api/auth" + rest;
    assert MatchesAtStart((AuthPath + rest)[1..], Exempt[0]);
    assert ("/_next/static" + rest)[1..] == "_next/static" + rest;
    assert MatchesAtStart(("/_next/static" + rest)[1..], Exempt[1]);
    assert ("/_next/image" + rest)[1..] == "_next/image" + rest;
    assert MatchesAtStart(("/_next/image" + rest)[1..], Exempt[2]);
    var f := "/favicon" + [c] + "ico" + rest;
    assert f[1..] == "favicon" + [c] + "ico" + rest;
    assert MatchesAtStart(f[1..], Exempt[3]);
    assert "/api/authx" == AuthPath + "x";
  }

  /** Every other path that starts with `/` is guarded, the root included. */
  lemma GuardedPaths(path: string)
    requires |path| >= 1 && path[0] == '/'
    requires forall k :: 0 <= k < |Exempt| ==> !MatchesAtStart(path[1..], Exempt[k])
    ensures Guarded(path)
  {
  }

  lemma RootGuarded()
    ensures Guarded("/")
  {
    assert "/"[1..] == "";
  }

  /** The challenge of `app/api/auth/route.ts`. */
  const Challenge: string := "Basic realm=\"Secure Area\""

  /** What a request ends in: the page at a path, the 401 challenge, or a
      server error from the thrown exception. */
  datatype Response = Page(path: string) | Unauthorized(status: int, challenge: string, body: string) | ServerError

  /** The route that answers a path once the middleware is done: `/api/auth`
      answers every GET with the challenge, any other path its page. */
  function Route(path: string): (r: Response)
    ensures path == AuthPath ==> r == Unauthorized(401, Challenge, "Authentication required")
    ensures path != AuthPath ==> r == Page(path)
  {
    if path == AuthPath then Unauthorized(401, "Basic realm=\"Secure Area\"", "Authentication required")
    else Page(path)
  }

  /** A GET request to `path`: the middleware runs only on guarded paths. */
  function Serve(path: string, enabled: string, envUser: string, envPassword: string,
                 header: Option<string>, atob: string -> Option<string>): Response
  {
    if !Guarded(path) then Route(path)
    else
      match Decide(enabled, envUser, envPassword, header, atob)
      case Next => Route(path)
      case Rewrite(p) => Route(p)
      case Thrown => ServerError
  }

  /** The rewrite target is itself exempt, so a rewritten request is never
      checked again. */
  lemma AuthPathExempt()
    ensures !Guarded(AuthPath)
  {
    ExemptPrefixes("", 'x');
    assert AuthPath + "" == AuthPath;
  }

  /** With the gate off every path is served as if there were no middleware. */
  lemma GateDisabled(path: string, enabled: string, envUser: string, envPassword: string,
                     header: Option<string>, atob: string -> Option<string>)
    requires enabled != "true"
    ensures Serve(path, enabled, envUser, envPassword, header, atob) == Route(path)
  {
  }

  /** With the gate on, a guarded request without a header, or whose decoded
      credentials do not match, is answered by the 401 challenge; one whose
      credentials match reaches its page. */
  lemma GateEnabled(path: string, envUser: string, envPassword: string,
                    header: Option<string>, atob: string -> Option<string>)
    requires Guarded(path)
    ensures header.None? || header.value == "" ==>
      Serve(path, "true", envUser, envPassword, header, atob) == Unauthorized(401, Challenge, "Authentication required")
    ensures header.Some? && header.value != "" && atob(Token(header.value)).Some? ==>
      Serve(path, "true", envUser, envPassword, header, atob) ==
        if Accepts(atob(Token(header.value)).value, ValidUser(envUser), ValidPassword(envPassword))
        then Route(path)
        else Unauthorized(401, Challenge, "Authentication required")
  {
  }
}
