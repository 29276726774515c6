/**
 * The base authentication class of the Basic-auth API: the path exemption
 * policy, the Authorization header lookup and the base current_user. All of
 * it is pure; a request is reduced to its header map.
 */
module Auth {
  import opened Wrappers
  import opened PyStr
  import opened UserModel

  datatype Request = Request(headers: map<string, string>)

  /** The two rules by which one exemption entry exempts a path. */
  predicate Exempts(excluded: string, path: string)
  {
    || (EndsWith(excluded, "*") && StartsWith(path, excluded[..|excluded| - 1]))
    || path == excluded
  }

  /** The loop over excluded_paths, returning at the first entry that exempts the path. */
  function ScanExemptions(path: string, excludedPaths: seq<string>): (required: bool)
    ensures !required <==> exists e :: e in excludedPaths && Exempts(e, path)
    decreases |excludedPaths|
  {
    if excludedPaths == [] then true
    else
      var e := excludedPaths[0];
      if EndsWith(e, "*") && StartsWith(path, e[..|e| - 1]) then
        assert Exempts(e, path);
        false
      else if path == e then
        assert Exempts(e, path);
        false
      else
        var r := ScanExemptions(path, excludedPaths[1..]);
        assert forall x :: x in excludedPaths[1..] ==> x in excludedPaths;
        assert forall x :: x in excludedPaths && x != e ==> x in excludedPaths[1..];
        r
  }

  /**
   * require_auth: authentication is required unless path is a non-empty
   * str that some entry exempts. excludedPaths is a list, never None: the
   * code iterates it without a check.
   */
  function RequireAuth(path: Arg, excludedPaths: seq<string>): (required: bool)
    ensures !path.StrArg? || path.s == "" ==> required
    ensures !required <==> path.StrArg? && path.s != "" && exists e :: e in excludedPaths && Exempts(e, path.s)
  {
    if !path.StrArg? || path.s == "" then true
    else ScanExemptions(path.s, excludedPaths)
  }

  /** The answer depends only on which entries the list holds, not on their order. */
  lemma RequireAuthIgnoresOrder(path: Arg, a: seq<string>, b: seq<string>)
    requires forall e :: e in a <==> e in b
    ensures RequireAuth(path, a) == RequireAuth(path, b)
  {
  }

  /** A bare "*" exempts every non-empty path. */
  lemma StarExemptsEverything(path: string)
    requires path != ""
    ensures !RequireAuth(StrArg(path), ["*"])
  {
    assert Exempts("*", path) by {
      assert "*"[..0] == "" && path[..0] == "";
    }
  }

  /** An exact entry has no trailing-slash tolerance. */
  lemma NoTrailingSlashTolerance()
    ensures RequireAuth(StrArg("/api/v1/status"), ["/api/v1/status/"])
    ensures !RequireAuth(StrArg("/api/v1/status/"), ["/api/v1/status/"])
  {
    assert !Exempts("/api/v1/status/", "/api/v1/status");
    assert Exempts("/api/v1/status/", "/api/v1/status/");
  }

  /** A wildcard entry only exempts paths under its prefix. */
  lemma WildcardIsPrefixOnly()
    ensures RequireAuth(StrArg("/api/v1/users/1"), ["/api/v1/status/*"])
    ensures !RequireAuth(StrArg("/api/v1/status/x"), ["/api/v1/status/*"])
  {
    var e := "/api/v1/status/*";
    assert e[..|e| - 1] == "/api/v1/status/";
    assert !StartsWith("/api/v1/users/1", "/api/v1/status/") by {
      assert "/api/v1/users/1"[..15][8] != "/api/v1/status/"[8];
    }
    assert "/api/v1/status/x"[..15] == "/api/v1/status/";
    assert Exempts(e, "/api/v1/status/x");
  }

  /** authorization_header: the Authorization value of the request, unchanged. */
  function AuthorizationHeader(request: Option<Request>): (header: Option<string>)
    ensures header.Some? <==> request.Some? && "Authorization" in request.value.headers
    ensures header.Some? ==> header.value == request.value.headers["Authorization"]
  {
    match request
    case None => None
    case Some(r) => if "Authorization" in r.headers then Some(r.headers["Authorization"]) else None
  }

  /** The base class authenticates nobody. */
  function CurrentUser(request: Option<Request>): (user: Option<User>)
    ensures user == None
  {
    None
  }
}
