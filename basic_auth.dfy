/**
 * HTTP Basic authentication (section 2 of RFC 7617): the three chainable
 * steps that turn an Authorization header into an (email, password) pair,
 * the resolver that turns that pair into a stored user, and current_user,
 * which chains them and gives None as soon as one step gives None.
 */
module BasicAuth {
  import opened Wrappers
  import opened PyStr
  import opened Utf8
  import Base64
  import opened UserModel
  import Auth

  /** extract_base64_authorization_header: the part of the header after "Basic ". */
  function ExtractBase64AuthorizationHeader(header: Arg): (token: Option<string>)
    ensures token.Some? <==> header.StrArg? && StartsWith(header.s, "Basic ")
    ensures token.Some? ==> "Basic " + token.value == header.s
  {
    match header
    case StrArg(h) =>
      if StartsWith(h, "Basic ") then
        assert h[..5] == "Basic";
        Split1At(h, ' ', 5);
        assert h == h[..6] + h[6..];
        Some(Split1(h, ' ')[1])
      else None
    case _ => None
  }

  /**
   * decode_base64_authorization_header: b64decode of the token's UTF-8
   * bytes, then strict UTF-8 decoding; every failure gives None.
   */
  function DecodeBase64AuthorizationHeader(token: Arg): (text: Option<string>)
    ensures text.Some? ==> token.StrArg? && Base64.Decode(EncodeUtf8(token.s)) == Some(EncodeUtf8(text.value))
  {
    match token
    case StrArg(t) =>
      (match Base64.Decode(EncodeUtf8(t))
       case None => None
       case Some(bytes) =>
         match DecodeUtf8(bytes)
         case None => None
         case Some(text) =>
           DecodedIsEncoding(bytes);
           Some(text))
    case _ => None
  }

  /** Any token whose Base64 payload is the UTF-8 encoding of some text decodes to that text. */
  lemma DecodeAcceptsEncodedText(token: string, text: string)
    requires Base64.Decode(EncodeUtf8(token)) == Some(EncodeUtf8(text))
    ensures DecodeBase64AuthorizationHeader(StrArg(token)) == Some(text)
  {
    Utf8.DecodeEncode(text);
  }

  /** Round trip: the standard Base64 encoding of the UTF-8 bytes of any text decodes to that text. */
  lemma DecodeRoundTrip(text: string)
    ensures DecodeBase64AuthorizationHeader(StrArg(Base64.EncodeToText(EncodeUtf8(text)))) == Some(text)
  {
    Base64.DecodeEncode(EncodeUtf8(text));
    DecodeAcceptsEncodedText(Base64.EncodeToText(EncodeUtf8(text)), text);
  }

  /** extract_user_credentials: split at the first ':'; the password may hold further colons. */
  function ExtractUserCredentials(decoded: Arg): (creds: (Option<string>, Option<string>))
    ensures creds.0.Some? <==> decoded.StrArg? && ':' in decoded.s
    ensures creds.1.Some? <==> creds.0.Some?
    ensures creds.0.Some? ==> ':' !in creds.0.value && creds.0.value + ":" + creds.1.value == decoded.s
  {
    match decoded
    case StrArg(d) =>
      if ':' !in d then (None, None)
      else
        var parts := Split1(d, ':');
        (Some(parts[0]), Some(parts[1]))
    case _ => (None, None)
  }

  /** A user the resolver may return for these credentials. */
  predicate Accepts(u: User, email: string, pwd: string, isValidPassword: (User, string) -> bool)
  {
    u.email == email && isValidPassword(u, pwd)
  }

  /** The loop over the search result: the first user whose password validates. */
  function FirstValid(candidates: seq<User>, pwd: string, isValidPassword: (User, string) -> bool): (user: Option<User>)
    ensures user.Some? ==> user.value in candidates && isValidPassword(user.value, pwd)
    ensures user.None? ==> forall u :: u in candidates ==> !isValidPassword(u, pwd)
  {
    if candidates == [] then None
    else if isValidPassword(candidates[0], pwd) then Some(candidates[0])
    else FirstValid(candidates[1..], pwd, isValidPassword)
  }

  /** Searching by email and then taking the first valid password finds the first accepted user. */
  lemma {:induction false} FirstValidOfSearch(users: seq<User>, email: string, pwd: string, isValidPassword: (User, string) -> bool)
    ensures var r := FirstValid(SearchByEmail(users, email), pwd, isValidPassword);
      && (r.Some? ==> exists i :: 0 <= i < |users| && users[i] == r.value && Accepts(users[i], email, pwd, isValidPassword)
                                  && forall j :: 0 <= j < i ==> !Accepts(users[j], email, pwd, isValidPassword))
      && (r.None? ==> forall u :: u in users ==> !Accepts(u, email, pwd, isValidPassword))
  {
    if users != [] {
      var rest := users[1..];
      FirstValidOfSearch(rest, email, pwd, isValidPassword);
      var found := SearchByEmail(users, email);
      var r := FirstValid(found, pwd, isValidPassword);
      if Accepts(users[0], email, pwd, isValidPassword) {
        assert found == [users[0]] + SearchByEmail(rest, email);
        assert r == Some(users[0]);
      } else {
        assert r == FirstValid(SearchByEmail(rest, email), pwd, isValidPassword) by {
          if users[0].email == email {
            assert found == [users[0]] + SearchByEmail(rest, email);
            assert found[1..] == SearchByEmail(rest, email);
          } else {
            assert found == SearchByEmail(rest, email);
          }
        }
        if r.Some? {
          var i :| 0 <= i < |rest| && rest[i] == r.value && Accepts(rest[i], email, pwd, isValidPassword)
                   && forall j :: 0 <= j < i ==> !Accepts(rest[j], email, pwd, isValidPassword);
          assert users[i + 1] == rest[i];
          assert forall j :: 0 <= j < i + 1 ==> !Accepts(users[j], email, pwd, isValidPassword) by {
            forall j | 0 <= j < i + 1 ensures !Accepts(users[j], email, pwd, isValidPassword) {
              if j > 0 {
                assert users[j] == rest[j - 1];
              }
            }
          }
        } else {
          assert forall u :: u in users ==> u == users[0] || u in rest;
        }
      }
    }
  }

  /**
   * user_object_from_credentials: None for non-str arguments; otherwise
   * the first stored user, in search order, with that email and a password
   * that validates, or None if there is none.
   */
  function UserObjectFromCredentials(email: Arg, pwd: Arg, users: seq<User>,
                                     isValidPassword: (User, string) -> bool): (user: Option<User>)
    ensures user.Some? ==> email.StrArg? && pwd.StrArg? && user.value.email == email.s
    ensures user.Some? ==> exists i :: 0 <= i < |users| && users[i] == user.value
                                       && Accepts(users[i], email.s, pwd.s, isValidPassword)
                                       && forall j :: 0 <= j < i ==> !Accepts(users[j], email.s, pwd.s, isValidPassword)
    ensures user.None? <==> !email.StrArg? || !pwd.StrArg?
                            || forall u :: u in users ==> !Accepts(u, email.s, pwd.s, isValidPassword)
  {
    if !email.StrArg? then None
    else if !pwd.StrArg? then None
    else
      var found := SearchByEmail(users, email.s);
      FirstValidOfSearch(users, email.s, pwd.s, isValidPassword);
      if found == [] then
        assert forall u :: u in users ==> u.email != email.s;
        None
      else FirstValid(found, pwd.s, isValidPassword)
  }

  /** current_user: the whole chain applied to the request's Authorization header. */
  function CurrentUser(request: Option<Auth.Request>, users: seq<User>,
                       isValidPassword: (User, string) -> bool): (user: Option<User>)
    ensures user.Some? ==> user.value in users
  {
    if request.None? then None
    else match Auth.AuthorizationHeader(request)
      case None => None
      case Some(header) =>
        match ExtractBase64AuthorizationHeader(StrArg(header))
        case None => None
        case Some(token) =>
          match DecodeBase64AuthorizationHeader(StrArg(token))
          case None => None
          case Some(decoded) =>
            var (email, pwd) := ExtractUserCredentials(StrArg(decoded));
            if email.None? || pwd.None? then None
            else UserObjectFromCredentials(StrArg(email.value), StrArg(pwd.value), users, isValidPassword)
  }

  /** The header a client sends for these credentials. */
  function BasicHeader(email: string, pwd: string): string
  {
    "Basic " + Base64.EncodeToText(EncodeUtf8(email + ":" + pwd))
  }

  /** The scheme prefix comes off again: the token is what followed "Basic ". */
  lemma ExtractOfBasicPrefix(token: string)
    ensures ExtractBase64AuthorizationHeader(StrArg("Basic " + token)) == Some(token)
  {
    assert ("Basic " + token)[..6] == "Basic ";
  }

  /** Joining an email without ':' and any password with ':' and splitting again gives both back. */
  lemma CredentialsOfJoin(email: string, pwd: string)
    requires ':' !in email
    ensures ExtractUserCredentials(StrArg(email + ":" + pwd)) == (Some(email), Some(pwd))
  {
    var s := email + ":" + pwd;
    assert s[|email|] == ':';
    var creds := ExtractUserCredentials(StrArg(s));
    var e' := creds.0.value;
    assert e' == email by {
      assert |e'| == |email|;
      assert e' == s[..|e'|];
    }
    assert creds.1.value == pwd by {
      assert (email + ":" + creds.1.value)[|email| + 1..] == creds.1.value;
      assert s[|email| + 1..] == pwd;
    }
  }

  /** Credentials sent as RFC 7617 prescribes reach the resolver unchanged. */
  lemma CurrentUserOfBasicHeader(headers: map<string, string>, email: string, pwd: string,
                                 users: seq<User>, isValidPassword: (User, string) -> bool)
    requires ':' !in email
    requires "Authorization" in headers && headers["Authorization"] == BasicHeader(email, pwd)
    ensures CurrentUser(Some(Auth.Request(headers)), users, isValidPassword)
         == UserObjectFromCredentials(StrArg(email), StrArg(pwd), users, isValidPassword)
  {
    ExtractOfBasicPrefix(Base64.EncodeToText(EncodeUtf8(email + ":" + pwd)));
    DecodeRoundTrip(email + ":" + pwd);
    CredentialsOfJoin(email, pwd);
  }

  /** Whatever current_user returns passed every step on a well-formed header. */
  lemma CurrentUserSound(request: Option<Auth.Request>, users: seq<User>,
                         isValidPassword: (User, string) -> bool)
    requires CurrentUser(request, users, isValidPassword).Some?
    ensures var u := CurrentUser(request, users, isValidPassword).value;
      && request.Some? && "Authorization" in request.value.headers
      && var h := request.value.headers["Authorization"];
      && StartsWith(h, "Basic ") && ':' !in u.email
      && exists pwd :: isValidPassword(u, pwd) && Base64.Decode(EncodeUtf8(h[6..])) == Some(EncodeUtf8(u.email + ":" + pwd))
  {
    var u := CurrentUser(request, users, isValidPassword).value;
    var h := request.value.headers["Authorization"];
    var token := ExtractBase64AuthorizationHeader(StrArg(h)).value;
    assert h[6..] == token;
    var decoded := DecodeBase64AuthorizationHeader(StrArg(token)).value;
    var creds := ExtractUserCredentials(StrArg(decoded));
    var pwd := creds.1.value;
    assert u.email == creds.0.value;
    assert isValidPassword(u, pwd);
  }

  /** A header without the case-sensitive "Basic " scheme authenticates nobody. */
  lemma CurrentUserNeedsBasicScheme(request: Option<Auth.Request>, users: seq<User>,
                                    isValidPassword: (User, string) -> bool)
    requires request.None? || "Authorization" !in request.value.headers
             || !StartsWith(request.value.headers["Authorization"], "Basic ")
    ensures CurrentUser(request, users, isValidPassword).None?
  {
  }

  /** One three-byte group of the encoder, with its four sextets given as numbers. */
  lemma EncodeGroup(b0: Byte, b1: Byte, b2: Byte, c0: int, c1: int, c2: int, c3: int, y: seq<Byte>)
    requires c0 == b0 / 4 && c1 == (b0 % 4) * 16 + b1 / 16 && c2 == (b1 % 16) * 4 + b2 / 64 && c3 == b2 % 64
    ensures 0 <= c0 < 64 && 0 <= c1 < 64 && 0 <= c2 < 64 && 0 <= c3 < 64
    ensures Base64.Encode([b0, b1, b2] + y)
         == [Base64.SymbolByte(c0), Base64.SymbolByte(c1), Base64.SymbolByte(c2), Base64.SymbolByte(c3)] + Base64.Encode(y)
  {
    assert ([b0, b1, b2] + y)[3..] == y;
    Base64.EncodeLong([b0, b1, b2] + y);
  }

  lemma TestPassEncoding()
    ensures Base64.Encode([116, 101, 115, 116, 58, 112, 97, 115, 115])
         == [100, 71, 86, 122, 100, 68, 112, 119, 89, 88, 78, 122]
  {
    var z: seq<Byte> := [97, 115, 115];
    var yz: seq<Byte> := [116, 58, 112] + z;
    assert Base64.SymbolByte(29) == 100 && Base64.SymbolByte(6) == 71 && Base64.SymbolByte(21) == 86;
    assert Base64.SymbolByte(51) == 122 && Base64.SymbolByte(3) == 68 && Base64.SymbolByte(41) == 112;
    assert Base64.SymbolByte(48) == 119 && Base64.SymbolByte(24) == 89 && Base64.SymbolByte(23) == 88;
    assert Base64.SymbolByte(13) == 78;
    EncodeGroup(97, 115, 115, 24, 23, 13, 51, []);
    assert z + [] == z;
    EncodeGroup(116, 58, 112, 29, 3, 41, 48, z);
    EncodeGroup(116, 101, 115, 29, 6, 21, 51, yz);
    assert [116, 101, 115] + yz == [116, 101, 115, 116, 58, 112, 97, 115, 115];
  }

  lemma TestPassBytes()
    ensures EncodeUtf8("test:pass") == [116, 101, 115, 116, 58, 112, 97, 115, 115]
  {
    Utf8.EncodeAscii("test:pass");
  }

  lemma TestPassText(e: seq<Byte>)
    requires e == [100, 71, 86, 122, 100, 68, 112, 119, 89, 88, 78, 122]
    ensures seq(|e|, i requires 0 <= i < |e| => e[i] as char) == "dGVzdDpwYXNz"
  {
  }

  /** "test:pass" is sent as "dGVzdDpwYXNz". */
  lemma TestPassToken()
    ensures Base64.EncodeToText(EncodeUtf8("test:pass")) == "dGVzdDpwYXNz"
  {
    TestPassBytes();
    TestPassEncoding();
    var e := Base64.Encode(EncodeUtf8("test:pass"));
    TestPassText(e);
  }

  /** Decoding the token "dGVzdDpwYXNz" gives "test:pass". */
  lemma TestPassDecoded()
    ensures DecodeBase64AuthorizationHeader(StrArg("dGVzdDpwYXNz")) == Some("test:pass")
  {
    TestPassToken();
    DecodeRoundTrip("test:pass");
  }
}
