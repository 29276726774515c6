# A verified model of the alx-backend-user-data authentication core

This project models the credential-handling core of the repository and proves properties of that model. It covers five parts:

- **HTTP Basic authentication** (section 2 of RFC 7617), in `basic_auth.dfy`.
  - Three classes of Python input are distinguished: a missing argument, a `str`, and any other value.
  - Extraction strips the case-sensitive `"Basic "` scheme.
  - Decoding applies `base64.b64decode` and then strict UTF-8. The Base64 decoder (`base64.dfy`) is binascii's non-strict decoder: bytes outside the alphabet of section 4 of RFC 4648 are skipped, and an unfinished quantum is the padding error. UTF-8 (`utf8.dfy`) follows RFC 3629.
  - The decoded text is split at its first `':'`.
  - A resolver searches the stored users by email and returns the first whose password validates.
  - `current_user` chains all of these steps.
- **The path exemption policy** of the base `Auth` class (`auth.dfy`). It also covers the `Authorization` header lookup and the base `current_user`, which authenticates nobody.
- **The PII redactor** (`filtered_logger.dfy`, `redact_scan.dfy`, `format_example.dfy`).
  - `filter_datum` is `re.sub` with the pattern `(f1|…|fn)=.*?sep`. It is modelled as an explicit left-to-right scanner. Alternatives are tried in list order. The value is the shortest run up to the first separator, and it stops at a newline.
  - `RedactingFormatter` becomes a class. Its `Format` loop applies `filter_datum` once per configured field.
- **The SQLAlchemy-backed user store** `DB` (`db.dfy`). It is a class over an in-memory sequence of records. `add_user` appends, `find_user_by` demands exactly one match, and `update_user` applies keyword changes in order.
- **Registration** in the authentication service (`auth_service.dfy`). `bcrypt.hashpw` is an uninterpreted function of (password bytes, salt).

Module layout:

- `wrappers.dfy` holds `Option` and `Result`.
- `pystr.dfy` holds the few `str` operations the code relies on.
- `user_model.dfy` holds the unseen `User` model with `User.search`.

### Where the code differs from the design

The model follows the code where the two differ:

- **Duplicate registration.**
  - The design says duplicate registration fails and the store enforces email uniqueness.
  - The code stores the duplicate (see Findings).
  - Nothing shown declares a uniqueness constraint.
- **An unset exemption list.**
  - The design requires authentication when the exemption list is unset.
  - The live `require_auth` iterates the list without checking it. The model takes the list as a non-null `seq<string>` and adds no fail-secure branch.
- **Which definition is live.**
  - Python keeps the later of two same-named methods.
  - The live `require_auth` is the second one, and the live decoder is the second `decode_base64_authorization_header`.
  - The earlier drafts are not modelled.

## Model

| member | source | states |
|---|---|---|
| PyStr.Split1 | 0x01-Basic_authentication/api/v1/auth/basic_auth.py:99 | `split(sep, 1)`: the whole string when sep is absent; otherwise two parts, the first without sep, with `parts[0] + sep + parts[1]` equal to the input |
| PyStr.StartsWith | 0x01-Basic_authentication/api/v1/auth/auth.py:78-79 | `str.startswith`: the prefix is the string's first characters (specified by its definition; used by Auth.Exempts and the `"Basic "` test) |
| PyStr.EndsWith | 0x01-Basic_authentication/api/v1/auth/auth.py:78 | `str.endswith`: the suffix is the string's last characters (specified by its definition; used by Auth.Exempts) |
| PyStr.SplitAll | 0x00-personal_data/filtered_logger.py:42 | Cutting a text at every one-character separator gives at least one piece, no piece holds the separator, and the pieces joined with it are the text |
| PyStr.SplitJoin | 0x00-personal_data/filtered_logger.py:42 | `sep.join` of pieces free of the separator is undone by cutting at the separator, so the pieces come back unchanged |
| PyStr.JoinFree | 0x00-personal_data/filtered_logger.py:42 | A character other than the separator that no piece holds is absent from their join |
| BasicAuth.ExtractBase64AuthorizationHeader | 0x01-Basic_authentication/api/v1/auth/basic_auth.py:25-35 | A token is returned exactly when the header is a str starting with the case-sensitive `"Basic "`, so None, non-str, `"basic x"` and `"Basicx"` give None; `"Basic " + token` is the header |
| BasicAuth.ExtractOfBasicPrefix | 0x01-Basic_authentication/api/v1/auth/basic_auth.py:31-35 | Extraction returns exactly what follows `"Basic "`, whatever the token is (spaces included) |
| BasicAuth.DecodeBase64AuthorizationHeader | 0x01-Basic_authentication/api/v1/auth/basic_auth.py:67-78 | A decoded text is returned only for a str token whose b64decode bytes are exactly the UTF-8 encoding of that text; None, non-str, bad padding and invalid UTF-8 give None |
| BasicAuth.DecodeAcceptsEncodedText | 0x01-Basic_authentication/api/v1/auth/basic_auth.py:73-76 | The converse: when b64decode yields the UTF-8 encoding of some text, decoding returns that text |
| BasicAuth.DecodeRoundTrip | 0x01-Basic_authentication/api/v1/auth/basic_auth.py:73-76 | Decoding the standard Base64 encoding of the UTF-8 bytes of any text gives that text back |
| BasicAuth.TestPassToken | 0x01-Basic_authentication/api/v1/auth/basic_auth.py:73-76 | `"test:pass"` encodes to the token `"dGVzdDpwYXNz"` |
| BasicAuth.TestPassDecoded | 0x01-Basic_authentication/api/v1/auth/basic_auth.py:73-76 | The token `"dGVzdDpwYXNz"` decodes to `"test:pass"` |
| BasicAuth.ExtractUserCredentials | 0x01-Basic_authentication/api/v1/auth/basic_auth.py:90-100 | Both parts exist exactly when the input is a str containing `':'` (otherwise `(None, None)`); the email has no `':'` and `email + ":" + pwd` is the input, so the password may hold colons |
| BasicAuth.CredentialsOfJoin | 0x01-Basic_authentication/api/v1/auth/basic_auth.py:99-100 | An email without `':'` joined to any password is split back into exactly those two |
| UserModel.SearchByEmail | 0x01-Basic_authentication/api/v1/auth/basic_auth.py:119 | The search result holds exactly the stored users with that email |
| BasicAuth.FirstValid | 0x01-Basic_authentication/api/v1/auth/basic_auth.py:124-127 | The loop's result is a candidate whose password validates; None means no candidate's does |
| BasicAuth.FirstValidOfSearch | 0x01-Basic_authentication/api/v1/auth/basic_auth.py:119-127 | Search then loop returns the first stored user, in storage order, with the email and a valid password; None means there is none |
| BasicAuth.UserObjectFromCredentials | 0x01-Basic_authentication/api/v1/auth/basic_auth.py:113-127 | None exactly when an argument is not a str or no stored user has the email and a valid password; otherwise the first such user, whose email equals the argument |
| BasicAuth.CurrentUser | 0x01-Basic_authentication/api/v1/auth/basic_auth.py:133-158 | A returned user is one of the stored users |
| BasicAuth.CurrentUserOfBasicHeader | 0x01-Basic_authentication/api/v1/auth/basic_auth.py:133-158 | For a header `"Basic " + base64(utf8(email + ":" + pwd))` with a colon-free email, current_user equals the resolver applied to email and pwd |
| BasicAuth.CurrentUserSound | 0x01-Basic_authentication/api/v1/auth/basic_auth.py:133-158 | A returned user came through every stage: the request has an Authorization header starting with `"Basic "`, and its token decodes to that user's email, `':'` and a password that validates for the user |
| BasicAuth.CurrentUserNeedsBasicScheme | 0x01-Basic_authentication/api/v1/auth/basic_auth.py:133-144 | No request, no Authorization header, or a header without the `"Basic "` scheme gives None |
| Base64.Run | 0x01-Basic_authentication/api/v1/auth/basic_auth.py:75 | The non-strict decoding loop of `b64decode` (`binascii.a2b_base64`) over the state quad position, pad count and leftover bits; its behaviour is stated by Base64.DecodeEncode, Base64.DecodeWithoutPad and Base64.DecodeSkipsForeignByte |
| Base64.Decode | 0x01-Basic_authentication/api/v1/auth/basic_auth.py:75 | `b64decode` with `validate=False`: Run from the start state; None is the `binascii.Error` the `except` turns into None (stated by the three lemmas below) |
| Base64.Encode | 0x01-Basic_authentication/api/v1/auth/basic_auth.py:75 | The standard padded encoding, the reference b64decode inverts: its length is a multiple of four |
| Base64.DecodeEncode | 0x01-Basic_authentication/api/v1/auth/basic_auth.py:75 | b64decode of the standard encoding of any bytes gives them back |
| Base64.DecodeWithoutPad | 0x01-Basic_authentication/api/v1/auth/basic_auth.py:75-78 | Without `'='`, input decodes exactly when its alphabet symbols fill whole quanta; otherwise it is the padding error that becomes None |
| Base64.DecodeSkipsForeignByte | 0x01-Basic_authentication/api/v1/auth/basic_auth.py:75 | With `validate=False`, a byte outside the alphabet (other than `'='`) anywhere in the input does not change the result |
| Utf8.EncodeUtf8 | 0x01-Basic_authentication/api/v1/auth/basic_auth.py:74 | `str.encode('utf-8')`: at least one byte per character; Utf8.DecodeEncode and Utf8.EncodeAscii state what the bytes are |
| Utf8.DecodeUtf8 | 0x01-Basic_authentication/api/v1/auth/basic_auth.py:76 | Strict `bytes.decode('utf-8')`, None for the `UnicodeDecodeError` the `except` turns into None; Utf8.DecodeUtf8Exact and Utf8.DecodedIsEncoding state what it accepts |
| Utf8.DecodeUtf8Exact | 0x01-Basic_authentication/api/v1/auth/basic_auth.py:74-76 | Strict decoding gives a text exactly when the bytes are that text's UTF-8 encoding |
| Utf8.DecodeEncode | 0x01-Basic_authentication/api/v1/auth/basic_auth.py:74-76 | Decoding the UTF-8 encoding of any text gives it back |
| Utf8.DecodedIsEncoding | 0x01-Basic_authentication/api/v1/auth/basic_auth.py:76 | Whatever strict decoding accepts is the encoding of what it returns, so overlong, surrogate and out-of-range forms are refused |
| Utf8.EncodeAscii | 0x01-Basic_authentication/api/v1/auth/basic_auth.py:74 | An ASCII text encodes to one byte per character, its code |
| Auth.ScanExemptions | 0x01-Basic_authentication/api/v1/auth/auth.py:77-84 | The loop returns False exactly when some entry exempts the path, by the trailing-`*` prefix rule or by equality |
| Auth.RequireAuth | 0x01-Basic_authentication/api/v1/auth/auth.py:74-84 | True for a path that is None, empty or not a str; False exactly when the path is a non-empty str that some entry exempts, so an empty list gives True |
| Auth.RequireAuthIgnoresOrder | 0x01-Basic_authentication/api/v1/auth/auth.py:77-84 | Lists holding the same entries give the same answer, whatever their order |
| Auth.StarExemptsEverything | 0x01-Basic_authentication/api/v1/auth/auth.py:78-80 | A bare `"*"` exempts every non-empty path |
| Auth.NoTrailingSlashTolerance | 0x01-Basic_authentication/api/v1/auth/auth.py:81-82 | `"/api/v1/status"` is not exempted by `"/api/v1/status/"`, while `"/api/v1/status/"` is |
| Auth.WildcardIsPrefixOnly | 0x01-Basic_authentication/api/v1/auth/auth.py:77-84 | `"/api/v1/status/*"` exempts `"/api/v1/status/x"` but not `"/api/v1/users/1"` |
| Auth.AuthorizationHeader | 0x01-Basic_authentication/api/v1/auth/auth.py:48-52 | A value exactly when there is a request with an `"Authorization"` key, and then that header's value unchanged |
| Auth.CurrentUser | 0x01-Basic_authentication/api/v1/auth/auth.py:54-64 | The base class returns None for every request |
| Auth.Exempts | 0x01-Basic_authentication/api/v1/auth/auth.py:78-82 | One entry's test: a trailing `*` exempts every path starting with the rest of the entry, any other entry only the identical path (specified by its definition; Auth.ScanExemptions and Auth.RequireAuth state what the loop makes of it) |
| FilteredLogger.ValueLenSpec | 0x00-personal_data/filtered_logger.py:42 | `.*?sep` takes the shortest value: the first separator on the line ends it, and None means no separator follows on the line |
| FilteredLogger.MatchField | 0x00-personal_data/filtered_logger.py:42 | A matched alternative is followed by `"="`, a newline-free value and the separator |
| FilteredLogger.MatchFieldSpec | 0x00-personal_data/filtered_logger.py:42 | No separator occurs inside the value; an alternative fails exactly when `"f="` is absent or no separator follows on its line |
| FilteredLogger.MatchAt | 0x00-personal_data/filtered_logger.py:42 | A match uses one of the alternatives, with the value that alternative matches |
| FilteredLogger.MatchAtSpec | 0x00-personal_data/filtered_logger.py:42 | The alternation tries alternatives in list order: the first that matches is used, and None means none matches |
| FilteredLogger.ValueLen | 0x00-personal_data/filtered_logger.py:42 | The lazy `.*?sep`: a found value length lies within the text; FilteredLogger.ValueLenSpec states that it ends at the first separator on the line |
| FilteredLogger.Alternatives | 0x00-personal_data/filtered_logger.py:42 | The alternatives of the group `"(" + bar.join(fields) + ")"`, bar being the vertical bar, are the group text cut at every bar: at least one, none holding a bar, and they join back to the same group text |
| FilteredLogger.AlternativesOfPlainFields | 0x00-personal_data/filtered_logger.py:42 | Field names without a vertical bar are exactly the alternatives; no fields give the single empty alternative `"()"`, which matches a bare `"=" + value + sep` |
| FilteredLogger.AlternativesFree | 0x00-personal_data/filtered_logger.py:42 | A character other than the vertical bar that no field name holds is in no alternative |
| FilteredLogger.Redact | 0x00-personal_data/filtered_logger.py:43-44 | `re.sub`'s scan: at each position the first matching alternative's span is replaced by `field=redaction sep`, otherwise the character is copied; stated by FilteredLogger.NoMatchKeeps, RedactScan.FirstMatchSplit and RedactScan.RedactIdempotent |
| FilteredLogger.FilterDatum | 0x00-personal_data/filtered_logger.py:37-44 | `filter_datum`: Redact over the alternatives of the fields; stated by RedactScan.FilterDatumIdempotent, RedactScan.UsernameExample and LogFormat.TwoFieldsRedacted |
| FilteredLogger.NoMatchKeeps | 0x00-personal_data/filtered_logger.py:42-44 | When no position matches, the message comes back unchanged |
| RedactScan.FirstMatchSplit | 0x00-personal_data/filtered_logger.py:42-44 | At the leftmost match, the output is the text before it verbatim, the replacement, then the redaction of what follows the span |
| RedactScan.SingleFieldSpan | 0x00-personal_data/filtered_logger.py:42-44 | After a prefix without `'='`, the span `f=v;` (v free of `;` and newline) becomes `f=***;`, the prefix is kept and scanning continues after it |
| RedactScan.UsernameExample | 0x00-personal_data/filtered_logger.py:42 | Field names match as substrings: with field `name`, `"username=" + v + ";"` becomes `"username=***;"` for every value v without `;` or newline |
| RedactScan.NoSeparatorKeeps | 0x00-personal_data/filtered_logger.py:42 | A message in which the separator never occurs is unchanged, so a value without a closing separator is not redacted |
| RedactScan.RedactIdempotent | 0x00-personal_data/filtered_logger.py:42-44 | Redacting a redacted message changes nothing, for alternatives without `'='`, a one-character separator and a redaction free of that character and of newlines |
| RedactScan.FilterDatumIdempotent | 0x00-personal_data/filtered_logger.py:37-44 | `filter_datum` applied twice equals `filter_datum` applied once, under the same conditions on fields, separator and redaction |
| FilteredLogger.FilterAll | 0x00-personal_data/filtered_logger.py:32-34 | What `format`'s loop computes: `filter_datum([f], "***", …, ";")` once per field, in list order; RedactingFormatter.Format is proved equal to it, and LogFormat.FilterAllTwo and RedactScan.FilterAllWithoutSeparator state its effect |
| RedactScan.FilterAllWithoutSeparator | 0x00-personal_data/filtered_logger.py:32-34 | `format` leaves a message without `;` unchanged, whatever its fields |
| LogFormat.FilterAllTwo | 0x00-personal_data/filtered_logger.py:32-33 | With two fields, `format` is the first field's `filter_datum` followed by the second's |
| LogFormat.FieldAbsent | 0x00-personal_data/filtered_logger.py:42-44 | A message whose only `'='` follows text shorter than the field name is left unchanged |
| LogFormat.SpanAfter | 0x00-personal_data/filtered_logger.py:42-44 | When no earlier position starts with `f=`, the span `f=v;` is the leftmost match: the text before it is kept, the span becomes its replacement and scanning resumes after it |
| LogFormat.TwoFieldsRedacted | 0x00-personal_data/filtered_logger.py:32-34 | Two fields, each with a value closed by the separator, are both redacted, provided the second name has no `'='`, is shorter than the first, and `name=` does not occur before its own place once the first value is redacted |
| LogFormat.FormatExample | 0x00-personal_data/filtered_logger.py:25-34 | With fields `["email", "name"]`, `"email=" + a + ";name=" + b + ";"` becomes `"email=***;name=***;"` for every a without `;` or newline and every b that also has no `'='` |
| FilteredLogger.RedactingFormatter.constructor | 0x00-personal_data/filtered_logger.py:22-25 | The formatter keeps the given fields |
| FilteredLogger.RedactingFormatter.Format | 0x00-personal_data/filtered_logger.py:32-34 | The loop's result is `filter_datum([f], "***", …, ";")` applied once per configured field, in list order, to the rendered message |
| Db.ColumnNamed | 0x03-user_authentication_service/db.py:55 | A keyword names a column only under that column's own attribute name |
| Db.ColumnNamedSpec | 0x03-user_authentication_service/db.py:55 | Each column is found under its name, and exactly the four column names are attributes |
| Db.Set | 0x03-user_authentication_service/db.py:56 | `setattr` changes the named column to the value and no other column |
| Db.Matching | 0x03-user_authentication_service/db.py:42 | `filter_by` keeps exactly the positions of the matching records, in table order |
| Db.FindIndex | 0x03-user_authentication_service/db.py:42-47 | `one()` yields a stored position or fails with `NoResultFound("No user found")` or `InvalidRequestError("Invalid query arguments")`, the errors `find_user_by` re-raises |
| Db.FindIndexFound | 0x03-user_authentication_service/db.py:42-43 | A found record has known keywords, matches every keyword, and is the only record that matches |
| Db.FindIndexUnique | 0x03-user_authentication_service/db.py:42-43 | With known keywords, a record that alone matches is the one found |
| Db.FindIndexNone | 0x03-user_authentication_service/db.py:44-45 | `NoResultFound("No user found")` exactly when every keyword is a column and no record matches |
| Db.FindIndexInvalid | 0x03-user_authentication_service/db.py:42-47 | `InvalidRequestError("Invalid query arguments")` exactly for an unknown keyword or for more than one matching record |
| Db.MaxId | 0x03-user_authentication_service/db.py:33-35 | The largest integer id stored, bounding all of them; None exactly when no record has an integer id |
| Db.NextId | 0x03-user_authentication_service/db.py:33-35 | The id SQLite gives a new record is larger than every stored integer id |
| Db.NewRow | 0x03-user_authentication_service/db.py:33 | The record `User(email=…, hashed_password=…)` becomes: the next id, the email, the hash and no session id; Db.NewRowFreshId states that its id is fresh |
| Db.NewRowFreshId | 0x03-user_authentication_service/db.py:33-35 | The id given to a new record differs from every stored record's id |
| Db.LastSetSpec | 0x03-user_authentication_service/db.py:54-56 | The value a column ends with is the one set by the last change naming it, or its old value when none does |
| Db.ApplyChanges | 0x03-user_authentication_service/db.py:54-58 | The `update_user` loop on one record: each change in argument order is a `setattr`, and the first unknown key stops it; stated by Db.ApplyKnown and Db.ApplyStopsAtUnknown |
| Db.ApplyKnown | 0x03-user_authentication_service/db.py:54-56 | The changes succeed exactly when every key is a column, and then every column holds its last assigned value |
| Db.ApplyStopsAtUnknown | 0x03-user_authentication_service/db.py:54-58 | At the first unknown key the loop stops with that key; the changes before it stay applied (no rollback) |
| Db.DB.constructor | 0x03-user_authentication_service/db.py:13-19 | `drop_all`/`create_all` leave an empty table |
| Db.DB.AddUser | 0x03-user_authentication_service/db.py:30-36 | Exactly one record with the email, the hashed password and a fresh id is appended and returned; the stored records are unchanged |
| Db.DB.FindUserBy | 0x03-user_authentication_service/db.py:38-47 | A returned record is stored and matches every keyword; it fails exactly when the lookup does, with `NoResultFound("No user found")` or `InvalidRequestError("Invalid query arguments")` |
| Db.DB.UpdateUser | 0x03-user_authentication_service/db.py:49-60 | A failed lookup of the id changes nothing and passes its error on. Otherwise only the found record changes, to the changes applied in order; an unknown key gives `ValueError("Invalid attribute: " + key)`, with the changes before it kept |
| AuthService.HashPassword | 0x03-user_authentication_service/auth.py:16-23 | The stored hash is hashpw of the password's UTF-8 bytes and the salt |
| AuthService.EmailCountSpec | 0x03-user_authentication_service/auth.py:29-40 | The number of records with an email is zero exactly when no record has it |
| AuthService.EmailCountAppend | 0x03-user_authentication_service/auth.py:40 | Appending a record adds one to the count of its own email only |
| AuthService.EmailLookup | 0x03-user_authentication_service/auth.py:30 | `find_user_by(email=e)` has a known keyword and matches exactly the records with email e |
| AuthService.Auth.constructor | 0x03-user_authentication_service/auth.py:13-14 | A fresh, empty store |
| AuthService.Auth.RegisterUser | 0x03-user_authentication_service/auth.py:25-42 | As written: whatever the lookup gives, one new record with the email and the hashed password is appended and returned, and nothing else changes |
| AuthService.DuplicateEmailAccepted | 0x03-user_authentication_service/auth.py:29-40 | As written, registering a stored email raises that email's count to at least two, so emails are no longer unique |
| AuthService.Auth.RegisterUserRejectingDuplicates | 0x03-user_authentication_service/auth.py:28-42 | As intended: NoResultFound leads to one appended record; a found user gives `ValueError("User " + email + " already exists")`, and any other lookup error is passed on, both with the store unchanged |
| AuthService.RejectingKeepsEmailsUnique | 0x03-user_authentication_service/auth.py:28-42 | As intended, registration preserves unique emails and adds a record exactly when the email was not stored |

## Left out

- FilteredLogger.Alternatives: a vertical bar inside a field name splits it into alternatives, as the pattern does. Every other regular-expression metacharacter in a field name (`.`, `*`, parentheses, …) is taken literally.
- FilteredLogger.FilterDatum: the separator is matched as literal text. `filter_datum` pastes it into the pattern unescaped, so a separator holding metacharacters behaves differently in the source. With `"."`, `.*?.` ends the value after its first character, whatever that is. With a vertical bar, the alternation itself changes, `group(1)` can be None and the replacement raises TypeError. `format` always passes `";"`, which has no metacharacter.
- FilteredLogger.ValueLen: models `.*?sep` for a literal separator only, for the reason given above.
- RedactScan.NoSeparatorKeeps: holds of the model for every separator; it describes the source only for a separator without regular-expression metacharacters.
- RedactScan.FilterDatumIdempotent: holds of the model for every one-character separator; it describes the source only when that character is not a regular-expression metacharacter.
- Logging I/O is left out: `get_logger` (with the `PII_FIELDS` list it configures), `get_db` and `main` (environment variables, the MySQL connection, cursor iteration and stream output).
- `logging.Formatter.format` is left out, because level and `asctime` rendering are library and clock behaviour. `Format` starts from the rendered message.
- SQLAlchemy plumbing is left out: the engine, the memoized session, `drop_all`/`create_all` on disk, `commit` and the `__main__` demo. Only the table's contents are modelled.
- `user.py` (the SQLAlchemy `User` model) is not part of this model. Its columns are assumed to be `id`, `email`, `hashed_password` and `session_id`.
  - No uniqueness or NOT NULL constraint is assumed.
  - `hasattr` is taken to be true for exactly these four names.
  - New ids follow SQLite's rowid rule.
- SQL's type coercion in comparisons is not modelled. `filter_by` compares values as stored, so integers, text and bytes never compare equal.
- `models/user.py` (the Basic-auth `User` model) is not part of this model.
  - `User.search({'email': e})` is a filter over a sequence of records in storage order.
  - `is_valid_password` is an uninterpreted predicate.
- bcrypt is left uninterpreted. `hashpw` is a function parameter, and the salt from `gensalt` is an argument of the hashing call, because it is random.
  - AuthService.HashPassword: states which bytes are hashed, but not that the hash differs from the password or hides it. That is a property of bcrypt, which is not modelled.
- The Flask request is reduced to a map of header names to values.
  - Auth.AuthorizationHeader: looks the `"Authorization"` key up as written. Werkzeug's case-insensitive header matching is not modelled.
- RedactScan.RedactIdempotent: idempotence is proved for these cases only:
  - alternatives without `'='`, which covers field names made of letters, digits and underscores;
  - a one-character separator, matched literally as FilteredLogger.FilterDatum above describes;
  - a redaction that contains neither that character nor a newline.
- FilteredLogger.RedactingFormatter.Format: idempotence of the whole multi-field format is not proved, only for each single `filter_datum` call.
- LogFormat.FormatExample: states the `"email=alice@example.com;name=Alice;"` example for arbitrary values in place of the two literals. The name value is also required to have no `'='`.
- RedactScan.UsernameExample: states the `"username=bob;"` example for an arbitrary value in place of the literal `bob`.
- Concurrency is left out: nothing in the code makes check-then-insert atomic.
- The shadowed drafts are never executed, so they are not modelled: the first `require_auth` and the url-safe, error-ignoring first `decode_base64_authorization_header`.
- Python exceptions become `Result` failures that carry the exception's type and its message. The messages are the texts the code gives: `"No user found"`, `"Invalid query arguments"`, `"Invalid attribute: <key>"` and `"User <email> already exists"`. Tracebacks are not modelled.
- BasicAuth.DecodeBase64AuthorizationHeader: a Dafny `char` is a Unicode scalar value, so a str holding a lone surrogate cannot be passed in. For such a str, `.encode('utf-8')` at basic_auth.py:74 raises, and the `except` turns that into None. That None is not modelled.
- AuthService.HashPassword: for the same reason, a password holding a lone surrogate is outside the model. `password.encode('utf-8')` at auth.py:21 raises for it, and nothing in `_hash_password` or `register_user` catches that.
- Db.DB.AddUser: returns a value copy of the new record. The source returns the live, session-bound `User`, so assigning to its attributes changes the stored row at the next commit. That aliasing is not modelled.
- Db.DB.FindUserBy: returns a value copy for the same reason. The source's result is the session's own object, and changes made through it reach the table. In the model only UpdateUser changes stored records.

## Findings

| source | as written | input that shows it | evidently intended | confidence | as-written member | corrected member |
|---|---|---|---|---|---|---|
| 0x03-user_authentication_service/auth.py:29-34 | The bare `except:` also catches the `ValueError` raised at line 31 for an existing email, so `register_user` always adds a record | Register the same email twice: the second call adds a second record with that email, and emails are no longer unique | Only `NoResultFound` means the email is free; an existing user is rejected with `ValueError("User <email> already exists")` | not executed | AuthService.DuplicateEmailAccepted | AuthService.RejectingKeepsEmailsUnique |
