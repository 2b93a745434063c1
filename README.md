# Request authentication layer: path-exclusion gate and HTTP Basic pipeline

This project models, in Dafny, the authentication core of a small Flask API
(`alx-backend-user-data`):

- the base class `Auth` (`0x02-Session_authentication/api/v1/auth/auth.py`).
  It decides whether a request path needs authentication, given an ordered
  exclusion list. It reads the `Authorization` header. Its default
  `current_user` resolves nobody.
- the subclass `BasicAuth` (`0x01-Basic_authentication/api/v1/auth/basic_auth.py`).
  It resolves a user from an `Authorization: Basic <base64(email:password)>`
  header (section 2 of RFC 7617). It does this in five stages, and a `None`
  at any stage yields `None` for the whole request.

Both files are pure: no fields are updated and no state outlives a call. So
every method is a Dafny function, and the properties are the functions'
contracts and lemmas about them. Python's dynamic arguments appear as
`BasicAuth.Arg` (`Null`, `Str(text)`, or `NotStr` for a value of any other
type), so each `is None` / `isinstance(..., str)` check is its own branch.
The request is its header map. The user repository is two parameters:
`search`, standing for `User.search({'email': e})` (`None` when it raises),
and `isValidPassword`, standing for `User.is_valid_password`.

Modules:

- `Wrappers`: the `Option` type.
- `Bytes`: octets.
- `Strings`: the `startswith`, `endswith` and first-occurrence helpers.
- `Users`: the user record, with the columns of `0x03-user_authentication_service/user.py`.
- `Utf8`: strict UTF-8 (RFC 3629).
- `Base64`: `b64decode` as Python runs it, and `b64encode`.
- `Auth`: the base class.
- `BasicAuth`: the Basic scheme.

`b64decode(s)` is called without `validate=True` (`basic_auth.py:36`), so
the model writes out what that call does. A `str` argument must be ASCII,
and a non-ASCII character raises. The bytes then go through CPython's
non-strict `binascii.a2b_base64` scanner, the algorithm of CPython 3.11 and
later. That scanner:

- skips characters outside the alphabet;
- skips a `=` that cannot be padding;
- stops at the first padding that completes a quantum;
- fails when the input ends in the middle of a quantum.

`Base64.DecodeIgnoresNonAlphabet` proves that the skipped ASCII characters
other than `=` make no difference to the result. A `=` that the scanner
skips is not covered by that lemma.

`require_auth` special-cases only a `None` path, not the empty path. So
`RequireAuth(Some(""), Some(["/"]))` is false, because `"" + "/"` equals the
entry (`Auth.EmptyPathNotSpecial`).

Verify with `dafny verify *.dfy`.

## Model

| member | source | states |
|---|---|---|
| `Auth.RequireAuth` | 0x02-Session_authentication/api/v1/auth/auth.py:14-25 | true when the path is None or the list is None or empty; otherwise true exactly when no entry exempts the path (prefix rule for `*` entries, equality with `path` or `path + '/'` otherwise) |
| `Auth.Excludes` | 0x02-Session_authentication/api/v1/auth/auth.py:21-24 | the per-entry test: a `*` entry exempts exactly the paths starting with its stem (its exact-match arm adds nothing); any other entry exempts exactly the path it equals and that path plus `/` |
| `Auth.ScanExcluded` | 0x02-Session_authentication/api/v1/auth/auth.py:20-25 | the ordered loop that returns False at the first exempting entry is true exactly when every entry fails to exempt the path |
| `Auth.WildcardExempts` | 0x02-Session_authentication/api/v1/auth/auth.py:21-22 | an entry ending in `*` exempts every path that starts with the entry minus its `*` |
| `Auth.ExactEntryExempts` | 0x02-Session_authentication/api/v1/auth/auth.py:23-24 | an entry equal to `path` or to `path + '/'` exempts `path` |
| `Auth.TrailingSlashOneWay` | 0x02-Session_authentication/api/v1/auth/auth.py:23-24 | entry `/x/` exempts `/x`, but entry `/x` does not exempt `/x/` |
| `Auth.EmptyPathNotSpecial` | 0x02-Session_authentication/api/v1/auth/auth.py:18-24 | the empty path is not treated as None: the entry `/` exempts it |
| `Auth.StatusExamples` | 0x02-Session_authentication/api/v1/auth/auth.py:20-24 | `/api/v1/status/` exempts `/api/v1/status` and `/api/v1/status/`; `/api/v1/stat*` exempts `/api/v1/stats` but not `/api/v1/other` |
| `Auth.ExclusionMonotone` | 0x02-Session_authentication/api/v1/auth/auth.py:20-25 | appending entries never turns False (exempt) back into True |
| `Auth.ExclusionOrderIrrelevant` | 0x02-Session_authentication/api/v1/auth/auth.py:20-25 | two exclusion lists holding the same entries, in any order and any number of times, give the same verdict for every path |
| `Auth.AuthorizationHeader` | 0x02-Session_authentication/api/v1/auth/auth.py:27-35 | None when the request is None or has no `Authorization` key; otherwise exactly the stored value |
| `Auth.HeaderKeyIsLiteral` | 0x02-Session_authentication/api/v1/auth/auth.py:31-34 | the key is looked up literally: a header stored as `authorization` is not found |
| `Auth.CurrentUser` | 0x02-Session_authentication/api/v1/auth/auth.py:37-41 | the base class resolves no user for any request |
| `Strings.IndexOf` | 0x01-Basic_authentication/api/v1/auth/basic_auth.py:47-49 | None exactly when the character is absent; otherwise the position of its first occurrence |
| `BasicAuth.ExtractBase64AuthorizationHeader` | 0x01-Basic_authentication/api/v1/auth/basic_auth.py:16-24 | a value exactly when the argument is a `str` starting with `Basic ` (case-sensitive, space included), and then the header is `Basic ` followed by that value |
| `BasicAuth.ExtractAfterPrefix` | 0x01-Basic_authentication/api/v1/auth/basic_auth.py:21-24 | extracting from `Basic ` + p gives back p, for every p |
| `BasicAuth.ExtractExamples` | 0x01-Basic_authentication/api/v1/auth/basic_auth.py:21-24 | `Basic eHl6` gives `eHl6`; `Bearer xyz`, `basic eHl6` and `Basic` give None |
| `BasicAuth.DecodeBase64AuthorizationHeader` | 0x01-Basic_authentication/api/v1/auth/basic_auth.py:26-38 | None for None, for a non-`str`, for a base64 failure and for a UTF-8 failure; a result is always a string whose UTF-8 form is what the text base64-decodes to |
| `BasicAuth.DecodeRoundTrip` | 0x01-Basic_authentication/api/v1/auth/basic_auth.py:36 | the stage decodes the base64 of the UTF-8 form of any string back to that string |
| `BasicAuth.DecodeStageExact` | 0x01-Basic_authentication/api/v1/auth/basic_auth.py:36 | the stage yields s exactly when the text base64-decodes to the UTF-8 form of s (both directions) |
| `Base64.Decode` | 0x01-Basic_authentication/api/v1/auth/basic_auth.py:36 | `b64decode` on a `str`: a non-ASCII argument is an error |
| `Base64.Scan` | 0x01-Basic_authentication/api/v1/auth/basic_auth.py:36 | the non-strict `a2b_base64` scanning loop that `b64decode` runs: it only appends to the octets already produced |
| `Base64.DecodeEncode` | 0x01-Basic_authentication/api/v1/auth/basic_auth.py:36 | decoding the RFC 4648 encoding of any octet string gives it back |
| `Base64.DecodeIgnoresNonAlphabet` | 0x01-Basic_authentication/api/v1/auth/basic_auth.py:36 | without `validate=True`, removing the ASCII characters that are neither in the alphabet nor `=` does not change the result |
| `Base64.PartialQuantumRejected` | 0x01-Basic_authentication/api/v1/auth/basic_auth.py:35-38 | an unpadded payload whose alphabet characters do not fill whole quanta (like `!!!not-base64!!!`, which keeps nine) is an error |
| `Base64.NotBase64Significant` | 0x01-Basic_authentication/api/v1/auth/basic_auth.py:36 | `!!!not-base64!!!` keeps nine alphabet characters, so it falls under the partial-quantum rejection |
| `Base64.DecodeXyz` | 0x01-Basic_authentication/api/v1/auth/basic_auth.py:36 | `eHl6` decodes to the octets of `xyz` |
| `Utf8.DecodeEncode` | 0x01-Basic_authentication/api/v1/auth/basic_auth.py:36 | `.decode('utf-8')` of the UTF-8 encoding of any string gives that string |
| `Utf8.Decode` | 0x01-Basic_authentication/api/v1/auth/basic_auth.py:36 | `.decode('utf-8')` in strict mode: whatever it accepts is the canonical encoding of its result |
| `Utf8.DecodeIffEncode` | 0x01-Basic_authentication/api/v1/auth/basic_auth.py:36 | octets decode to s exactly when they are the encoding of s |
| `Utf8.RejectsIllFormed` | 0x01-Basic_authentication/api/v1/auth/basic_auth.py:36-38 | overlong forms, encoded surrogates, values above U+10FFFF and truncated sequences are decode errors |
| `BasicAuth.ExtractUserCredentials` | 0x01-Basic_authentication/api/v1/auth/basic_auth.py:40-50 | both parts or neither; both exactly when the argument is a `str` containing `:`; then the email has no `:` and email + `:` + password is the text |
| `BasicAuth.CredentialsSplitUnique` | 0x01-Basic_authentication/api/v1/auth/basic_auth.py:47-50 | for a colon-free e, the text e + `:` + p splits into exactly (e, p) |
| `BasicAuth.CredentialsExamples` | 0x01-Basic_authentication/api/v1/auth/basic_auth.py:47-50 | `a:b:c` gives (`a`, `b:c`); a text without `:` gives (None, None) |
| `BasicAuth.UserObjectFromCredentials` | 0x01-Basic_authentication/api/v1/auth/basic_auth.py:52-67 | a user exactly when both arguments are `str`, the search succeeds with a non-empty list and the password verifies against its first element, which is then the result |
| `BasicAuth.OnlyFirstCandidate` | 0x01-Basic_authentication/api/v1/auth/basic_auth.py:64-67 | two searches that agree on the first candidate give the same result |
| `BasicAuth.LaterCandidateIgnored` | 0x01-Basic_authentication/api/v1/auth/basic_auth.py:64-67 | when the first candidate fails and a later one would verify, the result is None |
| `BasicAuth.NoCandidateNoUser` | 0x01-Basic_authentication/api/v1/auth/basic_auth.py:61-67 | a search that returns no users resolves every request to None |
| `BasicAuth.ArgOf` | 0x01-Basic_authentication/api/v1/auth/basic_auth.py:76-79 | a stage's optional result becomes the next stage's argument: a `str` exactly when there is a value, and then that value |
| `BasicAuth.CurrentUser` | 0x01-Basic_authentication/api/v1/auth/basic_auth.py:69-79 | None without an `Authorization` header; a resolved user is the first candidate found under an email the request carries, and it verifies the password carried with that email |
| `BasicAuth.CurrentUserComplete` | 0x01-Basic_authentication/api/v1/auth/basic_auth.py:69-79 | a request that carries `email:pwd` in its Basic header resolves exactly as `user_object_from_credentials(email, pwd)` |
| `BasicAuth.EndToEnd` | 0x01-Basic_authentication/api/v1/auth/basic_auth.py:69-79 | the header `Basic ` + base64(email:pwd) resolves to the first user found under email when pwd verifies against that user, and to None otherwise |
| `BasicAuth.MalformedPayloadNoUser` | 0x01-Basic_authentication/api/v1/auth/basic_auth.py:35-38 | a Basic payload that base64 rejects resolves to None, with no exception |

## Left out

- Flask and its request object: a request is modelled as its header map. Flask's case-insensitive header lookup is framework behaviour, so the model uses a literal key match.
- `User.search` and `is_valid_password` (storage and password hashing in `models.user`): they are parameters. A search that raises is `None`.
- `models.user` and `0x01-Basic_authentication/api/v1/auth/auth.py` are not part of this model. The Basic scheme uses the base class of `0x02-Session_authentication/api/v1/auth/auth.py`.
- Python exceptions: each `try/except` is an `Option` result.
- Class inheritance and method override: `BasicAuth.CurrentUser` and `Auth.CurrentUser` are separate functions. `BasicAuth` calls `Auth.AuthorizationHeader` directly.
- A non-`str` path or a non-`str` exclusion entry, which makes Python raise `AttributeError` or `TypeError` in `require_auth`: paths and entries are strings.
- `User.__repr__` and the SQLAlchemy column mapping of `0x03-user_authentication_service/user.py`: only the fields are kept, as `Users.User`.
- Base64 decoding before CPython 3.11, whose non-strict scanner looks ahead at `=` differently: only the 3.11-and-later algorithm is modelled.
- The first-candidate-only verification rule is modelled as written: the `return None` inside the loop ends the search after one candidate.
