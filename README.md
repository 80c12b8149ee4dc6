# Authentication core of the VarunAI chat application, in Dafny

This project models the part of the chat application that decides who may
register and who may log in:

- the registration page's form record, its single-field update, its seven
  ordered checks (`validateForm`) and the request body it posts
  (`register_form.dfy`, module `RegisterForm`);
- the login page's form record, its update and its two ordered checks
  (`login_form.dfy`, module `LoginForm`);
- the client's endpoint table, its legacy aliases and the classification of
  failed API calls (`api_routes.dfy`, module `ApiRoutes`);
- the server controller's `register` and `login` over the user collection
  (`user_controller.dfy`, module `UserController`), with the collection as a
  class `UserStore` whose `Register` method updates its `users` sequence and
  whose `Login` is a function that only reads it;
- the JavaScript string behaviour these rely on: the white-space set of
  `trim()` and `\s`, trimming, `length` in UTF-16 code units, and character
  counting (`text.dfy`, module `Text`).

Modelling choices:

- Strings are sequences of Unicode code points. JavaScript's `length` counts
  UTF-16 code units, so `Utf16Length` counts a code point above U+FFFF twice.
  The checks "at least 3" and "at least 8" use it.
- `trim()` and the regular-expression class `\s` strip or match the same set
  of ECMAScript white-space and line-terminator code points (`IsWhitespace`).
- The e-mail pattern `^[^\s@]+@[^\s@]+\.[^\s@]+$` is given twice. The first
  form, `MatchesEmailPattern`, reads the pattern literally as three plain runs
  split by an '@' and a '.'. The second, `IsEmailShape`, states the same
  shape field by field, and `validateForm` uses it. A lemma proves the two
  accept the same strings.
- `validateForm` returns `Option<Rule>`. `None` stands for `return true`.
  `Some(rule)` stands for the toast `Message(rule)` followed by
  `return false`.
- bcrypt is a `Hasher`: two given functions, `hash(password, salt)` and
  `verify(password, digest)`. The salt comes from `bcrypt.genSalt`, which is
  random, so it is a parameter. The only fact assumed about bcrypt is
  `Sound`: a password verifies against any hash made from it. It is a
  precondition where needed, never an axiom.
- A stored password has the type `Digest`, which is distinct from a
  plaintext `string`. No response field has type `Digest`. Several response
  fields are strings, so the types alone do not keep the plaintext out:
  `LoginIgnoresWhichPasswordMatched` shows that a login response does not
  depend on which matching password was given, and `Register` answers with
  one of two constant records.
- `jwt.sign` yields `Token(Claims(id, username), "24h")`. The signing secret
  and the signature are not modelled.
- Mongo's `_id` generator is a counter, `nextId`. `findOne` returns the first
  matching document in insertion order.
- The user schema (`server/models/User.js`) is not part of this model. A new
  user's `avatar` is `None`, meaning absent.
- The environment value `REACT_APP_API_HOST` is an `Option<string>`
  parameter.

Behaviour of the code that the model keeps as written:

- The server controller runs no validation. The express-validator chains in
  `server/routes/auth.js` collect errors that the controller never reads.
  The controller therefore passes on to `save` any username, e-mail and
  password that does not collide with an existing user.
- `register` answers only `{status: true, msg: "Registration successful"}`.
  It returns no identity summary and no token.
- The client's e-mail rule demands exactly one '@'.
- The username length is measured before trimming, in UTF-16 code units.
- Nothing verifies tokens, and nothing fails fast on a missing signing
  secret.

## Model

| member | source | states |
|---|---|---|
| `Text.TrimStart` | public/src/pages/Register.jsx:41 | the result is the longest suffix of the input that does not start with white space, and everything dropped is white space |
| `Text.TrimEnd` | public/src/pages/Register.jsx:41 | the result is the longest prefix of the input that does not end with white space, and everything dropped is white space |
| `Text.Trim` | public/src/pages/Register.jsx:41 | the result is a slice of the input with only white space before and after it, and it neither starts nor ends with white space |
| `Text.IsBlank` | public/src/pages/Register.jsx:41 | no contract of its own: `!s.trim()`; `BlankIffAllWhitespace` states when it holds |
| `Text.BlankIffAllWhitespace` | public/src/pages/Login.jsx:38 | `!s.trim()` holds exactly when every character of `s` is white space |
| `Text.Utf16Length` | public/src/pages/Register.jsx:45 | `length` counts UTF-16 code units: between the number of code points and twice that |
| `Text.Utf16LengthOfBmp` | public/src/pages/Register.jsx:61 | for text of the Basic Multilingual Plane, `length` is the number of characters |
| `RegisterForm.HandleChange` | public/src/pages/Register.jsx:34-36 | the named field takes the new value; every other field and the loading flag are unchanged |
| `RegisterForm.HandleChangeSameValue` | public/src/pages/Register.jsx:34-36 | re-entering a field's current value leaves the form record unchanged |
| `RegisterForm.MatchesEmailPattern` | public/src/pages/Register.jsx:53 | no contract of its own: the pattern `^[^\s@]+@[^\s@]+\.[^\s@]+$` read literally, as three non-empty runs without white space or '@' around an '@' and a '.' |
| `RegisterForm.IsEmailShape` | public/src/pages/Register.jsx:53 | no contract of its own: exactly one '@', no white space, a non-empty part before the '@' and an inner '.' after it; `EmailShapeIffPattern` proves it equal to the pattern |
| `RegisterForm.EmailShapeIffPattern` | public/src/pages/Register.jsx:53-56 | an e-mail passes the pattern iff it has exactly one '@', no white space, a non-empty part before '@', and a '.' inside the part after '@' |
| `RegisterForm.PaddedEmailFailsShape` | public/src/pages/Register.jsx:53 | an e-mail with white space at either end never passes the pattern, because it is not trimmed first |
| `RegisterForm.Message` | public/src/pages/Register.jsx:42-66 | no contract of its own: the seven toast texts, one per check; `ReportsFirstFailingRule` fixes which one is shown |
| `RegisterForm.Validate` | public/src/pages/Register.jsx:38-70 | no contract of its own: `AcceptsIffNoRuleFails` states when it returns true and `ReportsFirstFailingRule` which check it reports, against the per-check conditions `Fails` |
| `RegisterForm.AcceptsIffNoRuleFails` | public/src/pages/Register.jsx:38-70 | validateForm returns true iff none of the seven checks fails |
| `RegisterForm.ReportsFirstFailingRule` | public/src/pages/Register.jsx:38-70 | the check reported is the one that fails while every check before it in the fixed order passes, in both directions |
| `RegisterForm.BlankUsernameRejected` | public/src/pages/Register.jsx:41-44 | an empty or white-space-only username is reported as "Username is required", whatever the other fields hold |
| `RegisterForm.PaddedUsernamePasses` | public/src/pages/Register.jsx:41-48 | a username with a non-white character and at least three UTF-16 units, padding included, passes both username checks |
| `RegisterForm.TwoSpacesAndATrimToA` | public/src/pages/Register.jsx:41 | "  a" trims to the one-character string "a" |
| `RegisterForm.TwoSpacesAndALetterPasses` | public/src/pages/Register.jsx:45-48 | "  a" passes both username checks, because the length is taken before trimming |
| `RegisterForm.PaddedEmailRejected` | public/src/pages/Register.jsx:49-56 | once the username passes, an e-mail with white space at either end is rejected as missing or malformed |
| `RegisterForm.LongPasswordPassesLengthChecks` | public/src/pages/Register.jsx:57-68 | once the earlier checks pass, any password of at least eight units, even all spaces, passes both password checks, and the form is then accepted iff the confirmation is equal |
| `RegisterForm.InitialFormRejected` | public/src/pages/Register.jsx:12-18 | the initial form record, all fields empty and not loading, is rejected with "Username is required" |
| `RegisterForm.MismatchIffPasswordsDiffer` | public/src/pages/Register.jsx:65-68 | after the first six checks pass, "Passwords do not match" is reported iff the password and the confirmation differ |
| `RegisterForm.Payload` | public/src/pages/Register.jsx:76-84 | no contract of its own: the body `{username, email, password}`; `PayloadOmitsConfirmation` and `Submit` state what it carries |
| `RegisterForm.Submit` | public/src/pages/Register.jsx:72-84 | a request is sent iff the form validates; it carries the form's username, e-mail and password, and these meet every check |
| `RegisterForm.PayloadOmitsConfirmation` | public/src/pages/Register.jsx:76-84 | the body sent does not depend on the confirmation or the loading flag |
| `LoginForm.HandleChange` | public/src/pages/Login.jsx:32-34 | the named field takes the new value; the other field and the loading flag are unchanged |
| `LoginForm.Message` | public/src/pages/Login.jsx:39-43 | no contract of its own: the two toast texts, one per check; `BlankUsernameReportedFirst` and `EmptyPasswordRejected` fix which one is shown |
| `LoginForm.InitialFormRejected` | public/src/pages/Login.jsx:12-16 | the initial form record, both fields empty and not loading, is rejected with "Username is required" |
| `LoginForm.Validate` | public/src/pages/Login.jsx:36-47 | no contract of its own: `AcceptsIff` states when it returns true, and the three lemmas below which check it reports |
| `LoginForm.AcceptsIff` | public/src/pages/Login.jsx:36-47 | validateForm returns true iff the username has a non-white character and the password is non-empty |
| `LoginForm.BlankUsernameReportedFirst` | public/src/pages/Login.jsx:38-41 | a blank username is reported as "Username is required", even when the password is empty too |
| `LoginForm.EmptyPasswordRejected` | public/src/pages/Login.jsx:42-45 | with a valid username, an empty password is reported as "Password is required" |
| `LoginForm.WhitespacePasswordAccepted` | public/src/pages/Login.jsx:42-46 | a password made only of white space is accepted, because it is not trimmed |
| `LoginForm.Submit` | public/src/pages/Login.jsx:49-61 | a request is sent iff the form validates, and it carries the form's two fields unchanged |
| `ApiRoutes.BaseHost` | public/src/utils/APIRoutes.js:2 | the host is never empty; a non-empty setting is the host itself, and an unset or empty one gives "http://localhost:5000" |
| `ApiRoutes.CreateEndpoint` | public/src/utils/APIRoutes.js:6 | no contract of its own: `EndpointSplits` states that the result is the host, then "/api/v1", then the path, and `EndpointInjective` that the path can be recovered |
| `ApiRoutes.AuthRoutesAt` | public/src/utils/APIRoutes.js:9-16 | no contract of its own: its six routes are the endpoints of the six auth paths; `AllRoutesVersioned` and `AllRoutesDistinct` state that they carry the version prefix and differ pairwise |
| `ApiRoutes.MessageRoutesAt` | public/src/utils/APIRoutes.js:19-23 | no contract of its own: its two routes are the endpoints of the message paths; `AllRoutesVersioned` and `AllRoutesDistinct` cover them with the auth routes |
| `ApiRoutes.LegacyAt` | public/src/utils/APIRoutes.js:59-67 | no contract of its own: `LegacyAliasesAgree` states that each flat name equals its grouped route and that `host` is the base host |
| `ApiRoutes.EndpointSplits` | public/src/utils/APIRoutes.js:3-6 | an endpoint is the host, then "/api/v1", then the path |
| `ApiRoutes.EndpointInjective` | public/src/utils/APIRoutes.js:6 | on one host, equal endpoints come from equal paths |
| `ApiRoutes.AllRoutesVersioned` | public/src/utils/APIRoutes.js:9-23 | every route of both tables starts with the host followed by "/api/v1" |
| `ApiRoutes.AllRoutesDistinct` | public/src/utils/APIRoutes.js:9-23 | the eight routes are pairwise different, whatever the host |
| `ApiRoutes.LegacyAliasesAgree` | public/src/utils/APIRoutes.js:59-67 | each legacy name equals its grouped route, and `host` is the base host |
| `ApiRoutes.HandleApiError` | public/src/utils/APIRoutes.js:26-56 | the result always has status false and a non-empty message |
| `ApiRoutes.CodeClassifiesError` | public/src/utils/APIRoutes.js:27-55 | the code is an HTTP status iff a response is present; it is "NETWORK_ERROR" iff there is only a request, and "REQUEST_ERROR" iff there is neither |
| `ApiRoutes.ResponseReported` | public/src/utils/APIRoutes.js:27-38 | with a response, the code is its status, and the message is the body's non-empty message or else "API request failed" |
| `ApiRoutes.ResponseTakesPrecedence` | public/src/utils/APIRoutes.js:27-39 | with a response, the result does not depend on the request or on the error's own message |
| `ApiRoutes.SetupMessageNotSurfaced` | public/src/utils/APIRoutes.js:39-55 | without a response, the result is one of the two fixed records and never carries the error's own message |
| `UserController.FindByUsername` | server/controllers/userController.js:10 | the index returned is that of the first user with the username; no index is returned iff there is no such user |
| `UserController.FindCollision` | server/controllers/userController.js:49 | a user is found iff some stored user shares the username or the e-mail, and the one found does |
| `UserController.UserStore.Register` | server/controllers/userController.js:44-78 | on a collision the answer is 400 "User already exists with this username or email" and the store is unchanged; otherwise exactly one user is appended with `hash(password, salt)` as its password, the answer is 201 "Registration successful" with no user, token or password, and uniqueness of ids, usernames and e-mails is preserved |
| `UserController.UserStore.Login` | server/controllers/userController.js:5-42 | the answer is 200 or the 400 "Invalid credentials" record; 200 only for a stored user with that name whose hash verifies, with that user's id, username, e-mail and avatar and a token of claims (id, username) expiring in "24h"; the store is only read |
| `UserController.UnknownUserLooksLikeWrongPassword` | server/controllers/userController.js:10-19 | an unknown username and a known username with a non-matching password get the identical response |
| `UserController.LoginSucceedsIff` | server/controllers/userController.js:9-37 | in a store with unique usernames, login succeeds iff that user exists and the password verifies against its hash |
| `UserController.LoginRevealsOnlyVerdict` | server/controllers/userController.js:15-37 | two stores differing only in stored hashes, with the same verdict for the given password, answer identically: a response exposes no hash |
| `UserController.LoginIgnoresWhichPasswordMatched` | server/controllers/userController.js:16-37 | two passwords with the same verdicts get identical responses: a response exposes no plaintext |
| `UserController.StoredUserCollides` | server/controllers/userController.js:49-55 | after a user is stored, any registration reusing its username or its e-mail finds a collision |
| `UserController.RegisterTwice` | server/controllers/userController.js:49-68 | a successful register followed by another one with the same username or the same e-mail fails, and the store keeps only the first |
| `UserController.RegisterThenLogin` | server/controllers/userController.js:22-37 | with a sound hasher, login right after a successful register returns 200 with the new id, username and e-mail and a token naming them |

## Left out

- React rendering, styled components, toasts, navigation, `localStorage`,
  `console` logging and the axios calls are not modelled. A toast is
  represented only by the `Rule` whose message it would show.
- The `isLoading` toggling in `handleSubmit` is not modelled. Neither is the
  handling of the server's answer there, nor the health check the login page
  requests before posting. All of these are network I/O and UI state.
- Change events are limited to the inputs' own names. An event with any other
  `name` would add a new key to the JavaScript record.
- Request fields are strings. A JSON body whose fields are objects (which
  Mongo would read as query operators) or are missing is not modelled.
- The 500 "Server error" branch of both handlers is not modelled. It covers a
  store outage, a failing bcrypt call, `jwt.sign` throwing for lack of a
  secret, and a rejection by the User schema's validators when `save` runs
  (the schema is not part of this model). None of these has a cause the
  model can see, so the model's `Register` stores every non-colliding user.
- bcrypt's salt generation, its cost factor 10 and its constant-time
  comparison are not modelled.
- JWT signing, the signing secret, signature checking and expiry arithmetic
  are not modelled.
- The race between the lookup and the save of two concurrent registrations is
  not modelled. The store is sequential.
- The express-validator chains and the `/health` handler of
  `server/routes/auth.js` are not modelled. The chains' results are never
  read, and the handler returns a fixed record stamped with the current
  time.
- Strings with unpaired UTF-16 surrogates are not modelled.
- ApiRoutes.HandleApiError: promises a record for every error, but when
  `error.response.data` is `null` or `undefined` (a JSON body of `null`, for
  instance) reading its `message` throws a TypeError and no record is
  returned. That throw is not modelled: an absent body and an absent
  `message` are both `dataMessage == None`.
- `ErrorResponse.dataMessage` is a string or absent. A non-string `message`
  in an error body is not modelled.
- UserController.UserStore.Login: does not claim that a wrong password
  fails. Only `verify(p, hash(p, salt))` is assumed of bcrypt, and a hash
  collision can never be excluded.
