# User accounts of a small Express/MongoDB backend, modelled in Dafny

This project models the user router of the backend (`api/User.js`). The router
answers six requests:

- list all users;
- fetch one user by id;
- sign up: validate, check the email is free, hash the password, store the record;
- update name, email and date of birth;
- delete a user;
- sign in: look the user up by email and compare the password with the stored hash.

Each handler is a pure function. It takes the user collection (`Store`, a
`map<Id, User>` plus the next free id) and a typed request. It returns the
next collection and the JSON envelope `{status, message?, data?}` that the route
sends with HTTP 200.

Modules:

- `Wrappers`: `Option`, which stands for `undefined`/`null`.
- `JsString`: `String.prototype.trim` over the full set of ECMAScript
  WhiteSpace and LineTerminator code points, and `length` in UTF-16 code units.
- `Patterns`: the name expression `^[a-zA-Z]*$` and the email expression
  `^[\w-\.]+@([\w-]+\.)+[\w-]{2,4}$`, each written as a recursive predicate.
  The email predicate is proved equal to an independent description: a local
  part, an `@`, one or more dotted labels, and a 2-4 character top-level domain.
- `UserStore`: users, the collection, `findById`, `findOne({email})` and insertion.
- `UserRoutes`: the envelopes, the messages and the six handlers.
- `UserProperties`: properties that relate several calls.
  - Which signup message wins.
  - Email uniqueness: signup keeps it, update can break it.
  - Round trips: signup then signin, signup then fetch, delete then fetch.

The collaborators the routes call are parameters (`Env`). These are bcrypt's
`hash` and `compare`, and date parsing (`None` where `Date.parse` gives NaN).
The one fact assumed of bcrypt is `HashSound`: a password matches its own hash.
Lemmas that need it take it as a precondition.

Three behaviours of the code that the model keeps:

- Signup trims the four fields and then tests for empty strings. A field of
  only whitespace is therefore "Empty input field". A field that is missing
  entirely makes `trim` throw before the `try`, so no envelope is sent.
- Signup and signin call `trim` outside their `try` blocks.
- Update trims nothing, validates nothing and does not check that the email is
  free (api/User.js:149-151). `UpdateCanDuplicateEmail` shows that it can leave
  two records with one email.

## Model

| member | source | states |
|---|---|---|
| JsString.Trim | api/User.js:68-71 | the trimmed field has no whitespace at either end; it is the input with only whitespace removed around it; it is empty exactly when the input is blank |
| JsString.TrimCharacterised | api/User.js:68-71 | any trimmed string that the input pads with whitespace is the result of trim, so trim is fully determined |
| JsString.TrimIdempotent | api/User.js:68-71 | trimming a trimmed field changes nothing |
| JsString.TrimRemovesPadding | api/User.js:68-71 | whitespace added on either side of a trimmed value is removed again |
| JsString.Utf16Length | api/User.js:93 | `password.length` counts UTF-16 code units: one for a character of the Basic Multilingual Plane and two for any other; between one and two per character overall |
| JsString.Utf16LengthConcat | api/User.js:93 | the length of a concatenation is the sum of the lengths, so with the one-character case the length is the sum over the characters |
| JsString.AstralCountsTwice | api/User.js:93 | "a" followed by an emoji has length 3 |
| Patterns.MatchesName | api/User.js:78 | a name matches `^[a-zA-Z]*$` exactly when every character is an ASCII letter |
| Patterns.EmailComposes | api/User.js:83 | every local part + `@` + dotted labels + 2-4 character top-level domain matches the email expression |
| Patterns.EmailParts | api/User.js:83 | every string the email expression accepts splits into such a local part, labels and top-level domain |
| Patterns.EmailNeedsAt | api/User.js:83 | an accepted address contains an `@` |
| Patterns.EmailNeedsDomainDot | api/User.js:83 | an address whose host part has no dot is refused |
| UserStore.FindByEmail | api/User.js:101 | `findOne({email})` finds nothing exactly when no record has the email; otherwise it finds a holder of the email, the earliest-issued one |
| UserStore.Insert | api/User.js:114-122 | saving a new user gives it an id not in use, adds that one key and changes no other record |
| UserStore.AddFreshEmail | api/User.js:101-122 | adding a record whose email nobody holds keeps emails distinct |
| UserRoutes.GetById | api/User.js:10-33 | a known id answers Success with the full record (including the stored hash); an unknown id answers "User not found" with no data; the store is untouched |
| UserRoutes.GetAll | api/User.js:36-60 | always Success with every record; the message "No users found" is present exactly when the collection is empty |
| UserRoutes.TrimSignup | api/User.js:67-71 | each of the four signup fields is `trim` of the submitted field; it is therefore trimmed, and empty exactly when the submitted field is blank |
| UserRoutes.FirstFailure | api/User.js:73-107 | an ordered check list reports nothing exactly when all checks pass, and otherwise the message of the earliest failing check |
| UserRoutes.Signup | api/User.js:63-138 | on failure the store is unchanged and no data is sent. On success: no stored user had the trimmed email; one record is added under a fresh id with the trimmed name and email, the hash of the trimmed password and the parsed date; the other records are kept |
| UserRoutes.Update | api/User.js:141-171 | an unknown id answers "User not found" and changes nothing. A truthy date that does not parse is rejected by `save` and changes nothing. A stored id whose date is absent, empty or parses succeeds. On success only the named record changes: each field is replaced exactly when its value is truthy, and the password is kept |
| UserRoutes.Delete | api/User.js:174-197 | a stored id is removed, alone, with "User deleted successfully"; an unknown id answers "User not found" and changes nothing |
| UserRoutes.Authenticate | api/User.js:209-246 | on trimmed fields: never changes the store. An empty field gives "Email or password field is empty". "User not found" is the answer exactly when both fields are non-empty and nobody holds the email. "Incorrect password" means a holder exists whose hash does not match. Success carries only id, name and email of a holder whose hash matches. When every holder's hash matches the answer is Success; when none does it is "Incorrect password" |
| UserRoutes.Signin | api/User.js:200-214 | never changes the store; a field of only whitespace gives "Email or password field is empty". Its body applies `Authenticate` to the trimmed fields |
| UserProperties.FirstFailureAt | api/User.js:73-107 | when check i fails and all earlier checks pass, its message is reported |
| UserProperties.LaterChecksIgnored | api/User.js:73-107 | two check lists that agree up to and including the first failure report the same message, whatever follows |
| UserProperties.SignupErrorIsFirstFailure | api/User.js:73-107 | the route's if-chain, `UserRoutes.SignupError`, equals the ordered list (empty, name, email, date, password length, uniqueness) read up to its first failure |
| UserProperties.SignupReportsFirstFailure | api/User.js:73-128 | signup answers with the first failing check's message and leaves the store alone; when no check fails it succeeds |
| UserProperties.SignupFailsAt | api/User.js:73-107 | if check i of the signup chain fails after all earlier ones pass, signup fails with check i's message and an unchanged store |
| UserProperties.BlankFieldRejected | api/User.js:67-77 | any blank field gives "Empty input field" and an unchanged store, whatever the other fields hold |
| UserProperties.NonLetterNameRejected | api/User.js:78-82 | a non-blank request whose trimmed name holds a character outside `[a-zA-Z]` gives "Invalid name" |
| UserProperties.PasswordLengthBoundary | api/User.js:93-97 | once the earlier checks pass, "Password is too short!" is the answer exactly when the trimmed password has fewer than 8 UTF-16 code units |
| UserProperties.DuplicateEmailRejected | api/User.js:101-107 | a valid request whose trimmed email is already stored gives "User with the provided email already exists" and an unchanged store |
| UserProperties.SignupAddsOneRecord | api/User.js:109-128 | a successful signup grows the collection by exactly one and keeps every earlier record |
| UserProperties.SignupPreservesUniqueEmails | api/User.js:101-128 | signup keeps emails unique |
| UserProperties.SequentialSignupsKeepEmailsUnique | api/User.js:101-128 | any sequence of signups run one after another keeps emails unique |
| UserProperties.SignupsFromEmptyKeepEmailsUnique | api/User.js:101-128 | signups run one after another from an empty collection never give two records one email |
| UserProperties.UpdateCanDuplicateEmail | api/User.js:149-153 | giving one user another user's email succeeds and leaves two records with that email |
| UserProperties.UpdateBreaksUniqueEmails | api/User.js:149-153 | a concrete collection with unique emails loses uniqueness through one successful update |
| UserProperties.UpdateWithoutEmailPreservesUniqueEmails | api/User.js:149-153 | an update without a truthy email keeps emails unique |
| UserProperties.DeletePreservesUniqueEmails | api/User.js:178 | delete keeps emails unique |
| UserProperties.SignupThenSignin | api/User.js:216-234 | signing in with the credentials of a successful signup returns Success with the new id and the trimmed name and email |
| UserProperties.SignupTwiceRejected | api/User.js:101-107 | a second valid signup with the same trimmed email is refused as a duplicate |
| UserProperties.SigninOutcomes | api/User.js:216-246 | for any store, a non-blank signin for a stored email is decided by the earliest-issued holder (with unique emails, the only one): its profile when its hash matches, "Incorrect password" otherwise |
| UserProperties.AuthenticateOutcome | api/User.js:216-246 | the same decision on trimmed fields: the earliest-issued holder's hash decides between its profile and "Incorrect password" |
| UserProperties.SignupThenGetById | api/User.js:14-19 | a newly signed-up user can be fetched by its id and comes back as the signup response's record |
| UserProperties.GetAllAgreesWithGetById | api/User.js:39-52 | an id is in the listing exactly when fetching it succeeds, and both give the same record |
| UserProperties.DeleteThenGetById | api/User.js:178-188 | after a delete, fetching or deleting the same id gives "User not found" |

## Left out

- `server.js` is not part of this model. It holds middleware, static files, CORS, the connect-then-listen start-up and the product routes. These pass straight through to the database.
- `models/Product.js` is not part of this model. It is a schema declaration whose checks the database library performs.
- `models/User.js` is not part of this model. Its schema may declare defaults, timestamps, validators or a unique index on email. None of these is modelled. A unique index would turn update's duplicate email into the generic update error.
- bcrypt is a parameter. Salts, the cost factor 10 and its 72-byte input limit are not modelled. Hashing is taken as a function, so the random salt is not modelled either.
- `Date.parse` and `new Date` are a parameter, because JavaScript date-string parsing is host-defined.
- UserRoutes.Update: assumes that Mongoose casts the update's date string with the same parser as signup. `models/User.js` is not part of this model, so the schema type of `dateOfBirth` is not known. Mongoose's date cast reads some numeric strings as milliseconds instead of parsing them, and that is not modelled.
- The catch blocks for thrown database errors are not modelled, because they depend on driver failures: api/User.js:26-32, 53-59, 130-136, 190-196 and 247-253, and 164-170 except for the unparsable date.
- Malformed ids are not modelled, because ids are natural numbers here. In the code, an id that is not a valid ObjectId makes `findById` throw, and the catch messages at api/User.js:26-32, 164-170 and 190-196 are sent.
- Concurrency is not modelled. The read-then-write race between two signups cannot be expressed in a sequential model, so uniqueness is proved for signups run one after another only.
- Missing or non-string request fields are not modelled. In signup and signin they make `trim` throw outside the `try`. In update, a value that is present but not a string is not modelled either.
- Database ids are drawn from a counter. The structure of MongoDB ObjectIds is not modelled.
- UserStore.FindByEmail: when several records share an email (in a run of requests one after another only update causes this; signups running at the same time can as well), `findOne` returns one in the database's natural order, which is unspecified. The model picks the earliest-issued id.
- UserRoutes.GetAll: returns the collection as a map. The order of the documents in the JSON array is not modelled.
- Strings are sequences of Unicode scalar values, so a lone surrogate cannot be represented. A JSON body can carry one (`"\ud800"`); JavaScript's `trim` keeps it and `length` counts it as 1.
- Logging, JSON serialisation and the HTTP status (always 200 on these routes) are not modelled.
