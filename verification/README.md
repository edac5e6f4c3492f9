# Registration handler model

A Dafny model of `registro`, the sign-up handler in
`back/chava/controllers/authController.js`. It is the only part of this
repository with behaviour worth stating. The handler takes a request body
(`nombre`, `email`, `telefono`, `fechaNacimiento`). It runs a fixed pipeline
and ends in exactly one HTTP response:

1. If `nombre` or `email` is falsy, it answers 400 "Nombre y email son obligatorios".
2. If the raw e-mail does not match `^[^\s@]+@[^\s@]+\.[^\s@]+$`, it answers 400 with the format message.
3. It looks up a user by `email.toLowerCase()`. If one exists, it answers 409.
4. It builds the document: trimmed name, lower-cased and trimmed e-mail,
   `telefono || ''`, and `fechaNacimiento || null`. Then it saves the document.
5. It answers 201 with `success: true`, a token for the new id with a 24-hour
   expiry, and the saved fields.
6. An error thrown by the database goes to the `catch` block:
   - a `ValidationError` gives 400 with the field messages in order;
   - otherwise code 11000 gives 409;
   - anything else gives 500.

The model is functional. `AuthController.Registro` maps a request, the user
collection (a `seq<User>`) and an `Env` to an `Outcome`, which holds the
response and the new collection. `Env` describes what the database does for
this request: whether `findOne` throws, and whether `save` returns an id
and creation time or throws a `DbError`. The token is the opaque value
`Token(Claims(id), "24h")`. Each response message is a tag of the
`Message` datatype, and `MessageText` gives its Spanish text as sent.

Files:
- `text.dfy` (module `Text`): the ECMAScript whitespace class shared by `\s` and
  `trim`, ASCII lower-casing, and `trim` specified as a whitespace-bounded slice.
- `email_format.dfy` (module `EmailFormat`): the e-mail pattern in three forms, proved equivalent:
  - as written (`RegexTest`);
  - in plain words (`WellShaped`): no whitespace, exactly one `@`, a non-empty
    local part, and a dot inside the domain;
  - as a linear scanner (`TestEmail`).
- `auth_controller.dfy` (module `AuthController`): the request, user, error and
  response datatypes, the lookup, the `catch` mapping and `Registro`.
- `registration_properties.dfy` (module `RegistrationProperties`): the lemmas.
  They cover the check order, the stored record, the lookup key, duplicate
  handling, the uniqueness and normalisation invariants, and registering twice.

Two details of the code matter for the model:
- The duplicate lookup uses `email.toLowerCase()`, not the trimmed and
  lower-cased e-mail that gets stored. `RegistrationProperties.LookupKeyIsStoredEmail`
  proves that the two agree for every address that passes the format check.
  `EmailFormat.LowerMatchIff` shows that letter case never decides the format
  check, so any two addresses that lower-case alike collide.
- The required-field check looks at the untrimmed `nombre`. A name of only
  spaces passes it and is stored as `""`, unless the database's schema
  rejects it; the model leaves that to the save outcome.

## Model

| member | source | states |
|---|---|---|
| Text.Trim | back/chava/controllers/authController.js:47-48 | `trim` returns a slice of its input with only whitespace outside it and none at either end |
| Text.LowerChar | back/chava/controllers/authController.js:48 | `toLowerCase` on one character: the result is never an upper-case ASCII letter, an upper-case letter moves to its lower-case partner, and every other character is kept |
| Text.Lower | back/chava/controllers/authController.js:48 | `toLowerCase` keeps the length and maps each position through `LowerChar` |
| Text.LowerIdempotent | back/chava/controllers/authController.js:48 | lower-casing twice is lower-casing once, so the stored lower-cased e-mail is its own lookup key |
| Text.LowerTrimHasNoUpper | back/chava/controllers/authController.js:48 | `email.toLowerCase().trim()` has no upper-case letter, because trimming only takes a slice |
| Text.TrimIdentity | back/chava/controllers/authController.js:48 | trimming leaves a string unchanged exactly when it has no whitespace at either end |
| Text.TrimDropsPadding | back/chava/controllers/authController.js:47 | a name padded with whitespace on both sides trims back to the name |
| Text.TrimIdempotent | back/chava/controllers/authController.js:47-48 | trimming twice is trimming once |
| Text.LowerKeepsSpace | back/chava/controllers/authController.js:48 | lower-casing neither creates nor removes whitespace, so after lower-casing a whitespace-free e-mail `trim` is a no-op |
| EmailFormat.RegexTest | back/chava/controllers/authController.js:27-28 | `emailRegex.test(email)`: the anchored pattern matches with some placement of its `@` and `.`; any accepted string has at least five characters and starts and ends with a character of `[^\s@]` |
| EmailFormat.RegexIffWellShaped | back/chava/controllers/authController.js:27-28 | the anchored pattern accepts an address exactly when it has no whitespace, one `@`, a non-empty local part and a dot that is neither first nor last in the domain |
| EmailFormat.TestEmail | back/chava/controllers/authController.js:27-28 | a single left-to-right scan accepts exactly the strings the pattern matches |
| EmailFormat.MatchHasNoSpace | back/chava/controllers/authController.js:27-36 | an address accepted by the pattern has no whitespace, so `trim` leaves it and its lower-cased form unchanged |
| EmailFormat.LowerKeepsMatch | back/chava/controllers/authController.js:27-48 | the lower-cased form of an accepted address is itself accepted |
| EmailFormat.LowerMatchIff | back/chava/controllers/authController.js:27-36 | the pattern accepts an address exactly when it accepts the lower-cased address |
| AuthController.OrElse | back/chava/controllers/authController.js:49 | `telefono \|\| ''` is `''` for an absent or empty phone and the given non-empty phone otherwise |
| AuthController.OrNull | back/chava/controllers/authController.js:50 | `fechaNacimiento \|\| null` is null exactly when the given value is falsy |
| AuthController.FindOne | back/chava/controllers/authController.js:36-38 | the lookup finds a user exactly when some stored user has that e-mail, and what it finds is such a stored user |
| AuthController.GenerarToken | back/chava/controllers/authController.js:5-10 | the token carries the user id as its claim and expires after `'24h'` |
| AuthController.TokenIdentifiesUser | back/chava/controllers/authController.js:5-10 | tokens for different ids differ |
| AuthController.NuevoUsuario | back/chava/controllers/authController.js:46-51 | the name is the request's name with only whitespace cut from its ends and none left at either end; the e-mail is likewise the trimmed lower-cased request e-mail, with no upper-case letter; the phone is the request's phone when truthy and `''` otherwise; the birth date is the request's when truthy and null otherwise |
| AuthController.Guardar | back/chava/controllers/authController.js:54-98 | a `save` that returns gives 201 with the draft stamped with the returned id and time, appended as the only new user, and a token for that id; a `save` that throws goes through the `catch` block with the collection unchanged |
| AuthController.CatchError | back/chava/controllers/authController.js:74-98 | a validation error gives 400 "Error de validación" with its messages in order and takes precedence over code 11000, which gives 409 "El email ya está registrado"; every other error gives 500 "Error interno…"; only the 400 carries `errors` |
| AuthController.Registro | back/chava/controllers/authController.js:14-99 | the status is 201, 400, 409 or 500; `success` holds exactly on 201; only 201 changes the collection, by appending one user; the 201 body returns that user and a 24-hour token whose claim is its id |
| RegistrationProperties.RequiredFieldsFirst | back/chava/controllers/authController.js:19-24 | a falsy name or e-mail gives 400 "obligatorios" before any other check, whatever the database does, with the collection unchanged |
| RegistrationProperties.FormatCheck | back/chava/controllers/authController.js:26-33 | with both fields present, the format message is given exactly when the address is not well shaped, and then the status is 400 and the collection is unchanged |
| RegistrationProperties.LookupKeyIsStoredEmail | back/chava/controllers/authController.js:36-48 | for an accepted address, the stored e-mail `toLowerCase().trim()` equals the lookup key `toLowerCase()` |
| RegistrationProperties.DuplicateIsConflict | back/chava/controllers/authController.js:35-43 | if both fields are present, the address passes the format check, the lookup does not throw and a stored user already has the address lower-cased, the result is 409 "Ya existe" with the collection unchanged, whatever `save` would do |
| RegistrationProperties.FindErrorCaught | back/chava/controllers/authController.js:36-98 | an error thrown by the lookup of an address that passed the format check is answered by the `catch` block, with the collection unchanged |
| RegistrationProperties.SaveErrorCaught | back/chava/controllers/authController.js:54-98 | an error thrown by `save` after every check passed is answered by the `catch` block with the collection unchanged; a duplicate key then gives 409 "El email ya está registrado", not the lookup's "Ya existe" |
| RegistrationProperties.SuccessIff | back/chava/controllers/authController.js:18-57 | 201 happens exactly when both fields are present, the address is well shaped, the lookup neither throws nor finds it, and `save` succeeds |
| RegistrationProperties.SuccessRecord | back/chava/controllers/authController.js:45-72 | on 201 exactly one user is appended (trimmed name, lower-cased e-mail, phone or `''`, birth date or null, id and time from `save`) and the response carries that user and a 24-hour token for its id |
| RegistrationProperties.UniquenessPreserved | back/chava/controllers/authController.js:35-54 | whatever the outcome, pairwise distinct stored e-mails stay pairwise distinct |
| RegistrationProperties.NormalisationPreserved | back/chava/controllers/authController.js:27-54 | whatever the outcome, every stored e-mail keeps passing the pattern and stays lower-case |
| RegistrationProperties.RegisterTwice | back/chava/controllers/authController.js:35-54 | a request that passes every check and saves gets 201; repeating it while the lookup does not throw then gives 409 and leaves the collection as the first call left it |
| RegistrationProperties.SameAddressConflict | back/chava/controllers/authController.js:27-54 | after a successful registration, a request with a present name (any name) and an address equal up to letter case gets 409 and leaves the collection unchanged, provided the lookup does not throw |
| RegistrationProperties.NormalisationExample | back/chava/controllers/authController.js:46-51 | when no stored user holds `"bob@example.com"`, the lookup does not throw and `save` returns, `"  Bob  "` / `"BOB@EXAMPLE.COM"` with no phone or birth date is stored as `"Bob"`, `"bob@example.com"`, `""`, null |
| RegistrationProperties.FormatExamples | back/chava/controllers/authController.js:27-33 | `"foo"`, `"a@b"` and `"@b.com"` get the format message |

## Left out

- `back/chava/server.js` is not part of this model. It holds the Express
  setup, CORS, the environment checks, the database connection, the health
  route, the error handler and the shutdown hook. All of this is transport
  and process plumbing.
- JWT signing and the `'fallback_secret'` default are a foreign library call
  and configuration. The token is modelled as the opaque value of the id and
  the expiry.
- The database's schema validation, id and `fechaCreacion` generation, and
  unique index are outside the model. They appear only as the outcomes
  carried by `Env`.
- Ids are not promised to be unique: `Saved(id, _)` may carry an id that a
  stored user already has, because id generation belongs to the database.
- The race between `findOne` and `save` under concurrent requests is not
  modelled. The model is sequential, and the 11000 branch is reached only
  through a `save` outcome.
- Text.Lower: lower-cases ASCII letters only, because the full Unicode
  case mapping of `toLowerCase` is out of scope.
- Text.IsSpace is fixed to the ECMAScript WhiteSpace and LineTerminator code
  points. Both `\s` and `trim` use this set.
- Request properties are strings or absent. Non-string JSON values (numbers,
  booleans, objects) are not modelled. Neither is the `TypeError` that
  `trim` would throw on them.
- `fechaNacimiento` is carried as the raw string. The cast to a date belongs
  to the schema.
- AuthController.GenerarToken: the `iat` issue time and the `exp` expiry time that `jwt.sign`
  adds are not modelled, because they come from the clock. The token holds only the id and
  the `'24h'` validity, so two tokens for the same id issued at different times are not told apart.
- AuthController.FindOne returns the first match. The database promises only
  some match, and the handler uses only whether one exists.
- AuthController.CatchError assumes a `ValidationError` always carries its
  `errors` object, as the database library guarantees.
- `console.error` logging and the JSON serialisation of responses are not
  modelled.
