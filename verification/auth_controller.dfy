/**
 The sign-up handler `registro` of the authentication controller, as a pure
 state transition: a request, the current user collection and the outcomes
 of the two database calls go in; an HTTP response and the new user
 collection come out.

 The database is a sequence of stored users. What `User.findOne` and
 `save` do beyond what the handler observes (a thrown error, an id and
 creation timestamp) is supplied by the caller in `Env`. The signed token is
 the opaque value `Token(Claims(id), "24h")`.
 */
module AuthController {
  import opened Text
  import opened EmailFormat

  datatype Option<T> = None | Some(value: T)

  /** The document id that the database assigns on save. */
  type ObjectId = nat

  /** The request body. `None` stands for an absent or `null` property. */
  datatype Request = Request(
    nombre: Option<string>,
    email: Option<string>,
    telefono: Option<string>,
    fechaNacimiento: Option<string>)

  /** The document built by the handler before it is saved. */
  datatype Draft = Draft(
    nombre: string,
    email: string,
    telefono: string,
    fechaNacimiento: Option<string>)

  /** A stored user: the saved draft plus the id and creation time the database assigns. */
  datatype User = User(
    id: ObjectId,
    nombre: string,
    email: string,
    telefono: string,
    fechaNacimiento: Option<string>,
    fechaCreacion: nat)

  /** An error thrown by the database: its `name`, the messages of its
      per-field `errors` in order, and its numeric `code` if it has one. */
  datatype DbError = DbError(name: string, messages: seq<string>, code: Option<int>)

  /** What `save` does with the draft. */
  datatype SaveOutcome =
    | Saved(id: ObjectId, fechaCreacion: nat)
    | SaveFailed(error: DbError)

  /** The behaviour of the database for one request: whether `findOne` throws,
      and what `save` does. */
  datatype Env = Env(findError: Option<DbError>, save: SaveOutcome)

  /** The payload of the signed token and its validity. */
  datatype Claims = Claims(userId: ObjectId)
  datatype Token = Token(claims: Claims, expiresIn: string)

  /** The fixed `message` of each response. */
  datatype Message =
    | Obligatorios
    | FormatoInvalido
    | YaExiste
    | Registrado
    | ErrorValidacion
    | Duplicado
    | ErrorInterno

  datatype Body =
    | Created(message: Message, token: Token, user: User)
    | Rejected(message: Message, errors: Option<seq<string>>)

  datatype Response = Response(status: nat, success: bool, body: Body)

  datatype Outcome = Outcome(response: Response, store: seq<User>)

  /** The text sent for each message. */
  function MessageText(m: Message): string {
    match m
    case Obligatorios => "Nombre y email son obligatorios"
    case FormatoInvalido => "El formato del email no es válido"
    case YaExiste => "Ya existe un usuario con este email"
    case Registrado => "Usuario registrado exitosamente"
    case ErrorValidacion => "Error de validación"
    case Duplicado => "El email ya está registrado"
    case ErrorInterno => "Error interno del servidor al registrar usuario"
  }

  const ValidationErrorName := "ValidationError"
  const DuplicateKeyCode := 11000
  const TokenExpiry := "24h"

  /** JavaScript truthiness of a string property: absent, `null` and `""` are falsy. */
  predicate Falsy(f: Option<string>) {
    f.None? || f.value == []
  }

  /** `f || fallback` for a string property. */
  function OrElse(f: Option<string>, fallback: string): (r: string)
    ensures Falsy(f) ==> r == fallback
    ensures !Falsy(f) ==> r == f.value && r != []
  {
    if Falsy(f) then fallback else f.value
  }

  /** `f || null` for a string property. */
  function OrNull(f: Option<string>): (r: Option<string>)
    ensures r.None? <==> Falsy(f)
    ensures r.Some? ==> r == f && r.value != []
  {
    if Falsy(f) then None else f
  }

  /** `generarToken(userId)`: the token carries the id as its only claim and expires after 24 hours. */
  function GenerarToken(userId: ObjectId): (t: Token)
    ensures t.claims.userId == userId && t.expiresIn == "24h"
  {
    Token(Claims(userId), TokenExpiry)
  }

  /** Tokens issued for different users differ: the token identifies the user it was issued for. */
  lemma TokenIdentifiesUser(a: ObjectId, b: ObjectId)
    ensures GenerarToken(a) == GenerarToken(b) ==> a == b
  {
  }

  /** `User.findOne({ email: key })`: some stored user with that exact email, if there is one. */
  function FindOne(store: seq<User>, key: string): (r: Option<User>)
    ensures r.Some? <==> exists u | u in store :: u.email == key
    ensures r.Some? ==> r.value in store && r.value.email == key
  {
    if |store| == 0 then None
    else if store[0].email == key then Some(store[0])
    else FindOne(store[1..], key)
  }

  /** The document the handler builds from a request that passed the checks. */
  function NuevoUsuario(req: Request): (d: Draft)
    requires req.nombre.Some? && req.email.Some?
    ensures Trimmed(d.nombre) && Trimmed(d.email)
    ensures forall k | 0 <= k < |d.email| :: !IsUpper(d.email[k])
    ensures exists a :: SliceBetweenSpace(req.nombre.value, d.nombre, a)
    ensures exists a :: SliceBetweenSpace(Lower(req.email.value), d.email, a)
    ensures d.telefono == [] <==> Falsy(req.telefono)
    ensures !Falsy(req.telefono) ==> d.telefono == req.telefono.value
    ensures d.fechaNacimiento.None? <==> Falsy(req.fechaNacimiento)
    ensures !Falsy(req.fechaNacimiento) ==> d.fechaNacimiento == req.fechaNacimiento
  {
    LowerTrimHasNoUpper(req.email.value);
    Draft(
      Trim(req.nombre.value),
      Trim(Lower(req.email.value)),
      OrElse(req.telefono, ""),
      OrNull(req.fechaNacimiento))
  }

  function Stamp(d: Draft, id: ObjectId, fechaCreacion: nat): User {
    User(id, d.nombre, d.email, d.telefono, d.fechaNacimiento, fechaCreacion)
  }

  function Reject(status: nat, message: Message): Response {
    Response(status, false, Rejected(message, None))
  }

  /** The `catch` block: a validation error is a 400 carrying its field
      messages in order, and takes precedence over the duplicate-key code
      11000, which is a 409; anything else is a 500. */
  function CatchError(e: DbError): (r: Response)
    ensures !r.success && r.body.Rejected?
    ensures r.status == 400 <==> e.name == ValidationErrorName
    ensures r.status == 409 <==> e.name != ValidationErrorName && e.code == Some(DuplicateKeyCode)
    ensures r.status == 500 <==> e.name != ValidationErrorName && e.code != Some(DuplicateKeyCode)
    ensures r.status == 400 ==> r.body == Rejected(ErrorValidacion, Some(e.messages))
    ensures r.status == 409 ==> r.body == Rejected(Duplicado, None)
    ensures r.status == 500 ==> r.body == Rejected(ErrorInterno, None)
  {
    if e.name == ValidationErrorName then
      Response(400, false, Rejected(ErrorValidacion, Some(e.messages)))
    else if e.code == Some(DuplicateKeyCode) then
      Reject(409, Duplicado)
    else
      Reject(500, ErrorInterno)
  }

  /** `registro`: required fields, e-mail format, duplicate lookup, build,
      save, respond, in that order. Only a successful save changes the
      collection, and then by appending exactly the saved user. */
  function Registro(req: Request, store: seq<User>, env: Env): (out: Outcome)
    ensures out.response.status in {201, 400, 409, 500}
    ensures out.response.success <==> out.response.status == 201
    ensures out.response.status == 201 ==> |out.store| == |store| + 1 && out.store[..|store|] == store
    ensures out.response.status != 201 ==> out.store == store
    ensures out.response.status == 201 <==> out.response.body.Created?
    ensures out.response.body.Created? ==>
      out.response.body.user == out.store[|store|]
      && out.response.body.token.claims.userId == out.store[|store|].id
      && out.response.body.token.expiresIn == "24h"
  {
    if Falsy(req.nombre) || Falsy(req.email) then
      Outcome(Reject(400, Obligatorios), store)
    else if !RegexTest(req.email.value) then
      Outcome(Reject(400, FormatoInvalido), store)
    else if env.findError.Some? then
      Outcome(CatchError(env.findError.value), store)
    else if FindOne(store, Lower(req.email.value)).Some? then
      Outcome(Reject(409, YaExiste), store)
    else
      Guardar(NuevoUsuario(req), store, env.save)
  }

  /** `nuevoUsuario.save()` and what follows it: the saved user is appended and
      returned with a token for its id, or the thrown error goes to the `catch` block. */
  function Guardar(nuevo: Draft, store: seq<User>, save: SaveOutcome): (out: Outcome)
    ensures out.response.status == 201 <==> save.Saved?
    ensures save.Saved? ==> |out.store| == |store| + 1
    ensures save.Saved? ==>
      var u := out.store[|store|];
      && out.store == store + [u]
      && u.id == save.id && u.fechaCreacion == save.fechaCreacion
      && Draft(u.nombre, u.email, u.telefono, u.fechaNacimiento) == nuevo
      && out.response == Response(201, true, Created(Registrado, GenerarToken(save.id), u))
    ensures save.SaveFailed? ==> out == Outcome(CatchError(save.error), store)
  {
    match save
    case SaveFailed(e) => Outcome(CatchError(e), store)
    case Saved(id, fechaCreacion) =>
      var guardado := Stamp(nuevo, id, fechaCreacion);
      var token := GenerarToken(guardado.id);
      Outcome(Response(201, true, Created(Registrado, token, guardado)), store + [guardado])
  }
}
