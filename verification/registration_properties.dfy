/**
 What `registro` promises, stated over all requests, collections and
 database behaviours: the order of its checks, the record it stores, and
 the uniqueness of e-mails across a sequence of registrations.
 */
module RegistrationProperties {
  import opened Text
  import opened EmailFormat
  import opened AuthController

  /** No two stored users share an e-mail. */
  predicate DistinctEmails(store: seq<User>) {
    forall a, b | 0 <= a < b < |store| :: store[a].email != store[b].email
  }

  /** Every stored e-mail passes the format check and is already lower-case. */
  predicate NormalisedEmails(store: seq<User>) {
    forall a | 0 <= a < |store| :: RegexTest(store[a].email) && Lower(store[a].email) == store[a].email
  }

  /** The e-mail of a request that got past the required-field check. */
  function EmailOf(req: Request): string
    requires !Falsy(req.email)
  {
    req.email.value
  }

  /** A missing or empty `nombre` or `email` is refused with 400 before any
      other check, whatever the e-mail looks like and whatever the database does. */
  lemma RequiredFieldsFirst(req: Request, store: seq<User>, env: Env)
    requires Falsy(req.nombre) || Falsy(req.email)
    ensures Registro(req, store, env) == Outcome(Response(400, false, Rejected(Obligatorios, None)), store)
  {
  }

  /** With both fields present, the format message is given exactly when the
      address is not well shaped (no whitespace, one `@`, non-empty local part,
      an inner dot in the domain), and then the collection is unchanged. */
  lemma FormatCheck(req: Request, store: seq<User>, env: Env)
    requires !Falsy(req.nombre) && !Falsy(req.email)
    ensures var out := Registro(req, store, env);
      && (out.response.body == Rejected(FormatoInvalido, None) <==> !WellShaped(EmailOf(req)))
      && (!WellShaped(EmailOf(req)) ==> out.response.status == 400 && out.store == store)
  {
    FormatRejected(req, store, env);
    RegexIffWellShaped(EmailOf(req));
  }

  /** `FormatCheck` stated with the pattern as written. */
  lemma FormatRejected(req: Request, store: seq<User>, env: Env)
    requires !Falsy(req.nombre) && !Falsy(req.email)
    ensures var out := Registro(req, store, env);
      && (out.response.body == Rejected(FormatoInvalido, None) <==> !RegexTest(EmailOf(req)))
      && (!RegexTest(EmailOf(req)) ==> out.response.status == 400 && out.store == store)
  {
  }

  /** The key the duplicate lookup uses is the e-mail that gets stored:
      an address that passes the format check has no whitespace, so trimming
      after lower-casing changes nothing. */
  lemma LookupKeyIsStoredEmail(req: Request)
    requires !Falsy(req.nombre) && !Falsy(req.email) && RegexTest(EmailOf(req))
    ensures NuevoUsuario(req).email == Lower(EmailOf(req))
  {
    MatchHasNoSpace(EmailOf(req));
  }

  /** An address that passes the format check and is already held
      (lower-cased) by some user is a 409, and the collection is unchanged,
      whatever `save` would have done. */
  lemma DuplicateIsConflict(req: Request, store: seq<User>, env: Env, u: User)
    requires !Falsy(req.nombre) && !Falsy(req.email) && RegexTest(EmailOf(req))
    requires env.findError.None?
    requires u in store && u.email == Lower(EmailOf(req))
    ensures Registro(req, store, env) == Outcome(Response(409, false, Rejected(YaExiste, None)), store)
  {
  }

  /** Registration succeeds exactly when both fields are present, the address
      is well shaped, the lookup neither fails nor finds it, and `save` succeeds. */
  lemma SuccessIff(req: Request, store: seq<User>, env: Env)
    ensures Registro(req, store, env).response.status == 201 <==>
      && !Falsy(req.nombre) && !Falsy(req.email)
      && WellShaped(EmailOf(req))
      && env.findError.None?
      && (forall u | u in store :: u.email != Lower(EmailOf(req)))
      && env.save.Saved?
  {
    SuccessIffRegex(req, store, env);
    if !Falsy(req.nombre) && !Falsy(req.email) {
      RegexIffWellShaped(EmailOf(req));
    }
  }

  /** Every check of the handler passes: both fields are present, the
      pattern as written accepts the address, and the lookup by the
      lower-cased address neither throws nor finds anybody. */
  predicate Checked(req: Request, store: seq<User>, env: Env) {
    && !Falsy(req.nombre) && !Falsy(req.email)
    && RegexTest(EmailOf(req))
    && env.findError.None?
    && (forall u | u in store :: u.email != Lower(EmailOf(req)))
  }

  /** Every check passes and `save` succeeds. */
  predicate Admitted(req: Request, store: seq<User>, env: Env) {
    Checked(req, store, env) && env.save.Saved?
  }

  /** An error thrown by the lookup of an address that passed the format
      check goes to the `catch` block, and the collection is unchanged. */
  lemma FindErrorCaught(req: Request, store: seq<User>, env: Env, e: DbError)
    requires !Falsy(req.nombre) && !Falsy(req.email) && RegexTest(EmailOf(req))
    requires env.findError == Some(e)
    ensures Registro(req, store, env) == Outcome(CatchError(e), store)
  {
  }

  /** An error thrown by `save` after every check passed goes to the `catch`
      block, and the collection is unchanged: a duplicate key caught at write
      time is a 409 with its own message, distinct from the lookup's. */
  lemma SaveErrorCaught(req: Request, store: seq<User>, env: Env, e: DbError)
    requires Checked(req, store, env) && env.save == SaveFailed(e)
    ensures Registro(req, store, env) == Outcome(CatchError(e), store)
    ensures e.name != ValidationErrorName && e.code == Some(DuplicateKeyCode) ==>
      Registro(req, store, env).response == Response(409, false, Rejected(Duplicado, None))
  {
    assert FindOne(store, Lower(EmailOf(req))).None?;
  }

  /** `SuccessIff` stated with the pattern as written. */
  lemma SuccessIffRegex(req: Request, store: seq<User>, env: Env)
    ensures Registro(req, store, env).response.status == 201 <==> Admitted(req, store, env)
  {
  }

  /** On success exactly one record is appended: the trimmed name, the
      lower-cased e-mail, the phone or `""`, the birth date or null, and the
      id and timestamp from `save`; the response returns that record and a
      24-hour token for its id. */
  lemma SuccessRecord(req: Request, store: seq<User>, env: Env)
    requires Admitted(req, store, env)
    ensures var out := Registro(req, store, env);
      var u := User(env.save.id, Trim(req.nombre.value), Lower(EmailOf(req)),
                    OrElse(req.telefono, ""), OrNull(req.fechaNacimiento), env.save.fechaCreacion);
      && out.store == store + [u]
      && out.response == Response(201, true, Created(Registrado, Token(Claims(u.id), "24h"), u))
  {
    SavedPath(req, store, env);
    LookupKeyIsStoredEmail(req);
  }

  /** When every check passes, the result is that of saving the new document. */
  lemma SavedPath(req: Request, store: seq<User>, env: Env)
    requires Admitted(req, store, env)
    ensures Registro(req, store, env) == Guardar(NuevoUsuario(req), store, env.save)
  {
    assert FindOne(store, Lower(EmailOf(req))).None?;
  }

  /** Whatever the outcome, a collection with pairwise distinct e-mails keeps them distinct. */
  lemma UniquenessPreserved(req: Request, store: seq<User>, env: Env)
    requires DistinctEmails(store)
    ensures DistinctEmails(Registro(req, store, env).store)
  {
    var out := Registro(req, store, env);
    if out.response.status == 201 {
      SuccessIffRegex(req, store, env);
      SuccessRecord(req, store, env);
      var u := out.store[|store|];
      forall a | 0 <= a < |store| ensures out.store[a].email != u.email {
        assert store[a] in store;
      }
    }
  }

  /** Whatever the outcome, every stored e-mail stays well formed and lower-case. */
  lemma NormalisationPreserved(req: Request, store: seq<User>, env: Env)
    requires NormalisedEmails(store)
    ensures NormalisedEmails(Registro(req, store, env).store)
  {
    var out := Registro(req, store, env);
    if out.response.status == 201 {
      SuccessIffRegex(req, store, env);
      SuccessRecord(req, store, env);
      var e := EmailOf(req);
      LowerKeepsMatch(e);
      LowerIdempotent(e);
      forall a | 0 <= a < |out.store|
        ensures RegexTest(out.store[a].email) && Lower(out.store[a].email) == out.store[a].email
      {
        if a < |store| {
          assert out.store[a] == store[a];
        } else {
          assert out.store[a].email == Lower(e);
        }
      }
    }
  }

  /** Registering the same request twice in a row: the first succeeds, the
      second is a 409 that leaves the collection as the first left it. */
  lemma RegisterTwice(req: Request, store: seq<User>, env1: Env, env2: Env)
    requires Admitted(req, store, env1)
    requires env2.findError.None?
    ensures Registro(req, store, env1).response.status == 201
    ensures var s1 := Registro(req, store, env1).store;
      Registro(req, s1, env2) == Outcome(Response(409, false, Rejected(YaExiste, None)), s1)
  {
    SuccessIffRegex(req, store, env1);
    SameAddressConflict(req, store, env1, req, env2);
  }

  /** After a successful registration, any later request whose address
      lower-cases to the same string (whatever its name and letter case) is
      a 409 that leaves the collection as it was. */
  lemma SameAddressConflict(req: Request, store: seq<User>, env1: Env, req2: Request, env2: Env)
    requires Admitted(req, store, env1)
    requires !Falsy(req2.nombre) && !Falsy(req2.email)
    requires Lower(EmailOf(req2)) == Lower(EmailOf(req))
    requires env2.findError.None?
    ensures var s1 := Registro(req, store, env1).store;
      Registro(req2, s1, env2) == Outcome(Response(409, false, Rejected(YaExiste, None)), s1)
  {
    var s1 := Registro(req, store, env1).store;
    SuccessRecord(req, store, env1);
    assert s1[|store|] in s1;
    LowerMatchIff(EmailOf(req));
    LowerMatchIff(EmailOf(req2));
    DuplicateIsConflict(req2, s1, env2, s1[|store|]);
  }

  /** The e-mail of `NormalisationExample` passes the format check. */
  lemma BobEmailAccepted()
    ensures RegexTest("BOB@EXAMPLE.COM")
  {
    var e := "BOB@EXAMPLE.COM";
    assert e[..3] == "BOB" && e[4..11] == "EXAMPLE" && e[12..] == "COM";
    assert MatchesAt(e, 3, 11);
  }

  /** The e-mail of `NormalisationExample` lower-cases as expected. */
  lemma BobEmailLowered()
    ensures Lower("BOB@EXAMPLE.COM") == "bob@example.com"
  {
    var e := "BOB@EXAMPLE.COM";
    assert forall k | 0 <= k < |e| :: Lower(e)[k] == "bob@example.com"[k];
  }

  /** The name of `NormalisationExample` loses its padding. */
  lemma BobName()
    ensures Trim("  Bob  ") == "Bob"
  {
    assert "  Bob  " == "  " + "Bob" + "  ";
    TrimDropsPadding("  ", "Bob", "  ");
  }

  /** The request of `NormalisationExample` is accepted when nobody holds its address. */
  lemma BobAccepted(store: seq<User>, env: Env)
    requires forall u | u in store :: u.email != "bob@example.com"
    requires env.findError.None? && env.save.Saved?
    ensures Admitted(Request(Some("  Bob  "), Some("BOB@EXAMPLE.COM"), None, None), store, env)
  {
    BobEmailAccepted();
    BobEmailLowered();
  }

  /** Upper-case addresses are accepted and stored lower-cased; names are trimmed;
      a missing phone and birth date become `""` and null. */
  lemma NormalisationExample(store: seq<User>, id: ObjectId, at: nat)
    requires forall u | u in store :: u.email != "bob@example.com"
    ensures Registro(Request(Some("  Bob  "), Some("BOB@EXAMPLE.COM"), None, None), store, Env(None, Saved(id, at))).store
      == store + [User(id, "Bob", "bob@example.com", "", None, at)]
  {
    var req := Request(Some("  Bob  "), Some("BOB@EXAMPLE.COM"), None, None);
    var env := Env(None, Saved(id, at));
    BobAccepted(store, env);
    SuccessRecord(req, store, env);
    BobEmailLowered();
    BobName();
  }

  /** Addresses without a dot after the `@`, without a local part, or without an `@` are refused. */
  lemma FormatExamples(store: seq<User>, env: Env)
    ensures Registro(Request(Some("Ana"), Some("foo"), None, None), store, env).response.body == Rejected(FormatoInvalido, None)
    ensures Registro(Request(Some("Ana"), Some("a@b"), None, None), store, env).response.body == Rejected(FormatoInvalido, None)
    ensures Registro(Request(Some("Ana"), Some("@b.com"), None, None), store, env).response.body == Rejected(FormatoInvalido, None)
  {
    CountAbsent('@', "foo");
    RegexIffWellShaped("foo");
    assert !RegexTest("a@b");
    assert !RegexTest("@b.com");
  }
}
