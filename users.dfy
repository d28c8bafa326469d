/** Accounts: the `/register` validator and insert tuple, the `usuarios` table the
    route appends to, and the `/login` decision over that table. */
module Users {
  import opened Wrappers
  import opened JsText

  /** A row of the `usuarios` table. Company accounts leave `apellidos`,
      `tipo_documento`, `documento` and `avatar` NULL. */
  datatype Usuario = Usuario(
    id: nat,
    email: string,
    nombres: string,
    apellidos: Option<string>,
    tipoDocumento: Option<string>,
    documento: Option<string>,
    rol: string,
    contrasena: string,
    avatar: Option<string>)

  /** The JSON body of `/register`; a field that was not sent is None. */
  datatype RegisterRequest = RegisterRequest(
    email: Option<string>,
    nombres: Option<string>,
    apellidos: Option<string>,
    tipoDocumento: Option<string>,
    documento: Option<string>,
    rol: Option<string>,
    contrasena: Option<string>,
    avatar: Option<string>,
    nombreEmpresa: Option<string>)

  /** The tuple handed to the INSERT statement: 4 values for a company, 8 for a
      person. */
  datatype NewUser =
    | Empresa(email: string, nombreEmpresa: string, rol: string, contrasena: string)
    | Persona(email: string, nombres: string, apellidos: string, tipoDocumento: string,
              documento: string, rol: string, contrasena: string, avatar: Option<string>)

  /** Why `/register` refuses a body before touching the table.
      `TrimOfUndefined`: `.trim()` was called on a field that was not sent; the
      handler throws and Express answers 500. The other two are the 400 answers. */
  datatype RegisterError = TrimOfUndefined | MissingCompanyFields | MissingUserFields

  datatype RegisterResponse =
    | Rejected(error: RegisterError)
    | EmailInUse
    | Registered(userId: nat)

  function RegisterStatus(r: RegisterResponse): (status: int)
    ensures status == 200 <==> r.Registered?
    ensures status == 500 <==> r == Rejected(TrimOfUndefined)
    ensures status == 400 <==> r.EmailInUse? || (r.Rejected? && r.error != TrimOfUndefined)
  {
    match r
    case Rejected(TrimOfUndefined) => 500
    case Rejected(_) => 400
    case EmailInUse => 400
    case Registered(_) => 200
  }

  /** How a chain `!a.trim() || !b.trim() || ...` ends when evaluated left to
      right: every field filled, stopped at a blank field, or stopped by a field
      that was not sent (its `.trim()` throws). */
  datatype FieldCheck = AllFilled | Blank | Absent

  /** One link of the chain: `field` is looked at first, `rest` is how the
      fields after it end. */
  function CheckField(field: Option<string>, rest: FieldCheck): (r: FieldCheck)
    ensures r == AllFilled <==> Filled(field) && rest == AllFilled
    ensures r == Absent <==> field.None? || (Filled(field) && rest == Absent)
  {
    if field.None? then Absent
    else if Trim(field.value) == [] then Blank
    else rest
  }

  /** The validation of `/register` and the tuple it inserts. `email`,
      `contrasena` and `rol` are trimmed first (line order), then a non-empty
      `nombreEmpresa` selects the company field set and its absence the person
      field set. */
  function Validate(req: RegisterRequest): (r: Result<NewUser, RegisterError>)
    ensures req.email.None? || req.contrasena.None? || req.rol.None? ==> r == Err(TrimOfUndefined)
    ensures r.Ok? ==> (r.value.Empresa? <==> Truthy(req.nombreEmpresa))
  {
    if req.email.None? || req.contrasena.None? || req.rol.None? then Err(TrimOfUndefined)
    else if Truthy(req.nombreEmpresa) then ValidateCompany(req)
    else ValidatePerson(req)
  }

  /** The company branch: email, nombreEmpresa, rol and contrasena must all be
      non-blank after trimming. */
  function ValidateCompany(req: RegisterRequest): (r: Result<NewUser, RegisterError>)
    requires req.email.Some? && req.contrasena.Some? && req.rol.Some? && Truthy(req.nombreEmpresa)
    ensures r.Ok? ==> r.value.Empresa?
    ensures r.Err? ==> r.error == MissingCompanyFields
  {
    var email, contrasena, rol := Trim(req.email.value), Trim(req.contrasena.value), Trim(req.rol.value);
    var empresa := Trim(req.nombreEmpresa.value);
    if email == [] || empresa == [] || rol == [] || contrasena == [] then Err(MissingCompanyFields)
    else Ok(Empresa(email, empresa, rol, contrasena))
  }

  /** The person branch: `!emailTrimmed || !nombres.trim() || ...` in source
      order, so a blank email answers 400 before an absent name can throw. */
  function ValidatePerson(req: RegisterRequest): (r: Result<NewUser, RegisterError>)
    requires req.email.Some? && req.contrasena.Some? && req.rol.Some?
    ensures r.Ok? ==> r.value.Persona?
    ensures r.Err? ==> r.error != MissingCompanyFields
  {
    var email, contrasena, rol := Trim(req.email.value), Trim(req.contrasena.value), Trim(req.rol.value);
    if email == [] then Err(MissingUserFields)
    else
      match PersonChain(req)
      case Absent => Err(TrimOfUndefined)
      case Blank => Err(MissingUserFields)
      case AllFilled =>
        if rol == [] || contrasena == [] then Err(MissingUserFields)
        else
          Ok(Persona(email, Trim(req.nombres.value), Trim(req.apellidos.value), Trim(req.tipoDocumento.value),
                     Trim(req.documento.value), rol, contrasena, req.avatar))
  }

  /** `!nombres.trim() || !apellidos.trim() || !tipoDocumento.trim() || !documento.trim()`. */
  function PersonChain(req: RegisterRequest): (r: FieldCheck)
    ensures r == AllFilled <==>
      Filled(req.nombres) && Filled(req.apellidos) && Filled(req.tipoDocumento) && Filled(req.documento)
    ensures r == Absent <==> FirstUnfilledUnsent(req)
  {
    CheckField(req.nombres, CheckField(req.apellidos, CheckField(req.tipoDocumento, CheckField(req.documento, AllFilled))))
  }

  /** The first of nombres, apellidos, tipoDocumento, documento that is not
      filled was not sent at all, so the chain reaches it and its `.trim()`
      throws. */
  predicate FirstUnfilledUnsent(req: RegisterRequest) {
    || req.nombres.None?
    || (Filled(req.nombres) && req.apellidos.None?)
    || (Filled(req.nombres) && Filled(req.apellidos) && req.tipoDocumento.None?)
    || (Filled(req.nombres) && Filled(req.apellidos) && Filled(req.tipoDocumento) && req.documento.None?)
  }

  /** When the validation throws (the 500 answer): exactly when email,
      contrasena or rol was not sent, or when a person body with a filled email
      reaches a person field that was not sent. */
  lemma ValidateThrows(req: RegisterRequest)
    ensures Validate(req) == Err(TrimOfUndefined) <==>
      || req.email.None? || req.contrasena.None? || req.rol.None?
      || (!Truthy(req.nombreEmpresa) && Filled(req.email) && FirstUnfilledUnsent(req))
  {
    if req.email.Some? && req.contrasena.Some? && req.rol.Some? {
      if Truthy(req.nombreEmpresa) {
        assert ValidateCompany(req).Err? ==> ValidateCompany(req).error == MissingCompanyFields;
      } else if Filled(req.email) {
        PersonChainThrows(req);
      }
    }
  }

  /** In the person branch with a filled email, the handler throws exactly when
      the person chain stops at a field that was not sent. */
  lemma PersonChainThrows(req: RegisterRequest)
    requires !Truthy(req.nombreEmpresa) && req.email.Some? && req.rol.Some? && req.contrasena.Some?
    requires Filled(req.email)
    ensures Validate(req) == Err(TrimOfUndefined) <==> PersonChain(req) == Absent
  {
  }

  /** A company body is accepted exactly when its four fields are non-blank
      after trimming; otherwise the answer is the company 400. The accepted
      tuple is the four trimmed values. */
  lemma CompanyValidation(req: RegisterRequest)
    requires Truthy(req.nombreEmpresa) && req.email.Some? && req.rol.Some? && req.contrasena.Some?
    ensures Validate(req).Ok? <==>
      Filled(req.email) && Filled(req.nombreEmpresa) && Filled(req.rol) && Filled(req.contrasena)
    ensures Validate(req).Err? ==> Validate(req).error == MissingCompanyFields
    ensures Validate(req).Ok? ==>
      Validate(req).value == Empresa(Trim(req.email.value), Trim(req.nombreEmpresa.value), Trim(req.rol.value), Trim(req.contrasena.value))
  {
  }

  /** A person body with every field sent is accepted exactly when all seven
      required fields are non-blank after trimming; otherwise the answer is the
      person 400. The accepted tuple holds the trimmed values and the avatar as
      sent. */
  lemma PersonValidation(req: RegisterRequest)
    requires !Truthy(req.nombreEmpresa) && req.email.Some? && req.rol.Some? && req.contrasena.Some?
    requires req.nombres.Some? && req.apellidos.Some? && req.tipoDocumento.Some? && req.documento.Some?
    ensures Validate(req).Ok? <==>
      && Filled(req.email) && Filled(req.nombres) && Filled(req.apellidos) && Filled(req.tipoDocumento)
      && Filled(req.documento) && Filled(req.rol) && Filled(req.contrasena)
    ensures Validate(req).Err? ==> Validate(req).error == MissingUserFields
    ensures Validate(req).Ok? ==>
      Validate(req).value == Persona(Trim(req.email.value), Trim(req.nombres.value), Trim(req.apellidos.value),
                                     Trim(req.tipoDocumento.value), Trim(req.documento.value),
                                     Trim(req.rol.value), Trim(req.contrasena.value), req.avatar)
  {
  }

  /** A blank email in a person body answers 400 even when a person field was
      not sent: the chain stops before that field is trimmed. */
  lemma BlankEmailStopsPersonChain(req: RegisterRequest)
    requires !Truthy(req.nombreEmpresa) && req.email.Some? && req.rol.Some? && req.contrasena.Some?
    requires !Filled(req.email)
    ensures Validate(req) == Err(MissingUserFields)
  {
  }

  /** The `values` array of the INSERT, in column order: for a company
      (email, nombres, rol, contrasena), for a person (email, nombres, apellidos,
      tipo_documento, documento, rol, contrasena, avatar). An absent avatar is
      sent as NULL. */
  function InsertValues(u: NewUser): (values: seq<Option<string>>)
    ensures |values| == if u.Empresa? then 4 else 8
  {
    match u
    case Empresa(e, n, r, c) => [Some(e), Some(n), Some(r), Some(c)]
    case Persona(e, n, a, t, d, r, c, av) => [Some(e), Some(n), Some(a), Some(t), Some(d), Some(r), Some(c), av]
  }

  /** A field value as the validator leaves it: non-empty, no surrounding white space. */
  predicate Clean(s: string) {
    s != [] && Trimmed(s)
  }

  /** A tuple whose text values are all clean. */
  predicate CleanNewUser(u: NewUser) {
    match u
    case Empresa(e, n, r, c) => Clean(e) && Clean(n) && Clean(r) && Clean(c)
    case Persona(e, n, a, t, d, r, c, _) =>
      Clean(e) && Clean(n) && Clean(a) && Clean(t) && Clean(d) && Clean(r) && Clean(c)
  }

  /** What `.trim()` leaves of a filled field is clean. */
  lemma FilledTrimClean(field: Option<string>)
    requires Filled(field)
    ensures Clean(Trim(field.value))
  {
  }

  /** Every text value of an accepted registration is clean: non-empty and
      without surrounding white space. */
  lemma ValidatedClean(req: RegisterRequest)
    requires Validate(req).Ok?
    ensures CleanNewUser(Validate(req).value)
  {
    if Validate(req).value.Empresa? {
      CompanyValidation(req);
      FilledTrimClean(req.email);
      FilledTrimClean(req.nombreEmpresa);
      FilledTrimClean(req.rol);
      FilledTrimClean(req.contrasena);
    } else {
      PersonFieldsSent(req);
      PersonValidation(req);
      FilledTrimClean(req.email);
      FilledTrimClean(req.nombres);
      FilledTrimClean(req.apellidos);
      FilledTrimClean(req.tipoDocumento);
      FilledTrimClean(req.documento);
      FilledTrimClean(req.rol);
      FilledTrimClean(req.contrasena);
    }
  }

  /** For a clean tuple (every accepted registration, by ValidatedClean) every
      INSERT value except the person's avatar (the eighth) is a clean string. */
  lemma InsertValuesClean(u: NewUser)
    requires CleanNewUser(u)
    ensures var values := InsertValues(u);
      forall k :: 0 <= k < |values| && k != 7 ==> values[k].Some? && Clean(values[k].value)
  {
  }

  /** An accepted person body sent every person field. */
  lemma PersonFieldsSent(req: RegisterRequest)
    requires Validate(req).Ok? && Validate(req).value.Persona?
    ensures req.nombres.Some? && req.apellidos.Some? && req.tipoDocumento.Some? && req.documento.Some?
  {
  }

  /** The values an accepted body binds, in the INSERT's column order: the
      trimmed email, nombreEmpresa, rol and contrasena for a company; the
      trimmed email, nombres, apellidos, tipoDocumento, documento, rol and
      contrasena, then the avatar as sent, for a person. */
  lemma ValidatedInsertValues(req: RegisterRequest)
    requires Validate(req).Ok?
    ensures Truthy(req.nombreEmpresa) ==>
      InsertValues(Validate(req).value) ==
        [Some(Trim(req.email.value)), Some(Trim(req.nombreEmpresa.value)),
         Some(Trim(req.rol.value)), Some(Trim(req.contrasena.value))]
    ensures !Truthy(req.nombreEmpresa) ==>
      InsertValues(Validate(req).value) ==
        [Some(Trim(req.email.value)), Some(Trim(req.nombres.value)), Some(Trim(req.apellidos.value)),
         Some(Trim(req.tipoDocumento.value)), Some(Trim(req.documento.value)),
         Some(Trim(req.rol.value)), Some(Trim(req.contrasena.value)), req.avatar]
  {
    if Truthy(req.nombreEmpresa) {
      CompanyValidation(req);
    } else {
      PersonFieldsSent(req);
      PersonValidation(req);
    }
  }

  /** The row an accepted body stores under `id`, column by column: a company
      row holds the trimmed email, name, role and password and NULL person
      columns; a person row holds every person field trimmed and the avatar as
      sent. */
  lemma ValidatedRow(req: RegisterRequest, id: nat)
    requires Validate(req).Ok?
    ensures Truthy(req.nombreEmpresa) ==>
      RowOf(Validate(req).value, id) ==
        Usuario(id, Trim(req.email.value), Trim(req.nombreEmpresa.value), None, None, None,
                Trim(req.rol.value), Trim(req.contrasena.value), None)
    ensures !Truthy(req.nombreEmpresa) ==>
      RowOf(Validate(req).value, id) ==
        Usuario(id, Trim(req.email.value), Trim(req.nombres.value), Some(Trim(req.apellidos.value)),
                Some(Trim(req.tipoDocumento.value)), Some(Trim(req.documento.value)),
                Trim(req.rol.value), Trim(req.contrasena.value), req.avatar)
  {
    if Truthy(req.nombreEmpresa) {
      CompanyValidation(req);
    } else {
      PersonFieldsSent(req);
      PersonValidation(req);
    }
  }

  /** A row's columns in the order an INSERT names them: (email, nombres, rol,
      contrasena) for a company, (email, nombres, apellidos, tipo_documento,
      documento, rol, contrasena, avatar) for a person. */
  function InsertedColumns(row: Usuario, company: bool): seq<Option<string>> {
    if company then [Some(row.email), Some(row.nombres), Some(row.rol), Some(row.contrasena)]
    else [Some(row.email), Some(row.nombres), row.apellidos, row.tipoDocumento, row.documento,
          Some(row.rol), Some(row.contrasena), row.avatar]
  }

  /** The row the table holds after the INSERT; `id` is the AUTO_INCREMENT value.
      Its named columns hold exactly the bound values, and a company row leaves
      the person columns NULL. */
  function RowOf(u: NewUser, id: nat): (row: Usuario)
    ensures row.id == id && row.email == u.email
    ensures InsertedColumns(row, u.Empresa?) == InsertValues(u)
    ensures u.Empresa? ==> row.apellidos.None? && row.tipoDocumento.None? && row.documento.None? && row.avatar.None?
  {
    match u
    case Empresa(e, n, r, c) => Usuario(id, e, n, None, None, None, r, c, None)
    case Persona(e, n, a, t, d, r, c, av) => Usuario(id, e, n, Some(a), Some(t), Some(d), r, c, av)
  }

  /** The invariant of rows written by `/register`: the required text columns are
      clean, and so are the person columns when present. */
  predicate WellFormed(u: Usuario) {
    && Clean(u.email) && Clean(u.nombres) && Clean(u.rol) && Clean(u.contrasena)
    && (u.apellidos.Some? ==> Clean(u.apellidos.value))
    && (u.tipoDocumento.Some? ==> Clean(u.tipoDocumento.value))
    && (u.documento.Some? ==> Clean(u.documento.value))
  }

  lemma ValidatedRowWellFormed(req: RegisterRequest, id: nat)
    requires Validate(req).Ok?
    ensures WellFormed(RowOf(Validate(req).value, id))
    ensures RowOf(Validate(req).value, id).email == Validate(req).value.email
  {
    ValidatedClean(req);
  }

  predicate EmailsUnique(rows: seq<Usuario>) {
    forall i, j :: 0 <= i < j < |rows| ==> rows[i].email != rows[j].email
  }

  /** `SELECT * FROM usuarios WHERE email = ?` followed by `results[0]`: the
      first row with that email, or None when the query returns no row. */
  function FindByEmail(rows: seq<Usuario>, email: string): (found: Option<Usuario>)
    ensures found.None? <==> forall k :: 0 <= k < |rows| ==> rows[k].email != email
    ensures found.Some? ==> exists k :: 0 <= k < |rows| && rows[k] == found.value && rows[k].email == email
  {
    if rows == [] then None
    else if rows[0].email == email then Some(rows[0])
    else FindByEmail(rows[1..], email)
  }

  /** The lookup on a table grown by one row at the end: earlier rows win, the
      new row is found only when no earlier row has the email. */
  lemma {:induction false} FindByEmailAppend(rows: seq<Usuario>, row: Usuario, email: string)
    ensures FindByEmail(rows + [row], email) ==
      if FindByEmail(rows, email).Some? then FindByEmail(rows, email)
      else if row.email == email then Some(row) else None
  {
    if rows != [] {
      assert (rows + [row])[1..] == rows[1..] + [row];
      FindByEmailAppend(rows[1..], row, email);
    }
  }

  /** In a table without duplicate emails the lookup finds the one row that
      has the email. */
  lemma FindByEmailUnique(rows: seq<Usuario>, k: nat)
    requires EmailsUnique(rows) && k < |rows|
    ensures FindByEmail(rows, rows[k].email) == Some(rows[k])
  {
    var found := FindByEmail(rows, rows[k].email);
    var j :| 0 <= j < |rows| && rows[j] == found.value && rows[j].email == rows[k].email;
    assert j == k;
  }

  /** The invariant of `usuarios` as `/register` maintains it: emails are
      unique, ids are distinct and below the AUTO_INCREMENT counter, and every
      row is well formed. */
  ghost predicate TableValid(rows: seq<Usuario>, nextId: nat) {
    && EmailsUnique(rows)
    && (forall k :: 0 <= k < |rows| ==> rows[k].id < nextId && WellFormed(rows[k]))
    && (forall i, j :: 0 <= i < j < |rows| ==> rows[i].id != rows[j].id)
  }

  /** Appending a well-formed row whose email is free, under the counter's id,
      keeps the invariant. */
  lemma AppendKeepsValid(rows: seq<Usuario>, nextId: nat, row: Usuario)
    requires TableValid(rows, nextId)
    requires row.id == nextId && WellFormed(row)
    requires forall k :: 0 <= k < |rows| ==> rows[k].email != row.email
    ensures TableValid(rows + [row], nextId + 1)
  {
    var all := rows + [row];
    assert all[|rows|] == row;
    assert forall k :: 0 <= k < |rows| ==> all[k] == rows[k];
  }

  /** The table behind `/register`: an in-memory `usuarios` with its
      AUTO_INCREMENT counter. */
  class UsuariosTable {
    var rows: seq<Usuario>
    var nextId: nat

    ghost predicate Valid()
      reads this
    {
      TableValid(rows, nextId)
    }

    /** An empty table; MySQL's AUTO_INCREMENT hands out 1 first. */
    constructor ()
      ensures Valid() && rows == [] && nextId == 1
    {
      rows := [];
      nextId := 1;
    }

    /** POST /register. Invalid bodies and taken emails leave the table as it was;
        otherwise exactly one row, built from the trimmed values, is appended and
        its id returned. The table never holds two rows with the same email. */
    method Register(req: RegisterRequest) returns (resp: RegisterResponse)
      requires Valid()
      modifies this
      ensures Valid()
      ensures Validate(req).Err? ==>
        resp == Rejected(Validate(req).error) && rows == old(rows) && nextId == old(nextId)
      ensures Validate(req).Ok? && FindByEmail(old(rows), Validate(req).value.email).Some? ==>
        resp == EmailInUse && rows == old(rows) && nextId == old(nextId)
      ensures Validate(req).Ok? && FindByEmail(old(rows), Validate(req).value.email).None? ==>
        && resp == Registered(old(nextId))
        && rows == old(rows) + [RowOf(Validate(req).value, old(nextId))]
        && nextId == old(nextId) + 1
    {
      var checked := Validate(req);
      if checked.Err? {
        return Rejected(checked.error);
      }
      var existing := FindByEmail(rows, checked.value.email);
      if existing.Some? {
        return EmailInUse;
      }
      var id := nextId;
      var row := RowOf(checked.value, id);
      ValidatedRowWellFormed(req, id);
      AppendKeepsValid(rows, nextId, row);
      rows := rows + [row];
      nextId := nextId + 1;
      resp := Registered(id);
    }
  }

  // ---------------------------------------------------------------------------
  // POST /login

  datatype LoginResponse =
    | MissingCredentials
    | UnknownUser
    | WrongPassword
    | LoggedIn(userId: nat, avatar: Option<string>, userName: string, rol: string)

  function LoginStatus(r: LoginResponse): (status: int)
    ensures status == 200 <==> r.LoggedIn?
    ensures status == 404 <==> r.UnknownUser?
    ensures status == 400 <==> r.MissingCredentials? || r.WrongPassword?
  {
    match r
    case MissingCredentials => 400
    case UnknownUser => 404
    case WrongPassword => 400
    case LoggedIn(_, _, _, _) => 200
  }

  /** POST /login over the rows of `usuarios`. Neither field is trimmed, and the
      password is compared as an exact string. The table is only read. */
  function Login(rows: seq<Usuario>, email: Option<string>, contrasena: Option<string>): (r: LoginResponse)
    ensures r == MissingCredentials <==> !Truthy(email) || !Truthy(contrasena)
    ensures r == UnknownUser <==>
      Truthy(email) && Truthy(contrasena) && forall k :: 0 <= k < |rows| ==> rows[k].email != email.value
    ensures r.LoggedIn? ==>
      && Truthy(email) && Truthy(contrasena)
      && exists k :: 0 <= k < |rows| && rows[k].email == email.value && rows[k].contrasena == contrasena.value
                     && r == LoggedIn(rows[k].id, rows[k].avatar, rows[k].nombres, rows[k].rol)
    ensures r == WrongPassword <==>
      && Truthy(email) && Truthy(contrasena) && FindByEmail(rows, email.value).Some?
      && FindByEmail(rows, email.value).value.contrasena != contrasena.value
  {
    if !Truthy(email) || !Truthy(contrasena) then MissingCredentials
    else
      match FindByEmail(rows, email.value)
      case None => UnknownUser
      case Some(user) =>
        if user.contrasena != contrasena.value then WrongPassword
        else LoggedIn(user.id, user.avatar, user.nombres, user.rol)
  }

  /** With unique emails, login succeeds exactly when some row has both the
      email and the password. */
  lemma LoginSucceedsIffCredentialsMatch(rows: seq<Usuario>, email: string, contrasena: string)
    requires EmailsUnique(rows) && email != [] && contrasena != []
    ensures Login(rows, Some(email), Some(contrasena)).LoggedIn? <==>
      exists k :: 0 <= k < |rows| && rows[k].email == email && rows[k].contrasena == contrasena
  {
    if k :| 0 <= k < |rows| && rows[k].email == email && rows[k].contrasena == contrasena {
      FindByEmailUnique(rows, k);
    }
  }

  /** Right after a registration, logging in with the stored (trimmed) email and
      password returns the new row's id, avatar, name and role. */
  lemma LoginAfterRegister(rows: seq<Usuario>, req: RegisterRequest, id: nat)
    requires Validate(req).Ok? && FindByEmail(rows, Validate(req).value.email).None?
    ensures var u := Validate(req).value;
      Login(rows + [RowOf(u, id)], Some(u.email), Some(u.contrasena)) ==
        LoggedIn(id, RowOf(u, id).avatar, RowOf(u, id).nombres, u.rol)
  {
    var u := Validate(req).value;
    ValidatedRowWellFormed(req, id);
    FindByEmailAppend(rows, RowOf(u, id), u.email);
  }

  /** A second registration with the same trimmed email is refused: after the
      first row is in, the lookup finds it. */
  lemma SecondRegistrationFindsFirst(rows: seq<Usuario>, first: RegisterRequest, second: RegisterRequest, id: nat)
    requires Validate(first).Ok? && Validate(second).Ok?
    requires Validate(first).value.email == Validate(second).value.email
    ensures FindByEmail(rows + [RowOf(Validate(first).value, id)], Validate(second).value.email).Some?
  {
    FindByEmailAppend(rows, RowOf(Validate(first).value, id), Validate(second).value.email);
  }
}
