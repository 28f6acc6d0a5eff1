/**
 * UsuarioDTO: the requests the user endpoints accept, with their Bean
 * Validation constraints, and the response built from a stored user.
 */
module UsuarioDTO {
  import opened Wrappers
  import opened Model
  import opened Text
  import opened Nombres

  // ---------------------------------------------------------------------
  // UsuarioResponse
  // ---------------------------------------------------------------------

  /** What the endpoints return for a user; `contrasena` is null unless disclosed on creation. */
  datatype UsuarioResponse = UsuarioResponse(
    id: int,
    nombre: string,
    apellido: string,
    email: string,
    rol: Rol,
    contrasena: Option<string>,
    estado: bool)

  /** fromEntity: every column but the password and the creation time, and a null password. */
  function FromEntity(u: UsuarioRow): (r: UsuarioResponse)
    ensures r.contrasena == None
    ensures r.id == u.id && r.nombre == u.nombre && r.apellido == u.apellido
    ensures r.email == u.email && r.rol == u.rol && r.estado == u.estado
  {
    UsuarioResponse(u.id, u.nombre, u.apellido, u.email, u.rol, None, u.estado)
  }

  /** fromEntityWithPassword: fromEntity, then the given password set on the response. */
  function FromEntityWithPassword(u: UsuarioRow, contrasena: string): (r: UsuarioResponse)
    ensures r.contrasena == Some(contrasena)
    ensures r.(contrasena := None) == FromEntity(u)
  {
    FromEntity(u).(contrasena := Some(contrasena))
  }

  /**
   * fromEntity discloses nothing of the stored password: two users that
   * differ only in password and creation time give the same response, and
   * users that differ anywhere else give different ones.
   */
  lemma FromEntityHidesPassword(u: UsuarioRow, v: UsuarioRow)
    ensures FromEntity(u) == FromEntity(v) <==>
      u.(contrasena := v.contrasena, fechaCreacion := v.fechaCreacion) == v
  {
  }

  /** The password carried by fromEntityWithPassword is exactly the one given, whatever is stored. */
  lemma WithPasswordDisclosesGiven(u: UsuarioRow, p: string, q: string)
    ensures FromEntityWithPassword(u, p) == FromEntityWithPassword(u, q) <==> p == q
    ensures FromEntityWithPassword(u.(contrasena := q), p) == FromEntityWithPassword(u, p)
  {
  }

  // ---------------------------------------------------------------------
  // Request validation (@NotBlank / @NotNull / @Email)
  // ---------------------------------------------------------------------

  /** One failed constraint, named after the field it guards. */
  datatype Violation =
    | NombreRequerido
    | ApellidoRequerido
    | EmailRequerido
    | EmailInvalido
    | ContrasenaRequerida
    | IdSistemaRequerido
    | ActividadRequerida
    | AbrevRequerida
    | EquipoRequerido
    | TrimestreRequerido

  /** The message each constraint declares. */
  function Message(v: Violation): (m: string)
  {
    match v
    case NombreRequerido => "El nombre es requerido"
    case ApellidoRequerido => "El apellido es requerido"
    case EmailRequerido => "El email es requerido"
    case EmailInvalido => "Email inválido"
    case ContrasenaRequerida => "La contraseña es requerida"
    case IdSistemaRequerido => "El ID del sistema es requerido"
    case ActividadRequerida => "El nombre de la actividad es requerido"
    case AbrevRequerida => "La abreviatura del sistema es requerida"
    case EquipoRequerido => "El nombre del equipo es requerido"
    case TrimestreRequerido => "El trimestre es requerido"
  }

  /** @NotBlank: not null, and holding some character > ' ', the ones String.trim() keeps. */
  predicate NotBlank(s: Option<string>)
  {
    s.Some? && exists k :: 0 <= k < |s.value| && !IsTrimmable(s.value[k])
  }

  /** NotBlank is the validator's own test: trim() of the value is not empty. */
  lemma NotBlankIsTrimNonEmpty(s: Option<string>)
    ensures NotBlank(s) <==> s.Some? && Trim(s.value) != []
  {
    if s.Some? {
      TrimEmpty(s.value);
    }
  }

  /** The violation a @NotBlank field contributes. */
  function BlankCheck(s: Option<string>, message: Violation): (v: set<Violation>)
    ensures forall x :: x in v <==> x == message && !NotBlank(s)
  {
    if NotBlank(s) then {} else {message}
  }

  /** The violation a @NotNull field contributes. */
  function NullCheck<T>(x: Option<T>, message: Violation): (v: set<Violation>)
    ensures forall y :: y in v <==> y == message && x.None?
  {
    if x.Some? then {} else {message}
  }

  /**
   * @Email as Hibernate Validator applies it: null and "" pass (the
   * @NotBlank beside it reports those), any other value must match the
   * validator's address pattern, which is the parameter `wellFormed`.
   */
  predicate EmailAccepted(s: Option<string>, wellFormed: string -> bool)
  {
    s.None? || s.value == [] || wellFormed(s.value)
  }

  /** The violation an @Email field contributes. */
  function EmailCheck(s: Option<string>, wellFormed: string -> bool): (v: set<Violation>)
    ensures forall x :: x in v <==> x == EmailInvalido && !EmailAccepted(s, wellFormed)
  {
    if EmailAccepted(s, wellFormed) then {} else {EmailInvalido}
  }

  /** The constraints every creation request puts on nombre, apellido and email. */
  function PersonViolations(nombre: Option<string>, apellido: Option<string>, email: Option<string>,
                            wellFormed: string -> bool): (v: set<Violation>)
    ensures v == {} <==> NotBlank(nombre) && NotBlank(apellido) && NotBlank(email) && EmailAccepted(email, wellFormed)
    ensures forall x :: x in v ==> x in {NombreRequerido, ApellidoRequerido, EmailRequerido, EmailInvalido}
    ensures NombreRequerido in v <==> !NotBlank(nombre)
    ensures ApellidoRequerido in v <==> !NotBlank(apellido)
    ensures EmailRequerido in v <==> !NotBlank(email)
    ensures EmailInvalido in v <==> !EmailAccepted(email, wellFormed)
  {
    BlankCheck(nombre, NombreRequerido) + BlankCheck(apellido, ApellidoRequerido)
    + BlankCheck(email, EmailRequerido) + EmailCheck(email, wellFormed)
  }

  /** The constraints on the activity fields of a CrearUsuarioConActividadRequest. */
  function ActividadViolations(nombreActividad: Option<string>, sistemaAbrev: Option<string>,
                               equipoNombre: Option<string>, trimestre: Option<int>): (v: set<Violation>)
    ensures v == {} <==>
      NotBlank(nombreActividad) && NotBlank(sistemaAbrev) && NotBlank(equipoNombre) && trimestre.Some?
    ensures forall x :: x in v ==> x in {ActividadRequerida, AbrevRequerida, EquipoRequerido, TrimestreRequerido}
    ensures ActividadRequerida in v <==> !NotBlank(nombreActividad)
    ensures AbrevRequerida in v <==> !NotBlank(sistemaAbrev)
    ensures EquipoRequerido in v <==> !NotBlank(equipoNombre)
    ensures TrimestreRequerido in v <==> trimestre.None?
  {
    BlankCheck(nombreActividad, ActividadRequerida) + BlankCheck(sistemaAbrev, AbrevRequerida)
    + BlankCheck(equipoNombre, EquipoRequerido) + NullCheck(trimestre, TrimestreRequerido)
  }

  datatype CrearAdminRequest = CrearAdminRequest(
    nombre: Option<string>,
    apellido: Option<string>,
    email: Option<string>,
    contrasena: Option<string>,
    idSistema: Option<int>)

  datatype CrearUsuarioRequest = CrearUsuarioRequest(
    nombre: Option<string>,
    apellido: Option<string>,
    email: Option<string>)

  datatype CrearUsuarioConActividadRequest = CrearUsuarioConActividadRequest(
    nombre: Option<string>,
    apellido: Option<string>,
    email: Option<string>,
    nombreActividad: Option<string>,
    sistemaAbrev: Option<string>,
    equipoNombre: Option<string>,
    trimestre: Option<int>,
    fechaMaxima: Option<string>)

  datatype ValidarCredencialesRequest = ValidarCredencialesRequest(
    email: Option<string>,
    contrasena: Option<string>)

  /** The constraints a CrearAdminRequest violates; empty exactly when it is accepted. */
  function CrearAdminViolations(q: CrearAdminRequest, wellFormed: string -> bool): (v: set<Violation>)
    ensures v == {} <==>
      NotBlank(q.nombre) && NotBlank(q.apellido) && NotBlank(q.email) && EmailAccepted(q.email, wellFormed)
      && NotBlank(q.contrasena) && q.idSistema.Some?
    ensures NombreRequerido in v <==> !NotBlank(q.nombre)
    ensures ApellidoRequerido in v <==> !NotBlank(q.apellido)
    ensures EmailRequerido in v <==> !NotBlank(q.email)
    ensures EmailInvalido in v <==> !EmailAccepted(q.email, wellFormed)
    ensures ContrasenaRequerida in v <==> !NotBlank(q.contrasena)
    ensures IdSistemaRequerido in v <==> q.idSistema.None?
    ensures forall x :: x in v ==>
      x in {NombreRequerido, ApellidoRequerido, EmailRequerido, EmailInvalido, ContrasenaRequerida, IdSistemaRequerido}
  {
    PersonViolations(q.nombre, q.apellido, q.email, wellFormed)
    + BlankCheck(q.contrasena, ContrasenaRequerida) + NullCheck(q.idSistema, IdSistemaRequerido)
  }

  /** The constraints a CrearUsuarioRequest violates; empty exactly when it is accepted. */
  function CrearUsuarioViolations(q: CrearUsuarioRequest, wellFormed: string -> bool): (v: set<Violation>)
    ensures v == {} <==>
      NotBlank(q.nombre) && NotBlank(q.apellido) && NotBlank(q.email) && EmailAccepted(q.email, wellFormed)
    ensures NombreRequerido in v <==> !NotBlank(q.nombre)
    ensures ApellidoRequerido in v <==> !NotBlank(q.apellido)
    ensures EmailRequerido in v <==> !NotBlank(q.email)
    ensures EmailInvalido in v <==> !EmailAccepted(q.email, wellFormed)
    ensures forall x :: x in v ==> x in {NombreRequerido, ApellidoRequerido, EmailRequerido, EmailInvalido}
  {
    PersonViolations(q.nombre, q.apellido, q.email, wellFormed)
  }

  /**
   * The constraints a CrearUsuarioConActividadRequest violates;
   * fechaMaxima carries no constraint and may be null.
   */
  function CrearUsuarioConActividadViolations(q: CrearUsuarioConActividadRequest, wellFormed: string -> bool)
    : (v: set<Violation>)
    ensures v == {} <==>
      NotBlank(q.nombre) && NotBlank(q.apellido) && NotBlank(q.email) && EmailAccepted(q.email, wellFormed)
      && NotBlank(q.nombreActividad) && NotBlank(q.sistemaAbrev) && NotBlank(q.equipoNombre)
      && q.trimestre.Some?
    ensures NombreRequerido in v <==> !NotBlank(q.nombre)
    ensures ApellidoRequerido in v <==> !NotBlank(q.apellido)
    ensures EmailRequerido in v <==> !NotBlank(q.email)
    ensures EmailInvalido in v <==> !EmailAccepted(q.email, wellFormed)
    ensures ActividadRequerida in v <==> !NotBlank(q.nombreActividad)
    ensures AbrevRequerida in v <==> !NotBlank(q.sistemaAbrev)
    ensures EquipoRequerido in v <==> !NotBlank(q.equipoNombre)
    ensures TrimestreRequerido in v <==> q.trimestre.None?
    ensures forall x :: x in v ==>
      x in {NombreRequerido, ApellidoRequerido, EmailRequerido, EmailInvalido,
            ActividadRequerida, AbrevRequerida, EquipoRequerido, TrimestreRequerido}
  {
    PersonViolations(q.nombre, q.apellido, q.email, wellFormed)
    + ActividadViolations(q.nombreActividad, q.sistemaAbrev, q.equipoNombre, q.trimestre)
  }

  /** fechaMaxima carries no constraint: any value, null included, leaves the verdict unchanged. */
  lemma FechaMaximaUnconstrained(q: CrearUsuarioConActividadRequest, f: Option<string>, wellFormed: string -> bool)
    ensures CrearUsuarioConActividadViolations(q.(fechaMaxima := f), wellFormed)
      == CrearUsuarioConActividadViolations(q, wellFormed)
  {
  }

  /** The constraints a ValidarCredencialesRequest violates; empty exactly when it is accepted. */
  function ValidarCredencialesViolations(q: ValidarCredencialesRequest, wellFormed: string -> bool)
    : (v: set<Violation>)
    ensures v == {} <==> NotBlank(q.email) && EmailAccepted(q.email, wellFormed) && NotBlank(q.contrasena)
    ensures EmailRequerido in v <==> !NotBlank(q.email)
    ensures EmailInvalido in v <==> !EmailAccepted(q.email, wellFormed)
    ensures ContrasenaRequerida in v <==> !NotBlank(q.contrasena)
    ensures forall x :: x in v ==> x in {EmailRequerido, EmailInvalido, ContrasenaRequerida}
  {
    BlankCheck(q.email, EmailRequerido) + EmailCheck(q.email, wellFormed)
    + BlankCheck(q.contrasena, ContrasenaRequerida)
  }

  /** A non-blank name keeps a word after normalisation and gives a password initial. */
  lemma NotBlankName(s: Option<string>)
    requires NotBlank(s)
    ensures s.value != [] && NormalizeName(s.value) != []
  {
    NormalizeNameEmpty(s.value);
  }

  /**
   * An accepted CrearUsuarioRequest reaches the service with names from
   * which a password can be built and that normalise to non-empty text.
   */
  lemma AcceptedRequestNames(q: CrearUsuarioRequest, wellFormed: string -> bool, draw: Draw)
    requires CrearUsuarioViolations(q, wellFormed) == {}
    ensures GenerarContrasenaUsuario(q.nombre.value, q.apellido.value, draw).Success?
    ensures NormalizeName(q.nombre.value) != [] && NormalizeName(q.apellido.value) != []
  {
    NotBlankName(q.nombre);
    NotBlankName(q.apellido);
  }
}
