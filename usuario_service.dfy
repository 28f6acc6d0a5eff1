/**
 * UsuarioService: creating administrators and users, which writes the user
 * and assignment tables and mails the credentials, and the three lookups
 * over the user table.
 */
module UsuarioService {
  import opened Wrappers
  import opened Errors
  import opened Model
  import opened Queries
  import opened UsuarioRepository
  import opened Nombres
  import opened UsuarioDTO
  import opened Persistence
  import opened Email
  import opened AdminSistemaService

  // ---------------------------------------------------------------------
  // Lookups
  // ---------------------------------------------------------------------

  /** An active user with exactly this email and password. */
  predicate Authenticates(u: UsuarioRow, email: string, contrasena: string)
  {
    u.email == email && u.contrasena == contrasena && u.estado
  }

  /** validarCredenciales: the matching active user, or "Credenciales inválidas". */
  function ValidarCredenciales(t: seq<UsuarioRow>, email: string, contrasena: string)
    : (r: Result<UsuarioResponse, Error>)
    ensures r.Success? ==>
      exists i :: 0 <= i < |t| && Authenticates(t[i], email, contrasena) && r.value == FromEntity(t[i])
    ensures r == Failure(InvalidCredentials) <==>
      forall i :: 0 <= i < |t| ==> !Authenticates(t[i], email, contrasena)
  {
    match FindByEmailAndContrasenaAndEstado(t, email, contrasena, true)
    case Failure(e) => Failure(e)
    case Success(None) => Failure(InvalidCredentials)
    case Success(Some(u)) => Success(FromEntity(u))
  }

  /** With unique emails, the credentials are accepted exactly when some active user matches both. */
  lemma ValidarCredencialesExact(t: seq<UsuarioRow>, email: string, contrasena: string)
    requires UniqueEmails(t)
    ensures ValidarCredenciales(t, email, contrasena).Success? <==>
      exists i :: 0 <= i < |t| && Authenticates(t[i], email, contrasena)
    ensures ValidarCredenciales(t, email, contrasena).Failure? ==>
      ValidarCredenciales(t, email, contrasena).error == InvalidCredentials
  {
    FindByCredentialsSucceeds(t, email, contrasena, true);
  }

  /** obtenerPorEmail: the user with this email, active or not, or "Usuario no encontrado". */
  function ObtenerPorEmail(t: seq<UsuarioRow>, email: string): (r: Result<UsuarioResponse, Error>)
    ensures r.Success? ==>
      exists i :: 0 <= i < |t| && t[i].email == email && r.value == FromEntity(t[i])
    ensures r == Failure(UserNotFound) <==> forall i :: 0 <= i < |t| ==> t[i].email != email
  {
    match FindByEmail(t, email)
    case Failure(e) => Failure(e)
    case Success(None) => Failure(UserNotFound)
    case Success(Some(u)) => Success(FromEntity(u))
  }

  /** With unique emails, the lookup fails only for an unknown email. */
  lemma ObtenerPorEmailExact(t: seq<UsuarioRow>, email: string)
    requires UniqueEmails(t)
    ensures ObtenerPorEmail(t, email).Success? <==> ExistsByEmail(t, email)
    ensures ObtenerPorEmail(t, email).Failure? ==> ObtenerPorEmail(t, email).error == UserNotFound
  {
    FindByEmailSucceeds(t, email);
  }

  /** An active administrator. */
  predicate IsActiveAdmin(u: UsuarioRow)
  {
    u.rol == admin && u.estado
  }

  /** obtenerAdministradores: the responses of the active administrators, in table order. */
  function ObtenerAdministradores(t: seq<UsuarioRow>): (r: seq<UsuarioResponse>)
    ensures forall x :: x in r <==> exists u :: u in t && IsActiveAdmin(u) && x == FromEntity(u)
  {
    var admins := FindByRolAndEstado(t, admin, true);
    var r := Map(admins, FromEntity);
    assert forall x :: x in r ==> exists u :: u in admins && x == FromEntity(u) by {
      forall x | x in r ensures exists u :: u in admins && x == FromEntity(u) {
        var i :| 0 <= i < |r| && r[i] == x;
        assert admins[i] in admins;
      }
    }
    assert forall u :: u in admins ==> FromEntity(u) in r by {
      forall u | u in admins ensures FromEntity(u) in r {
        var i :| 0 <= i < |admins| && admins[i] == u;
        assert r[i] == FromEntity(u);
      }
    }
    r
  }

  /** A user stored later is listed after every earlier administrator, and only if an active one. */
  lemma ObtenerAdministradoresSnoc(t: seq<UsuarioRow>, u: UsuarioRow)
    ensures ObtenerAdministradores(t + [u]) ==
      ObtenerAdministradores(t) + (if IsActiveAdmin(u) then [FromEntity(u)] else [])
  {
    var p := (v: UsuarioRow) => v.rol == admin && v.estado == true;
    var last := if IsActiveAdmin(u) then [u] else [];
    FilterAppend(t, [u], p);
    assert [u][..0] == [];
    assert Filter([u], p) == last;
    MapAppend(Filter(t, p), last, FromEntity);
    assert Map(last, FromEntity) == if IsActiveAdmin(u) then [FromEntity(u)] else [];
  }

  /**
   * A user just stored under a new email, active, can log in with the
   * stored password and is found by email.
   */
  lemma CreatedUserIsFound(t: seq<UsuarioRow>, u: UsuarioRow)
    requires UniqueEmails(t) && !ExistsByEmail(t, u.email) && u.estado
    ensures ValidarCredenciales(t + [u], u.email, u.contrasena) == Success(FromEntity(u))
    ensures ObtenerPorEmail(t + [u], u.email) == Success(FromEntity(u))
  {
    var t' := t + [u];
    UniqueEmailsSnoc(t, u);
    assert t'[|t|] == u;
    ValidarCredencialesExact(t', u.email, u.contrasena);
    ObtenerPorEmailExact(t', u.email);
    assert ExistsByEmail(t', u.email);
    forall i | 0 <= i < |t'| && t'[i].email == u.email ensures t'[i] == u {
      assert i == |t|;
    }
  }

  // ---------------------------------------------------------------------
  // Creation
  // ---------------------------------------------------------------------

  /** Some stored administrator has this id. */
  predicate HasAdmin(t: seq<UsuarioRow>, id: int)
  {
    exists i :: 0 <= i < |t| && t[i].id == id && t[i].rol == admin
  }

  /** Every assignment names the id of a stored administrator. */
  predicate AdminsAssigned(t: seq<UsuarioRow>, a: seq<AdminSistemaRow>)
  {
    forall j :: 0 <= j < |a| ==> HasAdmin(t, a[j].idAdmin)
  }

  /** Storing another user keeps every assignment's administrator. */
  lemma AdminsAssignedSnocUser(t: seq<UsuarioRow>, a: seq<AdminSistemaRow>, u: UsuarioRow)
    requires AdminsAssigned(t, a)
    ensures AdminsAssigned(t + [u], a)
  {
    forall j | 0 <= j < |a| ensures HasAdmin(t + [u], a[j].idAdmin) {
      assert HasAdmin(t, a[j].idAdmin);
      var i :| 0 <= i < |t| && t[i].id == a[j].idAdmin && t[i].rol == admin;
      assert (t + [u])[i] == t[i];
    }
  }

  /** An administrator stored together with an assignment to it keeps the invariant. */
  lemma AdminsAssignedSnocAdmin(t: seq<UsuarioRow>, a: seq<AdminSistemaRow>, u: UsuarioRow, x: AdminSistemaRow)
    requires AdminsAssigned(t, a)
    requires u.rol == admin && x.idAdmin == u.id
    ensures AdminsAssigned(t + [u], a + [x])
  {
    AdminsAssignedSnocUser(t, a, u);
    assert (t + [u])[|t|] == u;
    assert HasAdmin(t + [u], x.idAdmin);
    var a' := a + [x];
    forall j | 0 <= j < |a'| ensures HasAdmin(t + [u], a'[j].idAdmin) {
      if j < |a| {
        assert a'[j] == a[j];
      }
    }
  }

  /** No assignment yet names the identity the next stored user will get. */
  lemma NextIdUnassigned(t: seq<UsuarioRow>, a: seq<AdminSistemaRow>, next: int)
    requires AdminsAssigned(t, a) && IdentityOrder(Ids(t, UsuarioId), next)
    ensures forall x :: x in a ==> x.idAdmin != next
  {
    forall x | x in a ensures x.idAdmin != next {
      var j :| 0 <= j < |a| && a[j] == x;
      assert HasAdmin(t, a[j].idAdmin);
      var i :| 0 <= i < |t| && t[i].id == x.idAdmin && t[i].rol == admin;
      assert Ids(t, UsuarioId)[i] == t[i].id;
    }
  }

  /** The user service over its database and mail transport. */
  class Service {
    const store: Store
    const mailer: EmailService

    constructor (store: Store, mailer: EmailService)
      ensures this.store == store && this.mailer == mailer
    {
      this.store, this.mailer := store, mailer;
    }

    /**
     * The part every creation shares: the names normalised, then a new
     * active Usuario saved with them.
     */
    method SaveNew(nombre: string, apellido: string, email: string, contrasena: string, rol: Rol,
                   now: Timestamp)
      returns (u: UsuarioRow)
      requires store.Valid() && !ExistsByEmail(store.usuarios, email)
      modifies store
      ensures store.Valid()
      ensures u == UsuarioRow(old(store.nextUsuarioId), NormalizeName(nombre), NormalizeName(apellido),
                              email, contrasena, rol, now, true)
      ensures store.usuarios == old(store.usuarios) + [u]
      ensures store.nextUsuarioId == old(store.nextUsuarioId) + 1
      ensures store.asignaciones == old(store.asignaciones)
      ensures store.nextAsignacionId == old(store.nextAsignacionId)
      ensures store.sistemas == old(store.sistemas)
    {
      var nombreN := NormalizarNombre(Some(nombre));
      var apellidoN := NormalizarNombre(Some(apellido));
      u := Insert(nombreN.value, apellidoN.value, email, contrasena, rol, now);
    }

    /**
     * A new Usuario with these names, email, password and role, active,
     * saved through the repository. The email is known to be free, so the
     * save succeeds.
     */
    method Insert(nombre: string, apellido: string, email: string, contrasena: string, rol: Rol,
                   now: Timestamp)
      returns (u: UsuarioRow)
      requires store.Valid() && !ExistsByEmail(store.usuarios, email)
      modifies store
      ensures store.Valid()
      ensures u == UsuarioRow(old(store.nextUsuarioId), nombre, apellido, email, contrasena, rol, now, true)
      ensures store.usuarios == old(store.usuarios) + [u]
      ensures store.nextUsuarioId == old(store.nextUsuarioId) + 1
      ensures store.asignaciones == old(store.asignaciones)
      ensures store.nextAsignacionId == old(store.nextAsignacionId)
      ensures store.sistemas == old(store.sistemas)
    {
      var nuevo := new Usuario();
      nuevo.nombre, nuevo.apellido, nuevo.email := Some(nombre), Some(apellido), Some(email);
      nuevo.contrasena, nuevo.rol, nuevo.estado := Some(contrasena), Some(rol), Some(true);
      var saved := store.SaveUsuario(nuevo, now);
      u := saved.value;
    }

    /** A new active AdminSistema linking the administrator to the system, saved. */
    method SaveAssignment(idAdmin: int, idSistema: int, now: Timestamp) returns (x: AdminSistemaRow)
      requires store.Valid()
      modifies store
      ensures store.Valid()
      ensures x == AdminSistemaRow(old(store.nextAsignacionId), idAdmin, idSistema, now, true)
      ensures store.asignaciones == old(store.asignaciones) + [x]
      ensures store.usuarios == old(store.usuarios) && store.nextUsuarioId == old(store.nextUsuarioId)
      ensures store.sistemas == old(store.sistemas)
    {
      var asignacion := new AdminSistema();
      asignacion.idAdmin, asignacion.idSistema, asignacion.estado := Some(idAdmin), Some(idSistema), Some(true);
      var saved := store.SaveAdminSistema(asignacion, now);
      x := saved.value;
    }

    /**
     * crearAdministrador: refuses an email already stored; otherwise stores
     * the administrator with normalised names and the given password, assigns
     * it to the system, tries to mail the credentials (a failure is ignored)
     * and returns the administrator without its password. Each entity's
     * onCreate reads the clock on its own: `nowUsuario` and `nowAsignacion`.
     */
    method CrearAdministrador(nombre: string, apellido: string, email: string, contrasena: string,
                              idSistema: int, nowUsuario: Timestamp, nowAsignacion: Timestamp,
                              entregado: bool)
      returns (r: Result<UsuarioResponse, Error>)
      requires store.Valid()
      modifies store, mailer
      ensures store.Valid()
      ensures store.sistemas == old(store.sistemas)
      ensures old(ExistsByEmail(store.usuarios, email)) ==>
        r == Failure(EmailTaken(email)) && unchanged(store, mailer)
      ensures !old(ExistsByEmail(store.usuarios, email)) ==>
        var u := UsuarioRow(old(store.nextUsuarioId), NormalizeName(nombre), NormalizeName(apellido),
                            email, contrasena, admin, nowUsuario, true);
        && store.usuarios == old(store.usuarios) + [u]
        && store.asignaciones == old(store.asignaciones) +
             [AdminSistemaRow(old(store.nextAsignacionId), u.id, idSistema, nowAsignacion, true)]
        && mailer.enviados == old(mailer.enviados) +
             (if entregado then [Credenciales(email, nombre, apellido, contrasena, admin)] else [])
        && r == Success(FromEntity(u))
      ensures old(AdminsAssigned(store.usuarios, store.asignaciones)) ==>
        AdminsAssigned(store.usuarios, store.asignaciones)
      ensures !old(ExistsByEmail(store.usuarios, email)) && old(AdminsAssigned(store.usuarios, store.asignaciones)) ==>
        forall s :: s in GetSistemasByAdmin(store.asignaciones, store.sistemas, old(store.nextUsuarioId)) <==>
          s in store.sistemas && s.id == idSistema
    {
      if ExistsByEmail(store.usuarios, email) {
        return Failure(EmailTaken(email));
      }
      ghost var t0, a0 := store.usuarios, store.asignaciones;
      var u := SaveNew(nombre, apellido, email, contrasena, admin, nowUsuario);
      var x := SaveAssignment(u.id, idSistema, nowAsignacion);
      if AdminsAssigned(t0, a0) {
        AdminsAssignedSnocAdmin(t0, a0, u, x);
        NextIdUnassigned(t0, a0, u.id);
        NewAdminSistemas(a0, store.sistemas, x);
      }
      var _ := mailer.EnviarCredenciales(email, nombre, apellido, contrasena, admin, entregado);
      r := Success(FromEntity(u));
    }

    /**
     * What crearUsuario and crearUsuarioConActividad do before mailing:
     * refuse an email already stored, build the password from the raw names
     * (failing on an empty one) and store the user with normalised names.
     * Gives back the stored row and the password.
     */
    method Registrar(nombre: string, apellido: string, email: string, draw: Draw, now: Timestamp)
      returns (r: Result<(UsuarioRow, string), Error>)
      requires store.Valid()
      modifies store
      ensures store.Valid()
      ensures store.asignaciones == old(store.asignaciones) && store.sistemas == old(store.sistemas)
      ensures old(ExistsByEmail(store.usuarios, email)) ==> r == Failure(EmailTaken(email)) && unchanged(store)
      ensures !old(ExistsByEmail(store.usuarios, email)) && (nombre == [] || apellido == []) ==>
        r == Failure(StringIndexOutOfBounds) && unchanged(store)
      ensures !old(ExistsByEmail(store.usuarios, email)) && nombre != [] && apellido != [] ==>
        var contrasena := GenerarContrasenaUsuario(nombre, apellido, draw).value;
        var u := UsuarioRow(old(store.nextUsuarioId), NormalizeName(nombre), NormalizeName(apellido),
                            email, contrasena, usuario, now, true);
        && r == Success((u, contrasena))
        && store.usuarios == old(store.usuarios) + [u]
      ensures old(AdminsAssigned(store.usuarios, store.asignaciones)) ==>
        AdminsAssigned(store.usuarios, store.asignaciones)
    {
      if ExistsByEmail(store.usuarios, email) {
        return Failure(EmailTaken(email));
      }
      var generada := GenerarContrasenaUsuario(nombre, apellido, draw);
      if generada.Failure? {
        return Failure(generada.error);
      }
      var contrasena := generada.value;
      ghost var t0, a0 := store.usuarios, store.asignaciones;
      var u := SaveNew(nombre, apellido, email, contrasena, usuario, now);
      if AdminsAssigned(t0, a0) {
        AdminsAssignedSnocUser(t0, a0, u);
      }
      r := Success((u, contrasena));
    }

    /**
     * crearUsuario: refuses an email already stored; builds the password from
     * the raw names (failing on an empty one); stores the user with normalised
     * names; tries to mail the credentials (a failure is ignored) and returns
     * the user together with its password.
     */
    method CrearUsuario(nombre: string, apellido: string, email: string, draw: Draw,
                        now: Timestamp, entregado: bool)
      returns (r: Result<UsuarioResponse, Error>)
      requires store.Valid()
      modifies store, mailer
      ensures store.Valid()
      ensures store.asignaciones == old(store.asignaciones) && store.sistemas == old(store.sistemas)
      ensures old(ExistsByEmail(store.usuarios, email)) ==>
        r == Failure(EmailTaken(email)) && unchanged(store, mailer)
      ensures !old(ExistsByEmail(store.usuarios, email)) && (nombre == [] || apellido == []) ==>
        r == Failure(StringIndexOutOfBounds) && unchanged(store, mailer)
      ensures !old(ExistsByEmail(store.usuarios, email)) && nombre != [] && apellido != [] ==>
        var contrasena := GenerarContrasenaUsuario(nombre, apellido, draw).value;
        var u := UsuarioRow(old(store.nextUsuarioId), NormalizeName(nombre), NormalizeName(apellido),
                            email, contrasena, usuario, now, true);
        && store.usuarios == old(store.usuarios) + [u]
        && mailer.enviados == old(mailer.enviados) +
             (if entregado then [Credenciales(email, nombre, apellido, contrasena, usuario)] else [])
        && r == Success(FromEntityWithPassword(u, contrasena))
      ensures old(AdminsAssigned(store.usuarios, store.asignaciones)) ==>
        AdminsAssigned(store.usuarios, store.asignaciones)
    {
      var registro := Registrar(nombre, apellido, email, draw, now);
      if registro.Failure? {
        return Failure(registro.error);
      }
      var (u, contrasena) := registro.value;
      var _ := mailer.EnviarCredenciales(email, nombre, apellido, contrasena, usuario, entregado);
      r := Success(FromEntityWithPassword(u, contrasena));
    }

    /**
     * crearUsuarioConActividad: crearUsuario, except that the mail also
     * carries the activity, its system, team, quarter and deadline.
     */
    method CrearUsuarioConActividad(nombre: string, apellido: string, email: string,
                                    nombreActividad: string, sistemaAbrev: string, equipoNombre: string,
                                    trimestre: int, fechaMaxima: Option<string>,
                                    draw: Draw, now: Timestamp, entregado: bool)
      returns (r: Result<UsuarioResponse, Error>)
      requires store.Valid()
      modifies store, mailer
      ensures store.Valid()
      ensures store.asignaciones == old(store.asignaciones) && store.sistemas == old(store.sistemas)
      ensures old(ExistsByEmail(store.usuarios, email)) ==>
        r == Failure(EmailTaken(email)) && unchanged(store, mailer)
      ensures !old(ExistsByEmail(store.usuarios, email)) && (nombre == [] || apellido == []) ==>
        r == Failure(StringIndexOutOfBounds) && unchanged(store, mailer)
      ensures !old(ExistsByEmail(store.usuarios, email)) && nombre != [] && apellido != [] ==>
        var contrasena := GenerarContrasenaUsuario(nombre, apellido, draw).value;
        var u := UsuarioRow(old(store.nextUsuarioId), NormalizeName(nombre), NormalizeName(apellido),
                            email, contrasena, usuario, now, true);
        && store.usuarios == old(store.usuarios) + [u]
        && mailer.enviados == old(mailer.enviados) +
             (if entregado
              then [CredencialesConActividad(email, nombre, apellido, contrasena, nombreActividad,
                                             sistemaAbrev, equipoNombre, trimestre, fechaMaxima)]
              else [])
        && r == Success(FromEntityWithPassword(u, contrasena))
      ensures old(AdminsAssigned(store.usuarios, store.asignaciones)) ==>
        AdminsAssigned(store.usuarios, store.asignaciones)
    {
      var registro := Registrar(nombre, apellido, email, draw, now);
      if registro.Failure? {
        return Failure(registro.error);
      }
      var (u, contrasena) := registro.value;
      var _ := mailer.EnviarCredencialesConActividad(email, nombre, apellido, contrasena, nombreActividad,
                                                     sistemaAbrev, equipoNombre, trimestre, fechaMaxima,
                                                     entregado);
      r := Success(FromEntityWithPassword(u, contrasena));
    }
  }
}
