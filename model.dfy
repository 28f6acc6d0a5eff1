/**
 * The three entities of the data model: users (tb_usuarios), systems
 * (tb_sistemas) and admin-to-system assignments (tb_admin_sistemas).
 * A stored row is a value; the JPA entity objects that the service fills in
 * before saving are classes whose fields start out null, as in Java.
 */
module Model {
  import opened Wrappers

  /** A LocalDateTime reading, supplied by the caller instead of the clock. */
  type Timestamp = int

  /** Usuario.Rol: exactly three roles. */
  datatype Rol = superadmin | admin | usuario

  /** A row of tb_usuarios; every column but fecha_creacion is NOT NULL, and onCreate fills that one. */
  datatype UsuarioRow = UsuarioRow(
    id: int,
    nombre: string,
    apellido: string,
    email: string,
    contrasena: string,
    rol: Rol,
    fechaCreacion: Timestamp,
    estado: bool)

  /** A row of tb_admin_sistemas; nothing makes (idAdmin, idSistema) unique. */
  datatype AdminSistemaRow = AdminSistemaRow(
    id: int,
    idAdmin: int,
    idSistema: int,
    fechaAsignacion: Timestamp,
    estado: bool)

  /** A row of tb_sistemas, maintained outside this core and only read here. */
  datatype Sistema = Sistema(
    id: int,
    descSistema: string,
    abrev: Option<string>,
    administrador: Option<string>,
    suplente: Option<string>,
    estado: int)

  /** The Usuario entity object: a new one has only `estado` set. */
  class Usuario {
    var id: Option<int>
    var nombre: Option<string>
    var apellido: Option<string>
    var email: Option<string>
    var contrasena: Option<string>
    var rol: Option<Rol>
    var fechaCreacion: Option<Timestamp>
    var estado: Option<bool>

    constructor ()
      ensures id == None && nombre == None && apellido == None && email == None
      ensures contrasena == None && rol == None && fechaCreacion == None
      ensures estado == Some(true)
    {
      id, nombre, apellido, email := None, None, None, None;
      contrasena, rol, fechaCreacion := None, None, None;
      estado := Some(true);
    }

    /** The @PrePersist hook: stamp the creation time and default a null estado to true. */
    method OnCreate(now: Timestamp)
      modifies this
      ensures fechaCreacion == Some(now)
      ensures estado == if old(estado) == None then Some(true) else old(estado)
      ensures id == old(id) && nombre == old(nombre) && apellido == old(apellido)
      ensures email == old(email) && contrasena == old(contrasena) && rol == old(rol)
    {
      fechaCreacion := Some(now);
      if estado == None {
        estado := Some(true);
      }
    }

    /** Every NOT NULL column of tb_usuarios has a value. */
    predicate Insertable()
      reads this
    {
      nombre.Some? && apellido.Some? && email.Some? && contrasena.Some? && rol.Some? && estado.Some?
    }

    /** The row this object is stored as, once it has an id and a creation time. */
    function Row(): (r: UsuarioRow)
      reads this
      requires Insertable() && id.Some? && fechaCreacion.Some?
      ensures Some(r.id) == id && Some(r.email) == email && Some(r.estado) == estado
    {
      UsuarioRow(id.value, nombre.value, apellido.value, email.value, contrasena.value,
                 rol.value, fechaCreacion.value, estado.value)
    }
  }

  /** The AdminSistema entity object: a new one has only `estado` set. */
  class AdminSistema {
    var id: Option<int>
    var idAdmin: Option<int>
    var idSistema: Option<int>
    var fechaAsignacion: Option<Timestamp>
    var estado: Option<bool>

    constructor ()
      ensures id == None && idAdmin == None && idSistema == None && fechaAsignacion == None
      ensures estado == Some(true)
    {
      id, idAdmin, idSistema, fechaAsignacion := None, None, None, None;
      estado := Some(true);
    }

    /** The @PrePersist hook: stamp the assignment time and default a null estado to true. */
    method OnCreate(now: Timestamp)
      modifies this
      ensures fechaAsignacion == Some(now)
      ensures estado == if old(estado) == None then Some(true) else old(estado)
      ensures id == old(id) && idAdmin == old(idAdmin) && idSistema == old(idSistema)
    {
      fechaAsignacion := Some(now);
      if estado == None {
        estado := Some(true);
      }
    }

    /** Every NOT NULL column of tb_admin_sistemas has a value. */
    predicate Insertable()
      reads this
    {
      idAdmin.Some? && idSistema.Some? && estado.Some?
    }

    /** The row this object is stored as, once it has an id and an assignment time. */
    function Row(): (r: AdminSistemaRow)
      reads this
      requires Insertable() && id.Some? && fechaAsignacion.Some?
      ensures Some(r.id) == id && Some(r.idAdmin) == idAdmin && Some(r.idSistema) == idSistema
    {
      AdminSistemaRow(id.value, idAdmin.value, idSistema.value, fechaAsignacion.value, estado.value)
    }
  }
}
