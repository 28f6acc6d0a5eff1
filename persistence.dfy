/**
 * The database behind the repositories: the three tables and the identity
 * columns, and the `save` that the services call on new entities. `save`
 * runs the entity's @PrePersist hook, then inserts the row or refuses it
 * when a NOT NULL or UNIQUE column would be broken.
 */
module Persistence {
  import opened Wrappers
  import opened Errors
  import opened Model
  import opened UsuarioRepository

  /** Identity values handed out so far are increasing and all below `next`. */
  predicate IdentityOrder(ids: seq<int>, next: int)
  {
    && (forall i, j :: 0 <= i < j < |ids| ==> ids[i] < ids[j])
    && (forall i :: 0 <= i < |ids| ==> ids[i] < next)
  }

  /** The identity column of a table, row by row. */
  function Ids<T>(t: seq<T>, id: T -> int): (ids: seq<int>)
    ensures |ids| == |t| && forall i :: 0 <= i < |t| ==> ids[i] == id(t[i])
  {
    seq(|t|, i requires 0 <= i < |t| => id(t[i]))
  }

  function UsuarioId(u: UsuarioRow): int { u.id }

  function AsignacionId(a: AdminSistemaRow): int { a.id }

  /** A fresh identity appended at the end keeps the order. */
  lemma IdentityOrderSnoc(ids: seq<int>, next: int)
    requires IdentityOrder(ids, next)
    ensures IdentityOrder(ids + [next], next + 1)
  {
  }

  class Store {
    var usuarios: seq<UsuarioRow>
    var asignaciones: seq<AdminSistemaRow>
    var sistemas: seq<Sistema>
    /** The next value of tb_usuarios.id_usuario. */
    var nextUsuarioId: int
    /** The next value of tb_admin_sistemas.id_admin_sistema. */
    var nextAsignacionId: int

    /** The UNIQUE email column holds, and identities are distinct and not yet reused. */
    predicate Valid()
      reads this
    {
      && UniqueEmails(usuarios)
      && IdentityOrder(Ids(usuarios, UsuarioId), nextUsuarioId)
      && IdentityOrder(Ids(asignaciones, AsignacionId), nextAsignacionId)
    }

    /** A database with no users and no assignments, over a given system table. */
    constructor (sistemas: seq<Sistema>)
      ensures Valid()
      ensures usuarios == [] && asignaciones == [] && this.sistemas == sistemas
    {
      usuarios, asignaciones, this.sistemas := [], [], sistemas;
      nextUsuarioId, nextAsignacionId := 1, 1;
    }

    /**
     * usuarioRepository.save on a new entity: onCreate runs, then the row
     * is inserted with the next identity, unless a NOT NULL column is null
     * or the email is already stored, in which case nothing is inserted.
     */
    method SaveUsuario(u: Usuario, now: Timestamp) returns (r: Result<UsuarioRow, Error>)
      requires Valid()
      requires u.id == None
      modifies this, u
      ensures Valid()
      ensures u.fechaCreacion == Some(now)
      ensures u.estado == if old(u.estado) == None then Some(true) else old(u.estado)
      ensures u.nombre == old(u.nombre) && u.apellido == old(u.apellido) && u.email == old(u.email)
      ensures u.contrasena == old(u.contrasena) && u.rol == old(u.rol)
      ensures r.Success? <==> u.Insertable() && !ExistsByEmail(old(usuarios), u.email.value)
      ensures r.Failure? ==> r.error == ConstraintViolation && u.id == None
      ensures r.Failure? ==> usuarios == old(usuarios) && nextUsuarioId == old(nextUsuarioId)
      ensures r.Success? ==>
        && r.value == UsuarioRow(old(nextUsuarioId), u.nombre.value, u.apellido.value, u.email.value,
                                 u.contrasena.value, u.rol.value, now, u.estado.value)
        && u.id == Some(r.value.id)
        && usuarios == old(usuarios) + [r.value]
        && nextUsuarioId == old(nextUsuarioId) + 1
      ensures asignaciones == old(asignaciones) && nextAsignacionId == old(nextAsignacionId)
      ensures sistemas == old(sistemas)
    {
      u.OnCreate(now);
      if !u.Insertable() || ExistsByEmail(usuarios, u.email.value) {
        return Failure(ConstraintViolation);
      }
      u.id := Some(nextUsuarioId);
      var row := u.Row();
      UniqueEmailsSnoc(usuarios, row);
      assert Ids(usuarios + [row], UsuarioId) == Ids(usuarios, UsuarioId) + [nextUsuarioId];
      IdentityOrderSnoc(Ids(usuarios, UsuarioId), nextUsuarioId);
      usuarios := usuarios + [row];
      nextUsuarioId := nextUsuarioId + 1;
      r := Success(row);
    }

    /**
     * adminSistemaRepository.save on a new entity: onCreate runs, then the
     * row is inserted with the next identity unless idAdmin or idSistema is
     * null. Nothing makes a pair unique, so duplicates are stored.
     */
    method SaveAdminSistema(a: AdminSistema, now: Timestamp) returns (r: Result<AdminSistemaRow, Error>)
      requires Valid()
      requires a.id == None
      modifies this, a
      ensures Valid()
      ensures a.fechaAsignacion == Some(now)
      ensures a.estado == if old(a.estado) == None then Some(true) else old(a.estado)
      ensures a.idAdmin == old(a.idAdmin) && a.idSistema == old(a.idSistema)
      ensures r.Success? <==> a.Insertable()
      ensures r.Failure? ==> r.error == ConstraintViolation && a.id == None
      ensures r.Failure? ==> asignaciones == old(asignaciones) && nextAsignacionId == old(nextAsignacionId)
      ensures r.Success? ==>
        && r.value == AdminSistemaRow(old(nextAsignacionId), a.idAdmin.value, a.idSistema.value, now, a.estado.value)
        && a.id == Some(r.value.id)
        && asignaciones == old(asignaciones) + [r.value]
        && nextAsignacionId == old(nextAsignacionId) + 1
      ensures usuarios == old(usuarios) && nextUsuarioId == old(nextUsuarioId)
      ensures sistemas == old(sistemas)
    {
      a.OnCreate(now);
      if !a.Insertable() {
        return Failure(ConstraintViolation);
      }
      a.id := Some(nextAsignacionId);
      var row := a.Row();
      assert Ids(asignaciones + [row], AsignacionId) == Ids(asignaciones, AsignacionId) + [nextAsignacionId];
      IdentityOrderSnoc(Ids(asignaciones, AsignacionId), nextAsignacionId);
      asignaciones := asignaciones + [row];
      nextAsignacionId := nextAsignacionId + 1;
      r := Success(row);
    }
  }

  /** Appending a row whose email is new keeps emails unique. */
  lemma UniqueEmailsSnoc(t: seq<UsuarioRow>, u: UsuarioRow)
    requires UniqueEmails(t) && !ExistsByEmail(t, u.email)
    ensures UniqueEmails(t + [u])
  {
    var t' := t + [u];
    forall i, j | 0 <= i < |t'| && 0 <= j < |t'| && t'[i].email == t'[j].email
      ensures i == j
    {
      if i < |t| && j < |t| {
        assert t'[i] == t[i] && t'[j] == t[j];
      }
    }
  }
}
