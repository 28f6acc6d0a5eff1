/**
 * What a Spring Data derived query does with a table: a List finder keeps the
 * matching rows in table order, an Optional finder returns the one match or
 * nothing (and fails when several rows match), an exists query asks whether
 * any row matches.
 */
module Queries {
  import opened Wrappers
  import opened Errors

  /** The rows of s that satisfy p, in the order of s. */
  function Filter<T>(s: seq<T>, p: T -> bool): (r: seq<T>)
    ensures |r| <= |s|
    ensures forall i :: 0 <= i < |r| ==> p(r[i])
    ensures forall i :: 0 <= i < |s| && p(s[i]) ==> s[i] in r
    ensures forall i :: 0 <= i < |r| ==> r[i] in s
  {
    if s == [] then []
    else Filter(s[..|s| - 1], p) + (if p(s[|s| - 1]) then [s[|s| - 1]] else [])
  }

  /** Filtering commutes with concatenation, so table order is kept. */
  lemma {:induction false} FilterAppend<T>(a: seq<T>, b: seq<T>, p: T -> bool)
    ensures Filter(a + b, p) == Filter(a, p) + Filter(b, p)
    decreases |b|
  {
    if b == [] {
      assert a + b == a;
    } else {
      var c := a + b;
      assert c[..|c| - 1] == a + b[..|b| - 1];
      FilterAppend(a, b[..|b| - 1], p);
    }
  }

  /** A filter keeps nothing exactly when no row satisfies p. */
  lemma FilterEmpty<T>(s: seq<T>, p: T -> bool)
    ensures Filter(s, p) == [] <==> forall i :: 0 <= i < |s| ==> !p(s[i])
  {
  }

  /** Applies f to every element, keeping the order. */
  function Map<T, U>(s: seq<T>, f: T -> U): (r: seq<U>)
    ensures |r| == |s|
    ensures forall i :: 0 <= i < |s| ==> r[i] == f(s[i])
  {
    seq(|s|, i requires 0 <= i < |s| => f(s[i]))
  }

  lemma MapAppend<T, U>(a: seq<T>, b: seq<T>, f: T -> U)
    ensures Map(a + b, f) == Map(a, f) + Map(b, f)
  {
    assert Map(a + b, f) == Map(a, f) + Map(b, f);
  }

  /**
   * An Optional finder: nothing when no row matches, the row when one does,
   * and IncorrectResultSizeDataAccessException when more than one does.
   */
  function FindUnique<T>(s: seq<T>, p: T -> bool): (r: Result<Option<T>, Error>)
    ensures r == Success(None) <==> forall i :: 0 <= i < |s| ==> !p(s[i])
    ensures r.Success? && r.value.Some? ==> r.value.value in s && p(r.value.value)
    ensures r.Failure? <==> |Filter(s, p)| > 1
    ensures r.Failure? ==> r.error == NonUniqueResult
  {
    FilterEmpty(s, p);
    var m := Filter(s, p);
    if |m| == 0 then Success(None)
    else if |m| == 1 then Success(Some(m[0]))
    else Failure(NonUniqueResult)
  }

  /** An exists query. */
  predicate Exists<T>(s: seq<T>, p: T -> bool)
  {
    exists i :: 0 <= i < |s| && p(s[i])
  }
}

/** UsuarioRepository: the finders declared on tb_usuarios. */
module UsuarioRepository {
  import opened Wrappers
  import opened Errors
  import opened Model
  import opened Queries

  /** The UNIQUE constraint on tb_usuarios.email, over active and inactive rows alike. */
  predicate UniqueEmails(t: seq<UsuarioRow>)
  {
    forall i, j :: 0 <= i < |t| && 0 <= j < |t| && t[i].email == t[j].email ==> i == j
  }

  /** findByEmail. */
  function FindByEmail(t: seq<UsuarioRow>, email: string): (r: Result<Option<UsuarioRow>, Error>)
    ensures r == Success(None) <==> forall i :: 0 <= i < |t| ==> t[i].email != email
    ensures r.Success? && r.value.Some? ==> r.value.value in t && r.value.value.email == email
  {
    FindUnique(t, (u: UsuarioRow) => u.email == email)
  }

  /** existsByEmail: some row, whatever its estado, has this email. */
  predicate ExistsByEmail(t: seq<UsuarioRow>, email: string)
  {
    Exists(t, (u: UsuarioRow) => u.email == email)
  }

  /** findByRolAndEstado: exactly the rows with this rol and estado, in table order. */
  function FindByRolAndEstado(t: seq<UsuarioRow>, rol: Rol, estado: bool): (r: seq<UsuarioRow>)
    ensures forall u :: u in r <==> u in t && u.rol == rol && u.estado == estado
  {
    Filter(t, (u: UsuarioRow) => u.rol == rol && u.estado == estado)
  }

  /** findByEmailAndContrasenaAndEstado: the row matching all three columns, if any. */
  function FindByEmailAndContrasenaAndEstado(t: seq<UsuarioRow>, email: string, contrasena: string, estado: bool)
    : (r: Result<Option<UsuarioRow>, Error>)
    ensures r == Success(None) <==>
      forall i :: 0 <= i < |t| ==> !(t[i].email == email && t[i].contrasena == contrasena && t[i].estado == estado)
    ensures r.Success? && r.value.Some? ==>
      var u := r.value.value; u in t && u.email == email && u.contrasena == contrasena && u.estado == estado
  {
    FindUnique(t, (u: UsuarioRow) => u.email == email && u.contrasena == contrasena && u.estado == estado)
  }

  /** With unique emails, a condition that fixes the email is met by at most one row. */
  lemma {:induction false} AtMostOneWithEmail(t: seq<UsuarioRow>, email: string, p: UsuarioRow -> bool)
    requires UniqueEmails(t)
    requires forall u :: p(u) ==> u.email == email
    ensures |Filter(t, p)| <= 1
    decreases |t|
  {
    if t != [] {
      var init := t[..|t| - 1];
      assert UniqueEmails(init) by {
        forall i, j | 0 <= i < |init| && 0 <= j < |init| && init[i].email == init[j].email
          ensures i == j
        {
          assert t[i] == init[i] && t[j] == init[j];
        }
      }
      if p(t[|t| - 1]) {
        forall i | 0 <= i < |init| ensures !p(init[i]) {
          assert t[i] == init[i];
        }
        FilterEmpty(init, p);
      } else {
        AtMostOneWithEmail(init, email, p);
      }
    }
  }

  /** Because emails are unique, looking a user up by email never fails. */
  lemma FindByEmailSucceeds(t: seq<UsuarioRow>, email: string)
    requires UniqueEmails(t)
    ensures FindByEmail(t, email).Success?
    ensures ExistsByEmail(t, email) <==> FindByEmail(t, email).value.Some?
  {
    AtMostOneWithEmail(t, email, (u: UsuarioRow) => u.email == email);
  }

  /** Because emails are unique, the credential lookup never fails either. */
  lemma FindByCredentialsSucceeds(t: seq<UsuarioRow>, email: string, contrasena: string, estado: bool)
    requires UniqueEmails(t)
    ensures FindByEmailAndContrasenaAndEstado(t, email, contrasena, estado).Success?
  {
    AtMostOneWithEmail(t, email,
      (u: UsuarioRow) => u.email == email && u.contrasena == contrasena && u.estado == estado);
  }
}

/** AdminSistemaRepository: the finders declared on tb_admin_sistemas. */
module AdminSistemaRepository {
  import opened Wrappers
  import opened Errors
  import opened Model
  import opened Queries

  /** findByIdAdminAndEstado: exactly the assignments of this admin with this estado, in table order. */
  function FindByIdAdminAndEstado(t: seq<AdminSistemaRow>, idAdmin: int, estado: bool): (r: seq<AdminSistemaRow>)
    ensures forall a :: a in r <==> a in t && a.idAdmin == idAdmin && a.estado == estado
  {
    Filter(t, (a: AdminSistemaRow) => a.idAdmin == idAdmin && a.estado == estado)
  }

  /** findByIdSistemaAndEstado: exactly the assignments to this system with this estado, in table order. */
  function FindByIdSistemaAndEstado(t: seq<AdminSistemaRow>, idSistema: int, estado: bool): (r: seq<AdminSistemaRow>)
    ensures forall a :: a in r <==> a in t && a.idSistema == idSistema && a.estado == estado
  {
    Filter(t, (a: AdminSistemaRow) => a.idSistema == idSistema && a.estado == estado)
  }

  /** The match condition shared by the two (idAdmin, idSistema, estado) queries. */
  predicate Matches(a: AdminSistemaRow, idAdmin: int, idSistema: int, estado: bool)
  {
    a.idAdmin == idAdmin && a.idSistema == idSistema && a.estado == estado
  }

  /** findByIdAdminAndIdSistemaAndEstado: the one matching assignment, nothing, or NonUniqueResult. */
  function FindByIdAdminAndIdSistemaAndEstado(t: seq<AdminSistemaRow>, idAdmin: int, idSistema: int, estado: bool)
    : (r: Result<Option<AdminSistemaRow>, Error>)
    ensures r == Success(None) <==> forall i :: 0 <= i < |t| ==> !Matches(t[i], idAdmin, idSistema, estado)
    ensures r.Success? && r.value.Some? ==> r.value.value in t && Matches(r.value.value, idAdmin, idSistema, estado)
    ensures r.Failure? <==> |Filter(t, (a: AdminSistemaRow) => Matches(a, idAdmin, idSistema, estado))| > 1
    ensures r.Failure? ==> r.error == NonUniqueResult
  {
    FindUnique(t, (a: AdminSistemaRow) => Matches(a, idAdmin, idSistema, estado))
  }

  /** existsByIdAdminAndIdSistemaAndEstado. */
  predicate ExistsByIdAdminAndIdSistemaAndEstado(t: seq<AdminSistemaRow>, idAdmin: int, idSistema: int, estado: bool)
  {
    Exists(t, (a: AdminSistemaRow) => Matches(a, idAdmin, idSistema, estado))
  }

  /**
   * The existence check is true exactly when the finder does not come back
   * empty: it either returns the assignment or, for duplicates, fails.
   */
  lemma ExistsIffFindNotEmpty(t: seq<AdminSistemaRow>, idAdmin: int, idSistema: int, estado: bool)
    ensures ExistsByIdAdminAndIdSistemaAndEstado(t, idAdmin, idSistema, estado)
      <==> FindByIdAdminAndIdSistemaAndEstado(t, idAdmin, idSistema, estado) != Success(None)
  {
  }

  /**
   * Two active assignments of one administrator to one system, under
   * consecutive ids: the rows two successful `Store.SaveAdminSistema` calls
   * append, since its contract checks no uniqueness of the pair. The finder
   * then fails while exists holds.
   */
  lemma DuplicateAssignments(a: AdminSistemaRow)
    requires a.estado
    ensures var t := [a, a.(id := a.id + 1)];
      ExistsByIdAdminAndIdSistemaAndEstado(t, a.idAdmin, a.idSistema, true)
      && FindByIdAdminAndIdSistemaAndEstado(t, a.idAdmin, a.idSistema, true) == Failure(NonUniqueResult)
  {
    var t := [a, a.(id := a.id + 1)];
    var p := (b: AdminSistemaRow) => Matches(b, a.idAdmin, a.idSistema, true);
    assert t[..1] == [a];
    assert Filter(t, p) == [a, a.(id := a.id + 1)];
  }
}

/** SistemaRepository: the one lookup this core makes on tb_sistemas. */
module SistemaRepository {
  import opened Model
  import opened Queries

  /** findAllById, taken as the stored systems whose id is requested, in table order, each once. */
  function FindAllById(t: seq<Sistema>, ids: seq<int>): (r: seq<Sistema>)
    ensures forall s :: s in r <==> s in t && s.id in ids
  {
    Filter(t, (s: Sistema) => s.id in ids)
  }
}
