/**
 * AdminSistemaService: the systems an administrator is currently assigned to.
 */
module AdminSistemaService {
  import opened Model
  import opened Queries
  import opened AdminSistemaRepository
  import opened SistemaRepository

  /** An active assignment of this administrator. */
  predicate ActiveFor(a: AdminSistemaRow, idAdmin: int)
  {
    a.idAdmin == idAdmin && a.estado
  }

  /** The system ids of the administrator's active assignments, in table order. */
  function SistemaIds(t: seq<AdminSistemaRow>, idAdmin: int): (ids: seq<int>)
    ensures forall id :: id in ids <==> exists a :: a in t && ActiveFor(a, idAdmin) && a.idSistema == id
  {
    var asignaciones := FindByIdAdminAndEstado(t, idAdmin, true);
    var ids := Map(asignaciones, (a: AdminSistemaRow) => a.idSistema);
    assert forall id :: id in ids ==> exists a :: a in asignaciones && a.idSistema == id by {
      forall id | id in ids ensures exists a :: a in asignaciones && a.idSistema == id {
        var i :| 0 <= i < |ids| && ids[i] == id;
        assert asignaciones[i] in asignaciones;
      }
    }
    assert forall a :: a in asignaciones ==> a.idSistema in ids by {
      forall a | a in asignaciones ensures a.idSistema in ids {
        var i :| 0 <= i < |asignaciones| && asignaciones[i] == a;
        assert ids[i] == a.idSistema;
      }
    }
    ids
  }

  /** The same ids, read off the table one row at a time from the front. */
  function ActiveSistemaIds(t: seq<AdminSistemaRow>, idAdmin: int): (ids: seq<int>)
  {
    if t == [] then []
    else (if ActiveFor(t[0], idAdmin) then [t[0].idSistema] else []) + ActiveSistemaIds(t[1..], idAdmin)
  }

  /** The pipeline splits off the first row of the table. */
  lemma SistemaIdsCons(t: seq<AdminSistemaRow>, idAdmin: int)
    requires t != []
    ensures SistemaIds(t, idAdmin)
      == (if ActiveFor(t[0], idAdmin) then [t[0].idSistema] else []) + SistemaIds(t[1..], idAdmin)
  {
    var p := (a: AdminSistemaRow) => a.idAdmin == idAdmin && a.estado == true;
    var f := (a: AdminSistemaRow) => a.idSistema;
    assert t == [t[0]] + t[1..];
    FilterAppend([t[0]], t[1..], p);
    assert [t[0]][..0] == [];
    MapAppend(Filter([t[0]], p), Filter(t[1..], p), f);
  }

  /** The finder-and-map pipeline lists the same ids, in the same order and multiplicity, as the row-by-row reading. */
  lemma {:induction false} SistemaIdsInOrder(t: seq<AdminSistemaRow>, idAdmin: int)
    ensures SistemaIds(t, idAdmin) == ActiveSistemaIds(t, idAdmin)
    decreases |t|
  {
    if t != [] {
      SistemaIdsCons(t, idAdmin);
      SistemaIdsInOrder(t[1..], idAdmin);
    }
  }

  /**
   * getSistemasByAdmin: no assignment gives the empty list at once;
   * otherwise the stored systems whose id is among the assigned ones.
   */
  function GetSistemasByAdmin(asignaciones: seq<AdminSistemaRow>, sistemas: seq<Sistema>, idAdmin: int)
    : (r: seq<Sistema>)
    ensures forall s :: s in r <==>
      s in sistemas && exists a :: a in asignaciones && ActiveFor(a, idAdmin) && a.idSistema == s.id
    ensures (forall a :: a in asignaciones ==> !ActiveFor(a, idAdmin)) ==> r == []
  {
    var ids := SistemaIds(asignaciones, idAdmin);
    if ids == [] then [] else assert ids[0] in ids; FindAllById(sistemas, ids)
  }

  /** The early return of the empty list only saves the query: findAllById on no ids finds nothing. */
  lemma ShortCircuitAgrees(asignaciones: seq<AdminSistemaRow>, sistemas: seq<Sistema>, idAdmin: int)
    ensures GetSistemasByAdmin(asignaciones, sistemas, idAdmin)
      == FindAllById(sistemas, SistemaIds(asignaciones, idAdmin))
  {
    var ids := SistemaIds(asignaciones, idAdmin);
    if ids == [] {
      FilterEmpty(sistemas, (s: Sistema) => s.id in ids);
    }
  }

  /**
   * An administrator whose only assignment is a new active one to a system
   * is given exactly the stored systems with that id.
   */
  lemma NewAdminSistemas(asignaciones: seq<AdminSistemaRow>, sistemas: seq<Sistema>, x: AdminSistemaRow)
    requires forall a :: a in asignaciones ==> a.idAdmin != x.idAdmin
    requires x.estado
    ensures forall s :: s in GetSistemasByAdmin(asignaciones + [x], sistemas, x.idAdmin) <==>
      s in sistemas && s.id == x.idSistema
  {
    assert x in asignaciones + [x];
  }

  /** An inactive assignment changes nobody's systems. */
  lemma InactiveIgnored(asignaciones: seq<AdminSistemaRow>, sistemas: seq<Sistema>, x: AdminSistemaRow, idAdmin: int)
    requires !x.estado
    ensures GetSistemasByAdmin(asignaciones + [x], sistemas, idAdmin)
      == GetSistemasByAdmin(asignaciones, sistemas, idAdmin)
  {
    var p := (a: AdminSistemaRow) => a.idAdmin == idAdmin && a.estado == true;
    FilterAppend(asignaciones, [x], p);
    assert [x][..0] == [];
    assert Filter(asignaciones + [x], p) == Filter(asignaciones, p);
  }
}
