/** The persistence side of the system as in-memory tables: residents
    (`vecinos`), the access log (`accesos`) and temporary visitors
    (`visitas_temporales`). Each operation is first a function on the table
    contents, stating the constraint it enforces, and then a method of the
    `Database` class that performs it on the class's fields. */
module Store {
  import opened Common

  /** `tipo_persona`: 'vecino' or 'visita'. */
  datatype PersonKind = Resident | Visitor
  /** `tipo_evento`: 'entrada' or 'salida'. */
  datatype EventKind = Entry | Exit

  /** A row of `vecinos`. */
  datatype ResidentRow = ResidentRow(id: int, name: string, imagePath: string, encoding: Encoding,
                                     registeredAt: int, active: bool)
  /** A row of `accesos`. */
  datatype AccessRow = AccessRow(id: int, name: string, person: PersonKind, event: EventKind,
                                 at: int, imagePath: Option<string>)
  /** A row of `visitas_temporales`. */
  datatype VisitRow = VisitRow(id: int, fileName: string, encoding: Encoding, enteredAt: int, active: bool)

  /** The columns `buscar_vecino_por_nombre` selects (all but the encoding). */
  datatype ResidentInfo = ResidentInfo(id: int, name: string, imagePath: string, registeredAt: int, active: bool)

  /** `(id, nombre, encoding)`, as `obtener_vecinos_activos` returns it. */
  type ResidentTuple = (int, string, Encoding)
  /** `(id, nombre_archivo, encoding, fecha_entrada)`, as `obtener_visitas_temporales_activas` returns it. */
  type VisitTuple = (int, string, Encoding, int)

  /** The three tables, in rowid order, with the next AUTOINCREMENT id of each. */
  datatype Tables = Tables(residents: seq<ResidentRow>, accesses: seq<AccessRow>, visits: seq<VisitRow>,
                           nextResidentId: int, nextAccessId: int, nextVisitId: int)

  /** A database file just created by `crear_tablas`. */
  const EmptyTables: Tables := Tables([], [], [], 1, 1, 1)

  // ---------------------------------------------------------------------
  // Table invariants: AUTOINCREMENT ids and UNIQUE columns
  // ---------------------------------------------------------------------

  ghost predicate ResidentsValid(rows: seq<ResidentRow>, next: int) {
    && 1 <= next
    && (forall i :: 0 <= i < |rows| ==> 1 <= rows[i].id < next)
    && (forall i, j :: 0 <= i < j < |rows| ==> rows[i].id < rows[j].id)
    && (forall i, j :: 0 <= i < j < |rows| ==> rows[i].name != rows[j].name)
  }

  ghost predicate AccessesValid(rows: seq<AccessRow>, next: int) {
    && 1 <= next
    && (forall i :: 0 <= i < |rows| ==> 1 <= rows[i].id < next)
    && (forall i, j :: 0 <= i < j < |rows| ==> rows[i].id < rows[j].id)
  }

  ghost predicate VisitsValid(rows: seq<VisitRow>, next: int) {
    && 1 <= next
    && (forall i :: 0 <= i < |rows| ==> 1 <= rows[i].id < next)
    && (forall i, j :: 0 <= i < j < |rows| ==> rows[i].id < rows[j].id)
    && (forall i, j :: 0 <= i < j < |rows| ==> rows[i].fileName != rows[j].fileName)
  }

  /** Ids grow strictly in rowid order and stay below the next id; `nombre`
      and `nombre_archivo` are unique. */
  ghost predicate TablesValid(t: Tables) {
    && ResidentsValid(t.residents, t.nextResidentId)
    && AccessesValid(t.accesses, t.nextAccessId)
    && VisitsValid(t.visits, t.nextVisitId)
  }

  lemma EmptyTablesValid()
    ensures TablesValid(EmptyTables)
  {
  }

  // ---------------------------------------------------------------------
  // vecinos
  // ---------------------------------------------------------------------

  predicate HasResidentNamed(rows: seq<ResidentRow>, name: string) {
    exists i :: 0 <= i < |rows| && rows[i].name == name
  }

  /** `registrar_vecino`: the UNIQUE constraint rejects a name that any row
      already has, active or soft-deleted; otherwise an active row is appended
      with the next id. */
  function InsertResident(t: Tables, name: string, imagePath: string, encoding: Encoding, now: int): (r: (Tables, bool))
    ensures r.1 <==> !HasResidentNamed(t.residents, name)
    ensures r.1 ==> r.0 == t.(residents := t.residents + [ResidentRow(t.nextResidentId, name, imagePath, encoding, now, true)],
                              nextResidentId := t.nextResidentId + 1)
    ensures !r.1 ==> r.0 == t
    ensures TablesValid(t) ==> TablesValid(r.0)
  {
    if HasResidentNamed(t.residents, name) then (t, false)
    else
      var row := ResidentRow(t.nextResidentId, name, imagePath, encoding, now, true);
      (t.(residents := t.residents + [row], nextResidentId := t.nextResidentId + 1), true)
  }

  /** `obtener_vecinos_activos`: `(id, nombre, encoding)` of exactly the active
      rows, in table order. */
  function ActiveResidentRows(rows: seq<ResidentRow>): (r: seq<ResidentTuple>)
    ensures |r| <= |rows|
    ensures forall x :: x in r <==>
      exists i :: 0 <= i < |rows| && rows[i].active && x == (rows[i].id, rows[i].name, rows[i].encoding)
  {
    if rows == [] then []
    else
      var init, last := rows[..|rows| - 1], rows[|rows| - 1];
      var r := ActiveResidentRows(init) + (if last.active then [(last.id, last.name, last.encoding)] else []);
      assert forall i :: 0 <= i < |init| ==> init[i] == rows[i];
      r
  }

  /** The listed ids increase down the list. */
  predicate ResidentIdsIncrease(r: seq<ResidentTuple>) {
    forall a, b :: 0 <= a < b < |r| ==> r[a].0 < r[b].0
  }

  /** With ids increasing down the table, the listed ids increase too: the
      list keeps table order, and with the membership clause that fixes it. */
  lemma {:induction false} ActiveResidentRowsInOrder(rows: seq<ResidentRow>)
    requires forall i, j :: 0 <= i < j < |rows| ==> rows[i].id < rows[j].id
    ensures ResidentIdsIncrease(ActiveResidentRows(rows))
  {
    if rows != [] {
      var init, last := rows[..|rows| - 1], rows[|rows| - 1];
      assert forall i :: 0 <= i < |init| ==> init[i] == rows[i];
      ActiveResidentRowsInOrder(init);
      var head := ActiveResidentRows(init);
      forall a | 0 <= a < |head| ensures head[a].0 < last.id {
        assert head[a] in head;
      }
      var r := ActiveResidentRows(rows);
      assert r == head + (if last.active then [(last.id, last.name, last.encoding)] else []);
      forall a, b | 0 <= a < b < |r| ensures r[a].0 < r[b].0 {
        assert r[a] == head[a];
        if b < |head| { assert r[b] == head[b]; } else { assert r[b].0 == last.id; }
      }
    }
  }

  /** One more row of the table adds at most its own tuple at the end. */
  lemma ActiveResidentRowsStep(rows: seq<ResidentRow>, i: int)
    requires 0 <= i < |rows|
    ensures ActiveResidentRows(rows[..i + 1]) ==
      ActiveResidentRows(rows[..i]) + (if rows[i].active then [(rows[i].id, rows[i].name, rows[i].encoding)] else [])
  {
    assert rows[..i + 1][..i] == rows[..i];
  }

  function InfoOf(row: ResidentRow): ResidentInfo {
    ResidentInfo(row.id, row.name, row.imagePath, row.registeredAt, row.active)
  }

  /** `buscar_vecino_por_nombre`: a row is found iff one has that name and is
      active, and the row found is such a row. */
  function FindActiveResident(rows: seq<ResidentRow>, name: string): (r: Option<ResidentInfo>)
    ensures r.Some? <==> exists i :: 0 <= i < |rows| && rows[i].name == name && rows[i].active
    ensures r.Some? ==> r.value.name == name && r.value.active
    ensures r.Some? ==> exists i :: 0 <= i < |rows| && InfoOf(rows[i]) == r.value
  {
    if rows == [] then None
    else if rows[0].name == name && rows[0].active then Some(InfoOf(rows[0]))
    else
      var r := FindActiveResident(rows[1..], name);
      assert forall i :: 0 <= i < |rows| - 1 ==> rows[1..][i] == rows[i + 1];
      r
  }

  /** The `UPDATE vecinos SET activo = 0 WHERE nombre = ?` of the table. */
  function DeactivateNamed(rows: seq<ResidentRow>, name: string): (r: seq<ResidentRow>)
    ensures |r| == |rows|
    ensures forall i :: 0 <= i < |rows| ==>
      r[i] == if rows[i].name == name then rows[i].(active := false) else rows[i]
  {
    seq(|rows|, i requires 0 <= i < |rows| => if rows[i].name == name then rows[i].(active := false) else rows[i])
  }

  /** `eliminar_vecino`: a soft delete. It answers whether some row has the
      name (an already deleted one included, since `rowcount` counts matched
      rows) and changes nothing but the `activo` flag of that row. */
  function SoftDeleteResident(t: Tables, name: string): (r: (Tables, bool))
    ensures r.1 <==> HasResidentNamed(t.residents, name)
    ensures r.0 == t.(residents := DeactivateNamed(t.residents, name))
    ensures TablesValid(t) ==> TablesValid(r.0)
  {
    (t.(residents := DeactivateNamed(t.residents, name)), HasResidentNamed(t.residents, name))
  }

  /** After a soft delete the name is no longer found, its row leaves the
      active list, and it still blocks a new registration under that name;
      every other name is found exactly as before. */
  lemma {:induction false} SoftDeleteIsPermanent(t: Tables, name: string, other: string, imagePath: string,
                                                 encoding: Encoding, now: int)
    requires HasResidentNamed(t.residents, name)
    ensures var t' := SoftDeleteResident(t, name).0;
      && FindActiveResident(t'.residents, name) == None
      && (forall x :: x in ActiveResidentRows(t'.residents) ==> x.1 != name)
      && !InsertResident(t', name, imagePath, encoding, now).1
      && (other != name ==> FindActiveResident(t'.residents, other) == FindActiveResident(t.residents, other))
  {
    var t' := SoftDeleteResident(t, name).0;
    var i :| 0 <= i < |t.residents| && t.residents[i].name == name;
    assert t'.residents[i].name == name;
    if other != name {
      DeactivateKeepsOthers(t.residents, name, other);
    }
  }

  /** Deactivating one name leaves the lookup of any other name as it was. */
  lemma {:induction false} DeactivateKeepsOthers(rows: seq<ResidentRow>, name: string, other: string)
    requires other != name
    ensures FindActiveResident(DeactivateNamed(rows, name), other) == FindActiveResident(rows, other)
  {
    if rows != [] {
      assert DeactivateNamed(rows, name)[1..] == DeactivateNamed(rows[1..], name);
      DeactivateKeepsOthers(rows[1..], name, other);
    }
  }

  // ---------------------------------------------------------------------
  // accesos
  // ---------------------------------------------------------------------

  /** `registrar_acceso`: appends exactly one row, with an id above every
      existing one, and leaves every existing row as it was. */
  function InsertAccess(t: Tables, name: string, person: PersonKind, event: EventKind, now: int,
                        imagePath: Option<string>): (r: (Tables, bool))
    ensures r.1
    ensures r.0 == t.(accesses := t.accesses + [AccessRow(t.nextAccessId, name, person, event, now, imagePath)],
                      nextAccessId := t.nextAccessId + 1)
    ensures TablesValid(t) ==> TablesValid(r.0)
    ensures TablesValid(t) ==> forall i :: 0 <= i < |t.accesses| ==> t.accesses[i].id < r.0.accesses[|t.accesses|].id
  {
    (t.(accesses := t.accesses + [AccessRow(t.nextAccessId, name, person, event, now, imagePath)],
        nextAccessId := t.nextAccessId + 1), true)
  }

  // ---------------------------------------------------------------------
  // visitas_temporales
  // ---------------------------------------------------------------------

  predicate HasVisitFile(rows: seq<VisitRow>, fileName: string) {
    exists i :: 0 <= i < |rows| && rows[i].fileName == fileName
  }

  /** `registrar_visita_temporal`: the UNIQUE constraint rejects a file name
      already present (two visitors named in the same second collide);
      otherwise an active row is appended with the next id. */
  function InsertVisit(t: Tables, fileName: string, encoding: Encoding, now: int): (r: (Tables, bool))
    ensures r.1 <==> !HasVisitFile(t.visits, fileName)
    ensures r.1 ==> r.0 == t.(visits := t.visits + [VisitRow(t.nextVisitId, fileName, encoding, now, true)],
                              nextVisitId := t.nextVisitId + 1)
    ensures !r.1 ==> r.0 == t
    ensures TablesValid(t) ==> TablesValid(r.0)
  {
    if HasVisitFile(t.visits, fileName) then (t, false)
    else (t.(visits := t.visits + [VisitRow(t.nextVisitId, fileName, encoding, now, true)],
             nextVisitId := t.nextVisitId + 1), true)
  }

  /** `obtener_visitas_temporales_activas`: `(id, nombre_archivo, encoding,
      fecha_entrada)` of exactly the active rows, in table order. */
  function ActiveVisitRows(rows: seq<VisitRow>): (r: seq<VisitTuple>)
    ensures |r| <= |rows|
    ensures forall x :: x in r <==>
      exists i :: 0 <= i < |rows| && rows[i].active && x == (rows[i].id, rows[i].fileName, rows[i].encoding, rows[i].enteredAt)
  {
    if rows == [] then []
    else
      var init, last := rows[..|rows| - 1], rows[|rows| - 1];
      var r := ActiveVisitRows(init) + (if last.active then [(last.id, last.fileName, last.encoding, last.enteredAt)] else []);
      assert forall i :: 0 <= i < |init| ==> init[i] == rows[i];
      r
  }

  /** The listed ids increase down the list. */
  predicate VisitIdsIncrease(r: seq<VisitTuple>) {
    forall a, b :: 0 <= a < b < |r| ==> r[a].0 < r[b].0
  }

  /** With ids increasing down the table, the listed ids increase too: the
      list keeps table order, and with the membership clause that fixes it. */
  lemma {:induction false} ActiveVisitRowsInOrder(rows: seq<VisitRow>)
    requires forall i, j :: 0 <= i < j < |rows| ==> rows[i].id < rows[j].id
    ensures VisitIdsIncrease(ActiveVisitRows(rows))
  {
    if rows != [] {
      var init, last := rows[..|rows| - 1], rows[|rows| - 1];
      assert forall i :: 0 <= i < |init| ==> init[i] == rows[i];
      ActiveVisitRowsInOrder(init);
      var head := ActiveVisitRows(init);
      forall a | 0 <= a < |head| ensures head[a].0 < last.id {
        assert head[a] in head;
      }
      var r := ActiveVisitRows(rows);
      assert r == head + (if last.active then [(last.id, last.fileName, last.encoding, last.enteredAt)] else []);
      forall a, b | 0 <= a < b < |r| ensures r[a].0 < r[b].0 {
        assert r[a] == head[a];
        if b < |head| { assert r[b] == head[b]; } else { assert r[b].0 == last.id; }
      }
    }
  }

  /** One more row of the table adds at most its own tuple at the end. */
  lemma ActiveVisitRowsStep(rows: seq<VisitRow>, i: int)
    requires 0 <= i < |rows|
    ensures ActiveVisitRows(rows[..i + 1]) ==
      ActiveVisitRows(rows[..i]) + (if rows[i].active then [(rows[i].id, rows[i].fileName, rows[i].encoding, rows[i].enteredAt)] else [])
  {
    assert rows[..i + 1][..i] == rows[..i];
  }

  /** The `UPDATE visitas_temporales SET activa = 0 WHERE id = ?` of the table. */
  function DeactivateId(rows: seq<VisitRow>, id: int): (r: seq<VisitRow>)
    ensures |r| == |rows|
    ensures forall i :: 0 <= i < |rows| ==> r[i] == if rows[i].id == id then rows[i].(active := false) else rows[i]
  {
    seq(|rows|, i requires 0 <= i < |rows| => if rows[i].id == id then rows[i].(active := false) else rows[i])
  }

  /** `desactivar_visita_temporal`: clears `activa` of the row with that id and
      answers True whether or not such a row exists. */
  function DeactivateVisitRow(t: Tables, id: int): (r: (Tables, bool))
    ensures r.1
    ensures r.0 == t.(visits := DeactivateId(t.visits, id))
    ensures TablesValid(t) ==> TablesValid(r.0)
  {
    (t.(visits := DeactivateId(t.visits, id)), true)
  }

  /** After deactivation the row with that id is no longer listed as active
      and every other active row still is. */
  lemma {:induction false} DeactivatedVisitNotListed(t: Tables, id: int)
    ensures var after := ActiveVisitRows(DeactivateVisitRow(t, id).0.visits);
      && (forall x :: x in after ==> x.0 != id)
      && (forall x :: x in ActiveVisitRows(t.visits) ==> (x in after <==> x.0 != id))
  {
    var rows := t.visits;
    var rows' := DeactivateVisitRow(t, id).0.visits;
    forall x | x in ActiveVisitRows(rows')
      ensures x.0 != id && x in ActiveVisitRows(rows)
    {
      var i :| 0 <= i < |rows'| && rows'[i].active && x == (rows'[i].id, rows'[i].fileName, rows'[i].encoding, rows'[i].enteredAt);
      assert rows'[i] == rows[i];
    }
    forall x | x in ActiveVisitRows(rows) && x.0 != id
      ensures x in ActiveVisitRows(rows')
    {
      var i :| 0 <= i < |rows| && rows[i].active && x == (rows[i].id, rows[i].fileName, rows[i].encoding, rows[i].enteredAt);
      assert rows'[i] == rows[i];
    }
  }

  // ---------------------------------------------------------------------
  // The database object
  // ---------------------------------------------------------------------

  /** `BaseDatos`: the three tables as fields that its methods update. */
  class Database {
    var residents: seq<ResidentRow>
    var accesses: seq<AccessRow>
    var visits: seq<VisitRow>
    var nextResidentId: int
    var nextAccessId: int
    var nextVisitId: int

    /** The tables' contents. */
    function State(): Tables
      reads this
    {
      Tables(residents, accesses, visits, nextResidentId, nextAccessId, nextVisitId)
    }

    ghost predicate Valid()
      reads this
    {
      TablesValid(State())
    }

    /** Opens a database file holding `saved` (`EmptyTables` for a new file:
        `crear_tablas` only creates missing tables). */
    constructor (saved: Tables)
      requires TablesValid(saved)
      ensures Valid() && State() == saved
    {
      residents, accesses, visits := saved.residents, saved.accesses, saved.visits;
      nextResidentId, nextAccessId, nextVisitId := saved.nextResidentId, saved.nextAccessId, saved.nextVisitId;
    }

    method RegisterResident(name: string, imagePath: string, encoding: Encoding, now: int) returns (ok: bool)
      requires Valid()
      modifies this
      ensures Valid()
      ensures (State(), ok) == InsertResident(old(State()), name, imagePath, encoding, now)
    {
      ok := !HasResidentNamed(residents, name);
      if ok {
        residents := residents + [ResidentRow(nextResidentId, name, imagePath, encoding, now, true)];
        nextResidentId := nextResidentId + 1;
      }
    }

    /** Builds the list of active residents row by row. */
    method ActiveResidents() returns (rows: seq<ResidentTuple>)
      ensures rows == ActiveResidentRows(residents)
    {
      rows := [];
      for i := 0 to |residents|
        invariant rows == ActiveResidentRows(residents[..i])
      {
        ActiveResidentRowsStep(residents, i);
        var row := residents[i];
        if row.active {
          rows := rows + [(row.id, row.name, row.encoding)];
        }
      }
      assert residents[..|residents|] == residents;
    }

    method FindResidentByName(name: string) returns (found: Option<ResidentInfo>)
      ensures found == FindActiveResident(residents, name)
    {
      found := FindActiveResident(residents, name);
    }

    method DeleteResident(name: string) returns (ok: bool)
      requires Valid()
      modifies this
      ensures Valid()
      ensures (State(), ok) == SoftDeleteResident(old(State()), name)
    {
      ok := HasResidentNamed(residents, name);
      residents := DeactivateNamed(residents, name);
    }

    method RegisterAccess(name: string, person: PersonKind, event: EventKind, now: int,
                          imagePath: Option<string>) returns (ok: bool)
      requires Valid()
      modifies this
      ensures Valid()
      ensures (State(), ok) == InsertAccess(old(State()), name, person, event, now, imagePath)
    {
      accesses := accesses + [AccessRow(nextAccessId, name, person, event, now, imagePath)];
      nextAccessId := nextAccessId + 1;
      ok := true;
    }

    method RegisterVisit(fileName: string, encoding: Encoding, now: int) returns (ok: bool)
      requires Valid()
      modifies this
      ensures Valid()
      ensures (State(), ok) == InsertVisit(old(State()), fileName, encoding, now)
    {
      ok := !HasVisitFile(visits, fileName);
      if ok {
        visits := visits + [VisitRow(nextVisitId, fileName, encoding, now, true)];
        nextVisitId := nextVisitId + 1;
      }
    }

    /** Builds the list of active visitors row by row. */
    method ActiveVisits() returns (rows: seq<VisitTuple>)
      ensures rows == ActiveVisitRows(visits)
    {
      rows := [];
      for i := 0 to |visits|
        invariant rows == ActiveVisitRows(visits[..i])
      {
        ActiveVisitRowsStep(visits, i);
        var row := visits[i];
        if row.active {
          rows := rows + [(row.id, row.fileName, row.encoding, row.enteredAt)];
        }
      }
      assert visits[..|visits|] == visits;
    }

    method DeactivateVisit(id: int) returns (ok: bool)
      requires Valid()
      modifies this
      ensures Valid()
      ensures (State(), ok) == DeactivateVisitRow(old(State()), id)
    {
      visits := DeactivateId(visits, id);
      ok := true;
    }
  }
}
