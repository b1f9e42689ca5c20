/** The attendance store of main.py: the `personas` and `asistencias` tables
    as sequences of rows in table order, and the four endpoints that change
    them (`agregar_persona`, `marcar_asistencia`, `editar_persona`,
    `borrar_persona`). */
module Store {
  import opened Wrappers
  import opened Text
  import opened Dates
  import opened Sequences

  /** A row of `personas`. */
  datatype Persona = Persona(id: nat, nombre: string)

  /** A row of `asistencias`. Its own `id` only ever serves to address the
      row found by a lookup, so the row's position in the table stands for it. */
  datatype Registro = Registro(personaId: nat, fecha: string, estado: string)

  /** An `HTTPException` with its status code and detail text. */
  datatype Failure = Failure(status: nat, detail: string)

  /** What an endpoint answers: the `mensaje` of its JSON body, or the
      exception it raises. */
  datatype Outcome = Ok(mensaje: string) | Fail(failure: Failure)

  /** FastAPI's answer when a required `Form(...)` field is absent. A form
      field sent as the empty string counts as absent, so the request is
      refused with 422 before the endpoint body runs. */
  const MissingField := Failure(422, "Field required")

  function DifferentNames(a: Persona, b: Persona): bool { a.nombre != b.nombre }

  function DifferentIds(a: Persona, b: Persona): bool { a.id != b.id }

  /** Two attendance rows are for different (person, date) pairs. */
  function DifferentSlots(a: Registro, b: Registro): bool
  {
    a.personaId != b.personaId || a.fecha != b.fecha
  }

  predicate HasName(ps: seq<Persona>, n: string)
  {
    exists q :: q in ps && q.nombre == n
  }

  predicate HasId(ps: seq<Persona>, id: nat)
  {
    exists q :: q in ps && q.id == id
  }

  /** The table invariants: `nombre` is UNIQUE; ids are distinct and below
      the next id the AUTOINCREMENT allocator hands out; there is at most one
      attendance row per person and date; and every attendance row's
      `persona_id` is the id of a person. */
  predicate Consistent(ps: seq<Persona>, rs: seq<Registro>, nextId: nat)
  {
    && Pairwise(ps, DifferentNames)
    && Pairwise(ps, DifferentIds)
    && (forall q :: q in ps ==> q.id < nextId)
    && Pairwise(rs, DifferentSlots)
    && (forall x :: x in rs ==> HasId(ps, x.personaId))
  }

  /** `SELECT id FROM personas WHERE nombre = ?` with `fetchone()`. */
  function FindPersona(ps: seq<Persona>, n: string): (r: Option<nat>)
    ensures r.Some? ==> r.value < |ps| && ps[r.value].nombre == n
    ensures r.None? <==> !HasName(ps, n)
  {
    var r := FirstWhere(ps, (q: Persona) => q.nombre == n);
    assert r.None? ==> forall q :: q in ps ==> q.nombre != n by {
      if r.None? {
        forall q | q in ps ensures q.nombre != n {
          var k :| 0 <= k < |ps| && ps[k] == q;
        }
      }
    }
    r
  }

  /** `SELECT id FROM asistencias WHERE persona_id = ? AND fecha = ?` with
      `fetchone()`. */
  function FindRecord(rs: seq<Registro>, pid: nat, fs: string): (r: Option<nat>)
    ensures r.Some? ==> r.value < |rs| && rs[r.value].personaId == pid && rs[r.value].fecha == fs
    ensures r.None? ==> forall k :: 0 <= k < |rs| ==> rs[k].personaId != pid || rs[k].fecha != fs
  {
    FirstWhere(rs, (x: Registro) => x.personaId == pid && x.fecha == fs)
  }

  /** A date `datetime` can hold: `strptime` only produces these, and so
      does the clock. */
  predicate CalendarDate(d: Date)
  {
    1 <= d.year && 1 <= d.month <= 12 && 1 <= d.day <= 31
  }

  /** `parse` stands for `datetime.strptime(_, "%Y-%m-%d")`: None where it
      raises, and otherwise a date of the calendar. */
  ghost predicate Parser(parse: string -> Option<Date>)
  {
    forall s :: parse(s).Some? ==> CalendarDate(parse(s).value)
  }

  /** The `fecha_str` step of `marcar_asistencia`. A missing or empty
      `fecha` (both are false in Python) takes today's date; a supplied one
      must parse, and None stands for the "Fecha inválida" exception. What
      is stored is always the `%Y-%m-%d` text of a calendar date, whatever
      form the supplied text had. */
  function FechaStr(fecha: Option<string>, parse: string -> Option<Date>, today: Date): (r: Option<string>)
    requires Parser(parse) && CalendarDate(today)
    ensures fecha.None? || fecha.value == [] ==> r == Some(IsoDate(today))
    ensures fecha.Some? && fecha.value != [] ==> (r.None? <==> parse(fecha.value).None?)
    ensures fecha.Some? && fecha.value != [] && parse(fecha.value).Some? ==>
              r == Some(IsoDate(parse(fecha.value).value))
    ensures r.Some? ==> exists d :: CalendarDate(d) && r.value == IsoDate(d)
  {
    if fecha.Some? && fecha.value != [] then
      match parse(fecha.value)
      case None => None
      case Some(d) => Some(IsoDate(d))
    else Some(IsoDate(today))
  }

  /** The select-then-update-or-insert of `marcar_asistencia`. */
  function Upsert(rs: seq<Registro>, pid: nat, fs: string, estado: string): (r: seq<Registro>)
    ensures |rs| <= |r| <= |rs| + 1
    ensures exists k :: 0 <= k < |r| && r[k] == Registro(pid, fs, estado)
    ensures forall k :: 0 <= k < |rs| && !InSlot(rs[k], pid, fs) ==> r[k] == rs[k]
  {
    match FindRecord(rs, pid, fs)
    case Some(i) =>
      var r := rs[i := rs[i].(estado := estado)];
      assert r[i] == Registro(pid, fs, estado);
      r
    case None =>
      var r := rs + [Registro(pid, fs, estado)];
      assert r[|rs|] == Registro(pid, fs, estado);
      r
  }

  /** The row for `(pid, fs)`, if there is one. */
  predicate InSlot(x: Registro, pid: nat, fs: string)
  {
    x.personaId == pid && x.fecha == fs
  }

  /** If some row is for `(pid, fs)` only its `estado` changes, and every
      other row stays as it was; otherwise exactly one row is added. */
  lemma UpsertChanges(rs: seq<Registro>, pid: nat, fs: string, estado: string)
    requires Pairwise(rs, DifferentSlots)
    ensures var r := Upsert(rs, pid, fs, estado);
      if exists k :: 0 <= k < |rs| && InSlot(rs[k], pid, fs) then
        |r| == |rs| &&
        forall k :: 0 <= k < |rs| ==> r[k] == if InSlot(rs[k], pid, fs) then rs[k].(estado := estado) else rs[k]
      else
        r == rs + [Registro(pid, fs, estado)]
  {
    match FindRecord(rs, pid, fs)
    case Some(i) =>
      forall k | 0 <= k < |rs| && k != i ensures !InSlot(rs[k], pid, fs) {
        if k < i { assert DifferentSlots(rs[k], rs[i]); } else { assert DifferentSlots(rs[i], rs[k]); }
      }
    case None =>
  }

  /** After the upsert there is exactly one row for `(pid, fs)`, it holds
      `estado`, and the table still has at most one row per person and date. */
  lemma UpsertRegisters(rs: seq<Registro>, pid: nat, fs: string, estado: string)
    requires Pairwise(rs, DifferentSlots)
    ensures var r := Upsert(rs, pid, fs, estado);
      && Pairwise(r, DifferentSlots)
      && (exists i :: 0 <= i < |r| && InSlot(r[i], pid, fs) && r[i].estado == estado)
      && (forall i, j :: 0 <= i < |r| && 0 <= j < |r| && InSlot(r[i], pid, fs) && InSlot(r[j], pid, fs) ==> i == j)
  {
    var r := Upsert(rs, pid, fs, estado);
    match FindRecord(rs, pid, fs)
    case Some(i) =>
      assert InSlot(r[i], pid, fs) && r[i].estado == estado;
      assert Pairwise(r, DifferentSlots) by {
        forall a, b | 0 <= a < b < |r| ensures DifferentSlots(r[a], r[b]) {
          assert DifferentSlots(rs[a], rs[b]);
        }
      }
    case None =>
      assert InSlot(r[|rs|], pid, fs);
  }

  /** Marking an existing person keeps the tables consistent. */
  lemma UpsertKeepsConsistent(ps: seq<Persona>, rs: seq<Registro>, nextId: nat, pid: nat, fs: string, estado: string)
    requires Consistent(ps, rs, nextId) && HasId(ps, pid)
    ensures Consistent(ps, Upsert(rs, pid, fs, estado), nextId)
  {
    UpsertRegisters(rs, pid, fs, estado);
    var r := Upsert(rs, pid, fs, estado);
    forall x | x in r ensures HasId(ps, x.personaId) {
      var k :| 0 <= k < |r| && r[k] == x;
      if k < |rs| {
        assert rs[k] in rs && rs[k].personaId == x.personaId;
      }
    }
  }

  /** Keeps the attendance rows of everyone but `pid`:
      `DELETE FROM asistencias WHERE persona_id = ?`. */
  function DropRecords(rs: seq<Registro>, pid: nat): (r: seq<Registro>)
    ensures IsSubsequence(r, rs)
    ensures forall x :: x in r <==> x in rs && x.personaId != pid
    ensures Pairwise(rs, DifferentSlots) ==> Pairwise(r, DifferentSlots)
  {
    var p := (x: Registro) => x.personaId != pid;
    KeepIsSubsequence(rs, p);
    KeepMembership(rs, p);
    assert Pairwise(rs, DifferentSlots) ==> Pairwise(Keep(rs, p), DifferentSlots) by {
      if Pairwise(rs, DifferentSlots) { KeepPairwise(rs, p, DifferentSlots); }
    }
    Keep(rs, p)
  }

  /** Keeps every person but the one with id `pid`:
      `DELETE FROM personas WHERE id = ?`. */
  function DropPersona(ps: seq<Persona>, pid: nat): (r: seq<Persona>)
    ensures IsSubsequence(r, ps)
    ensures forall q :: q in r <==> q in ps && q.id != pid
    ensures Pairwise(ps, DifferentNames) ==> Pairwise(r, DifferentNames)
    ensures Pairwise(ps, DifferentIds) ==> Pairwise(r, DifferentIds)
  {
    var p := (q: Persona) => q.id != pid;
    KeepIsSubsequence(ps, p);
    KeepMembership(ps, p);
    assert Pairwise(ps, DifferentNames) ==> Pairwise(Keep(ps, p), DifferentNames) by {
      if Pairwise(ps, DifferentNames) { KeepPairwise(ps, p, DifferentNames); }
    }
    assert Pairwise(ps, DifferentIds) ==> Pairwise(Keep(ps, p), DifferentIds) by {
      if Pairwise(ps, DifferentIds) { KeepPairwise(ps, p, DifferentIds); }
    }
    Keep(ps, p)
  }

  /** Giving person `i` a name no other person holds keeps the names unique
      and changes no id. */
  lemma RenameKeepsConsistent(ps: seq<Persona>, rs: seq<Registro>, nextId: nat, i: nat, b: string)
    requires Consistent(ps, rs, nextId) && i < |ps|
    requires forall k :: 0 <= k < |ps| && k != i ==> ps[k].nombre != b
    ensures Consistent(ps[i := Persona(ps[i].id, b)], rs, nextId)
  {
    var ps' := ps[i := Persona(ps[i].id, b)];
    forall a, c | 0 <= a < c < |ps'| ensures DifferentNames(ps'[a], ps'[c]) && DifferentIds(ps'[a], ps'[c]) {
      assert DifferentNames(ps[a], ps[c]) && DifferentIds(ps[a], ps[c]);
    }
    forall q | q in ps' ensures q.id < nextId {
      var k :| 0 <= k < |ps'| && ps'[k] == q;
      assert ps[k] in ps;
    }
    forall x | x in rs ensures HasId(ps', x.personaId) {
      var q :| q in ps && q.id == x.personaId;
      var k :| 0 <= k < |ps| && ps[k] == q;
      assert ps'[k] in ps' && ps'[k].id == q.id;
    }
  }

  /** Appending a person with a new name and the next id keeps the tables
      consistent. */
  lemma AddKeepsConsistent(ps: seq<Persona>, rs: seq<Registro>, nextId: nat, n: string)
    requires Consistent(ps, rs, nextId) && !HasName(ps, n)
    ensures Consistent(ps + [Persona(nextId, n)], rs, nextId + 1)
  {
    var added := Persona(nextId, n);
    var ps' := ps + [added];
    forall k | 0 <= k < |ps| ensures DifferentNames(ps[k], added) && DifferentIds(ps[k], added) {
      assert ps[k] in ps;
    }
    assert Pairwise(ps', DifferentNames) && Pairwise(ps', DifferentIds) by {
      forall i, j | 0 <= i < j < |ps'| ensures DifferentNames(ps'[i], ps'[j]) && DifferentIds(ps'[i], ps'[j]) {
        if j < |ps| {
          assert DifferentNames(ps[i], ps[j]) && DifferentIds(ps[i], ps[j]);
        }
      }
    }
    forall x | x in rs ensures HasId(ps', x.personaId) {
      var q :| q in ps && q.id == x.personaId;
      assert q in ps';
    }
  }

  /** The database file: both tables, and the AUTOINCREMENT counter of
      `personas`. */
  class Database {
    var personas: seq<Persona>
    var asistencias: seq<Registro>
    var nextId: nat

    predicate Valid()
      reads this
    {
      Consistent(personas, asistencias, nextId)
    }

    /** `crear_base_datos` on a new file: both tables are empty, and the
        first id handed out is 1. */
    constructor ()
      ensures Valid()
      ensures personas == [] && asistencias == [] && nextId == 1
    {
      personas, asistencias, nextId := [], [], 1;
    }

    /** `POST /agregar`. The stripped name is inserted with a fresh id unless
        a person already has it, which the UNIQUE constraint refuses. An
        empty `nombre` never reaches the body. */
    method Agregar(nombre: string) returns (o: Outcome)
      requires Valid()
      modifies this`personas, this`nextId
      ensures Valid()
      ensures nombre == [] ==>
        o == Fail(MissingField) && personas == old(personas) && nextId == old(nextId)
      ensures var n := Strip(PyBlanks, nombre);
        nombre != [] ==>
        if HasName(old(personas), n) then
          && o == Fail(Failure(400, "La persona ya existe"))
          && personas == old(personas) && nextId == old(nextId)
        else
          && o == Ok("Persona agregada correctamente")
          && personas == old(personas) + [Persona(old(nextId), n)]
          && nextId == old(nextId) + 1
    {
      if nombre == [] {
        return Fail(MissingField);
      }
      var n := Strip(PyBlanks, nombre);
      if FindPersona(personas, n).Some? {
        return Fail(Failure(400, "La persona ya existe"));
      }
      AddKeepsConsistent(personas, asistencias, nextId, n);
      personas := personas + [Persona(nextId, n)];
      nextId := nextId + 1;
      return Ok("Persona agregada correctamente");
    }

    /** `POST /marcar`. The date is settled first, so an unreadable one is
        refused before the tables are read; then the stripped name must be a
        person's (404 otherwise); then that person's row for the date gets
        the new `estado`, or is created. `estado` itself is stored as sent.
        `parse` is `strptime` and `today` the clock's date. An empty `nombre`
        or `estado` is refused with 422 before any of this. */
    method Marcar(nombre: string, estado: string, fecha: Option<string>,
                  parse: string -> Option<Date>, today: Date) returns (o: Outcome)
      requires Valid() && Parser(parse) && CalendarDate(today)
      modifies this`asistencias
      ensures Valid()
      ensures nombre == [] || estado == [] ==>
        o == Fail(MissingField) && asistencias == old(asistencias)
      ensures nombre != [] && estado != [] && FechaStr(fecha, parse, today).None? ==>
        o == Fail(Failure(400, "Fecha inválida")) && asistencias == old(asistencias)
      ensures nombre != [] && estado != [] && FechaStr(fecha, parse, today).Some? &&
              FindPersona(personas, Strip(PyBlanks, nombre)).None? ==>
        o == Fail(Failure(404, "La persona no está registrada")) && asistencias == old(asistencias)
      ensures var fs, pi := FechaStr(fecha, parse, today), FindPersona(personas, Strip(PyBlanks, nombre));
        nombre != [] && estado != [] && fs.Some? && pi.Some? ==>
          && o == Ok("Asistencia registrada para " + fs.value)
          && asistencias == Upsert(old(asistencias), personas[pi.value].id, fs.value, estado)
    {
      if nombre == [] || estado == [] {
        return Fail(MissingField);
      }
      var fs := SettleDate(fecha, parse, today);
      if fs.None? {
        return Fail(Failure(400, "Fecha inválida"));
      }
      o := MarkOn(nombre, estado, fs.value);
    }

    /** The rest of `marcar_asistencia` once the date text `fs` is settled. */
    method MarkOn(nombre: string, estado: string, fs: string) returns (o: Outcome)
      requires Valid()
      modifies this`asistencias
      ensures Valid()
      ensures FindPersona(personas, Strip(PyBlanks, nombre)).None? ==>
        o == Fail(Failure(404, "La persona no está registrada")) && asistencias == old(asistencias)
      ensures var pi := FindPersona(personas, Strip(PyBlanks, nombre));
        pi.Some? ==>
          && o == Ok("Asistencia registrada para " + fs)
          && asistencias == Upsert(old(asistencias), personas[pi.value].id, fs, estado)
    {
      var pi := FindPersona(personas, Strip(PyBlanks, nombre));
      if pi.None? {
        return Fail(Failure(404, "La persona no está registrada"));
      }
      var pid := personas[pi.value].id;
      assert HasId(personas, pid) by {
        assert personas[pi.value] in personas;
      }
      Record(pid, fs, estado);
      return Ok("Asistencia registrada para " + fs);
    }

    /** The first step of `marcar_asistencia`, before any table access. */
    static method SettleDate(fecha: Option<string>, parse: string -> Option<Date>, today: Date) returns (fs: Option<string>)
      requires Parser(parse) && CalendarDate(today)
      ensures fs == FechaStr(fecha, parse, today)
    {
      fs := FechaStr(fecha, parse, today);
    }

    /** The upsert: the person's row for the date gets `estado`, or a row is
        inserted for them. */
    method Record(pid: nat, fs: string, estado: string)
      requires Valid() && HasId(personas, pid)
      modifies this`asistencias
      ensures Valid()
      ensures asistencias == Upsert(old(asistencias), pid, fs, estado)
    {
      UpsertKeepsConsistent(personas, asistencias, nextId, pid, fs, estado);
      var ri := FindRecord(asistencias, pid, fs);
      if ri.Some? {
        var i := ri.value;
        asistencias := asistencias[i := asistencias[i].(estado := estado)];
      } else {
        asistencias := asistencias + [Registro(pid, fs, estado)];
      }
    }

    /** `PUT /editar`. Both names are stripped. An unknown current name is a
        404; a new name held by another person makes the UPDATE violate the
        UNIQUE constraint, a 400. Otherwise only that person's name changes:
        the id stays, so their attendance rows stay theirs. Renaming a
        person to their own name succeeds and changes nothing. An empty
        `nombre_actual` or `nuevo_nombre` is refused with 422 first. */
    method Editar(nombreActual: string, nuevoNombre: string) returns (o: Outcome)
      requires Valid()
      modifies this`personas
      ensures Valid()
      ensures nombreActual == [] || nuevoNombre == [] ==>
        o == Fail(MissingField) && personas == old(personas)
      ensures var a, b := Strip(PyBlanks, nombreActual), Strip(PyBlanks, nuevoNombre);
              var pi := FindPersona(old(personas), a);
        nombreActual != [] && nuevoNombre != [] ==>
        if pi.None? then
          o == Fail(Failure(404, "Persona no encontrada")) && personas == old(personas)
        else if exists k :: 0 <= k < |old(personas)| && k != pi.value && old(personas)[k].nombre == b then
          o == Fail(Failure(400, "El nuevo nombre ya existe")) && personas == old(personas)
        else
          && o == Ok("Nombre actualizado")
          && personas == old(personas)[pi.value := Persona(old(personas)[pi.value].id, b)]
    {
      if nombreActual == [] || nuevoNombre == [] {
        return Fail(MissingField);
      }
      var a, b := Strip(PyBlanks, nombreActual), Strip(PyBlanks, nuevoNombre);
      var pi := FindPersona(personas, a);
      if pi.None? {
        return Fail(Failure(404, "Persona no encontrada"));
      }
      var i := pi.value;
      var holder := FindPersona(personas, b);
      if holder.Some? && holder.value != i {
        return Fail(Failure(400, "El nuevo nombre ya existe"));
      }
      forall k | 0 <= k < |personas| && k != i ensures personas[k].nombre != b {
        assert personas[k] in personas;
        if holder.Some? {
          if k < i { assert DifferentNames(personas[k], personas[i]); }
          else { assert DifferentNames(personas[i], personas[k]); }
        }
      }
      RenameKeepsConsistent(personas, asistencias, nextId, i, b);
      personas := personas[i := Persona(personas[i].id, b)];
      return Ok("Nombre actualizado");
    }

    /** `DELETE /borrar`. An unknown stripped name is a 404. Otherwise the
        person's attendance rows are deleted first, then the person. An
        empty `nombre` is refused with 422 first. */
    method Borrar(nombre: string) returns (o: Outcome)
      requires Valid()
      modifies this`personas, this`asistencias
      ensures Valid()
      ensures nombre == [] ==>
        o == Fail(MissingField) && personas == old(personas) && asistencias == old(asistencias)
      ensures var pi := FindPersona(old(personas), Strip(PyBlanks, nombre));
        nombre != [] ==>
        if pi.None? then
          && o == Fail(Failure(404, "Persona no encontrada"))
          && personas == old(personas) && asistencias == old(asistencias)
        else
          var pid := old(personas)[pi.value].id;
          && o == Ok("Persona eliminada")
          && asistencias == DropRecords(old(asistencias), pid)
          && personas == DropPersona(old(personas), pid)
    {
      if nombre == [] {
        return Fail(MissingField);
      }
      var pi := FindPersona(personas, Strip(PyBlanks, nombre));
      if pi.None? {
        return Fail(Failure(404, "Persona no encontrada"));
      }
      var pid := personas[pi.value].id;
      var rs := DropRecords(asistencias, pid);
      var ps := DropPersona(personas, pid);
      forall x | x in rs ensures HasId(ps, x.personaId) {
        var q :| q in personas && q.id == x.personaId;
        assert q in ps;
      }
      asistencias := rs;
      personas := ps;
      return Ok("Persona eliminada");
    }
  }
}
