/** The three summary endpoints of main.py: per person (all time and for one
    month) and per day. Each SQL `SUM(CASE WHEN ... THEN 1 ELSE 0 END)` is a
    count over the attendance rows; `ORDER BY` uses the text order of
    `Ordering`. */
module Summaries {
  import opened Wrappers
  import opened Dates
  import opened Ordering
  import opened Sequences
  import opened Store

  /** Whether a row adds 1 to a person's `estado` sum; with a month, only
      rows whose `strftime('%Y-%m', fecha)` is that month do. */
  predicate Counted(x: Registro, pid: nat, estado: string, mes: Option<string>)
  {
    x.personaId == pid && x.estado == estado && (mes.None? || InMonth(x.fecha, mes.value))
  }

  /** The sum for one person over the LEFT JOIN. A person without rows still
      gets one joined row, padded with NULLs, for which the `CASE` gives 0, so
      the sum is 0 and the `or 0` fallback is never needed. */
  function Tally(rs: seq<Registro>, pid: nat, estado: string, mes: Option<string>): (r: nat)
    ensures r <= |rs|
  {
    if rs == [] then 0
    else (if Counted(rs[0], pid, estado, mes) then 1 else 0) + Tally(rs[1..], pid, estado, mes)
  }

  /** A tally is 0 exactly when no row is counted, and it never exceeds the
      number of rows. */
  lemma {:induction false} TallyZero(rs: seq<Registro>, pid: nat, estado: string, mes: Option<string>)
    ensures Tally(rs, pid, estado, mes) <= |rs|
    ensures Tally(rs, pid, estado, mes) == 0 <==> forall x :: x in rs ==> !Counted(x, pid, estado, mes)
  {
    if rs != [] {
      TallyZero(rs[1..], pid, estado, mes);
      assert rs == [rs[0]] + rs[1..];
    }
  }

  /** The monthly count of a person never exceeds the all-time count. */
  lemma {:induction false} MonthWithinTotal(rs: seq<Registro>, pid: nat, estado: string, mes: string)
    ensures Tally(rs, pid, estado, Some(mes)) <= Tally(rs, pid, estado, None)
  {
    if rs != [] {
      MonthWithinTotal(rs[1..], pid, estado, mes);
    }
  }

  /** After `borrar_persona` deletes a person's rows, that person counts
      nothing and everybody else's counts are unchanged. */
  lemma {:induction false} DeleteTallies(rs: seq<Registro>, pid: nat, other: nat, estado: string, mes: Option<string>)
    ensures Tally(DropRecords(rs, pid), other, estado, mes) ==
            if other == pid then 0 else Tally(rs, other, estado, mes)
  {
    if rs != [] {
      DeleteTallies(rs[1..], pid, other, estado, mes);
      var t := DropRecords(rs[1..], pid);
      if rs[0].personaId != pid {
        assert DropRecords(rs, pid) == [rs[0]] + t;
        assert ([rs[0]] + t)[1..] == t;
      } else {
        assert DropRecords(rs, pid) == t;
      }
    }
  }

  /** Person rows in `ORDER BY nombre` order: no name sorts before an
      earlier one. */
  predicate NameOrdered(s: seq<Persona>)
  {
    forall i, j :: 0 <= i < j < |s| ==> !Less(s[j].nombre, s[i].nombre)
  }

  /** "Not before" is transitive. */
  lemma NotLessTransitive(a: string, b: string, c: string)
    requires !Less(b, a) && !Less(c, b)
    ensures !Less(c, a)
  {
    LessTotal(a, b);
    LessTotal(b, c);
    if a != b && b != c { LessTransitive(a, b, c); }
    if a == c { LessIrreflexive(a); } else { LessTotal(a, c); if Less(a, c) { LessAsymmetric(a, c); } }
  }

  function InsertByName(q: Persona, s: seq<Persona>): (r: seq<Persona>)
    requires NameOrdered(s)
    ensures NameOrdered(r)
    ensures multiset(r) == multiset(s) + multiset{q}
  {
    if s == [] then [q]
    else if !Less(s[0].nombre, q.nombre) then
      InsertInFront(q, s);
      [q] + s
    else
      var t := InsertByName(q, s[1..]);
      InsertBehind(q, s, t);
      assert s == [s[0]] + s[1..];
      [s[0]] + t
  }

  /** A name not after the head of an ordered list may go in front of it. */
  lemma InsertInFront(q: Persona, s: seq<Persona>)
    requires NameOrdered(s) && s != [] && !Less(s[0].nombre, q.nombre)
    ensures NameOrdered([q] + s)
  {
    forall j | 0 <= j < |s| ensures !Less(s[j].nombre, q.nombre) {
      if j > 0 { NotLessTransitive(q.nombre, s[0].nombre, s[j].nombre); }
    }
  }

  /** A name after the head goes into the tail, which keeps the head first. */
  lemma InsertBehind(q: Persona, s: seq<Persona>, t: seq<Persona>)
    requires NameOrdered(s) && s != [] && Less(s[0].nombre, q.nombre)
    requires NameOrdered(t) && multiset(t) == multiset(s[1..]) + multiset{q}
    ensures NameOrdered([s[0]] + t)
  {
    LessAsymmetric(s[0].nombre, q.nombre);
    forall y | y in t ensures !Less(y.nombre, s[0].nombre) {
      assert y in multiset(t);
      if y != q {
        var j :| 1 <= j < |s| && s[j] == y by {
          assert y in multiset(s[1..]);
          assert y in s[1..];
        }
      }
    }
  }

  /** The persons in name order; the rows are the table's, each once. */
  function SortByName(ps: seq<Persona>): (r: seq<Persona>)
    ensures NameOrdered(r)
    ensures multiset(r) == multiset(ps)
  {
    if ps == [] then []
    else
      assert ps == [ps[0]] + ps[1..];
      InsertByName(ps[0], SortByName(ps[1..]))
  }

  /** With UNIQUE names the order is strictly ascending. */
  lemma SortedNamesAscend(ps: seq<Persona>)
    requires Pairwise(ps, DifferentNames)
    ensures var s := SortByName(ps);
      forall i, j :: 0 <= i < j < |s| ==> Less(s[i].nombre, s[j].nombre)
  {
    var s := SortByName(ps);
    forall i, j | 0 <= i < j < |s| ensures Less(s[i].nombre, s[j].nombre) {
      assert s[i] in multiset(ps) && s[j] in multiset(ps);
      DistinctRowsNames(ps, s, i, j);
      LessTotal(s[i].nombre, s[j].nombre);
    }
  }

  /** Two positions of a permutation of a table with UNIQUE names hold
      different names. */
  lemma DistinctRowsNames(ps: seq<Persona>, s: seq<Persona>, i: nat, j: nat)
    requires Pairwise(ps, DifferentNames) && multiset(s) == multiset(ps)
    requires i < j < |s|
    ensures s[i].nombre != s[j].nombre
  {
    assert s[i] in multiset(s) && s[j] in multiset(s);
    assert s[i] in ps && s[j] in ps;
    var a :| 0 <= a < |ps| && ps[a] == s[i];
    var b :| 0 <= b < |ps| && ps[b] == s[j];
    if a == b {
      // the same row twice in `s`, but only once in the table
      assert multiset(s)[s[i]] >= 2 by {
        assert s == s[..i] + [s[i]] + s[i + 1..j] + [s[j]] + s[j + 1..];
      }
      TableRowOnce(ps, a);
      assert false;
    } else if a < b {
      assert DifferentNames(ps[a], ps[b]);
    } else {
      assert DifferentNames(ps[b], ps[a]);
    }
  }

  /** In a table with UNIQUE names every row occurs once. */
  lemma {:induction false} TableRowOnce(ps: seq<Persona>, a: nat)
    requires Pairwise(ps, DifferentNames) && a < |ps|
    ensures multiset(ps)[ps[a]] == 1
  {
    if a == 0 {
      assert ps == [ps[0]] + ps[1..];
      forall k | 0 <= k < |ps[1..]| ensures ps[1..][k] != ps[0] {
        assert DifferentNames(ps[0], ps[k + 1]);
      }
      assert ps[0] !in ps[1..];
    } else {
      assert ps == [ps[0]] + ps[1..];
      assert DifferentNames(ps[0], ps[a]);
      assert Pairwise(ps[1..], DifferentNames) by {
        forall i, j | 0 <= i < j < |ps[1..]| ensures DifferentNames(ps[1..][i], ps[1..][j]) {
          assert DifferentNames(ps[i + 1], ps[j + 1]);
        }
      }
      TableRowOnce(ps[1..], a - 1);
    }
  }

  /** An entry of `/resumen/personas` and `/resumen/personas/mes`. */
  datatype PersonSummary = PersonSummary(nombre: string, asistencias: nat, faltas: nat)

  /** The entry one person gets. */
  function Entry(q: Persona, rs: seq<Registro>, mes: Option<string>): PersonSummary
  {
    PersonSummary(q.nombre, Tally(rs, q.id, "Asistencia", mes), Tally(rs, q.id, "Falta", mes))
  }

  /** One entry per person of `ps`, in the given order. */
  function Entries(ps: seq<Persona>, rs: seq<Registro>, mes: Option<string>): (r: seq<PersonSummary>)
    ensures |r| == |ps|
    ensures forall i :: 0 <= i < |ps| ==> r[i] == Entry(ps[i], rs, mes)
  {
    seq(|ps|, i requires 0 <= i < |ps| => Entry(ps[i], rs, mes))
  }

  /** The grouped query shared by both per-person endpoints. */
  function PerPerson(ps: seq<Persona>, rs: seq<Registro>, mes: Option<string>): (r: seq<PersonSummary>)
    ensures |r| == |ps|
    ensures forall i, j :: 0 <= i < j < |r| ==> !Less(r[j].nombre, r[i].nombre)
    ensures forall i :: 0 <= i < |r| ==> exists q :: q in ps && r[i] == Entry(q, rs, mes)
    ensures forall q :: q in ps ==> Entry(q, rs, mes) in r
  {
    var s := SortByName(ps);
    EntriesOfPermutation(ps, s, rs, mes);
    Entries(s, rs, mes)
  }

  /** Entries of a reordering of the table are the table's entries, each once. */
  lemma EntriesOfPermutation(ps: seq<Persona>, s: seq<Persona>, rs: seq<Registro>, mes: Option<string>)
    requires multiset(s) == multiset(ps)
    ensures |Entries(s, rs, mes)| == |ps|
    ensures forall i :: 0 <= i < |s| ==> exists q :: q in ps && Entries(s, rs, mes)[i] == Entry(q, rs, mes)
    ensures forall q :: q in ps ==> Entry(q, rs, mes) in Entries(s, rs, mes)
  {
    var r := Entries(s, rs, mes);
    assert |s| == |multiset(s)| == |ps|;
    forall i | 0 <= i < |r| ensures exists q :: q in ps && r[i] == Entry(q, rs, mes) {
      assert s[i] in multiset(ps);
    }
    forall q | q in ps ensures Entry(q, rs, mes) in r {
      assert q in multiset(s);
      var k :| 0 <= k < |s| && s[k] == q;
      assert r[k] == Entry(q, rs, mes);
    }
  }

  /** `GET /resumen/personas`: every person once, in name order, with the
      number of their 'Asistencia' and 'Falta' rows. */
  function PorPersona(ps: seq<Persona>, rs: seq<Registro>): (r: seq<PersonSummary>)
    ensures |r| == |ps|
    ensures forall i, j :: 0 <= i < j < |r| ==> !Less(r[j].nombre, r[i].nombre)
    ensures forall i :: 0 <= i < |r| ==> exists q :: q in ps && r[i] == Entry(q, rs, None)
    ensures forall q :: q in ps ==> Entry(q, rs, None) in r
  {
    var r := PerPerson(ps, rs, None);
    forall i | 0 <= i < |r| ensures exists q :: q in ps && r[i] == Entry(q, rs, None) {
      var q :| q in ps && r[i] == Entry(q, rs, None);
    }
    r
  }

  /** `GET /resumen/personas/mes?mes=...`: the same entries, counting only
      rows of that month. */
  function PorPersonaMes(ps: seq<Persona>, rs: seq<Registro>, mes: string): (r: seq<PersonSummary>)
    ensures |r| == |ps|
    ensures forall i, j :: 0 <= i < j < |r| ==> !Less(r[j].nombre, r[i].nombre)
    ensures forall i :: 0 <= i < |r| ==> exists q :: q in ps && r[i] == Entry(q, rs, Some(mes))
    ensures forall q :: q in ps ==> Entry(q, rs, Some(mes)) in r
  {
    var r := PerPerson(ps, rs, Some(mes));
    forall i | 0 <= i < |r| ensures exists q :: q in ps && r[i] == Entry(q, rs, Some(mes)) {
      var q :| q in ps && r[i] == Entry(q, rs, Some(mes));
    }
    r
  }

  /** A person's counts for one month never exceed their all-time counts. */
  lemma MonthlyEntryBounded(rs: seq<Registro>, mes: string, q: Persona)
    ensures Entry(q, rs, Some(mes)).asistencias <= Entry(q, rs, None).asistencias
    ensures Entry(q, rs, Some(mes)).faltas <= Entry(q, rs, None).faltas
  {
    MonthWithinTotal(rs, q.id, "Asistencia", mes);
    MonthWithinTotal(rs, q.id, "Falta", mes);
  }

  /** An entry of `/resumen/dias`. */
  datatype DaySummary = DaySummary(fecha: string, asistencias: nat)

  /** The 'Asistencia' rows of one date, of anyone. */
  function DayTally(rs: seq<Registro>, f: string): (r: nat)
    ensures r <= |rs|
    ensures r == 0 <==> forall k :: 0 <= k < |rs| ==> rs[k].fecha != f || rs[k].estado != "Asistencia"
  {
    if rs == [] then 0
    else (if rs[0].fecha == f && rs[0].estado == "Asistencia" then 1 else 0) + DayTally(rs[1..], f)
  }

  /** The `fecha` column. */
  function Fechas(rs: seq<Registro>): seq<string>
  {
    seq(|rs|, k requires 0 <= k < |rs| => rs[k].fecha)
  }

  function Days(rs: seq<Registro>, ds: seq<string>): (r: seq<DaySummary>)
    ensures |r| == |ds|
    ensures forall i :: 0 <= i < |ds| ==> r[i] == DaySummary(ds[i], DayTally(rs, ds[i]))
  {
    if ds == [] then [] else [DaySummary(ds[0], DayTally(rs, ds[0]))] + Days(rs, ds[1..])
  }

  /** `GET /resumen/dias`: one entry per distinct stored date, ascending,
      with the number of 'Asistencia' rows of that date. */
  function PorDia(rs: seq<Registro>): (r: seq<DaySummary>)
    ensures forall i, j :: 0 <= i < j < |r| ==> Less(r[i].fecha, r[j].fecha)
    ensures forall f :: (exists i :: 0 <= i < |r| && r[i].fecha == f) <==> f in Fechas(rs)
    ensures forall i :: 0 <= i < |r| ==> r[i].asistencias == DayTally(rs, r[i].fecha)
  {
    var ds := SortDistinct(Fechas(rs));
    var r := Days(rs, ds);
    forall f ensures (exists i :: 0 <= i < |r| && r[i].fecha == f) <==> f in ds {
      if f in ds {
        var i :| 0 <= i < |ds| && ds[i] == f;
        assert r[i].fecha == f;
      }
    }
    r
  }

  /** The sum of the `asistencias` column of a list of entries. */
  function TotalOf(r: seq<DaySummary>): nat
  {
    if r == [] then 0 else r[0].asistencias + TotalOf(r[1..])
  }

  /** All 'Asistencia' rows of the table. */
  function Present(rs: seq<Registro>): nat
  {
    if rs == [] then 0 else (if rs[0].estado == "Asistencia" then 1 else 0) + Present(rs[1..])
  }

  /** The 'Asistencia' rows whose date is one of `ds`. */
  function PresentIn(rs: seq<Registro>, ds: seq<string>): nat
  {
    if rs == [] then 0
    else (if rs[0].estado == "Asistencia" && rs[0].fecha in ds then 1 else 0) + PresentIn(rs[1..], ds)
  }

  /** Splitting off a date that occurs once in `ds`. */
  lemma {:induction false} PresentInSplit(rs: seq<Registro>, ds: seq<string>)
    requires ds != [] && ds[0] !in ds[1..]
    ensures PresentIn(rs, ds) == DayTally(rs, ds[0]) + PresentIn(rs, ds[1..])
  {
    if rs != [] {
      PresentInSplit(rs[1..], ds);
      assert rs[0].fecha in ds <==> rs[0].fecha == ds[0] || rs[0].fecha in ds[1..] by {
        assert ds == [ds[0]] + ds[1..];
      }
    }
  }

  /** Over distinct dates the day counts add up to the rows of those dates. */
  lemma {:induction false} DaysTotal(rs: seq<Registro>, ds: seq<string>)
    requires StrictlySorted(ds)
    ensures TotalOf(Days(rs, ds)) == PresentIn(rs, ds)
  {
    if ds == [] {
      PresentInNone(rs, ds);
    } else {
      assert ds[0] !in ds[1..] by {
        forall k | 0 <= k < |ds[1..]| ensures ds[1..][k] != ds[0] {
          assert Less(ds[0], ds[k + 1]);
          LessIrreflexive(ds[0]);
        }
      }
      assert Days(rs, ds)[1..] == Days(rs, ds[1..]);
      DaysTotal(rs, ds[1..]);
      PresentInSplit(rs, ds);
    }
  }

  lemma {:induction false} PresentInNone(rs: seq<Registro>, ds: seq<string>)
    requires ds == []
    ensures PresentIn(rs, ds) == 0
  {
    if rs != [] { PresentInNone(rs[1..], ds); }
  }

  /** When `ds` holds every stored date, it selects every row. */
  lemma {:induction false} PresentInAll(rs: seq<Registro>, ds: seq<string>)
    requires forall k :: 0 <= k < |rs| ==> rs[k].fecha in ds
    ensures PresentIn(rs, ds) == Present(rs)
  {
    if rs != [] {
      PresentInAll(rs[1..], ds);
    }
  }

  /** The day counts of `/resumen/dias` add up to the number of
      'Asistencia' rows: each row is counted under exactly one date. */
  lemma DailyTotal(rs: seq<Registro>)
    ensures TotalOf(PorDia(rs)) == Present(rs)
  {
    var ds := SortDistinct(Fechas(rs));
    DaysTotal(rs, ds);
    forall k | 0 <= k < |rs| ensures rs[k].fecha in ds {
      assert Fechas(rs)[k] == rs[k].fecha;
    }
    PresentInAll(rs, ds);
  }
}
