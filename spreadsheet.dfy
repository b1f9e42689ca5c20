/** The sheet `descargar_excel` fills: its cell values, its fills and its
    column widths, as plain values (the workbook object, fonts, borders and
    the byte stream are not modelled). Row 0 of a grid is sheet row 1. */
module Spreadsheet {
  import opened Wrappers
  import opened Text
  import opened Ordering
  import opened Sequences
  import opened Store
  import opened Summaries

  /** A cell value: text, or one of the two integer totals. */
  datatype Cell = Str(s: string) | Num(n: nat)

  /** The fill a cell receives. */
  datatype Fill = HeaderFill | PresentFill | AbsentFill | EmptyFill | StripeFill | NoFill

  /** The header: "Nombre", the dates, then the two total columns. */
  function Header(fechas: seq<string>): (r: seq<Cell>)
    ensures |r| == |fechas| + 3
    ensures r[0] == Str("Nombre")
    ensures forall k :: 0 <= k < |fechas| ==> r[k + 1] == Str(fechas[k])
    ensures r[|fechas| + 1] == Str("Total Asistencias") && r[|fechas| + 2] == Str("Total Faltas")
  {
    [Str("Nombre")] + seq(|fechas|, k requires 0 <= k < |fechas| => Str(fechas[k]))
      + [Str("Total Asistencias"), Str("Total Faltas")]
  }

  /** The row belongs to a person called `nombre` (the JOIN on `personas`). */
  predicate OwnedBy(ps: seq<Persona>, x: Registro, nombre: string)
  {
    exists q :: q in ps && q.id == x.personaId && q.nombre == nombre
  }

  /** A row the per-cell query selects: that date, and owned by a person
      with that name. */
  predicate CellMatch(ps: seq<Persona>, nombre: string, fecha: string, x: Registro)
  {
    x.fecha == fecha && OwnedBy(ps, x, nombre)
  }

  /** The per-cell query: the `estado` of the first row of that person and
      date, in table order, or "" when there is none. */
  function EstadoAt(ps: seq<Persona>, rs: seq<Registro>, nombre: string, fecha: string): (r: string)
    ensures match FirstWhere(rs, (x: Registro) => CellMatch(ps, nombre, fecha, x))
      case None => r == ""
      case Some(k) => r == rs[k].estado
  {
    if rs == [] then ""
    else if CellMatch(ps, nombre, fecha, rs[0]) then rs[0].estado
    else
      var r := EstadoAt(ps, rs[1..], nombre, fecha);
      assert forall k :: 0 <= k < |rs| - 1 ==> rs[1..][k] == rs[k + 1];
      r
  }

  /** The person's value under each date. */
  function Estados(ps: seq<Persona>, rs: seq<Registro>, nombre: string, fechas: seq<string>): (r: seq<string>)
    ensures |r| == |fechas|
    ensures forall k :: 0 <= k < |fechas| ==> r[k] == EstadoAt(ps, rs, nombre, fechas[k])
  {
    if fechas == [] then [] else [EstadoAt(ps, rs, nombre, fechas[0])] + Estados(ps, rs, nombre, fechas[1..])
  }

  /** One text cell per value. */
  function Cells(es: seq<string>): (r: seq<Cell>)
    ensures |r| == |es| && forall k :: 0 <= k < |es| ==> r[k] == Str(es[k])
  {
    if es == [] then [] else Cells(es[..|es| - 1]) + [Str(es[|es| - 1])]
  }

  /** How many of the values are `v`, counted from the back, as the running
      counters do. */
  function Occurrences(es: seq<string>, v: string): nat
  {
    if es == [] then 0 else Occurrences(es[..|es| - 1], v) + (if es[|es| - 1] == v then 1 else 0)
  }

  /** The row a person gets: the name, one value per date, and how many of
      those values are 'Asistencia' and 'Falta'. */
  function Row(ps: seq<Persona>, rs: seq<Registro>, nombre: string, fechas: seq<string>): (r: seq<Cell>)
    ensures |r| == |fechas| + 3
  {
    var es := Estados(ps, rs, nombre, fechas);
    [Str(nombre)] + Cells(es) + [Num(Occurrences(es, "Asistencia")), Num(Occurrences(es, "Falta"))]
  }

  /** Building one person's row: the inner `for fecha in fechas` loop with
      its two running counters, then the totals appended. */
  method PersonRow(ps: seq<Persona>, rs: seq<Registro>, persona: string, fechas: seq<string>) returns (fila: seq<Cell>)
    ensures fila == Row(ps, rs, persona, fechas)
  {
    ghost var es := Estados(ps, rs, persona, fechas);
    fila := [Str(persona)];
    var asistencias, faltas := 0, 0;
    var k := 0;
    while k < |fechas|
      invariant 0 <= k <= |fechas|
      invariant fila == [Str(persona)] + Cells(es[..k])
      invariant asistencias == Occurrences(es[..k], "Asistencia")
      invariant faltas == Occurrences(es[..k], "Falta")
    {
      var estado := EstadoAt(ps, rs, persona, fechas[k]);
      assert estado == es[k];
      PrefixStep(es, k);
      fila := fila + [Str(estado)];
      if estado == "Asistencia" {
        asistencias := asistencias + 1;
      } else if estado == "Falta" {
        faltas := faltas + 1;
      }
      k := k + 1;
    }
    assert es[..k] == es;
    fila := fila + [Num(asistencias), Num(faltas)];
  }

  /** One more value extends the cells by one and each count by at most one. */
  lemma PrefixStep(es: seq<string>, k: nat)
    requires k < |es|
    ensures Cells(es[..k + 1]) == Cells(es[..k]) + [Str(es[k])]
    ensures Occurrences(es[..k + 1], "Asistencia") ==
            Occurrences(es[..k], "Asistencia") + if es[k] == "Asistencia" then 1 else 0
    ensures Occurrences(es[..k + 1], "Falta") ==
            Occurrences(es[..k], "Falta") + if es[k] == "Falta" then 1 else 0
  {
    assert es[..k + 1][..k] == es[..k];
  }

  /** The names of a list of people, in its order. */
  function Names(s: seq<Persona>): (r: seq<string>)
    ensures |r| == |s| && forall i :: 0 <= i < |s| ==> r[i] == s[i].nombre
  {
    seq(|s|, i requires 0 <= i < |s| => s[i].nombre)
  }

  /** `SELECT nombre FROM personas ORDER BY nombre`. */
  function SortedNames(ps: seq<Persona>): (r: seq<string>)
    ensures |r| == |ps|
    ensures forall i, j :: 0 <= i < j < |r| ==> !Less(r[j], r[i])
    ensures forall q :: q in ps ==> q.nombre in r
    ensures forall n :: n in r ==> HasName(ps, n)
  {
    var s := SortByName(ps);
    NamesOfPermutation(ps, s);
    Names(s)
  }

  lemma NamesOfPermutation(ps: seq<Persona>, s: seq<Persona>)
    requires multiset(s) == multiset(ps)
    ensures |Names(s)| == |ps|
    ensures forall q :: q in ps ==> q.nombre in Names(s)
    ensures forall n :: n in Names(s) ==> HasName(ps, n)
  {
    var r := Names(s);
    assert |s| == |multiset(s)| == |ps|;
    forall q | q in ps ensures q.nombre in r {
      assert q in multiset(s);
      var k :| 0 <= k < |s| && s[k] == q;
      assert r[k] == q.nombre;
    }
    forall n | n in r ensures HasName(ps, n) {
      var k :| 0 <= k < |r| && r[k] == n;
      assert s[k] in multiset(ps);
    }
  }

  /** `SELECT DISTINCT fecha FROM asistencias ORDER BY fecha`. */
  function SheetDates(rs: seq<Registro>): (r: seq<string>)
    ensures StrictlySorted(r)
    ensures forall f :: f in r <==> f in Fechas(rs)
  {
    SortDistinct(Fechas(rs))
  }

  /** The values of the whole sheet: the header, then one row per person in
      name order. */
  method Sheet(ps: seq<Persona>, rs: seq<Registro>) returns (grid: seq<seq<Cell>>)
    ensures |grid| == |ps| + 1
    ensures grid[0] == Header(SheetDates(rs))
    ensures forall i :: 0 <= i < |ps| ==> grid[i + 1] == Row(ps, rs, SortedNames(ps)[i], SheetDates(rs))
  {
    var fechas := SheetDates(rs);
    var filas := PersonRows(ps, rs, SortedNames(ps), fechas);
    grid := [Header(fechas)] + filas;
  }

  /** The outer `for idx, persona in enumerate(personas, start=2)` loop. */
  method PersonRows(ps: seq<Persona>, rs: seq<Registro>, personas: seq<string>, fechas: seq<string>)
    returns (filas: seq<seq<Cell>>)
    ensures |filas| == |personas|
    ensures forall m :: 0 <= m < |personas| ==> filas[m] == Row(ps, rs, personas[m], fechas)
  {
    filas := [];
    var i := 0;
    while i < |personas|
      invariant 0 <= i <= |personas| && |filas| == i
      invariant forall m :: 0 <= m < i ==> filas[m] == Row(ps, rs, personas[m], fechas)
    {
      var fila := PersonRow(ps, rs, personas[i], fechas);
      RowsExtend(ps, rs, personas, fechas, filas, fila);
      filas, i := filas + [fila], i + 1;
    }
  }

  /** Appending the next person's row keeps the rows built so far. */
  lemma RowsExtend(ps: seq<Persona>, rs: seq<Registro>, personas: seq<string>, fechas: seq<string>,
                   filas: seq<seq<Cell>>, fila: seq<Cell>)
    requires |filas| < |personas|
    requires forall m :: 0 <= m < |filas| ==> filas[m] == Row(ps, rs, personas[m], fechas)
    requires fila == Row(ps, rs, personas[|filas|], fechas)
    ensures forall m :: 0 <= m <= |filas| ==> (filas + [fila])[m] == Row(ps, rs, personas[m], fechas)
  {
  }

  /** The fill of the cell in column `j` (counting from 1) of sheet row
      `idx` of a person, when there are `dates` date columns. */
  function FillOf(c: Cell, j: nat, idx: nat, dates: nat): (f: Fill)
    ensures 1 < j <= dates + 1 ==> f in {PresentFill, AbsentFill, EmptyFill}
    ensures 1 < j <= dates + 1 ==> (f == PresentFill <==> c == Str("Asistencia"))
    ensures 1 < j <= dates + 1 ==> (f == AbsentFill <==> c == Str("Falta"))
    ensures !(1 < j <= dates + 1) ==> (f == StripeFill <==> idx % 2 == 0)
    ensures !(1 < j <= dates + 1) ==> f in {StripeFill, NoFill}
  {
    if 1 < j <= dates + 1 then
      if c == Str("Asistencia") then PresentFill
      else if c == Str("Falta") then AbsentFill
      else EmptyFill
    else if idx % 2 == 0 then StripeFill
    else NoFill
  }

  /** The style loop over the cells of person row `idx`. */
  method RowFills(row: seq<Cell>, idx: nat, dates: nat) returns (fills: seq<Fill>)
    ensures |fills| == |row|
    ensures forall j :: 0 <= j < |row| ==> fills[j] == FillOf(row[j], j + 1, idx, dates)
  {
    fills := [];
    var j := 1;
    while j <= |row|
      invariant 1 <= j <= |row| + 1
      invariant |fills| == j - 1
      invariant forall m :: 0 <= m < j - 1 ==> fills[m] == FillOf(row[m], m + 1, idx, dates)
    {
      var f: Fill;
      if 1 < j <= dates + 1 {
        if row[j - 1] == Str("Asistencia") {
          f := PresentFill;
        } else if row[j - 1] == Str("Falta") {
          f := AbsentFill;
        } else {
          f := EmptyFill;
        }
      } else if idx % 2 == 0 {
        f := StripeFill;
      } else {
        f := NoFill;
      }
      fills := fills + [f];
      j := j + 1;
    }
  }

  /** The fills of a whole grid: every header cell gets the header fill,
      and grid row `g` is sheet row `g + 1`. */
  method Fills(grid: seq<seq<Cell>>, dates: nat) returns (fills: seq<seq<Fill>>)
    ensures |fills| == |grid|
    ensures |grid| > 0 ==> fills[0] == seq(|grid[0]|, _ => HeaderFill)
    ensures forall g :: 1 <= g < |grid| ==>
      |fills[g]| == |grid[g]| &&
      forall j :: 0 <= j < |grid[g]| ==> fills[g][j] == FillOf(grid[g][j], j + 1, g + 1, dates)
  {
    if grid == [] {
      return [];
    }
    fills := [seq(|grid[0]|, _ => HeaderFill)];
    var g := 1;
    while g < |grid|
      invariant 1 <= g <= |grid| && |fills| == g
      invariant fills[0] == seq(|grid[0]|, _ => HeaderFill)
      invariant forall h :: 1 <= h < g ==>
        |fills[h]| == |grid[h]| &&
        forall j :: 0 <= j < |grid[h]| ==> fills[h][j] == FillOf(grid[h][j], j + 1, h + 1, dates)
    {
      var f := RowFills(grid[g], g + 1, dates);
      fills := fills + [f];
      g := g + 1;
    }
  }

  /** `len(str(cell.value)) if cell.value else 0`: empty text and the number
      0 are false and count as 0. */
  function CellLength(c: Cell): nat
  {
    match c
    case Str(s) => |s|
    case Num(n) => if n == 0 then 0 else |Decimal(n)|
  }

  /** The number of columns of the sheet: its longest row. */
  function ColumnCount(grid: seq<seq<Cell>>): (n: nat)
    ensures forall r :: 0 <= r < |grid| ==> |grid[r]| <= n
    ensures n == 0 || exists r :: 0 <= r < |grid| && |grid[r]| == n
  {
    if grid == [] then 0
    else
      var m := ColumnCount(grid[1..]);
      assert forall r :: 1 <= r < |grid| ==> grid[r] == grid[1..][r - 1];
      if |grid[0]| >= m then |grid[0]| else m
  }

  /** The longest value in column `c`; a row too short for it holds an
      empty cell. */
  method ColumnMax(grid: seq<seq<Cell>>, c: nat) returns (m: nat)
    ensures forall r :: 0 <= r < |grid| && c < |grid[r]| ==> CellLength(grid[r][c]) <= m
    ensures m == 0 || exists r :: 0 <= r < |grid| && c < |grid[r]| && CellLength(grid[r][c]) == m
  {
    m := 0;
    var r := 0;
    while r < |grid|
      invariant 0 <= r <= |grid|
      invariant forall t :: 0 <= t < r && c < |grid[t]| ==> CellLength(grid[t][c]) <= m
      invariant m == 0 || exists t :: 0 <= t < r && c < |grid[t]| && CellLength(grid[t][c]) == m
    {
      if c < |grid[r]| && CellLength(grid[r][c]) > m {
        m := CellLength(grid[r][c]);
      }
      r := r + 1;
    }
  }

  /** The width loop: each column is two characters wider than its longest
      value, and never narrower than 12. */
  method ColumnWidths(grid: seq<seq<Cell>>) returns (widths: seq<nat>)
    ensures |widths| == ColumnCount(grid)
    ensures forall c :: 0 <= c < |widths| ==> widths[c] >= 12
    ensures forall c, r :: 0 <= c < |widths| && 0 <= r < |grid| && c < |grid[r]| ==>
      CellLength(grid[r][c]) + 2 <= widths[c]
    ensures forall c :: 0 <= c < |widths| ==>
      widths[c] == 12 || exists r :: 0 <= r < |grid| && c < |grid[r]| && widths[c] == CellLength(grid[r][c]) + 2
  {
    var n := ColumnCount(grid);
    widths := [];
    var c := 0;
    while c < n
      invariant 0 <= c <= n && |widths| == c
      invariant forall d :: 0 <= d < c ==> widths[d] >= 12
      invariant forall d, r :: 0 <= d < c && 0 <= r < |grid| && d < |grid[r]| ==>
        CellLength(grid[r][d]) + 2 <= widths[d]
      invariant forall d :: 0 <= d < c ==>
        widths[d] == 12 || exists r :: 0 <= r < |grid| && d < |grid[r]| && widths[d] == CellLength(grid[r][d]) + 2
    {
      var m := ColumnMax(grid, c);
      widths := widths + [if m + 2 > 12 then m + 2 else 12];
      c := c + 1;
    }
  }

  /** The `estado` of the first row of person `pid` on date `f`, or "". */
  function SlotEstado(rs: seq<Registro>, pid: nat, f: string): string
  {
    if rs == [] then ""
    else if InSlot(rs[0], pid, f) then rs[0].estado
    else SlotEstado(rs[1..], pid, f)
  }

  /** With UNIQUE names, a row belongs to the person called `q.nombre`
      exactly when it carries `q`'s id. */
  lemma OwnerById(ps: seq<Persona>, q: Persona, x: Registro)
    requires Pairwise(ps, DifferentNames) && q in ps
    ensures OwnedBy(ps, x, q.nombre) <==> x.personaId == q.id
  {
    if OwnedBy(ps, x, q.nombre) {
      var q' :| q' in ps && q'.id == x.personaId && q'.nombre == q.nombre;
      var a :| 0 <= a < |ps| && ps[a] == q;
      var b :| 0 <= b < |ps| && ps[b] == q';
      assert a == b;
    }
  }

  /** The per-cell query, which joins by name, finds the row that carries
      the person's id. */
  lemma {:induction false} EstadoAtById(ps: seq<Persona>, rs: seq<Registro>, q: Persona, f: string)
    requires Pairwise(ps, DifferentNames) && q in ps
    ensures EstadoAt(ps, rs, q.nombre, f) == SlotEstado(rs, q.id, f)
  {
    if rs != [] {
      EstadoAtById(ps, rs[1..], q, f);
      OwnerById(ps, q, rs[0]);
    }
  }

  /** The rows of person `pid` on date `f` whose `estado` is `e`. */
  function SlotCount(rs: seq<Registro>, pid: nat, f: string, e: string): nat
  {
    if rs == [] then 0
    else (if InSlot(rs[0], pid, f) && rs[0].estado == e then 1 else 0) + SlotCount(rs[1..], pid, f, e)
  }

  lemma {:induction false} SlotCountNone(rs: seq<Registro>, pid: nat, f: string, e: string)
    requires forall k :: 0 <= k < |rs| ==> !InSlot(rs[k], pid, f)
    ensures SlotCount(rs, pid, f, e) == 0 && SlotEstado(rs, pid, f) == ""
  {
    if rs != [] {
      SlotCountNone(rs[1..], pid, f, e);
    }
  }

  /** With at most one row per person and date, that row decides the
      count. */
  lemma {:induction false} SlotCountOne(rs: seq<Registro>, pid: nat, f: string, e: string)
    requires Pairwise(rs, DifferentSlots) && e != ""
    ensures SlotCount(rs, pid, f, e) == if SlotEstado(rs, pid, f) == e then 1 else 0
  {
    if rs != [] {
      if InSlot(rs[0], pid, f) {
        forall k | 0 <= k < |rs[1..]| ensures !InSlot(rs[1..][k], pid, f) {
          assert DifferentSlots(rs[0], rs[k + 1]);
        }
        SlotCountNone(rs[1..], pid, f, e);
      } else {
        assert Pairwise(rs[1..], DifferentSlots) by {
          forall i, j | 0 <= i < j < |rs[1..]| ensures DifferentSlots(rs[1..][i], rs[1..][j]) {
            assert DifferentSlots(rs[i + 1], rs[j + 1]);
          }
        }
        SlotCountOne(rs[1..], pid, f, e);
      }
    } else {
      SlotCountNone(rs, pid, f, e);
    }
  }

  /** The rows of person `pid` with `estado` `e` on one of the dates `fs`. */
  function TallyIn(rs: seq<Registro>, pid: nat, e: string, fs: seq<string>): nat
  {
    if rs == [] then 0
    else (if rs[0].personaId == pid && rs[0].estado == e && rs[0].fecha in fs then 1 else 0)
         + TallyIn(rs[1..], pid, e, fs)
  }

  lemma {:induction false} TallyInSplit(rs: seq<Registro>, pid: nat, e: string, fs: seq<string>)
    requires fs != [] && fs[0] !in fs[1..]
    ensures TallyIn(rs, pid, e, fs) == SlotCount(rs, pid, fs[0], e) + TallyIn(rs, pid, e, fs[1..])
  {
    if rs != [] {
      TallyInSplit(rs[1..], pid, e, fs);
      assert rs[0].fecha in fs <==> rs[0].fecha == fs[0] || rs[0].fecha in fs[1..] by {
        assert fs == [fs[0]] + fs[1..];
      }
    }
  }

  lemma {:induction false} TallyInNone(rs: seq<Registro>, pid: nat, e: string, fs: seq<string>)
    requires fs == []
    ensures TallyIn(rs, pid, e, fs) == 0
  {
    if rs != [] { TallyInNone(rs[1..], pid, e, fs); }
  }

  lemma {:induction false} TallyInAll(rs: seq<Registro>, pid: nat, e: string, fs: seq<string>)
    requires forall k :: 0 <= k < |rs| ==> rs[k].fecha in fs
    ensures TallyIn(rs, pid, e, fs) == Tally(rs, pid, e, None)
  {
    if rs != [] { TallyInAll(rs[1..], pid, e, fs); }
  }

  lemma {:induction false} OccurrencesCons(h: string, t: seq<string>, v: string)
    ensures Occurrences([h] + t, v) == (if h == v then 1 else 0) + Occurrences(t, v)
    decreases |t|
  {
    if t != [] {
      var s := [h] + t;
      assert s[..|s| - 1] == [h] + t[..|t| - 1];
      OccurrencesCons(h, t[..|t| - 1], v);
    }
  }

  /** Counting a person's values under distinct dates counts their rows on
      those dates. */
  lemma {:induction false} RowCounts(ps: seq<Persona>, rs: seq<Registro>, q: Persona, fs: seq<string>, e: string)
    requires Pairwise(ps, DifferentNames) && Pairwise(rs, DifferentSlots) && q in ps
    requires StrictlySorted(fs) && e != ""
    ensures Occurrences(Estados(ps, rs, q.nombre, fs), e) == TallyIn(rs, q.id, e, fs)
  {
    if fs == [] {
      TallyInNone(rs, q.id, e, fs);
    } else {
      assert fs[0] !in fs[1..] by {
        forall k | 0 <= k < |fs[1..]| ensures fs[1..][k] != fs[0] {
          assert Less(fs[0], fs[k + 1]);
          LessIrreflexive(fs[0]);
        }
      }
      RowCounts(ps, rs, q, fs[1..], e);
      OccurrencesCons(EstadoAt(ps, rs, q.nombre, fs[0]), Estados(ps, rs, q.nombre, fs[1..]), e);
      EstadoAtById(ps, rs, q, fs[0]);
      SlotCountOne(rs, q.id, fs[0], e);
      TallyInSplit(rs, q.id, e, fs);
    }
  }

  /** The totals of a person's sheet row are the counts `/resumen/personas`
      reports for them: each attendance row of theirs sits under exactly one
      date column. */
  lemma SheetTotalsMatchSummary(ps: seq<Persona>, rs: seq<Registro>, nextId: nat, q: Persona)
    requires Consistent(ps, rs, nextId) && q in ps
    ensures var fs := SheetDates(rs);
      var row := Row(ps, rs, q.nombre, fs);
      && row[|fs| + 1] == Num(Entry(q, rs, None).asistencias)
      && row[|fs| + 2] == Num(Entry(q, rs, None).faltas)
  {
    var fs := SheetDates(rs);
    forall k | 0 <= k < |rs| ensures rs[k].fecha in fs {
      assert Fechas(rs)[k] == rs[k].fecha;
    }
    RowCounts(ps, rs, q, fs, "Asistencia");
    RowCounts(ps, rs, q, fs, "Falta");
    TallyInAll(rs, q.id, "Asistencia", fs);
    TallyInAll(rs, q.id, "Falta", fs);
  }
}
