/** The state machine behind the search box of the page (frontend/app.js):
    the rendered suggestion rows, the `hidden` flag of their panel, the
    highlight marks and the selection index `indiceSeleccionado`, and how one
    run of the keydown listener, a click on a row and the outside-click rule
    change them. */
module Navigation {

  /** The keys the keydown listener tells apart. */
  datatype Key = ArrowDown | ArrowUp | Enter | OtherKey

  /** The JavaScript number in `indiceSeleccionado`: an integer, or NaN
      (what `x % 0` gives when the panel is visible but holds no rows). */
  datatype Index = At(i: int) | NaN

  /** JavaScript's `%` on integers: the remainder has the sign of the
      dividend. A zero remainder of a negative dividend is -0 there, which
      compares, indexes and tests `>= 0` exactly like 0, so it is 0 here. */
  function JsRem(a: int, n: nat): (r: int)
    requires n > 0
    ensures (a - r) % n == 0
    ensures a >= 0 ==> 0 <= r < n
    ensures a < 0 ==> -(n as int) < r <= 0
  {
    if a >= 0 then
      ModUnique(a - a % n, n, a / n, 0);
      a % n
    else
      var b := -a;
      ModUnique(a + b % n, n, -(b / n), 0);
      -(b % n)
  }

  /** ArrowDown: `(indiceSeleccionado + 1) % items.length`. */
  function Down(s: Index, n: nat): (r: Index)
    ensures n > 0 && s.At? && s.i >= -1 ==> r.At? && 0 <= r.i < n
    ensures n == 0 || s.NaN? ==> r == NaN
  {
    if n == 0 || s.NaN? then NaN else At(JsRem(s.i + 1, n))
  }

  /** ArrowUp: `(indiceSeleccionado - 1 + items.length) % items.length`. */
  function Up(s: Index, n: nat): (r: Index)
    ensures n > 0 && s.At? && s.i >= -1 ==> r.At? && 0 <= r.i < n
    ensures n == 0 || s.NaN? ==> r == NaN
  {
    if n == 0 || s.NaN? then NaN else At(JsRem(s.i - 1 + n, n))
  }

  /** The marks `actualizarSeleccion` leaves on `n` rows: row `k` carries the
      highlight class exactly when `k` is the selection index. */
  function Highlights(s: Index, n: nat): (r: seq<bool>)
    ensures |r| == n
  {
    seq(n, k => s == At(k))
  }

  /** At most one row is ever highlighted, and exactly one when the index
      names a row. */
  lemma HighlightsSingle(s: Index, n: nat)
    ensures forall j, k :: 0 <= j < k < n ==> !(Highlights(s, n)[j] && Highlights(s, n)[k])
    ensures (s.At? && 0 <= s.i < n) ==> Highlights(s, n)[s.i]
    ensures !(s.At? && 0 <= s.i < n) ==> forall k :: 0 <= k < n ==> !Highlights(s, n)[k]
  {
  }

  /** The search box as the listeners see it: the input's value, the texts
      of the `<li>` rows of `#resultados`, their highlight marks, whether the
      panel carries `hidden`, and the selection index. */
  datatype Ui = Ui(query: string, rows: seq<string>, highlighted: seq<bool>, hidden: bool, selected: Index)

  /** What every listener keeps: one mark per row, a hidden panel holds no
      rows, the index is never below -1, and while rows are shown the index
      is -1 or one of them. */
  predicate Valid(u: Ui)
  {
    && |u.highlighted| == |u.rows|
    && (u.hidden ==> u.rows == [])
    && (u.selected.At? ==> u.selected.i >= -1)
    && (u.rows != [] ==> u.selected.At? && u.selected.i < |u.rows|)
  }

  /** The state `mostrarCoincidencias` leaves for a query whose matches are
      `rows`: fresh unmarked rows, the panel hidden exactly when there are
      none, and no selection. */
  function Shown(query: string, rows: seq<string>): (u: Ui)
    ensures Valid(u)
  {
    Ui(query, rows, seq(|rows|, _ => false), rows == [], At(-1))
  }

  /** One run of the keydown listener of frontend/app.js:71-97 (the listener
      at :320-346 is the same code). */
  function Step(u: Ui, key: Key): (r: Ui)
    ensures u.hidden || key == OtherKey ==> r == u
    ensures key != Enter ==> r.query == u.query && r.rows == u.rows && r.hidden == u.hidden
  {
    if u.hidden then u
    else
      var n := |u.rows|;
      match key
      case ArrowDown =>
        var s := Down(u.selected, n);
        u.(selected := s, highlighted := Highlights(s, n))
      case ArrowUp =>
        var s := Up(u.selected, n);
        u.(selected := s, highlighted := Highlights(s, n))
      case Enter =>
        if u.selected.At? && u.selected.i >= 0 then
          if u.selected.i < n then Ui(u.rows[u.selected.i], [], [], true, At(-1))
          // `items[i]` is undefined: reading its text throws and the run stops
          else u
        else u
      case OtherKey => u
  }

  /** One physical key press: the listener is registered twice, so it runs
      twice on the same event. */
  function Press(u: Ui, key: Key): (r: Ui)
    ensures u.hidden || key == OtherKey ==> r == u
    ensures key != Enter ==> r.query == u.query && r.rows == u.rows && r.hidden == u.hidden
  {
    Step(Step(u, key), key)
  }

  /** A click on row `k` (the row's own click listener): its text goes into
      the input and the panel is emptied and hidden; the index is left as is. */
  function Click(u: Ui, k: nat): (r: Ui)
    requires k < |u.rows|
    ensures r.query == u.rows[k] && r.rows == [] && r.hidden && r.selected == u.selected
  {
    Ui(u.rows[k], [], [], true, u.selected)
  }

  /** The outside-click rule on this panel: its rows are removed, nothing
      else changes (the `hidden` class is not added). */
  function Dismiss(u: Ui): (r: Ui)
    ensures r.rows == [] && r.highlighted == []
    ensures r.query == u.query && r.hidden == u.hidden && r.selected == u.selected
  {
    u.(rows := [], highlighted := [])
  }

  /** Every transition keeps the state well formed. */
  lemma TransitionsKeepValid(u: Ui, key: Key, k: nat)
    requires Valid(u)
    ensures Valid(Step(u, key)) && Valid(Press(u, key)) && Valid(Dismiss(u))
    ensures k < |u.rows| ==> Valid(Click(u, k))
  {
    StepKeepsValid(u, key);
    StepKeepsValid(Step(u, key), key);
  }

  lemma StepKeepsValid(u: Ui, key: Key)
    requires Valid(u)
    ensures Valid(Step(u, key))
  {
    if !u.hidden && u.rows != [] && (key == ArrowDown || key == ArrowUp) {
      var n := |u.rows|;
      assert u.selected.i + 1 >= 0 && u.selected.i - 1 + n >= -1;
    }
  }

  /** While the panel is hidden the listener changes nothing. */
  lemma HiddenIgnoresKeys(u: Ui, key: Key)
    requires u.hidden
    ensures Step(u, key) == u && Press(u, key) == u
  {
  }

  /** With rows shown, an arrow moves the index cyclically inside the rows
      and highlights exactly the new row; nothing else changes. */
  lemma ArrowCycles(u: Ui, key: Key)
    requires Valid(u) && !u.hidden && u.rows != []
    requires key == ArrowDown || key == ArrowUp
    ensures var n, i := |u.rows|, u.selected.i;
      var j := if key == ArrowDown then (i + 1) % n else (i - 1 + n) % n;
      && Step(u, key).selected == At(j) && 0 <= j < n
      && (forall k :: 0 <= k < n ==> (Step(u, key).highlighted[k] <==> k == j))
      && Step(u, key).rows == u.rows && Step(u, key).query == u.query && !Step(u, key).hidden
  {
    var n, i := |u.rows|, u.selected.i;
    if key == ArrowUp && i == -1 && n == 1 {
      assert JsRem(-1, 1) == 0 == (-1) % 1;
    }
  }

  /** From no selection, ArrowDown selects the first row and ArrowUp the row
      `(n - 2) mod n` (not the last one). */
  lemma ArrowsFromNone(u: Ui)
    requires Valid(u) && !u.hidden && u.rows != [] && u.selected == At(-1)
    ensures Step(u, ArrowDown).selected == At(0)
    ensures Step(u, ArrowUp).selected == At((|u.rows| - 2) % |u.rows|)
  {
    ArrowCycles(u, ArrowDown);
    ArrowCycles(u, ArrowUp);
  }

  /** Enter with a selected row commits it: its text becomes the input's
      value, the panel is emptied and hidden and the index is reset. */
  lemma EnterCommits(u: Ui)
    requires Valid(u) && !u.hidden && u.selected.At? && 0 <= u.selected.i < |u.rows|
    ensures Step(u, Enter) == Ui(u.rows[u.selected.i], [], [], true, At(-1))
  {
  }

  /** Enter without a selection does nothing. */
  lemma EnterWithoutSelection(u: Ui)
    requires u.selected == At(-1) || u.selected.NaN?
    ensures Step(u, Enter) == u
  {
  }

  /** On a panel emptied by the outside-click rule but not hidden, an arrow
      turns the index into NaN (`x % 0`), and Enter with a stale index
      changes nothing. */
  lemma EmptyVisiblePanel(u: Ui, key: Key)
    requires !u.hidden && u.rows == []
    ensures key == ArrowDown || key == ArrowUp ==> Step(u, key).selected == NaN
    ensures key == Enter ==> Step(u, key) == u
  {
  }

  /** Physical presses: ArrowDown moves two rows, ArrowUp moves two rows back,
      and Enter commits once (the second run finds the panel hidden). */
  lemma {:induction false} PressMovesTwice(u: Ui, key: Key)
    requires Valid(u) && !u.hidden && u.rows != []
    ensures var n, i := |u.rows|, u.selected.i;
      && (key == ArrowDown ==> Press(u, key).selected == At((i + 2) % n))
      && (key == ArrowUp && i >= 0 ==> Press(u, key).selected == At((i - 2 + 2 * n) % n))
      && (key == ArrowUp && i == -1 ==> Press(u, key).selected == At((2 * n - 3) % n))
      && (key == Enter && i >= 0 ==> Press(u, key) == Ui(u.rows[i], [], [], true, At(-1)))
  {
    if key == ArrowDown {
      DownTwice(u);
    } else if key == ArrowUp {
      UpTwice(u);
    } else if key == Enter && u.selected.i >= 0 {
      EnterOnce(u);
    }
  }

  lemma DownTwice(u: Ui)
    requires Valid(u) && !u.hidden && u.rows != []
    ensures Press(u, ArrowDown).selected == At((u.selected.i + 2) % |u.rows|)
  {
    var n, i := |u.rows|, u.selected.i;
    TwoArrows(u, ArrowDown);
    ModStep(i + 1, 1, n);
  }

  lemma UpTwice(u: Ui)
    requires Valid(u) && !u.hidden && u.rows != []
    ensures var n, i := |u.rows|, u.selected.i;
      && (i >= 0 ==> Press(u, ArrowUp).selected == At((i - 2 + 2 * n) % n))
      && (i == -1 ==> Press(u, ArrowUp).selected == At((2 * n - 3) % n))
  {
    var n, i := |u.rows|, u.selected.i;
    TwoArrows(u, ArrowUp);
    ModStep(i - 1 + n, n - 1, n);
    assert (i - 1 + n) + (n - 1) == i - 2 + 2 * n;
  }

  lemma EnterOnce(u: Ui)
    requires Valid(u) && !u.hidden && u.selected.At? && 0 <= u.selected.i < |u.rows|
    ensures Press(u, Enter) == Ui(u.rows[u.selected.i], [], [], true, At(-1))
  {
    EnterCommits(u);
  }

  /** Two runs of the arrow handler, each one step of `ArrowCycles`. */
  lemma TwoArrows(u: Ui, key: Key)
    requires Valid(u) && !u.hidden && u.rows != []
    requires key == ArrowDown || key == ArrowUp
    ensures var n, i := |u.rows|, u.selected.i;
      var j := if key == ArrowDown then (i + 1) % n else (i - 1 + n) % n;
      Press(u, key).selected == At(if key == ArrowDown then (j + 1) % n else (j - 1 + n) % n)
  {
    ArrowCycles(u, key);
    StepKeepsValid(u, key);
    ArrowCycles(Step(u, key), key);
  }

  /** `((a % n) + b) % n == (a + b) % n`. */
  lemma ModStep(a: int, b: int, n: nat)
    requires n > 0
    ensures ((a % n) + b) % n == (a + b) % n
  {
    var q, r := a / n, a % n;
    var q2, r2 := (r + b) / n, (r + b) % n;
    assert a + b == (q + q2) * n + r2 by {
      assert a == q * n + r;
      assert r + b == q2 * n + r2;
      assert q * n + q2 * n == (q + q2) * n;
    }
    ModUnique(a + b, n, q + q2, r2);
  }

  lemma MulAtLeast(a: int, n: nat)
    ensures a >= 1 ==> a * n >= n
  {
    if a >= 1 {
      assert a * n == (a - 1) * n + n;
    }
  }

  /** Adding a multiple of `n` does not change a remainder. */
  lemma AddMultiple(i: int, m: nat, n: nat)
    requires n > 0 && 0 <= i < n && m % n == 0
    ensures (i + m) % n == i
  {
    assert i + m == (m / n) * n + i;
    ModUnique(i + m, n, m / n, i);
  }

  /** Division with remainder is unique. */
  lemma ModUnique(a: int, n: nat, k: int, r: int)
    requires n > 0 && 0 <= r < n && a == k * n + r
    ensures a % n == r
  {
    var k2, r2 := a / n, a % n;
    assert a == k2 * n + r2;
    assert (k - k2) * n == r2 - r;
    MulAtLeast(k - k2, n);
    MulAtLeast(k2 - k, n);
  }

  /** `m` runs of the listener with the same key. */
  function Steps(u: Ui, key: Key, m: nat): Ui
    decreases m
  {
    if m == 0 then u else Steps(Step(u, key), key, m - 1)
  }

  /** Runs of ArrowDown walk the rows cyclically: after `m > 0` runs from
      index `i` the index is `(i + m) mod n`, and the rows stay. */
  lemma {:induction false} DownWalks(u: Ui, m: nat)
    requires Valid(u) && !u.hidden && u.rows != []
    ensures m > 0 ==> Steps(u, ArrowDown, m).selected == At((u.selected.i + m) % |u.rows|)
    ensures Steps(u, ArrowDown, m).rows == u.rows
    decreases m
  {
    if m > 0 {
      var n, i := |u.rows|, u.selected.i;
      var v := Step(u, ArrowDown);
      assert v.selected == At((i + 1) % n) && v.rows == u.rows && !v.hidden && Valid(v) by {
        DownOnce(u);
      }
      DownWalks(v, m - 1);
      assert Steps(u, ArrowDown, m) == Steps(v, ArrowDown, m - 1);
      if m > 1 {
        assert ((i + 1) % n + (m - 1)) % n == (i + m) % n by {
          ModStep(i + 1, m - 1, n);
        }
      }
    }
  }

  /** One run of ArrowDown on shown rows, in the form `DownWalks` uses. */
  lemma DownOnce(u: Ui)
    requires Valid(u) && !u.hidden && u.rows != []
    ensures var v := Step(u, ArrowDown);
      && v.selected == At((u.selected.i + 1) % |u.rows|)
      && v.rows == u.rows && !v.hidden && Valid(v)
  {
    ArrowCycles(u, ArrowDown);
    StepKeepsValid(u, ArrowDown);
  }

  /** `n` runs of ArrowDown, or any multiple of `n`, come back to the
      selected row. */
  lemma DownReturns(u: Ui, m: nat)
    requires Valid(u) && !u.hidden && u.rows != []
    requires 0 <= u.selected.i && m > 0 && m % |u.rows| == 0
    ensures Steps(u, ArrowDown, m).selected == u.selected
  {
    DownWalks(u, m);
    AddMultiple(u.selected.i, m, |u.rows|);
  }

  /** The evidently intended ArrowUp: from no selection it wraps to the last
      row; elsewhere it is `Up`. */
  function UpIntended(s: Index, n: nat): (r: Index)
    ensures n > 0 && s == At(-1) ==> r == At(n - 1)
    ensures s != At(-1) ==> r == Up(s, n)
  {
    if n > 0 && s == At(-1) then At(n - 1) else Up(s, n)
  }

  /** The evidently intended key press: the listener runs once, an arrow
      on a visible panel without rows does nothing, and ArrowUp from no
      selection goes to the last row. */
  function IntendedPress(u: Ui, key: Key): (r: Ui)
    ensures u.hidden || u.rows == [] || key == OtherKey ==> r == u
    ensures key != ArrowUp && u.rows != [] ==> r == Step(u, key)
  {
    if !u.hidden && u.rows == [] then u
    else if !u.hidden && key == ArrowUp then
      var s := UpIntended(u.selected, |u.rows|);
      u.(selected := s, highlighted := Highlights(s, |u.rows|))
    else Step(u, key)
  }

  /** The intended press never makes the index NaN: from a well-formed
      state with a numeric index it keeps both, also on a visible panel
      without rows, where an arrow of the code as written gives NaN. */
  lemma IntendedNeverNaN(u: Ui, key: Key)
    requires Valid(u) && u.selected.At?
    ensures Valid(IntendedPress(u, key)) && IntendedPress(u, key).selected.At?
  {
    if !u.hidden && u.rows != [] {
      if key == ArrowUp {
        ArrowCycles(u, ArrowUp);
      } else {
        StepKeepsValid(u, key);
        if key == ArrowDown {
          ArrowCycles(u, ArrowDown);
        }
      }
    }
  }

  /** Intended presses keep the state well formed, enter the rows at either
      end from no selection, and ArrowUp undoes ArrowDown. */
  lemma IntendedPressCycles(u: Ui)
    requires Valid(u) && !u.hidden && u.rows != []
    ensures Valid(IntendedPress(u, ArrowDown)) && Valid(IntendedPress(u, ArrowUp))
    ensures var n := |u.rows|;
      u.selected == At(-1) ==>
        IntendedPress(u, ArrowDown).selected == At(0) && IntendedPress(u, ArrowUp).selected == At(n - 1)
    ensures 0 <= u.selected.i ==>
      IntendedPress(IntendedPress(u, ArrowDown), ArrowUp).selected == u.selected
  {
    var n, i := |u.rows|, u.selected.i;
    ArrowCycles(u, ArrowDown);
    if i == -1 {
      ModUnique(n - 1, n, 0, n - 1);
      ModUnique(0, n, 0, 0);
    } else {
      ArrowCycles(u, ArrowUp);
      var v := Step(u, ArrowDown);
      StepKeepsValid(u, ArrowDown);
      ArrowCycles(v, ArrowUp);
      if i + 1 < n {
        ModUnique(i + 1, n, 0, i + 1);
        ModUnique(i + n, n, 1, i);
      } else {
        ModUnique(i + 1, n, 1, 0);
        ModUnique(n - 1, n, 0, n - 1);
      }
    }
  }

  /** As written, ArrowUp from no selection on three rows selects row 1, not
      the last row 2. */
  lemma UpFromNoneAsWritten()
    ensures Up(At(-1), 3) == At(1) && UpIntended(At(-1), 3) == At(2)
  {
  }

  /** As written, one ArrowDown press from no selection on three rows
      selects row 1: the first row is skipped. One run of the listener, the
      intended press, selects row 0. */
  lemma DownPressFromNoneAsWritten(rows: seq<string>)
    requires |rows| == 3
    ensures Press(Shown("a", rows), ArrowDown).selected == At(1)
    ensures Step(Shown("a", rows), ArrowDown).selected == At(0)
  {
  }
}
