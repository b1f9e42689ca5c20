/** The page script frontend/app.js as an object: the global `listaNombres`,
    `indiceSeleccionado`, the values of the inputs and the contents of the
    two suggestion panels are fields, and each listener is a method. */
module Frontend {
  import opened Wrappers
  import opened Text
  import opened Dates
  import opened Autocomplete
  import opened Navigation

  /** The elements whose clicks the outside-click rule leaves alone:
      `#inputNombre`, `#resultados`, `#nombreNuevo`, `#sugerenciasAdmin`. */
  datatype Region = SearchInput | SearchPanel | AdminInput | AdminPanel

  /** The `#fecha` value `window.onload` writes: the full year, then month
      and day of month zero-padded to two digits, joined by dashes
      (`getMonth()` counts months from 0). It is the text the server stores
      for that date. */
  function DateField(year: nat, monthIndex: nat, day: nat): (r: string)
    requires monthIndex < 12 && day < 100
    ensures r == IsoDate(Date(year, monthIndex + 1, day))
  {
    Decimal(year) + "-" + TwoDigit(monthIndex + 1) + "-" + TwoDigit(day)
  }

  /** For a four-digit year the field is ten characters with dashes at
      positions 4 and 7, and its three parts read back as the year, the
      calendar month and the day. */
  lemma DateFieldLayout(year: nat, monthIndex: nat, day: nat)
    requires 1000 <= year <= 9999 && monthIndex < 12 && day < 100
    ensures var r := DateField(year, monthIndex, day);
      && |r| == 10 && r[4] == '-' && r[7] == '-'
      && ParseDecimal(r[..4]) == year
      && ParseDecimal(r[5..7]) == monthIndex + 1
      && ParseDecimal(r[8..]) == day
  {
    IsoDateLayout(Date(year, monthIndex + 1, day));
  }

  class Page {
    /** `listaNombres` */
    var names: seq<string>
    /** the value of `#inputNombre` */
    var query: string
    /** the texts of the `<li>` rows in `#resultados` */
    var rows: seq<string>
    /** whether each of those rows carries the highlight class */
    var highlighted: seq<bool>
    /** whether `#resultados` carries the `hidden` class */
    var hidden: bool
    /** `indiceSeleccionado` */
    var selected: Index
    /** the value of `#nombreNuevo` */
    var adminQuery: string
    /** the texts of the `<div>` rows in `#sugerenciasAdmin` */
    var adminRows: seq<string>
    /** the value of `#nuevoNombre` */
    var renameTo: string
    /** the value of `#fecha` */
    var dateField: string
    /** whether the `input` listener of `#inputNombre` has been attached */
    var inputWired: bool

    /** The search box's part of the state. */
    function View(): Ui
      reads this
    {
      Ui(query, rows, highlighted, hidden, selected)
    }

    predicate Valid()
      reads this
    {
      Navigation.Valid(View())
    }

    /** `window.onload` up to its last statement. `fetched` is the list
        `GET /nombres` delivered, or None when the request failed: then the
        list stays empty and the `input` listener is never attached. The
        panel starts hidden and empty, and `#fecha` is still empty; the
        onload handler then ends with `WriteDate`. */
    constructor Load(fetched: Option<seq<string>>)
      ensures Valid()
      ensures fetched.Some? ==> names == fetched.value && inputWired
      ensures fetched.None? ==> names == [] && !inputWired
      ensures View() == Ui("", [], [], true, At(-1))
      ensures adminQuery == "" && adminRows == [] && renameTo == "" && dateField == ""
    {
      if fetched.Some? {
        names, inputWired := fetched.value, true;
      } else {
        names, inputWired := [], false;
      }
      query, rows, highlighted, hidden, selected := "", [], [], true, At(-1);
      adminQuery, adminRows, renameTo, dateField := "", [], "", "";
    }

    /** The last statement of `window.onload`, which fills `#fecha`. */
    method WriteDate(year: nat, monthIndex: nat, day: nat)
      requires monthIndex < 12 && day < 100
      modifies this`dateField
      ensures dateField == DateField(year, monthIndex, day)
    {
      dateField := DateField(year, monthIndex, day);
    }

    /** An `input` event on `#inputNombre` whose new value is `text`. */
    method Input(text: string)
      requires Valid()
      modifies this`query, this`rows, this`highlighted, this`hidden, this`selected
      ensures Valid()
      ensures inputWired ==> View() == Shown(text, Suggestions(names, text))
      ensures !inputWired ==> View() == old(View()).(query := text)
    {
      query := text;
      if inputWired {
        ShowMatches();
      }
    }

    /** `mostrarCoincidencias`: empties the panel and clears the selection,
        then shows one row per matching name, or hides the panel when the
        query is empty or nothing matches. */
    method ShowMatches()
      modifies this`rows, this`highlighted, this`hidden, this`selected
      ensures View() == Shown(query, Suggestions(names, query))
    {
      var texto := Lower(query);
      rows, highlighted := [], [];
      selected := At(-1);
      if texto == [] {
        hidden := true;
        return;
      }
      var filtrados := Filter(names, query);
      assert filtrados == Suggestions(names, query);
      if |filtrados| == 0 {
        hidden := true;
        return;
      }
      hidden := false;
      AppendRows(filtrados);
    }

    /** The `forEach` of `mostrarCoincidencias`: one unhighlighted row per
        name, appended in order to the emptied panel. */
    method AppendRows(filtrados: seq<string>)
      requires rows == [] && highlighted == []
      modifies this`rows, this`highlighted
      ensures rows == filtrados && highlighted == seq(|filtrados|, _ => false)
    {
      var k := 0;
      while k < |filtrados|
        invariant 0 <= k <= |filtrados|
        invariant rows == filtrados[..k]
        invariant highlighted == seq(k, _ => false)
      {
        rows := rows + [filtrados[k]];
        highlighted := highlighted + [false];
        k := k + 1;
      }
    }

    /** `actualizarSeleccion(items)`: marks the row at the index and unmarks
        every other row. */
    method Highlight()
      requires |highlighted| == |rows|
      modifies this`highlighted
      ensures highlighted == Highlights(selected, |rows|)
    {
      var k := 0;
      while k < |rows|
        invariant 0 <= k <= |rows| && |highlighted| == |rows|
        invariant forall j :: 0 <= j < k ==> highlighted[j] == (selected == At(j))
      {
        highlighted := highlighted[k := selected == At(k)];
        k := k + 1;
      }
    }

    /** One run of the keydown listener (frontend/app.js:71-97, repeated at
        :320-346). */
    method KeyStep(key: Key)
      requires Valid()
      modifies this`query, this`rows, this`highlighted, this`hidden, this`selected
      ensures Valid()
      ensures View() == Step(old(View()), key)
    {
      StepKeepsValid(View(), key);
      if hidden {
        return;
      }
      var n := |rows|;
      if key == ArrowDown {
        selected := Down(selected, n);
        Highlight();
      }
      if key == ArrowUp {
        selected := Up(selected, n);
        Highlight();
      }
      if key == Enter && selected.At? && selected.i >= 0 {
        if selected.i < n {
          query := rows[selected.i];
          rows, highlighted := [], [];
          hidden := true;
          selected := At(-1);
        }
        // otherwise `items[i]` is undefined and the run throws before any change
      }
    }

    /** A physical key press in `#inputNombre`: both registered listeners
        run. */
    method KeyPress(key: Key)
      requires Valid()
      modifies this`query, this`rows, this`highlighted, this`hidden, this`selected
      ensures Valid()
      ensures View() == Press(old(View()), key)
    {
      KeyStep(key);
      KeyStep(key);
    }

    /** The click listener of row `k` of `#resultados`. */
    method ClickRow(k: nat)
      requires Valid() && k < |rows|
      modifies this`query, this`rows, this`highlighted, this`hidden
      ensures Valid()
      ensures View() == Click(old(View()), k)
    {
      query := rows[k];
      rows, highlighted := [], [];
      hidden := true;
    }

    /** The document click listener; `inside` is the set of listed elements
        that contain the click's target. Only when it is empty are both
        panels emptied; inputs and the `hidden` class are never touched. */
    method DocumentClick(inside: set<Region>)
      requires Valid()
      modifies this`rows, this`highlighted, this`adminRows
      ensures Valid()
      ensures inside == {} ==> View() == Dismiss(old(View())) && adminRows == []
      ensures inside != {} ==> View() == old(View()) && adminRows == old(adminRows)
    {
      if inside == {} {
        rows, highlighted := [], [];
        adminRows := [];
      }
    }

    /** A physical click on row `k` of `#resultados`: the row's listener
        removes the row, so when the event reaches the document its target
        is no longer inside any listed element and the admin panel is
        emptied as well. */
    method PressRow(k: nat)
      requires Valid() && k < |rows|
      modifies this`query, this`rows, this`highlighted, this`hidden, this`adminRows
      ensures Valid()
      ensures View() == Click(old(View()), k)
      ensures adminRows == []
    {
      ClickRow(k);
      DocumentClick({});
    }

    /** An `input` event on `#nombreNuevo` (it runs `mostrarSugerenciasAdmin`). */
    method AdminInput(text: string)
      modifies this`adminQuery, this`adminRows
      ensures adminQuery == text
      ensures adminRows == Suggestions(names, text)
    {
      adminQuery := text;
      ShowAdminSuggestions();
    }

    /** `mostrarSugerenciasAdmin`: the admin panel gets one row per matching
        name; it has no `hidden` flag, no highlight and no index. */
    method ShowAdminSuggestions()
      modifies this`adminRows
      ensures adminRows == Suggestions(names, adminQuery)
    {
      var texto := Lower(adminQuery);
      adminRows := [];
      if texto == [] {
        return;
      }
      var coincidencias := Filter(names, adminQuery);
      assert coincidencias == Suggestions(names, adminQuery);
      AppendAdminRows(coincidencias);
    }

    /** The `forEach` of `mostrarSugerenciasAdmin`: one row per name,
        appended in order to the emptied panel. */
    method AppendAdminRows(coincidencias: seq<string>)
      requires adminRows == []
      modifies this`adminRows
      ensures adminRows == coincidencias
    {
      var k := 0;
      while k < |coincidencias|
        invariant 0 <= k <= |coincidencias|
        invariant adminRows == coincidencias[..k]
      {
        adminRows := adminRows + [coincidencias[k]];
        k := k + 1;
      }
    }

    /** The click listener of row `k` of `#sugerenciasAdmin`. */
    method ClickAdminRow(k: nat)
      requires k < |adminRows|
      modifies this`adminQuery, this`adminRows
      ensures adminQuery == old(adminRows)[k] && adminRows == []
    {
      adminQuery := adminRows[k];
      adminRows := [];
    }

    /** A physical click on row `k` of `#sugerenciasAdmin`: as with
        `PressRow`, the document listener then empties `#resultados` too,
        without hiding it. */
    method PressAdminRow(k: nat)
      requires Valid() && k < |adminRows|
      modifies this`adminQuery, this`adminRows, this`rows, this`highlighted
      ensures Valid()
      ensures adminQuery == old(adminRows)[k] && adminRows == []
      ensures View() == Dismiss(old(View()))
    {
      ClickAdminRow(k);
      DocumentClick({});
    }

    /** A new value of `#nuevoNombre`. */
    method RenameInput(text: string)
      modifies this`renameTo
      ensures renameTo == text
    {
      renameTo := text;
    }

    /** `agregarPersona`. The trimmed admin input is required; `accepted`
        says whether `POST /agregar` answered with an OK status, and only
        then is the name appended to the list. */
    method AddPerson(accepted: bool)
      modifies this`names
      ensures var n := Strip(JsBlanks, adminQuery);
        names == if n != [] && accepted then old(names) + [n] else old(names)
    {
      var nombre := Strip(JsBlanks, adminQuery);
      if nombre == [] {
        return;
      }
      if accepted {
        names := names + [nombre];
      }
    }

    /** `editarPersona`. Both trimmed inputs are required; `responded` says
        whether `PUT /editar` delivered a JSON body, after which every
        occurrence of the current name is replaced by the new one. */
    method EditPerson(responded: bool)
      modifies this`names
      ensures var a, b := Strip(JsBlanks, adminQuery), Strip(JsBlanks, renameTo);
        names == if a != [] && b != [] && responded then Rename(old(names), a, b) else old(names)
    {
      var nombreActual := Strip(JsBlanks, adminQuery);
      var nuevoNombre := Strip(JsBlanks, renameTo);
      if nombreActual == [] || nuevoNombre == [] {
        return;
      }
      if responded {
        names := Rename(names, nombreActual, nuevoNombre);
      }
    }

    /** `borrarPersona`. The trimmed admin input is required; `responded`
        says whether `DELETE /borrar` delivered a JSON body, after which every
        occurrence of the name is removed from the list. */
    method DeletePerson(responded: bool)
      modifies this`names
      ensures var n := Strip(JsBlanks, adminQuery);
        names == if n != [] && responded then Remove(old(names), n) else old(names)
    {
      var nombre := Strip(JsBlanks, adminQuery);
      if nombre == [] {
        return;
      }
      if responded {
        names := Remove(names, nombre);
      }
    }
  }
}
