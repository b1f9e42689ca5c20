/** The name matching of the page (frontend/app.js): the case-insensitive
    substring filter over the name list, shared by the search box and the
    admin box, and the updates the admin actions apply to the list. */
module Autocomplete {
  import opened Text
  import opened Sequences

  /** `nombre.toLowerCase().includes(texto)` where `texto` is the lowercased
      query. */
  predicate Matches(query: string, name: string)
  {
    Contains(Lower(name), Lower(query))
  }

  /** `listaNombres.filter(...)`: the names that match, in list order, each as
      often as it occurs in the list. */
  function Filter(names: seq<string>, query: string): (r: seq<string>)
    ensures IsSubsequence(r, names)
    ensures forall x :: x in r <==> x in names && Matches(query, x)
    ensures forall x :: multiset(r)[x] == if Matches(query, x) then multiset(names)[x] else 0
  {
    var p := (n: string) => Matches(query, n);
    KeepIsSubsequence(names, p);
    KeepMembership(names, p);
    KeepFullMultiplicity(names, p);
    Keep(names, p)
  }

  /** `KeepMultiplicity` for every element at once. */
  lemma KeepFullMultiplicity(names: seq<string>, p: string -> bool)
    ensures forall x :: multiset(Keep(names, p))[x] == if p(x) then multiset(names)[x] else 0
  {
    forall x ensures multiset(Keep(names, p))[x] == if p(x) then multiset(names)[x] else 0 {
      KeepMultiplicity(names, p, x);
    }
  }

  /** Filtering a concatenation filters each part: the suggestions of a list
      extended at the end are the old ones followed by the new ones. */
  lemma FilterAppend(a: seq<string>, b: seq<string>, query: string)
    ensures Filter(a + b, query) == Filter(a, query) + Filter(b, query)
  {
    KeepAppend(a, b, (n: string) => Matches(query, n));
  }

  /** The rows `mostrarCoincidencias` and `mostrarSugerenciasAdmin` render for
      a query: none for an empty query, otherwise the filtered names. */
  function Suggestions(names: seq<string>, query: string): (r: seq<string>)
    ensures query == [] ==> r == []
    ensures query != [] ==> (r == [] <==> forall x :: x in names ==> !Matches(query, x))
    ensures forall x :: x in r <==> query != [] && x in names && Matches(query, x)
  {
    if Lower(query) == [] then [] else Filter(names, query)
  }

  /** The case of the query does not change the suggestions: the query is
      lowercased before it is searched for. */
  lemma QueryCaseIrrelevant(names: seq<string>, query: string)
    ensures Suggestions(names, Lower(query)) == Suggestions(names, query)
  {
    LowerIdempotent(query);
    forall x ensures Matches(Lower(query), x) == Matches(query, x) {
    }
    KeepSamePredicate(names, (n: string) => Matches(Lower(query), n), (n: string) => Matches(query, n));
  }

  /** `listaNombres.map(n => n === nombreActual ? nuevoNombre : n)`. */
  function Rename(names: seq<string>, from: string, to: string): (r: seq<string>)
    ensures |r| == |names|
    ensures forall i :: 0 <= i < |names| ==> r[i] == if names[i] == from then to else names[i]
  {
    if names == [] then [] else [if names[0] == from then to else names[0]] + Rename(names[1..], from, to)
  }

  /** Renaming moves every occurrence of `from` to `to` and leaves the
      multiplicity of every other name alone. */
  lemma {:induction false} RenameMultiplicity(names: seq<string>, from: string, to: string, x: string)
    requires from != to
    ensures multiset(Rename(names, from, to))[x] ==
            if x == from then 0
            else if x == to then multiset(names)[to] + multiset(names)[from]
            else multiset(names)[x]
  {
    if names != [] {
      var r, t := Rename(names, from, to), names[1..];
      RenameMultiplicity(t, from, to, x);
      var h := if names[0] == from then to else names[0];
      assert multiset(r)[x] == (if h == x then 1 else 0) + multiset(Rename(t, from, to))[x] by {
        assert r[0] == h && r[1..] == Rename(t, from, to);
        HeadCount(r, x);
      }
      assert multiset(names)[x] == (if names[0] == x then 1 else 0) + multiset(t)[x] by {
        HeadCount(names, x);
      }
      assert multiset(names)[from] == (if names[0] == from then 1 else 0) + multiset(t)[from] by {
        HeadCount(names, from);
      }
      if x == from {
        assert h != x;
      } else if x == to {
        assert (h == x) == (names[0] == from || names[0] == to);
      } else {
        assert (h == x) == (names[0] == x);
      }
    }
  }

  lemma HeadCount<T>(s: seq<T>, x: T)
    requires s != []
    ensures multiset(s)[x] == (if s[0] == x then 1 else 0) + multiset(s[1..])[x]
  {
    assert s == [s[0]] + s[1..];
    assert multiset(s) == multiset{s[0]} + multiset(s[1..]);
  }

  /** `listaNombres.filter(n => n !== nombre)`. */
  function Remove(names: seq<string>, name: string): (r: seq<string>)
    ensures IsSubsequence(r, names)
    ensures name !in r
    ensures forall x :: x != name ==> multiset(r)[x] == multiset(names)[x]
  {
    var p := (n: string) => n != name;
    KeepIsSubsequence(names, p);
    KeepMembership(names, p);
    KeepFullMultiplicity(names, p);
    Keep(names, p)
  }
}
