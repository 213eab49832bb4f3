/** The client list panel (components/Sidebar.tsx): the division and store filter options, the
    search / division / store filter, and the selection state with its store reset. */
module Sidebar {
  import opened Types
  import opened Text
  import opened Lists

  /** `s && s.trim() !== ''`: a value with something other than white space in it. */
  predicate NonBlank(s: string) {
    s != "" && Trim(s) != ""
  }

  /** `Array.from(new Set(values.filter(NonBlank))).sort()`. */
  function SortedOptions(values: seq<string>): (r: seq<string>)
    ensures Sorted(r) && NoDuplicates(r)
    ensures forall v :: v in r <==> v in values && Trim(v) != ""
  {
    var kept := Distinct(Filter(values, NonBlank));
    SortDistinct(kept);
    Sort(kept)
  }

  function DivisionOf(c: Client): string { c.division }

  function StoreOf(c: Client): string { c.store }

  /** The division buttons: every non-blank division of some client, once each, sorted. */
  function Divisions(clients: seq<Client>): (r: seq<string>)
    ensures Sorted(r) && NoDuplicates(r)
    ensures forall d :: d in r <==>
              Trim(d) != "" && exists i :: 0 <= i < |clients| && clients[i].division == d
  {
    var values := Map(clients, DivisionOf);
    assert forall d :: d in values <==> exists i :: 0 <= i < |clients| && clients[i].division == d
    by {
      forall d | d in values ensures exists i :: 0 <= i < |clients| && clients[i].division == d {
        var i :| 0 <= i < |values| && values[i] == d;
        assert clients[i].division == d;
      }
    }
    SortedOptions(values)
  }

  /** Any sorted, duplicate-free list of exactly the non-blank divisions is the division list:
      the options do not depend on the order of the clients. */
  lemma DivisionsUnique(clients: seq<Client>, ds: seq<string>)
    requires Sorted(ds) && NoDuplicates(ds)
    requires forall d :: d in ds <==>
               Trim(d) != "" && exists i :: 0 <= i < |clients| && clients[i].division == d
    ensures ds == Divisions(clients)
  {
    SortedSetUnique(ds, Divisions(clients));
  }

  /** The clients a division selection leaves: all of them for `'all'`. */
  function InDivision(clients: seq<Client>, division: string): (r: seq<Client>)
    ensures forall c :: c in r <==> c in clients && (division == "all" || c.division == division)
  {
    if division == "all" then clients else Filter(clients, (c: Client) => c.division == division)
  }

  /** The store buttons: every non-blank store of a client in the selected division (of any
      client for `'all'`), once each, sorted. */
  function AvailableStores(clients: seq<Client>, division: string): (r: seq<string>)
    ensures Sorted(r) && NoDuplicates(r)
    ensures forall s :: s in r <==>
              Trim(s) != "" && exists i :: 0 <= i < |clients| && clients[i].store == s
                                          && (division == "all" || clients[i].division == division)
  {
    var values := Map(InDivision(clients, division), StoreOf);
    StoresOfDivision(clients, division);
    SortedOptions(values)
  }

  /** The stores of the clients a division selection leaves. */
  lemma StoresOfDivision(clients: seq<Client>, division: string)
    ensures forall s :: s in Map(InDivision(clients, division), StoreOf) <==>
              exists i :: 0 <= i < |clients| && clients[i].store == s
                          && (division == "all" || clients[i].division == division)
  {
    var relevant := InDivision(clients, division);
    var values := Map(relevant, StoreOf);
    forall s | s in values
      ensures exists i :: 0 <= i < |clients| && clients[i].store == s
                          && (division == "all" || clients[i].division == division)
    {
      var k :| 0 <= k < |values| && values[k] == s;
      assert relevant[k] in clients;
      var i :| 0 <= i < |clients| && clients[i] == relevant[k];
    }
    forall i | 0 <= i < |clients| && (division == "all" || clients[i].division == division)
      ensures clients[i].store in values
    {
      assert clients[i] in relevant;
      var k :| 0 <= k < |relevant| && relevant[k] == clients[i];
      assert values[k] == clients[i].store;
    }
  }

  /** The search matches the name, the city or the code, all lower-cased. */
  predicate MatchesSearch(c: Client, query: string) {
    var q := ToLower(query);
    Contains(ToLower(c.name), q) || Contains(ToLower(c.city), q) || Contains(ToLower(c.code), q)
  }

  /** A client passes the search and both selections. */
  predicate Matches(c: Client, query: string, division: string, store: string) {
    && MatchesSearch(c, query)
    && (division == "all" || c.division == division)
    && (store == "all" || c.store == store)
  }

  /** The visible list: the clients that pass the filter, in their original order. */
  function FilteredClients(clients: seq<Client>, query: string, division: string, store: string)
    : (r: seq<Client>)
    ensures IsSubseq(r, clients)
    ensures forall c :: c in r <==> c in clients && Matches(c, query, division, store)
  {
    FilterIsSubseq(clients, (c: Client) => Matches(c, query, division, store));
    Filter(clients, (c: Client) => Matches(c, query, division, store))
  }

  /** With an empty search and both selections at `'all'` every client is listed. */
  lemma AllPass(clients: seq<Client>)
    ensures FilteredClients(clients, "", "all", "all") == clients
  {
    forall i | 0 <= i < |clients| ensures Matches(clients[i], "", "all", "all") {
      EmptyContained(ToLower(clients[i].name));
    }
    FilterAll(clients, (c: Client) => Matches(c, "", "all", "all"));
  }

  /** The selection state of the panel. The client list is the component's input; a change of
      that input is not modelled. */
  class SidebarState {
    const clients: seq<Client>
    var searchQuery: string
    var selectedDivision: string
    var selectedStore: string

    /** The selected store is `'all'` or one of the stores offered for the selected division. */
    predicate Valid()
      reads this
    {
      selectedStore == "all" || selectedStore in AvailableStores(clients, selectedDivision)
    }

    constructor (clients: seq<Client>)
      ensures this.clients == clients
      ensures searchQuery == "" && selectedDivision == "all" && selectedStore == "all"
      ensures Valid()
    {
      this.clients := clients;
      searchQuery := "";
      selectedDivision := "all";
      selectedStore := "all";
    }

    /** The list the panel shows. */
    function Visible(): (r: seq<Client>)
      reads this
      ensures IsSubseq(r, clients)
    {
      FilteredClients(clients, searchQuery, selectedDivision, selectedStore)
    }

    /** Typing in the search box. */
    method SetSearchQuery(query: string)
      requires Valid()
      modifies this
      ensures searchQuery == query
      ensures selectedDivision == old(selectedDivision) && selectedStore == old(selectedStore)
      ensures Valid()
    {
      searchQuery := query;
    }

    /** A division button, followed by the effect that runs when the division changed: the
        store goes back to `'all'`. Re-selecting the current division changes nothing. */
    method SelectDivision(division: string)
      requires Valid()
      modifies this
      ensures selectedDivision == division
      ensures selectedStore == if division != old(selectedDivision) then "all" else old(selectedStore)
      ensures searchQuery == old(searchQuery)
      ensures Valid()
    {
      var previous := selectedDivision;
      selectedDivision := division;
      if division != previous {
        selectedStore := "all";
      }
    }

    /** A store button: `'all'` or one of the offered stores. */
    method SelectStore(store: string)
      requires Valid()
      requires store == "all" || store in AvailableStores(clients, selectedDivision)
      modifies this
      ensures selectedStore == store
      ensures searchQuery == old(searchQuery) && selectedDivision == old(selectedDivision)
      ensures Valid()
    {
      selectedStore := store;
    }
  }

  /** Because of the reset, a valid selection never empties the list by itself: with an empty
      search, some client is shown whenever one is in the selected division. */
  lemma ValidSelectionShowsClients(clients: seq<Client>, division: string, store: string)
    requires store == "all" || store in AvailableStores(clients, division)
    requires exists i :: 0 <= i < |clients| && (division == "all" || clients[i].division == division)
    ensures FilteredClients(clients, "", division, store) != []
  {
    var i :| 0 <= i < |clients| && (division == "all" || clients[i].division == division)
                                 && (store == "all" || clients[i].store == store);
    EmptyContained(ToLower(clients[i].name));
    assert Matches(clients[i], "", division, store);
    assert clients[i] in FilteredClients(clients, "", division, store);
  }
}
