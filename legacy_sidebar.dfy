/** The older client list panel (Sidebar.tsx): unsorted filter options, a store list that ignores
    the division, no store reset, and the two-letter avatar. */
module LegacySidebar {
  import opened Types
  import opened Text
  import opened Lists
  import Sidebar

  /** `filter(Boolean)` on strings: only the empty string is dropped. */
  predicate Present(s: string) {
    s != ""
  }

  /** `Array.from(new Set(values.filter(Boolean)))`: each non-empty value once, in the order in
      which it first occurs. */
  function FirstOccurrences(values: seq<string>): (r: seq<string>)
    ensures NoDuplicates(r)
    ensures forall v :: v in r <==> v in values && v != ""
    ensures forall i, j :: 0 <= i < j < |r| ==>
              r[i] in values && r[j] in values && FirstIndex(values, r[i]) < FirstIndex(values, r[j])
  {
    var kept := Filter(values, Present);
    var r := Distinct(kept);
    DistinctOrder(kept);
    forall i, j | 0 <= i < j < |r|
      ensures FirstIndex(values, r[i]) < FirstIndex(values, r[j])
    {
      FilterFirstIndex(values, Present, r[i], r[j]);
    }
    r
  }

  /** The division options: each non-empty division once, in order of first appearance; a
      division made only of spaces is kept. */
  function Divisions(clients: seq<Client>): (r: seq<string>)
    ensures NoDuplicates(r)
    ensures forall d :: d in r <==>
              d != "" && exists i :: 0 <= i < |clients| && clients[i].division == d
  {
    var values := Map(clients, Sidebar.DivisionOf);
    assert forall d :: d in values <==> exists i :: 0 <= i < |clients| && clients[i].division == d
    by {
      forall d | d in values ensures exists i :: 0 <= i < |clients| && clients[i].division == d {
        var i :| 0 <= i < |values| && values[i] == d;
        assert clients[i].division == d;
      }
    }
    FirstOccurrences(values)
  }

  /** The store options: each non-empty store of any client, whatever division is selected. */
  function Stores(clients: seq<Client>): (r: seq<string>)
    ensures NoDuplicates(r)
    ensures forall s :: s in r <==>
              s != "" && exists i :: 0 <= i < |clients| && clients[i].store == s
  {
    var values := Map(clients, Sidebar.StoreOf);
    assert forall s :: s in values <==> exists i :: 0 <= i < |clients| && clients[i].store == s
    by {
      forall s | s in values ensures exists i :: 0 <= i < |clients| && clients[i].store == s {
        var i :| 0 <= i < |values| && values[i] == s;
        assert clients[i].store == s;
      }
    }
    FirstOccurrences(values)
  }

  /** The search matches the name, the code or the city, all lower-cased. */
  predicate Matches(c: Client, query: string, division: string, store: string) {
    var q := ToLower(query);
    && (Contains(ToLower(c.name), q) || Contains(ToLower(c.code), q) || Contains(ToLower(c.city), q))
    && (division == "all" || c.division == division)
    && (store == "all" || c.store == store)
  }

  /** The visible list: the clients that pass the filter, in their original order. */
  function FilteredClients(clients: seq<Client>, query: string, division: string, store: string)
    : (r: seq<Client>)
    ensures IsSubseq(r, clients)
    ensures forall c :: c in r <==> c in clients && Matches(c, query, division, store)
  {
    FilterIsSubseq(clients, (c: Client) => Matches(c, query, division, store));
    Filter(clients, (c: Client) => Matches(c, query, division, store))
  }

  /** Both panels filter the same way; only their option lists differ. */
  lemma SameFilterAsSidebar(clients: seq<Client>, query: string, division: string, store: string)
    ensures FilteredClients(clients, query, division, store)
         == Sidebar.FilteredClients(clients, query, division, store)
  {
    FilterSamePredicate(clients, (c: Client) => Matches(c, query, division, store),
                        (c: Client) => Sidebar.Matches(c, query, division, store));
  }

  /** Nothing resets the store when the division changes, so a division and a store that no
      client shares leave the list empty, whatever the search. */
  lemma DisjointSelectionEmpty(clients: seq<Client>, query: string, division: string, store: string)
    requires division != "all" && store != "all"
    requires forall i :: 0 <= i < |clients| ==>
               clients[i].division != division || clients[i].store != store
    ensures FilteredClients(clients, query, division, store) == []
  {
    FilterNone(clients, (c: Client) => Matches(c, query, division, store));
  }

  /** The avatar text: `name.substring(0, 2).toUpperCase()`. */
  function AvatarInitials(name: string): (r: string)
    ensures |r| == if |name| < 2 then |name| else 2
    ensures r == ToUpper(name)[..|r|]
  {
    ToUpper(name[..if |name| < 2 then |name| else 2])
  }
}
