/** The friendship graph (`Graph`): adjacency lists of user ids keyed by
    user id. An edge is stored as two directed entries, one in each list. */
module Graphs {
  import opened Common

  type Adjacency = map<int, seq<int>>

  /** `get_friends`: the adjacency list of `a`, empty for an unknown id. */
  function Neighbors(adj: Adjacency, a: int): (r: seq<int>)
  {
    if a in adj then adj[a] else []
  }

  /** One directed entry added: `b` appended to `a`'s list. */
  function Linked(adj: Adjacency, a: int, b: int): (r: Adjacency)
  {
    adj[a := Neighbors(adj, a) + [b]]
  }

  /** One directed entry removed: the first `b` in `a`'s list, if any. */
  function Unlinked(adj: Adjacency, a: int, b: int): (r: Adjacency)
  {
    if a in adj && b in adj[a] then adj[a := RemoveFirst(adj[a], b)] else adj
  }

  /** `add_edge`: `b` appended to `a`'s list, then `a` to `b`'s. */
  function WithEdge(adj: Adjacency, a: int, b: int): (r: Adjacency)
  {
    Linked(Linked(adj, a, b), b, a)
  }

  /** `remove_edge` with each side removed only where present. */
  function WithoutEdge(adj: Adjacency, a: int, b: int): (r: Adjacency)
  {
    Unlinked(Unlinked(adj, a, b), b, a)
  }

  /** `remove_edge` as the source writes it calls `list.remove` on every
      list whose key exists, which raises when the other id is not in it. */
  predicate RemoveEdgeRaises(adj: Adjacency, a: int, b: int)
  {
    (a in adj && b !in adj[a]) ||
    (var after := Unlinked(adj, a, b); b in after && a !in after[b])
  }

  /** Every directed entry has its reverse, as often as itself. */
  ghost predicate Symmetric(adj: Adjacency)
  {
    forall a, b :: multiset(Neighbors(adj, a))[b] == multiset(Neighbors(adj, b))[a]
  }

  lemma LinkedCounts(adj: Adjacency, a: int, b: int, x: int, y: int)
    ensures multiset(Neighbors(Linked(adj, a, b), x))[y] ==
            multiset(Neighbors(adj, x))[y] + (if x == a && y == b then 1 else 0)
  {
    if x == a {
      assert Neighbors(Linked(adj, a, b), x) == Neighbors(adj, a) + [b];
    }
  }

  lemma UnlinkedCounts(adj: Adjacency, a: int, b: int, x: int, y: int)
    ensures multiset(Neighbors(Unlinked(adj, a, b), x))[y] ==
            multiset(Neighbors(adj, x))[y] - (if x == a && y == b && b in Neighbors(adj, a) then 1 else 0)
  {
    RemoveFirstMultiset(Neighbors(adj, a), b);
  }

  /** Adding an edge keeps the graph symmetric. */
  lemma {:induction false} WithEdgeKeepsSymmetry(adj: Adjacency, a: int, b: int)
    requires Symmetric(adj)
    ensures Symmetric(WithEdge(adj, a, b))
  {
    var g := WithEdge(adj, a, b);
    forall x, y ensures multiset(Neighbors(g, x))[y] == multiset(Neighbors(g, y))[x] {
      LinkedCounts(Linked(adj, a, b), b, a, x, y);
      LinkedCounts(adj, a, b, x, y);
      LinkedCounts(Linked(adj, a, b), b, a, y, x);
      LinkedCounts(adj, a, b, y, x);
    }
  }

  /** Removing an edge keeps the graph symmetric: in a symmetric graph `b`
      is in `a`'s list exactly when `a` is in `b`'s, so both entries go or
      neither does. */
  lemma {:induction false} WithoutEdgeKeepsSymmetry(adj: Adjacency, a: int, b: int)
    requires Symmetric(adj)
    ensures Symmetric(WithoutEdge(adj, a, b))
  {
    var g1 := Unlinked(adj, a, b);
    var g := Unlinked(g1, b, a);
    assert multiset(Neighbors(adj, a))[b] == multiset(Neighbors(adj, b))[a];
    forall x, y ensures multiset(Neighbors(g, x))[y] == multiset(Neighbors(g, y))[x] {
      UnlinkedCounts(g1, b, a, x, y);
      UnlinkedCounts(adj, a, b, x, y);
      UnlinkedCounts(g1, b, a, y, x);
      UnlinkedCounts(adj, a, b, y, x);
      UnlinkedCounts(adj, a, b, b, a);
      assert multiset(Neighbors(adj, x))[y] == multiset(Neighbors(adj, y))[x];
    }
  }

  lemma NeighborsOfLinked(adj: Adjacency, a: int, b: int, x: int)
    ensures Neighbors(Linked(adj, a, b), x) == if x == a then Neighbors(adj, a) + [b] else Neighbors(adj, x)
  {
  }

  lemma NeighborsOfUnlinked(adj: Adjacency, a: int, b: int, x: int)
    ensures Neighbors(Unlinked(adj, a, b), x) == if x == a then RemoveFirst(Neighbors(adj, a), b) else Neighbors(adj, x)
  {
  }

  /** Adding an edge touches the entries of its two ends only. */
  lemma WithEdgeElsewhere(adj: Adjacency, a: int, b: int)
    ensures forall x :: x != a && x != b ==> Neighbors(WithEdge(adj, a, b), x) == Neighbors(adj, x)
    ensures forall x :: x in WithEdge(adj, a, b) && x != a && x != b ==> x in adj
  {
    forall x | x != a && x != b ensures Neighbors(WithEdge(adj, a, b), x) == Neighbors(adj, x) {
      NeighborsOfLinked(adj, a, b, x);
      NeighborsOfLinked(Linked(adj, a, b), b, a, x);
    }
  }

  /** Removing an edge touches the entries of its two ends only and drops
      no key. */
  lemma WithoutEdgeElsewhere(adj: Adjacency, a: int, b: int)
    ensures forall x :: x != a && x != b ==> Neighbors(WithoutEdge(adj, a, b), x) == Neighbors(adj, x)
    ensures WithoutEdge(adj, a, b).Keys == adj.Keys
  {
    forall x | x != a && x != b ensures Neighbors(WithoutEdge(adj, a, b), x) == Neighbors(adj, x) {
      NeighborsOfUnlinked(adj, a, b, x);
      NeighborsOfUnlinked(Unlinked(adj, a, b), b, a, x);
    }
  }

  /** Removing an edge right after adding it gives back every adjacency
      list, provided the two ids were not adjacent before. */
  lemma {:induction false} WithoutEdgeUndoesWithEdge(adj: Adjacency, a: int, b: int)
    requires b !in Neighbors(adj, a) && a !in Neighbors(adj, b)
    ensures forall x :: Neighbors(WithoutEdge(WithEdge(adj, a, b), a, b), x) == Neighbors(adj, x)
  {
    var g1 := Linked(adj, a, b);
    var g2 := Linked(g1, b, a);
    var g3 := Unlinked(g2, a, b);
    forall x ensures Neighbors(Unlinked(g3, b, a), x) == Neighbors(adj, x) {
      NeighborsOfLinked(adj, a, b, x);
      NeighborsOfLinked(g1, b, a, x);
      NeighborsOfUnlinked(g2, a, b, x);
      NeighborsOfUnlinked(g3, b, a, x);
      if x == a && x == b {
        NeighborsOfLinked(adj, a, b, b);
        NeighborsOfLinked(g1, b, a, a);
        var n := Neighbors(adj, a);
        RemoveFirstSkipsPrefix(n, [a, a], a);
        assert n + [a] + [a] == n + [a, a];
        assert RemoveFirst([a, a], a) == [a];
        RemoveFirstOfAppended(n, a);
      } else if x == a {
        NeighborsOfLinked(g1, b, a, a);
        NeighborsOfUnlinked(g2, a, b, a);
        RemoveFirstOfAppended(Neighbors(adj, a), b);
      } else if x == b {
        NeighborsOfLinked(adj, a, b, b);
        NeighborsOfUnlinked(g2, a, b, b);
        RemoveFirstOfAppended(Neighbors(adj, b), a);
      }
    }
  }

  class Graph {
    var adj: Adjacency

    constructor ()
      ensures adj == map[]
    {
      adj := map[];
    }

    method AddEdge(a: int, b: int)
      modifies this
      ensures adj == WithEdge(old(adj), a, b)
    {
      adj := adj[a := GetFriends(a) + [b]];
      adj := adj[b := GetFriends(b) + [a]];
    }

    /** `remove_edge` as the source writes it; `raised` reports the
        `ValueError` of `list.remove`. When the second removal raises, the
        first has already happened. */
    method RemoveEdgeAsWritten(a: int, b: int) returns (raised: bool)
      modifies this
      ensures raised == RemoveEdgeRaises(old(adj), a, b)
      ensures !raised ==> adj == WithoutEdge(old(adj), a, b)
      ensures raised ==> adj == Unlinked(old(adj), a, b)
    {
      if a in adj {
        if b !in adj[a] {
          return true;
        }
        adj := adj[a := RemoveFirst(adj[a], b)];
      }
      if b in adj {
        if a !in adj[b] {
          return true;
        }
        adj := adj[b := RemoveFirst(adj[b], a)];
      }
      raised := false;
    }

    /** `remove_edge` with each side removed only where it is present. */
    method RemoveEdge(a: int, b: int)
      modifies this
      ensures adj == WithoutEdge(old(adj), a, b)
    {
      if a in adj && b in adj[a] {
        adj := adj[a := RemoveFirst(adj[a], b)];
      }
      if b in adj && a in adj[b] {
        adj := adj[b := RemoveFirst(adj[b], a)];
      }
    }

    /** `get_friends`: the stored list, or the empty list the
        `defaultdict` lookup supplies for an unknown id. */
    function GetFriends(a: int): (friends: seq<int>)
      reads this
      ensures a in adj ==> friends == adj[a]
      ensures a !in adj ==> friends == []
    {
      Neighbors(adj, a)
    }
  }

  /** The source's `remove_edge` fails on a repeated removal: after
      `add_edge(1, 2)` and one `remove_edge(1, 2)` both keys remain with
      empty lists, and a second `remove_edge(1, 2)` raises. The corrected
      removal leaves the graph as it is. */
  lemma {:induction false} SecondRemoveEdgeRaises()
    ensures var g1 := WithEdge(map[], 1, 2);
            var g2 := WithoutEdge(g1, 1, 2);
            !RemoveEdgeRaises(g1, 1, 2) && g2 == map[1 := [], 2 := []] &&
            RemoveEdgeRaises(g2, 1, 2) && WithoutEdge(g2, 1, 2) == g2
  {
    var g0: Adjacency := map[];
    var g1 := WithEdge(g0, 1, 2);
    assert Neighbors(g0, 1) == [];
    assert Neighbors(g0, 1) + [2] == [2];
    var h := Linked(g0, 1, 2);
    assert h == map[1 := [2]];
    assert Neighbors(h, 2) == [];
    assert Neighbors(h, 2) + [1] == [1];
    assert g1 == map[1 := [2], 2 := [1]];
    assert Unlinked(g1, 1, 2) == map[1 := [], 2 := [1]];
  }
}
