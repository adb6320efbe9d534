/** The abstract value of the user binary search tree: an inductive tree whose
    nodes carry a key (the user id) and a value (the user). The linked nodes
    of module Bst are proved to follow these functions step by step. */
module BstTree {

  datatype Tree<T> = Leaf | Node(left: Tree<T>, key: int, value: T, right: Tree<T>)

  function Keys<T>(t: Tree<T>): (r: set<int>)
  {
    match t
    case Leaf => {}
    case Node(l, k, _, r) => Keys(l) + {k} + Keys(r)
  }

  /** The key-to-value map the tree stores. */
  function Contents<T>(t: Tree<T>): (m: map<int, T>)
    ensures m.Keys == Keys(t)
  {
    match t
    case Leaf => map[]
    case Node(l, k, v, r) => (Contents(l) + Contents(r))[k := v]
  }

  /** Search-tree ordering: every key on the left is smaller than the node's
      key, every key on the right is larger. */
  ghost predicate IsBst<T>(t: Tree<T>)
  {
    match t
    case Leaf => true
    case Node(l, k, _, r) =>
      IsBst(l) && IsBst(r) &&
      (forall x :: x in Keys(l) ==> x < k) &&
      (forall x :: x in Keys(r) ==> k < x)
  }

  /** Keys in in-order walk order. */
  function InOrder<T>(t: Tree<T>): (r: seq<int>)
  {
    match t
    case Leaf => []
    case Node(l, k, _, r) => InOrder(l) + [k] + InOrder(r)
  }

  ghost predicate StrictlyAscending(s: seq<int>)
  {
    forall i, j :: 0 <= i < j < |s| ==> s[i] < s[j]
  }

  /** `insert`/`_insert_recursive`: descend by comparing ids and hang a new
      leaf where the search falls off; an equal id stops the descent and
      leaves the tree as it is. */
  function Insert<T>(t: Tree<T>, k: int, v: T): (r: Tree<T>)
  {
    match t
    case Leaf => Node(Leaf, k, v, Leaf)
    case Node(l, nk, nv, r) =>
      if k < nk then Node(Insert(l, k, v), nk, nv, r)
      else if k > nk then Node(l, nk, nv, Insert(r, k, v))
      else t
  }

  /** The entry of the leftmost node, reached by following left links. */
  function MinEntry<T>(t: Tree<T>): (r: (int, T))
    requires t.Node?
  {
    if t.left.Leaf? then (t.key, t.value) else MinEntry(t.left)
  }

  /** `_remove_recursive` with the in-order successor promoted in the
      two-children case: the node takes the successor's entry and the
      successor is removed from the right subtree. */
  function Remove<T>(t: Tree<T>, k: int): (r: Tree<T>)
  {
    match t
    case Leaf => Leaf
    case Node(l, nk, nv, r) =>
      if k < nk then Node(Remove(l, k), nk, nv, r)
      else if k > nk then Node(l, nk, nv, Remove(r, k))
      else if l.Leaf? then r
      else if r.Leaf? then l
      else
        var (mk, mv) := MinEntry(r);
        Node(l, mk, mv, Remove(r, mk))
  }

  /** The removal as the source writes it raises exactly when the descent
      for `k` meets the node holding `k` with both children present. */
  predicate RemoveRaises<T>(t: Tree<T>, k: int)
  {
    match t
    case Leaf => false
    case Node(l, nk, _, r) =>
      if k < nk then RemoveRaises(l, k)
      else if k > nk then RemoveRaises(r, k)
      else l.Node? && r.Node?
  }

  // ---------------------------------------------------------------------
  // Insertion

  lemma {:induction false} InsertKeys<T>(t: Tree<T>, k: int, v: T)
    ensures Keys(Insert(t, k, v)) == Keys(t) + {k}
  {
    match t
    case Leaf =>
    case Node(l, nk, nv, r) =>
      if k < nk { InsertKeys(l, k, v); }
      else if k > nk { InsertKeys(r, k, v); }
  }

  /** Insertion keeps the search-tree ordering. */
  lemma {:induction false} InsertKeepsOrder<T>(t: Tree<T>, k: int, v: T)
    requires IsBst(t)
    ensures IsBst(Insert(t, k, v))
  {
    match t
    case Leaf =>
    case Node(l, nk, nv, r) =>
      if k < nk { InsertKeepsOrder(l, k, v); InsertKeys(l, k, v); }
      else if k > nk { InsertKeepsOrder(r, k, v); InsertKeys(r, k, v); }
  }

  /** Inserting an id the tree already holds changes nothing: the first
      registration of an id stays in the tree. */
  lemma {:induction false} InsertPresentIsIdentity<T>(t: Tree<T>, k: int, v: T)
    requires IsBst(t) && k in Keys(t)
    ensures Insert(t, k, v) == t
  {
    match t
    case Node(l, nk, nv, r) =>
      if k < nk { InsertPresentIsIdentity(l, k, v); }
      else if k > nk { InsertPresentIsIdentity(r, k, v); }
  }

  /** Inserting a new id adds exactly that entry. */
  lemma {:induction false} InsertNewContents<T>(t: Tree<T>, k: int, v: T)
    requires IsBst(t) && k !in Keys(t)
    ensures Contents(Insert(t, k, v)) == Contents(t)[k := v]
  {
    match t
    case Leaf =>
    case Node(l, nk, nv, r) =>
      var both := Contents(l) + Contents(r);
      if k < nk {
        InsertNewContents(l, k, v);
        assert k !in Contents(r);
        calc {
          Contents(Insert(t, k, v));
          (Contents(Insert(l, k, v)) + Contents(r))[nk := nv];
          (Contents(l)[k := v] + Contents(r))[nk := nv];
          { UpdateLeftOfUnion(Contents(l), Contents(r), k, v); }
          both[k := v][nk := nv];
          { UpdatesCommute(both, k, v, nk, nv); }
          Contents(t)[k := v];
        }
      } else {
        InsertNewContents(r, k, v);
        calc {
          Contents(Insert(t, k, v));
          (Contents(l) + Contents(Insert(r, k, v)))[nk := nv];
          (Contents(l) + Contents(r)[k := v])[nk := nv];
          { UpdateRightOfUnion(Contents(l), Contents(r), k, v); }
          both[k := v][nk := nv];
          { UpdatesCommute(both, k, v, nk, nv); }
          Contents(t)[k := v];
        }
      }
  }

  // Map identities used by the contents lemmas.

  lemma UpdateLeftOfUnion<T>(a: map<int, T>, b: map<int, T>, k: int, v: T)
    requires k !in b
    ensures a[k := v] + b == (a + b)[k := v]
  {
  }

  lemma UpdateRightOfUnion<T>(a: map<int, T>, b: map<int, T>, k: int, v: T)
    ensures a + b[k := v] == (a + b)[k := v]
  {
  }

  lemma UpdatesCommute<T>(m: map<int, T>, k1: int, v1: T, k2: int, v2: T)
    requires k1 != k2
    ensures m[k1 := v1][k2 := v2] == m[k2 := v2][k1 := v1]
  {
  }

  lemma RemoveFromLeftOfUnion<T>(a: map<int, T>, b: map<int, T>, k: int)
    requires k !in b
    ensures (a - {k}) + b == (a + b) - {k}
  {
  }

  lemma RemoveFromRightOfUnion<T>(a: map<int, T>, b: map<int, T>, k: int)
    requires k !in a
    ensures a + (b - {k}) == (a + b) - {k}
  {
  }

  lemma RemoveCommutesWithUpdate<T>(m: map<int, T>, k: int, k2: int, v2: T)
    requires k != k2
    ensures m[k2 := v2] - {k} == (m - {k})[k2 := v2]
  {
  }

  lemma RestoreEntry<T>(a: map<int, T>, b: map<int, T>, k: int)
    requires k in b && k !in a
    ensures (a + (b - {k}))[k := b[k]] == a + b
  {
  }

  lemma DropFreshEntry<T>(m: map<int, T>, k: int, v: T)
    requires k !in m
    ensures m[k := v] - {k} == m
  {
  }

  // ---------------------------------------------------------------------
  // Minimum and removal

  /** In a search tree the leftmost entry is the smallest key and is stored. */
  lemma {:induction false} MinEntryIsLeast<T>(t: Tree<T>)
    requires t.Node? && IsBst(t)
    ensures MinEntry(t).0 in Contents(t) && Contents(t)[MinEntry(t).0] == MinEntry(t).1
    ensures forall x :: x in Keys(t) ==> MinEntry(t).0 <= x
  {
    if t.left.Node? {
      MinEntryIsLeast(t.left);
    }
  }

  lemma {:induction false} RemoveKeys<T>(t: Tree<T>, k: int)
    requires IsBst(t)
    ensures Keys(Remove(t, k)) == Keys(t) - {k}
  {
    match t
    case Leaf =>
    case Node(l, nk, nv, r) =>
      if k < nk { RemoveKeys(l, k); }
      else if k > nk { RemoveKeys(r, k); }
      else if l.Node? && r.Node? {
        MinEntryIsLeast(r);
        RemoveKeys(r, MinEntry(r).0);
      }
  }

  /** Removal keeps the search-tree ordering. */
  lemma {:induction false} RemoveKeepsOrder<T>(t: Tree<T>, k: int)
    requires IsBst(t)
    ensures IsBst(Remove(t, k))
    decreases t, 1
  {
    match t
    case Leaf =>
    case Node(l, nk, nv, r) =>
      if k < nk { RemoveKeepsOrder(l, k); RemoveKeys(l, k); }
      else if k > nk { RemoveKeepsOrder(r, k); RemoveKeys(r, k); }
      else if l.Node? && r.Node? { RemoveRootKeepsOrder(t); }
  }

  /** The case of `RemoveKeepsOrder` where the node with two children
      itself holds the id: the successor's key is above every key on the
      left and below every other key on the right. */
  lemma {:induction false} RemoveRootKeepsOrder<T>(t: Tree<T>)
    requires t.Node? && t.left.Node? && t.right.Node? && IsBst(t)
    ensures IsBst(Remove(t, t.key))
    decreases t, 0
  {
    var Node(l, k, v, r) := t;
    var (mk, mv) := MinEntry(r);
    MinEntryIsLeast(r);
    RemoveKeepsOrder(r, mk);
    RemoveKeys(r, mk);
    var r' := Remove(r, mk);
    assert Remove(t, k) == Node(l, mk, mv, r');
    assert k < mk by { assert mk in Keys(r); }
    forall x | x in Keys(l) ensures x < mk {
      assert x < k;
    }
    forall x | x in Keys(r') ensures mk < x {
      assert x in Keys(r) && x != mk;
    }
  }

  /** Removal drops exactly the entry for `k` (and nothing when `k` is absent). */
  lemma {:induction false} RemoveContents<T>(t: Tree<T>, k: int)
    requires IsBst(t)
    ensures Contents(Remove(t, k)) == Contents(t) - {k}
    decreases t, 1
  {
    match t
    case Leaf =>
    case Node(l, nk, nv, r) =>
      if k < nk {
        RemoveContents(l, k);
        RemoveFromLeftOfUnion(Contents(l), Contents(r), k);
        RemoveCommutesWithUpdate(Contents(l) + Contents(r), k, nk, nv);
      } else if k > nk {
        RemoveContents(r, k);
        RemoveFromRightOfUnion(Contents(l), Contents(r), k);
        RemoveCommutesWithUpdate(Contents(l) + Contents(r), k, nk, nv);
      } else {
        RemoveRootContents(t);
      }
  }

  /** The case of `RemoveContents` where the node itself holds the id. */
  lemma {:induction false} RemoveRootContents<T>(t: Tree<T>)
    requires t.Node? && IsBst(t)
    ensures Contents(Remove(t, t.key)) == Contents(t) - {t.key}
    decreases t, 0
  {
    var Node(l, k, v, r) := t;
    var both := Contents(l) + Contents(r);
    assert k !in both;
    DropFreshEntry(both, k, v);
    if l.Leaf? {
      assert both == Contents(r);
    } else if r.Leaf? {
      assert both == Contents(l);
    } else {
      var (mk, mv) := MinEntry(r);
      MinEntryIsLeast(r);
      RemoveContents(r, mk);
      RestoreEntry(Contents(l), Contents(r), mk);
    }
  }

  /** Removing an absent id leaves the tree unchanged. */
  lemma {:induction false} RemoveAbsentIsIdentity<T>(t: Tree<T>, k: int)
    requires IsBst(t) && k !in Keys(t)
    ensures Remove(t, k) == t
    ensures !RemoveRaises(t, k)
  {
    match t
    case Leaf =>
    case Node(l, nk, nv, r) =>
      if k < nk { RemoveAbsentIsIdentity(l, k); }
      else { RemoveAbsentIsIdentity(r, k); }
  }

  /** The as-written removal only raises on a stored id. */
  lemma {:induction false} RemoveRaisesOnlyOnStoredKey<T>(t: Tree<T>, k: int)
    requires RemoveRaises(t, k)
    ensures k in Keys(t)
  {
    match t
    case Node(l, nk, nv, r) =>
      if k < nk { RemoveRaisesOnlyOnStoredKey(l, k); }
      else if k > nk { RemoveRaisesOnlyOnStoredKey(r, k); }
  }

  // ---------------------------------------------------------------------
  // In-order traversal

  /** The in-order walk of a search tree lists its keys strictly ascending,
      each stored key exactly once. */
  lemma {:induction false} InOrderAscending<T>(t: Tree<T>)
    requires IsBst(t)
    ensures StrictlyAscending(InOrder(t))
    ensures forall x :: x in InOrder(t) <==> x in Keys(t)
  {
    match t
    case Leaf =>
    case Node(l, k, v, r) =>
      InOrderAscending(l);
      InOrderAscending(r);
      var s := InOrder(l) + [k] + InOrder(r);
      forall i, j | 0 <= i < j < |s| ensures s[i] < s[j] {
        var a, b := |InOrder(l)|, |InOrder(l)| + 1;
        if i < a && j >= a {
          assert s[i] in InOrder(l);
          assert j == a || s[j] in InOrder(r);
        } else if i == a {
          assert s[j] == InOrder(r)[j - b];
          assert s[j] in InOrder(r);
        } else if i > a {
          assert s[i] == InOrder(r)[i - b] && s[j] == InOrder(r)[j - b];
        }
      }
  }

  // ---------------------------------------------------------------------
  // A worked example

  /** Ids 5, 3, 8, 1 and 4 inserted in this order, each with a name. */
  function SampleTree(): (t: Tree<string>)
  {
    Insert(Insert(Insert(Insert(Insert(Leaf, 5, "e"), 3, "c"), 8, "h"), 1, "a"), 4, "d")
  }

  /** In the sample tree the node holding id 3 has two children: the
      removal as the source writes it raises there, while the corrected
      removal promotes the successor 4 and keeps the walk ascending. */
  lemma SampleRemoval()
    ensures SampleTree() == Node(Node(Node(Leaf, 1, "a", Leaf), 3, "c", Node(Leaf, 4, "d", Leaf)), 5, "e", Node(Leaf, 8, "h", Leaf))
    ensures InOrder(SampleTree()) == [1, 3, 4, 5, 8]
    ensures RemoveRaises(SampleTree(), 3)
    ensures Remove(SampleTree(), 3) == Node(Node(Node(Leaf, 1, "a", Leaf), 4, "d", Leaf), 5, "e", Node(Leaf, 8, "h", Leaf))
    ensures InOrder(Remove(SampleTree(), 3)) == [1, 4, 5, 8]
  {
  }
}
