/** Python list primitives shared by the social-network model. */
module Common {

  datatype Option<T> = None | Some(value: T)

  /** Two maps with the same keys and the same value at every key are equal. */
  lemma MapsEqual<K, V>(m1: map<K, V>, m2: map<K, V>)
    requires m1.Keys == m2.Keys
    requires forall k :: k in m1 ==> m1[k] == m2[k]
    ensures m1 == m2
  {
  }

  /** `list.remove(x)` on a list that holds `x`: drops the first occurrence.
      The entity methods guard it with `x in list`, so on a list without
      `x` this returns the list unchanged; the unguarded call in the
      graph is modelled by `Graphs.Graph.RemoveEdgeAsWritten`. */
  function RemoveFirst<T(==)>(s: seq<T>, x: T): (r: seq<T>)
    ensures x !in s ==> r == s
    ensures x in s ==> |r| == |s| - 1
  {
    if s == [] then []
    else if s[0] == x then s[1..]
    else [s[0]] + RemoveFirst(s[1..], x)
  }

  /** The removal takes away exactly one copy of `x`, if there is one. */
  lemma {:induction false} RemoveFirstMultiset<T>(s: seq<T>, x: T)
    ensures multiset(RemoveFirst(s, x)) == multiset(s) - multiset{x}
  {
    if s != [] {
      assert s == [s[0]] + s[1..];
      RemoveFirstMultiset(s[1..], x);
    }
  }

  /** Appending `x` and then removing it gives the list back when `x` was
      not in it before. */
  lemma {:induction false} RemoveFirstOfAppended<T>(s: seq<T>, x: T)
    requires x !in s
    ensures RemoveFirst(s + [x], x) == s
  {
    if s != [] {
      assert (s + [x])[1..] == s[1..] + [x];
      RemoveFirstOfAppended(s[1..], x);
    }
  }

  /** A prefix without `x` is left alone by the removal. */
  lemma {:induction false} RemoveFirstSkipsPrefix<T>(s: seq<T>, t: seq<T>, x: T)
    requires x !in s
    ensures RemoveFirst(s + t, x) == s + RemoveFirst(t, x)
  {
    if s != [] {
      assert (s + t)[0] == s[0] != x;
      assert (s + t)[1..] == s[1..] + t;
      RemoveFirstSkipsPrefix(s[1..], t, x);
      assert RemoveFirst(s + t, x) == [s[0]] + RemoveFirst(s[1..] + t, x);
      assert [s[0]] + (s[1..] + RemoveFirst(t, x)) == s + RemoveFirst(t, x);
    } else {
      assert s + t == t && s + RemoveFirst(t, x) == RemoveFirst(t, x);
    }
  }

  /** Removal never brings in anything new. */
  lemma {:induction false} RemoveFirstWithin<T>(s: seq<T>, x: T)
    ensures forall y :: y in RemoveFirst(s, x) ==> y in s
  {
    RemoveFirstMultiset(s, x);
    forall y | y in RemoveFirst(s, x) ensures y in s {
      assert multiset(RemoveFirst(s, x))[y] > 0;
    }
  }

  /** Removing the first occurrence keeps the order of the other elements:
      the result is the list with the element at the first index of `x` cut out. */
  lemma {:induction false} RemoveFirstCutsFirstIndex<T>(s: seq<T>, x: T, i: nat)
    requires i < |s| && s[i] == x && x !in s[..i]
    ensures RemoveFirst(s, x) == s[..i] + s[i + 1..]
  {
    if i > 0 {
      assert s[1..][..i - 1] == s[1..i];
      assert x !in s[1..][..i - 1] by { assert forall j :: 0 <= j < i - 1 ==> s[1..][j] == s[..i][j + 1]; }
      RemoveFirstCutsFirstIndex(s[1..], x, i - 1);
      assert s[..i] == [s[0]] + s[1..][..i - 1];
      assert s[1..][i..] == s[i + 1..];
    }
  }
}
