/** Friendships are recorded twice in the social network: as `User`
    references in each user's friend list and as ids in the friendship
    graph. This module states when the two records agree (`InStep`) and
    proves which operations of the network keep them so. */
module Friendship {
  import opened Common
  import opened Entities
  import opened Graphs

  /** The network's `users` dictionary: users by id. */
  type Directory = map<int, User>

  /** Each registered user's friend list, by the user's id. */
  type FriendLists = map<int, seq<User>>

  /** `v` is the user the directory holds under `v`'s own id. */
  ghost predicate Registered(users: Directory, v: User)
  {
    v.userId in users && users[v.userId] == v
  }

  /** The friend lists and the graph record the same friendships: every
      friend is a registered user, a registered user's graph entry lists the
      ids of its friend list in the same order, ids nobody holds have empty
      entries, and every edge is stored in both directions. */
  ghost predicate InStep(users: Directory, friends: FriendLists, adj: Adjacency)
  {
    friends.Keys == users.Keys &&
    FriendsRegistered(users, friends) &&
    ListsMatch(users, friends, adj) &&
    StaleEntriesEmpty(users, adj) &&
    Symmetric(adj)
  }

  ghost predicate FriendsRegistered(users: Directory, friends: FriendLists)
  {
    forall a, v :: a in friends && v in friends[a] ==> Registered(users, v)
  }

  ghost predicate ListsMatch(users: Directory, friends: FriendLists, adj: Adjacency)
    requires friends.Keys == users.Keys
  {
    forall a :: a in users ==> Neighbors(adj, a) == Ids(friends[a])
  }

  ghost predicate StaleEntriesEmpty(users: Directory, adj: Adjacency)
  {
    forall a :: a in adj && a !in users ==> adj[a] == []
  }

  /** `ub` appended to `ua`'s friend list, then `ua` to `ub`'s. */
  function Befriended(friends: FriendLists, ua: User, ub: User): (r: FriendLists)
    requires ua.userId in friends && ub.userId in friends
    ensures r.Keys == friends.Keys
  {
    var f := friends[ua.userId := friends[ua.userId] + [ub]];
    f[ub.userId := f[ub.userId] + [ua]]
  }

  /** The first `ub` removed from `ua`'s friend list, then the first `ua`
      from `ub`'s. */
  function Unfriended(friends: FriendLists, ua: User, ub: User): (r: FriendLists)
    requires ua.userId in friends && ub.userId in friends
    ensures r.Keys == friends.Keys
  {
    var f := friends[ua.userId := RemoveFirst(friends[ua.userId], ub)];
    f[ub.userId := RemoveFirst(f[ub.userId], ua)]
  }

  /** A user in a list has its id among the list's ids. */
  lemma IdIn(s: seq<User>, v: User)
    requires v in s
    ensures v.userId in Ids(s)
  {
    var i :| 0 <= i < |s| && s[i] == v;
    assert Ids(s)[i] == v.userId;
  }

  /** In step, a registered user lists another registered user as a
      friend exactly when the graph lists the other's id among its
      neighbours. */
  lemma FriendIffNeighbor(users: Directory, friends: FriendLists, adj: Adjacency, ua: User, ub: User)
    requires InStep(users, friends, adj) && Registered(users, ua) && Registered(users, ub)
    ensures ub in friends[ua.userId] <==> ub.userId in Neighbors(adj, ua.userId)
  {
    var s := friends[ua.userId];
    assert Neighbors(adj, ua.userId) == Ids(s);
    if ub in s {
      IdIn(s, ub);
    }
    if ub.userId in Ids(s) {
      var i :| 0 <= i < |Ids(s)| && Ids(s)[i] == ub.userId;
      assert s[i] in s && s[i].userId == ub.userId;
      assert Registered(users, s[i]);
    }
  }

  /** In step, friendship is mutual. */
  lemma FriendshipIsMutual(users: Directory, friends: FriendLists, adj: Adjacency, ua: User, ub: User)
    requires InStep(users, friends, adj) && Registered(users, ua) && Registered(users, ub)
    ensures ub in friends[ua.userId] <==> ua in friends[ub.userId]
  {
    FriendIffNeighbor(users, friends, adj, ua, ub);
    FriendIffNeighbor(users, friends, adj, ub, ua);
    assert multiset(Neighbors(adj, ua.userId))[ub.userId] == multiset(Neighbors(adj, ub.userId))[ua.userId];
  }

  /** One graph entry after `add_friendship`, against the friend list of
      the same user. */
  lemma BefriendEntry(friends: FriendLists, adj: Adjacency, ua: User, ub: User, x: int)
    requires ua.userId in friends && ub.userId in friends && x in friends
    requires Neighbors(adj, x) == Ids(friends[x])
    ensures Neighbors(WithEdge(adj, ua.userId, ub.userId), x) == Ids(Befriended(friends, ua, ub)[x])
  {
    var a, b := ua.userId, ub.userId;
    assert Ids([ub]) == [b] && Ids([ua]) == [a];
    NeighborsOfLinked(adj, a, b, x);
    NeighborsOfLinked(Linked(adj, a, b), b, a, x);
    if x == a && x == b {
      IdsOfAppend(friends[a], [ub]);
      IdsOfAppend(friends[a] + [ub], [ua]);
    } else if x == a {
      IdsOfAppend(friends[a], [ub]);
    } else if x == b {
      IdsOfAppend(friends[b], [ua]);
    }
  }

  lemma BefriendKeepsRegistered(users: Directory, friends: FriendLists, ua: User, ub: User)
    requires ua.userId in friends && ub.userId in friends
    requires FriendsRegistered(users, friends) && Registered(users, ua) && Registered(users, ub)
    ensures FriendsRegistered(users, Befriended(friends, ua, ub))
  {
    var f := Befriended(friends, ua, ub);
    forall x, v | x in f && v in f[x] ensures Registered(users, v) {
      if v !in friends[x] {
        assert v == ua || v == ub;
      }
    }
  }

  lemma StaleEntriesUntouched(users: Directory, adj: Adjacency, g: Adjacency, a: int, b: int)
    requires StaleEntriesEmpty(users, adj) && a in users && b in users
    requires forall x :: x != a && x != b ==> Neighbors(g, x) == Neighbors(adj, x)
    requires forall x :: x in g && x != a && x != b ==> x in adj
    ensures StaleEntriesEmpty(users, g)
  {
    forall x | x in g && x !in users ensures g[x] == [] {
      assert Neighbors(g, x) == Neighbors(adj, x);
    }
  }

  lemma BefriendListsMatch(users: Directory, friends: FriendLists, adj: Adjacency, ua: User, ub: User)
    requires friends.Keys == users.Keys && ListsMatch(users, friends, adj)
    requires ua.userId in users && ub.userId in users
    ensures ListsMatch(users, Befriended(friends, ua, ub), WithEdge(adj, ua.userId, ub.userId))
  {
    forall x | x in users
      ensures Neighbors(WithEdge(adj, ua.userId, ub.userId), x) == Ids(Befriended(friends, ua, ub)[x])
    {
      BefriendEntry(friends, adj, ua, ub, x);
    }
  }

  /** `add_friendship` keeps the two records in step. */
  lemma {:induction false} BefriendKeepsInStep(users: Directory, friends: FriendLists, adj: Adjacency, ua: User, ub: User)
    requires InStep(users, friends, adj) && Registered(users, ua) && Registered(users, ub)
    ensures InStep(users, Befriended(friends, ua, ub), WithEdge(adj, ua.userId, ub.userId))
  {
    var a, b := ua.userId, ub.userId;
    BefriendListsMatch(users, friends, adj, ua, ub);
    BefriendKeepsRegistered(users, friends, ua, ub);
    WithEdgeElsewhere(adj, a, b);
    StaleEntriesUntouched(users, adj, WithEdge(adj, a, b), a, b);
    WithEdgeKeepsSymmetry(adj, a, b);
  }

  /** One graph entry after `remove_friendship`, against the friend list of
      the same user; `ua` and `ub` are the only users in the lists with
      their ids. */
  lemma UnfriendEntry(friends: FriendLists, adj: Adjacency, ua: User, ub: User, x: int)
    requires ua.userId in friends && ub.userId in friends && x in friends
    requires Neighbors(adj, x) == Ids(friends[x])
    requires forall v :: v in friends[x] && v.userId == ub.userId ==> v == ub
    requires forall v :: v in friends[x] && v.userId == ua.userId ==> v == ua
    ensures Neighbors(WithoutEdge(adj, ua.userId, ub.userId), x) == Ids(Unfriended(friends, ua, ub)[x])
  {
    var a, b := ua.userId, ub.userId;
    var g1 := Unlinked(adj, a, b);
    NeighborsOfUnlinked(adj, a, b, x);
    NeighborsOfUnlinked(g1, b, a, x);
    if x == a && x == b {
      IdsOfRemoveFirst(friends[a], ub);
      RemoveFirstWithin(friends[a], ub);
      IdsOfRemoveFirst(RemoveFirst(friends[a], ub), ua);
    } else if x == a {
      IdsOfRemoveFirst(friends[a], ub);
    } else if x == b {
      IdsOfRemoveFirst(friends[b], ua);
    }
  }

  lemma UnfriendKeepsRegistered(users: Directory, friends: FriendLists, ua: User, ub: User)
    requires ua.userId in friends && ub.userId in friends
    requires FriendsRegistered(users, friends)
    ensures FriendsRegistered(users, Unfriended(friends, ua, ub))
  {
    var a := ua.userId;
    var f := Unfriended(friends, ua, ub);
    forall x, v | x in f && v in f[x] ensures Registered(users, v) {
      RemoveFirstWithin(friends[x], ub);
      RemoveFirstWithin(friends[x], ua);
      if x == a {
        RemoveFirstWithin(RemoveFirst(friends[a], ub), ua);
      }
    }
  }

  lemma UnfriendListsMatch(users: Directory, friends: FriendLists, adj: Adjacency, ua: User, ub: User)
    requires friends.Keys == users.Keys && ListsMatch(users, friends, adj)
    requires FriendsRegistered(users, friends) && Registered(users, ua) && Registered(users, ub)
    ensures ListsMatch(users, Unfriended(friends, ua, ub), WithoutEdge(adj, ua.userId, ub.userId))
  {
    forall x | x in users
      ensures Neighbors(WithoutEdge(adj, ua.userId, ub.userId), x) == Ids(Unfriended(friends, ua, ub)[x])
    {
      forall v | v in friends[x] ensures Registered(users, v) {
      }
      UnfriendEntry(friends, adj, ua, ub, x);
    }
  }

  /** `remove_friendship` (with the corrected graph removal) keeps the two
      records in step. */
  lemma {:induction false} UnfriendKeepsInStep(users: Directory, friends: FriendLists, adj: Adjacency, ua: User, ub: User)
    requires InStep(users, friends, adj) && Registered(users, ua) && Registered(users, ub)
    ensures InStep(users, Unfriended(friends, ua, ub), WithoutEdge(adj, ua.userId, ub.userId))
  {
    var a, b := ua.userId, ub.userId;
    UnfriendListsMatch(users, friends, adj, ua, ub);
    UnfriendKeepsRegistered(users, friends, ua, ub);
    WithoutEdgeElsewhere(adj, a, b);
    StaleEntriesUntouched(users, adj, WithoutEdge(adj, a, b), a, b);
    WithoutEdgeKeepsSymmetry(adj, a, b);
  }

  /** `add_user` keeps the records in step exactly when the new user comes
      with an empty friend list: nothing is added to the graph for it. */
  lemma AddUserInStep(users: Directory, friends: FriendLists, adj: Adjacency, u: User, uf: seq<User>)
    requires InStep(users, friends, adj) && u.userId !in users
    ensures InStep(users[u.userId := u], friends[u.userId := uf], adj) <==> uf == []
  {
    var users' := users[u.userId := u];
    var friends' := friends[u.userId := uf];
    assert Neighbors(adj, u.userId) == [];
    if uf == [] {
      forall a, v | a in friends' && v in friends'[a] ensures Registered(users', v) {
        assert Registered(users, v);
      }
    }
  }

  /** Removing a user without friends from the directory keeps the records
      in step: in a symmetric graph nobody lists the user either. */
  lemma RemoveIsolatedUserKeepsInStep(users: Directory, friends: FriendLists, adj: Adjacency, id: int)
    requires InStep(users, friends, adj) && id in users && friends[id] == []
    ensures InStep(users - {id}, friends - {id}, adj)
  {
    var users' := users - {id};
    var friends' := friends - {id};
    assert Neighbors(adj, id) == [];
    forall a, v | a in friends' && v in friends'[a] ensures Registered(users', v) {
      assert Registered(users, v);
    }
  }

  /** Removing a user with a friend from the directory alone leaves a
      record of that friendship behind: either the user's own non-empty
      graph entry (a friend of itself) or the friend's list still holding
      the removed user. */
  lemma RemoveBefriendedUserBreaksInStep(users: Directory, friends: FriendLists, adj: Adjacency, id: int)
    requires InStep(users, friends, adj) && id in users && friends[id] != []
    ensures !InStep(users - {id}, friends - {id}, adj)
  {
    var users' := users - {id};
    var friends' := friends - {id};
    var v := friends[id][0];
    assert v in friends[id];
    assert Registered(users, v);
    assert Neighbors(adj, id) == Ids(friends[id]);
    IdIn(friends[id], v);
    if v.userId == id {
      assert adj[id] != [];
    } else {
      var x := v.userId;
      assert multiset(Neighbors(adj, id))[x] == multiset(Neighbors(adj, x))[id];
      assert Neighbors(adj, x) == Ids(friends[x]);
      var i :| 0 <= i < |Ids(friends[x])| && Ids(friends[x])[i] == id;
      var w := friends[x][i];
      assert w in friends'[x] && !Registered(users', w);
    }
  }

  /** `remove_user` keeps the records in step exactly when the removed
      user had no friends. */
  lemma RemoveUserInStep(users: Directory, friends: FriendLists, adj: Adjacency, id: int)
    requires InStep(users, friends, adj) && id in users
    ensures InStep(users - {id}, friends - {id}, adj) <==> friends[id] == []
  {
    if friends[id] == [] {
      RemoveIsolatedUserKeepsInStep(users, friends, adj, id);
    } else {
      RemoveBefriendedUserBreaksInStep(users, friends, adj, id);
    }
  }

  /** Befriending two users and unfriending them again gives back every
      friend list, provided they were not friends. */
  lemma {:induction false} UnfriendUndoesBefriend(friends: FriendLists, ua: User, ub: User)
    requires ua.userId in friends && ub.userId in friends
    requires ub !in friends[ua.userId] && ua !in friends[ub.userId]
    ensures Unfriended(Befriended(friends, ua, ub), ua, ub) == friends
  {
    var a, b := ua.userId, ub.userId;
    if a == b {
      SelfUnfriendUndoesBefriend(friends, ua, ub);
    } else {
      RemoveFirstOfAppended(friends[a], ub);
      RemoveFirstOfAppended(friends[b], ua);
      assert Unfriended(Befriended(friends, ua, ub), ua, ub) == friends[a := friends[a]][b := friends[b]];
    }
  }

  /** The case of `UnfriendUndoesBefriend` where both users carry one id:
      one list gets both appended and loses both again. */
  lemma SelfUnfriendUndoesBefriend(friends: FriendLists, ua: User, ub: User)
    requires ua.userId in friends && ub.userId == ua.userId
    requires ub !in friends[ua.userId] && ua !in friends[ub.userId]
    ensures Unfriended(Befriended(friends, ua, ub), ua, ub) == friends
  {
    var a := ua.userId;
    var s := friends[a];
    RemoveFirstSkipsPrefix(s, [ub, ua], ub);
    assert s + [ub] + [ua] == s + [ub, ua];
    assert RemoveFirst([ub, ua], ub) == [ua];
    RemoveFirstOfAppended(s, ua);
    assert Befriended(friends, ua, ub)[a] == s + [ub, ua];
    assert Unfriended(Befriended(friends, ua, ub), ua, ub) == friends[a := s];
  }


  /** In step, befriending two users who are not friends and unfriending
      them again gives back every friend list and every graph entry. */
  lemma {:induction false} FriendshipRoundTrip(users: Directory, friends: FriendLists, adj: Adjacency, ua: User, ub: User)
    requires InStep(users, friends, adj) && Registered(users, ua) && Registered(users, ub)
    requires ub !in friends[ua.userId]
    ensures Unfriended(Befriended(friends, ua, ub), ua, ub) == friends
    ensures forall x :: Neighbors(WithoutEdge(WithEdge(adj, ua.userId, ub.userId), ua.userId, ub.userId), x) == Neighbors(adj, x)
  {
    var a, b := ua.userId, ub.userId;
    FriendshipIsMutual(users, friends, adj, ua, ub);
    FriendIffNeighbor(users, friends, adj, ua, ub);
    FriendIffNeighbor(users, friends, adj, ub, ua);
    WithoutEdgeUndoesWithEdge(adj, a, b);
    UnfriendUndoesBefriend(friends, ua, ub);
  }
}
