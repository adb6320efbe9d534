/** The social network (`SocialNetwork`): a dictionary of users by id, kept
    alongside a binary search tree and a hash table of the same users and
    a graph of friendships.

    `add_user` is split into steps: `AddUser` tests for the id,
    `AddNewUser` does the three insertions, `Register` is the dictionary
    insert and `InsertIndexes` the tree and table inserts. `remove_user`
    likewise: `RemoveUser`, `RemoveExistingUser`, `Unregister`,
    `RemoveIndexes`. `Befriend`/`Unfriend` are the two `add_friend`/
    `remove_friend` calls of a friendship, and `AppendFriend`/`DropFriend`
    one such call each. */
module Network {
  import opened Common
  import opened Entities
  import BstTree
  import opened Bst
  import opened Hashing
  import opened Graphs
  import opened Friendship

  /** Every user in the directory is filed under its own id. */
  ghost predicate Keyed(users: Directory)
  {
    forall id :: id in users ==> users[id].userId == id
  }

  /** The table's buckets hold the directory's users and nothing else:
      every stored user is registered and sits in the bucket of its id, and
      every registered user sits there exactly once. */
  ghost predicate Indexed(users: Directory, buckets: seq<seq<User>>, size: nat)
    requires size > 0 && |buckets| == size
  {
    (forall b, v :: 0 <= b < |buckets| && v in buckets[b] ==>
      Registered(users, v) && BucketOf(v.userId, size) == b) &&
    (forall id :: id in users ==> multiset(buckets[BucketOf(id, size)])[users[id]] == 1)
  }

  /** `add_user`'s table insert keeps the table indexing the directory. */
  lemma IndexedAfterInsert(users: Directory, buckets: seq<seq<User>>, size: nat, u: User)
    requires size > 0 && |buckets| == size
    requires Keyed(users) && Indexed(users, buckets, size) && u.userId !in users
    ensures var h := BucketOf(u.userId, size);
            Indexed(users[u.userId := u], buckets[h := buckets[h] + [u]], size)
  {
    var h := BucketOf(u.userId, size);
    var users' := users[u.userId := u];
    var buckets' := buckets[h := buckets[h] + [u]];
    assert u !in buckets[h];
    forall b, v | 0 <= b < |buckets'| && v in buckets'[b]
      ensures Registered(users', v) && BucketOf(v.userId, size) == b
    {
      if v != u {
        assert v in buckets[b];
      }
    }
    forall id | id in users' ensures multiset(buckets'[BucketOf(id, size)])[users'[id]] == 1 {
      if id != u.userId {
        assert users[id] != u;
      }
    }
  }

  /** The corrected table removal keeps the table indexing the directory
      once the id is gone from it. */
  lemma IndexedAfterRemove(users: Directory, buckets: seq<seq<User>>, size: nat, id: int)
    requires size > 0 && |buckets| == size
    requires Keyed(users) && Indexed(users, buckets, size)
    ensures var h := BucketOf(id, size);
            Indexed(users - {id}, buckets[h := WithoutId(buckets[h], id)], size)
  {
    var h := BucketOf(id, size);
    var users' := users - {id};
    var buckets' := buckets[h := WithoutId(buckets[h], id)];
    forall b, v | 0 <= b < |buckets'| && v in buckets'[b]
      ensures Registered(users', v) && BucketOf(v.userId, size) == b
    {
      assert v in buckets[b];
    }
    forall x | x in users' ensures multiset(buckets'[BucketOf(x, size)])[users'[x]] == 1 {
      assert users[x].userId == x;
    }
  }

  /** `remove` as the source writes it leaves every bucket as it was, so
      once the id leaves the dictionary the table still holds its user and
      no longer indexes the directory. */
  lemma RemoveAsWrittenLeavesStaleUser(users: Directory, buckets: seq<seq<User>>, size: nat, id: int)
    requires size > 0 && |buckets| == size
    requires Keyed(users) && Indexed(users, buckets, size) && id in users
    ensures users[id] in buckets[BucketOf(id, size)]
    ensures !Indexed(users - {id}, buckets, size)
  {
    var h := BucketOf(id, size);
    assert multiset(buckets[h])[users[id]] == 1;
    assert users[id] in buckets[h];
    assert !Registered(users - {id}, users[id]);
  }

  /** The dictionary, the tree's contents and the table's buckets hold the
      same users. */
  ghost predicate Mirrors(users: Directory, contents: map<int, User>, buckets: seq<seq<User>>, size: nat)
  {
    Keyed(users) && contents == users &&
    size > 0 && |buckets| == size && Indexed(users, buckets, size)
  }

  lemma MirrorsAfterInsert(users: Directory, model: BstTree.Tree<User>, buckets: seq<seq<User>>, size: nat, u: User)
    requires BstTree.IsBst(model) && Mirrors(users, BstTree.Contents(model), buckets, size) && u.userId !in users
    ensures var h := BucketOf(u.userId, size);
            Mirrors(users[u.userId := u], BstTree.Contents(BstTree.Insert(model, u.userId, u)),
                    buckets[h := buckets[h] + [u]], size)
  {
    BstTree.InsertNewContents(model, u.userId, u);
    IndexedAfterInsert(users, buckets, size, u);
  }

  lemma MirrorsAfterRemove(users: Directory, model: BstTree.Tree<User>, buckets: seq<seq<User>>, size: nat, id: int)
    requires BstTree.IsBst(model) && Mirrors(users, BstTree.Contents(model), buckets, size)
    ensures var h := BucketOf(id, size);
            Mirrors(users - {id}, BstTree.Contents(BstTree.Remove(model, id)),
                    buckets[h := WithoutId(buckets[h], id)], size)
  {
    BstTree.RemoveContents(model, id);
    IndexedAfterRemove(users, buckets, size, id);
  }

  /** `remove_user` deletes the id from the dictionary before it calls the
      tree's removal; when that removal raises (a stored node with two
      children), the tree keeps the user and no longer mirrors the
      dictionary. */
  lemma RemoveRaisesLeavesTreeBehind(users: Directory, model: BstTree.Tree<User>, buckets: seq<seq<User>>, size: nat, id: int)
    requires BstTree.RemoveRaises(model, id) && Mirrors(users, BstTree.Contents(model), buckets, size)
    ensures id in BstTree.Contents(model)
    ensures !Mirrors(users - {id}, BstTree.Contents(model), buckets, size)
  {
    BstTree.RemoveRaisesOnlyOnStoredKey(model, id);
  }

  /** Each registered user's friend list, by id. */
  ghost function FriendsOf(users: Directory): (r: FriendLists)
    reads users.Values
    ensures r.Keys == users.Keys
  {
    map id | id in users :: users[id].friends
  }

  lemma FriendsOfAdded(users: Directory, u: User)
    ensures FriendsOf(users[u.userId := u]) == FriendsOf(users)[u.userId := u.friends]
  {
    var F := FriendsOf(users[u.userId := u]);
    var G := FriendsOf(users)[u.userId := u.friends];
    assert F.Keys == G.Keys;
    MapsEqual(F, G);
  }

  lemma FriendsOfRemoved(users: Directory, id: int)
    ensures FriendsOf(users - {id}) == FriendsOf(users) - {id}
  {
    var F := FriendsOf(users - {id});
    var G := FriendsOf(users) - {id};
    assert F.Keys == G.Keys;
    MapsEqual(F, G);
  }

  class SocialNetwork {
    var users: Directory
    const tree: BST
    const table: HashTable
    const graph: Graph

    /** The dictionary, the tree and the table hold the same users: the
        tree maps exactly the dictionary's ids to the same user objects,
        the table holds nothing but registered users, each in the bucket
        of its id, and every registered user exactly once. */
    ghost predicate Valid()
      reads this, tree, tree.Repr, table
    {
      tree.Valid() && table.Valid() &&
      Mirrors(users, BstTree.Contents(tree.Model), table.buckets, table.size)
    }

    /** Each registered user's friend list, by id. */
    ghost function Friends(): (r: FriendLists)
      reads this, users.Values
    {
      FriendsOf(users)
    }

    /** The friend lists and the graph record the same friendships. */
    ghost predicate InStep()
      reads this, graph, users.Values
    {
      Friendship.InStep(users, Friends(), graph.adj)
    }

    /** An empty network. */
    constructor ()
      ensures Valid() && InStep() && users == map[]
      ensures fresh(tree) && fresh(table) && fresh(graph) && tree.Repr == {}
    {
      users := map[];
      tree := new BST();
      table := new HashTable();
      graph := new Graph();
      new;
      assert Friends() == map[];
    }

    /** The tree and table halves of `add_user`. */
    method InsertIndexes(user: User)
      requires tree.Valid() && table.Valid()
      modifies tree, tree.Repr, table
      ensures tree.Valid() && table.Valid() && fresh(tree.Repr - old(tree.Repr))
      ensures tree.Model == BstTree.Insert(old(tree.Model), user.userId, user)
      ensures table.buckets == old(table.buckets)[table.Hash(user.userId) := old(table.buckets)[table.Hash(user.userId)] + [user]]
      ensures Friends() == old(Friends())
    {
      tree.Insert(user);
      table.Insert(user.userId, user);
    }

    /** The tree and table halves of `remove_user`. */
    method RemoveIndexes(userId: int)
      requires tree.Valid() && table.Valid()
      modifies tree, tree.Repr, table
      ensures tree.Valid() && tree.Repr == old(tree.Repr) && table.Valid()
      ensures tree.Model == BstTree.Remove(old(tree.Model), userId)
      ensures table.buckets == old(table.buckets)[table.Hash(userId) := WithoutId(old(table.buckets)[table.Hash(userId)], userId)]
      ensures Friends() == old(Friends())
    {
      tree.Remove(userId);
      table.Remove(userId);
    }

    /** The dictionary half of `add_user`. */
    method Register(user: User)
      modifies this`users
      ensures users == old(users)[user.userId := user]
      ensures Friends() == old(Friends())[user.userId := user.friends]
    {
      FriendsOfAdded(users, user);
      users := users[user.userId := user];
    }

    /** `add_user` for an id not yet taken. */
    method AddNewUser(user: User)
      requires Valid() && user.userId !in users
      modifies this, tree, tree.Repr, table
      ensures Valid() && fresh(tree.Repr - old(tree.Repr))
      ensures users == old(users)[user.userId := user]
      ensures table.Search(user.userId) == old(table.Search(user.userId)) + [user]
      ensures Friends() == old(Friends())[user.userId := user.friends]
    {
      MirrorsAfterInsert(users, tree.Model, table.buckets, table.size, user);
      Register(user);
      InsertIndexes(user);
    }

    /** `add_user`: a user whose id is already taken is ignored; otherwise
        the user goes into the dictionary, the tree and the table. The
        graph gets no entry, so the friend lists stay in step with it
        exactly when the new user comes without friends. */
    method AddUser(user: User)
      requires Valid()
      modifies this, tree, tree.Repr, table
      ensures Valid() && fresh(tree.Repr - old(tree.Repr))
      ensures users == if user.userId in old(users) then old(users) else old(users)[user.userId := user]
      ensures user.userId in old(users) ==> tree.Model == old(tree.Model) && table.buckets == old(table.buckets)
      ensures user.userId !in old(users) ==> table.Search(user.userId) == old(table.Search(user.userId)) + [user]
      ensures old(InStep()) ==> (InStep() <==> user.userId in old(users) || user.friends == [])
    {
      var id := user.userId;
      if id !in users {
        ghost var F0 := Friends();
        AddNewUser(user);
        if Friendship.InStep(old(users), F0, graph.adj) {
          AddUserInStep(old(users), F0, graph.adj, user, user.friends);
        }
      }
    }

    /** The dictionary half of `remove_user`. */
    method Unregister(userId: int)
      modifies this`users
      ensures users == old(users) - {userId}
      ensures Friends() == old(Friends()) - {userId}
    {
      FriendsOfRemoved(users, userId);
      users := users - {userId};
    }

    /** `remove_user` for a registered id. */
    method RemoveExistingUser(userId: int)
      requires Valid() && userId in users
      modifies this, tree, tree.Repr, table
      ensures Valid() && tree.Repr == old(tree.Repr)
      ensures users == old(users) - {userId}
      ensures forall v :: v in table.Search(userId) ==> v.userId != userId
      ensures Friends() == old(Friends()) - {userId}
    {
      MirrorsAfterRemove(users, tree.Model, table.buckets, table.size, userId);
      Unregister(userId);
      RemoveIndexes(userId);
    }

    /** `remove_user` (with the corrected tree and table removals): the
        user leaves the dictionary, the tree and the table, but not the
        friend lists of its friends nor the graph, so the records stay in
        step exactly when the user had no friends. */
    method RemoveUser(userId: int)
      requires Valid()
      modifies this, tree, tree.Repr, table
      ensures Valid() && tree.Repr == old(tree.Repr)
      ensures users == old(users) - {userId}
      ensures userId !in old(users) ==> tree.Model == old(tree.Model) && table.buckets == old(table.buckets)
      ensures forall v :: v in table.Search(userId) ==> v.userId != userId
      ensures old(InStep()) ==> (InStep() <==> userId !in old(users) || old(users[userId].friends) == [])
    {
      if userId in users {
        ghost var F0 := Friends();
        RemoveExistingUser(userId);
        if Friendship.InStep(old(users), F0, graph.adj) {
          RemoveUserInStep(old(users), F0, graph.adj, userId);
        }
      } else {
        forall v | v in table.Search(userId) ensures v.userId != userId {
          assert Registered(users, v);
        }
      }
    }

    /** One registered user's friend list replaced by `u.AddFriend(v)`. */
    method AppendFriend(u: User, v: User)
      requires Keyed(users) && Registered(users, u)
      modifies u`friends
      ensures Friends() == old(Friends())[u.userId := old(u.friends) + [v]]
    {
      ghost var F1 := Friends()[u.userId := u.friends + [v]];
      u.AddFriend(v);
      assert F1.Keys == users.Keys == Friends().Keys;
      forall id | id in users ensures Friends()[id] == F1[id] {
        if id != u.userId {
          assert users[id] != u;
        }
      }
      MapsEqual(Friends(), F1);
    }

    /** One registered user's friend list replaced by `u.RemoveFriend(v)`. */
    method DropFriend(u: User, v: User)
      requires Keyed(users) && Registered(users, u)
      modifies u`friends
      ensures Friends() == old(Friends())[u.userId := RemoveFirst(old(u.friends), v)]
    {
      ghost var F1 := Friends()[u.userId := RemoveFirst(u.friends, v)];
      u.RemoveFriend(v);
      assert F1.Keys == users.Keys == Friends().Keys;
      forall id | id in users ensures Friends()[id] == F1[id] {
        if id != u.userId {
          assert users[id] != u;
        }
      }
      MapsEqual(Friends(), F1);
    }

    /** The friend-list half of `add_friendship`: each of two registered
        users appended to the other's list. */
    method Befriend(user1: User, user2: User)
      requires Keyed(users) && Registered(users, user1) && Registered(users, user2)
      modifies user1`friends, user2`friends
      ensures Friends() == Befriended(old(Friends()), user1, user2)
      ensures old(Valid()) ==> Valid()
    {
      AppendFriend(user1, user2);
      AppendFriend(user2, user1);
    }

    /** The friend-list half of `remove_friendship`: the first occurrence
        of each of two registered users leaves the other's list. */
    method Unfriend(user1: User, user2: User)
      requires Keyed(users) && Registered(users, user1) && Registered(users, user2)
      modifies user1`friends, user2`friends
      ensures Friends() == Unfriended(old(Friends()), user1, user2)
      ensures old(Valid()) ==> Valid()
    {
      DropFriend(user1, user2);
      DropFriend(user2, user1);
    }

    /** The graph half of `add_friendship`. */
    method Connect(a: int, b: int)
      modifies graph
      ensures graph.adj == WithEdge(old(graph.adj), a, b)
      ensures Friends() == old(Friends())
      ensures old(Valid()) ==> Valid()
    {
      graph.AddEdge(a, b);
    }

    /** The graph half of `remove_friendship`, with the corrected removal. */
    method Disconnect(a: int, b: int)
      modifies graph
      ensures graph.adj == WithoutEdge(old(graph.adj), a, b)
      ensures Friends() == old(Friends())
      ensures old(Valid()) ==> Valid()
    {
      graph.RemoveEdge(a, b);
    }

    /** `add_friendship`: when both ids are registered and the second user
        is not yet in the first user's friend list, each user is appended to
        the other's list and the edge to the graph, and the answer is true;
        otherwise nothing changes and the answer is false. Only the two
        friend lists and the graph may change. */
    method AddFriendship(a: int, b: int) returns (added: bool)
      requires Keyed(users)
      modifies graph, (if a in users && b in users then {users[a], users[b]} else {})`friends
      ensures added <==> a in users && b in users && users[b] !in old(users[a].friends)
      ensures added ==> Friends() == Befriended(old(Friends()), users[a], users[b]) &&
                        graph.adj == WithEdge(old(graph.adj), a, b)
      ensures !added ==> Friends() == old(Friends()) && graph.adj == old(graph.adj)
      ensures old(InStep()) ==> InStep()
      ensures old(Valid()) ==> Valid()
    {
      if a in users && b in users {
        var user1 := users[a];
        var user2 := users[b];
        if user2 !in user1.friends {
          ghost var F0 := Friends();
          ghost var g0 := graph.adj;
          Befriend(user1, user2);
          Connect(a, b);
          if Friendship.InStep(users, F0, g0) {
            BefriendKeepsInStep(users, F0, g0, user1, user2);
          }
          return true;
        }
      }
      return false;
    }

    /** `remove_friendship` (with the corrected graph removal): when both
        ids are registered, the first occurrence of each user leaves the
        other's friend list and the edge leaves the graph; otherwise
        nothing changes. Only the two friend lists and the graph may
        change. */
    method RemoveFriendship(a: int, b: int)
      requires Keyed(users)
      modifies graph, (if a in users && b in users then {users[a], users[b]} else {})`friends
      ensures a in users && b in users ==>
                Friends() == Unfriended(old(Friends()), users[a], users[b]) &&
                graph.adj == WithoutEdge(old(graph.adj), a, b)
      ensures !(a in users && b in users) ==> Friends() == old(Friends()) && graph.adj == old(graph.adj)
      ensures old(InStep()) ==> InStep()
      ensures old(Valid()) ==> Valid()
    {
      if a in users && b in users {
        var user1 := users[a];
        var user2 := users[b];
        ghost var F0 := Friends();
        ghost var g0 := graph.adj;
        Unfriend(user1, user2);
        Disconnect(a, b);
        if Friendship.InStep(users, F0, g0) {
          UnfriendKeepsInStep(users, F0, g0, user1, user2);
        }
      }
    }

    /** `get_friends_list`: the ids of the user's friends in list order,
        empty for an unknown id; in step, this is the user's graph entry. */
    method GetFriendsList(userId: int) returns (ids: seq<int>)
      ensures ids == if userId in users then Ids(users[userId].friends) else []
      ensures InStep() ==> ids == graph.GetFriends(userId)
    {
      ids := [];
      if userId in users {
        var user := users[userId];
        var friends := user.friends;
        for i := 0 to |friends|
          invariant ids == Ids(friends[..i])
        {
          assert friends[..i + 1] == friends[..i] + [friends[i]];
          IdsOfAppend(friends[..i], [friends[i]]);
          ids := ids + [friends[i].userId];
        }
        assert friends[..|friends|] == friends;
      }
    }

    /** `get_user`: the registered user, or nothing. The tree and the table
        agree with the answer. */
    function GetUser(userId: int): (r: Option<User>)
      requires Valid()
      reads this, tree, tree.Repr, table
      ensures r.Some? <==> userId in BstTree.Keys(tree.Model)
      ensures r.Some? ==> r.value.userId == userId && r.value in table.Search(userId)
      ensures r.None? ==> forall v :: v in table.Search(userId) ==> v.userId != userId
    {
      if userId in users then Some(users[userId]) else None
    }

    /** `add_likes`: when both ids are registered, the friend's like counter
        goes up by one; only the friend's `likes` changes. */
    method AddLikes(userId: int, friendId: int)
      modifies (if userId in users && friendId in users then {users[friendId]} else {})`likes
      ensures userId in users && friendId in users ==> users[friendId].likes == old(users[friendId].likes) + 1
      ensures !(userId in users && friendId in users) ==> forall u :: u in users.Values ==> unchanged(u)
      ensures old(Valid()) ==> Valid()
      ensures old(InStep()) ==> InStep()
    {
      if userId in users && friendId in users {
        var friend := users[friendId];
        friend.AddLike();
      }
    }

    /** `add_likes` called `n` times: when both ids are registered,
        `get_likes` of the friend reports exactly `n` more likes than
        before; otherwise no user changes. */
    method AddLikesTimes(userId: int, friendId: int, n: nat)
      modifies (if userId in users && friendId in users then {users[friendId]} else {})`likes
      ensures userId in users && friendId in users ==>
                GetLikes(friendId) == Some(old(users[friendId].likes) + n)
      ensures !(userId in users && friendId in users) ==> forall u :: u in users.Values ==> unchanged(u)
    {
      for i := 0 to n
        invariant userId in users && friendId in users ==> users[friendId].likes == old(users[friendId].likes) + i
        invariant !(userId in users && friendId in users) ==> forall u :: u in users.Values ==> unchanged(u)
      {
        AddLikes(userId, friendId);
      }
    }

    /** `get_likes`: the like counter of a registered user, nothing for an
        unknown id. */
    function GetLikes(userId: int): (r: Option<nat>)
      reads this, users.Values
      ensures r.Some? <==> userId in users
      ensures r.Some? ==> r.value == users[userId].GetLikes()
    {
      if userId in users then Some(users[userId].GetLikes()) else None
    }
  }
}
