# Social network data layer, modelled in Dafny

This project models the in-memory data layer of a small social network
(`social_network.py`). A `SocialNetwork` object keeps five structures that
should agree:

- a dictionary `users` from user id to `User` object;
- an unbalanced binary search tree of users keyed by id (`BST` over `BSTNode`);
- a ten-bucket hash table of users (`HashTable`);
- the per-user friend lists, which hold `User` objects;
- an adjacency-list graph of user ids (`Graph`).

Users carry posts, friends and a like counter. Posts carry content and a
like counter.

The source mutates everything in place, so the model does too:

- Every entity is a Dafny `class` with methods that have `modifies` clauses.
- The tree is a linked structure of `BSTNode` objects. Each node carries a
  ghost footprint and a ghost value model (`BstTree.Tree`). The tree methods
  are proved equal to pure insertion and removal functions on that value
  model. Ordering, key-set and contents lemmas are proved about those
  functions.
- The hash table and the graph keep their buckets and adjacency lists as
  sequences and maps that their methods reassign. Pure functions
  (`BucketOf`, `WithEdge`, `WithoutEdge`) state their effect.
- The façade's invariant `Valid` says that the dictionary, the tree contents
  and the hash buckets hold the same users. A second predicate, `InStep`,
  says that every friend list matches the user's graph entry.

Files:

- `common.dfy`: `Option` and `list.remove`.
- `entities.dfy`: `User` and `Post`.
- `graph.dfy`: `Graph`.
- `hash_table.dfy`: `HashTable` and CPython's int hash.
- `bst_tree.dfy`: the value model of the tree.
- `bst.dfy`: the linked `BST`.
- `friendship.dfy`: friend lists against the graph.
- `network.dfy`: the `SocialNetwork` façade.

The source has three defects, listed under "## Findings":

- removing a tree node with two children raises;
- `remove_edge` raises when an id has a key without the partner;
- `HashTable.remove` never removes anything.

Each one is modelled twice: once as written, with a lemma that exhibits the
failure, and once corrected. The façade uses the corrected versions.

`add_friendship` on an existing friendship returns `False`, because the
code checks `user2 not in user1.friends` before adding
(social_network.py:78).

## Model

| member | source | states |
|---|---|---|
| Common.RemoveFirst | social_network.py:26-28 | `list.remove`: the list is unchanged when the element is absent, and one element shorter when it is present |
| Common.RemoveFirstMultiset | social_network.py:26-28 | removal takes away exactly one copy of the element, if there is one, and nothing else |
| Common.RemoveFirstOfAppended | social_network.py:23-28 | appending an element that was not in the list and then removing it gives back the original list |
| Common.RemoveFirstCutsFirstIndex | social_network.py:26-28 | removal cuts out the element at its first index and keeps the order of all other elements |
| Entities.Post.constructor | social_network.py:43-45 | a new post has the given content and zero likes |
| Entities.Post.AddLike | social_network.py:47-48 | the like counter goes up by exactly one |
| Entities.Post.RemoveLike | social_network.py:50-52 | the counter goes down by one when it is positive and stays at zero otherwise, so it is never negative |
| Entities.User.constructor | social_network.py:8-14 | a new user has the given name, id and location, no posts, no friends and zero likes |
| Entities.User.AddPost | social_network.py:16-17 | the post is appended and the post count grows by one |
| Entities.User.RemovePost | social_network.py:19-21 | the first occurrence of the post is removed; the post count drops by one exactly when the post was owned |
| Entities.User.AddFriend | social_network.py:23-24 | the friend is appended and the friend count grows by one |
| Entities.User.RemoveFriend | social_network.py:26-28 | the first occurrence of the friend is removed; the friend multiset loses exactly one copy of it |
| Entities.User.AddLike | social_network.py:36-37 | the user's like counter goes up by exactly one |
| Entities.User.NumberOfPosts | social_network.py:30-31 | the number of posts counts every entry of the post list, repeats included; `AddPost` and `RemovePost` change it by one |
| Entities.User.NumberOfFriends | social_network.py:33-34 | the number of friends counts every entry of the friend list, repeats included; `AddFriend` raises it by one |
| Entities.User.GetLikes | social_network.py:39-40 | `get_likes` reports the like counter; `AddLike` raises it by exactly one |
| Entities.Ids | social_network.py:96-98 | the id list has the friend list's length, with each position holding that friend's id |
| Entities.IdsOfAppend | social_network.py:97-98 | the ids of a concatenation are the concatenation of the ids |
| Entities.IdsOfRemoveFirst | social_network.py:26-28 | if a user is the only one carrying its id, removing it by identity equals removing its id from the id list |
| Graphs.Graph.constructor | social_network.py:207-208 | a new graph has no adjacency entries |
| Graphs.Graph.AddEdge | social_network.py:210-212 | the new adjacency is `WithEdge`: `b` appended to `a`'s list, then `a` appended to `b`'s |
| Graphs.Graph.RemoveEdgeAsWritten | social_network.py:214-218 | raises exactly when a key is present without the partner id; on success the edge is gone; on a raise at most the first removal has happened |
| Graphs.Graph.RemoveEdge | social_network.py:214-218 | corrected removal: the new adjacency is `WithoutEdge`, with each side removed only where it is present |
| Graphs.Graph.GetFriends | social_network.py:220-223 | the stored list of a known id, and the empty list for an unknown id |
| Graphs.WithEdgeKeepsSymmetry | social_network.py:210-212 | adding an edge keeps every directed entry matched by its reverse, with equal multiplicity |
| Graphs.WithoutEdgeKeepsSymmetry | social_network.py:214-218 | the corrected removal keeps the graph symmetric |
| Graphs.WithEdgeElsewhere | social_network.py:210-212 | adding an edge changes only the lists of its two ends and creates no other key |
| Graphs.WithoutEdgeElsewhere | social_network.py:214-218 | removing an edge changes only the lists of its two ends and keeps the key set |
| Graphs.WithoutEdgeUndoesWithEdge | social_network.py:210-218 | removing an edge right after adding it between non-adjacent ids gives back every adjacency list |
| Graphs.SecondRemoveEdgeRaises | social_network.py:214-218 | after `add_edge(1, 2)` and one `remove_edge(1, 2)`, a second removal raises as written; the corrected removal leaves the graph unchanged |
| Hashing.PyHash | social_network.py:189-190 | CPython's int hash is never -1, lies strictly within ±(2^61 - 1), is the identity on small non-negative ints and is non-positive on negative ints |
| Hashing.BucketOf | social_network.py:189-190 | `_hash`: Python's `%` by a positive size puts every key in a bucket in `[0, size)` |
| Hashing.WithoutId | social_network.py:196-199 | the corrected bucket keeps exactly the users whose id differs, with their multiplicities, and nothing else |
| Hashing.HashTable.constructor | social_network.py:185-187 | a new table has size 10 and ten empty buckets |
| Hashing.HashTable.Hash | social_network.py:189-190 | the bucket index lies in `[0, size)`, and for an id in `[0, 2^61 - 1)` it is the id modulo the size |
| Hashing.HashTable.Insert | social_network.py:192-194 | exactly one value is appended to the key's bucket; no other bucket changes; `search` afterwards returns the old bucket plus the value |
| Hashing.HashTable.RemoveAsWritten | social_network.py:196-199 | as written, no bucket changes, because an int id never equals a user object |
| Hashing.HashTable.Remove | social_network.py:196-199 | corrected removal: the key's bucket loses the users carrying that id; no other bucket changes |
| Hashing.HashTable.Search | social_network.py:201-203 | for an id in `[0, 2^61 - 1)`, `search` returns bucket `id % size`; `Insert` appends to exactly this bucket |
| BstTree.InsertKeys | social_network.py:136-152 | insertion adds the new key to the key set and no other key |
| BstTree.InsertKeepsOrder | social_network.py:136-152 | insertion preserves the search-tree ordering |
| BstTree.InsertPresentIsIdentity | social_network.py:142-152 | inserting an id that is already stored leaves the tree unchanged |
| BstTree.InsertNewContents | social_network.py:136-152 | inserting a new id into an ordered tree adds exactly that id-to-user entry to its contents |
| BstTree.InOrderAscending | social_network.py:136-152 | in an ordered tree, the in-order key sequence is strictly ascending and lists exactly the key set |
| BstTree.MinEntryIsLeast | social_network.py:177-181 | `_find_min` yields a stored key that is no greater than any other key of the subtree |
| BstTree.RemoveKeys | social_network.py:154-175 | on an ordered tree, removal takes exactly the given id out of the key set |
| BstTree.RemoveKeepsOrder | social_network.py:154-175 | removal, including the successor case, preserves the search-tree ordering |
| BstTree.RemoveRootKeepsOrder | social_network.py:167-173 | replacing a two-child node by its in-order successor keeps the tree ordered |
| BstTree.RemoveContents | social_network.py:154-175 | on an ordered tree, removal drops exactly the id's entry from the contents |
| BstTree.RemoveRootContents | social_network.py:167-173 | the successor replacement drops exactly the removed node's entry |
| BstTree.RemoveAbsentIsIdentity | social_network.py:157-166 | removing an id that is not stored leaves the tree unchanged |
| BstTree.RemoveRaisesOnlyOnStoredKey | social_network.py:167-173 | the as-written removal can raise only for an id that is stored |
| Bst.BSTNode.constructor | social_network.py:126-129 | a new node holds the user and no children |
| Bst.BST.constructor | social_network.py:133-134 | a new tree is empty |
| Bst.BST.Insert | social_network.py:136-140 | the linked tree stays valid and its value model becomes the pure insertion of the user under its id |
| Bst.BST.InsertRecursive | social_network.py:142-152 | on a node, the subtree's model becomes the pure insertion; the new footprint is fresh |
| Bst.BST.InsertLeft | social_network.py:143-147 | insertion of a smaller id through the left child matches the pure insertion |
| Bst.BST.HangLeft | social_network.py:144-145 | a new leaf hung on an empty left child matches the pure insertion |
| Bst.BST.InsertRight | social_network.py:148-152 | insertion of a larger id through the right child matches the pure insertion |
| Bst.BST.HangRight | social_network.py:149-150 | a new leaf hung on an empty right child matches the pure insertion |
| Bst.BST.Remove | social_network.py:154-155 | corrected removal: the tree stays valid and its model becomes the pure removal of the id |
| Bst.BST.RemoveRecursive | social_network.py:157-175 | the returned subtree is valid, within the old footprint and models the pure removal |
| Bst.BST.RemoveLeft | social_network.py:160-161 | removal of a smaller id through the left child models the pure removal |
| Bst.BST.RemoveRight | social_network.py:162-163 | removal of a larger id through the right child models the pure removal |
| Bst.BST.RemoveBySuccessor | social_network.py:169-173 | the two-child case copies in the in-order successor's user and removes the successor from the right subtree |
| Bst.BST.FindMin | social_network.py:177-181 | the loop walking left returns the user stored under the subtree's least key |
| Bst.BST.RemoveAsWritten | social_network.py:154-155 | as written: raises exactly in the `RemoveRaises` case; otherwise the model becomes the pure removal |
| Bst.BST.RemoveRecursiveAsWritten | social_network.py:157-175 | the recursive removal as written, which raises when it meets the id on a node with two children |
| BstTree.SampleRemoval | social_network.py:167-181 | on the tree built from ids 5, 3, 8, 1, 4, removing 3 raises as written, while the corrected removal leaves in-order ids 1, 4, 5, 8 |
| Friendship.FriendIffNeighbor | social_network.py:74-100 | in step, `b`'s user is in `a`'s friend list exactly when `b` is in `a`'s adjacency list |
| Friendship.FriendshipIsMutual | social_network.py:78-81 | in step, friendship is mutual: `b` is a friend of `a` exactly when `a` is a friend of `b` |
| Friendship.BefriendKeepsInStep | social_network.py:74-83 | appending each user to the other's list and adding the edge keeps the friend lists and graph in step |
| Friendship.UnfriendKeepsInStep | social_network.py:85-91 | removing each user from the other's list and removing the edge keeps them in step |
| Friendship.AddUserInStep | social_network.py:62-66 | registering a new user keeps the lists and graph in step exactly when its friend list is empty |
| Friendship.RemoveIsolatedUserKeepsInStep | social_network.py:68-72 | removing a user without friends keeps the lists and graph in step |
| Friendship.RemoveBefriendedUserBreaksInStep | social_network.py:68-72 | removing a user who has friends breaks the agreement, because `remove_user` does not touch friend lists or the graph |
| Friendship.RemoveUserInStep | social_network.py:68-72 | after `remove_user`, the lists and graph are in step exactly when the id was unknown or the user had no friends |
| Friendship.UnfriendUndoesBefriend | social_network.py:74-91 | removing a friendship right after adding it gives back every friend list |
| Friendship.SelfUnfriendUndoesBefriend | social_network.py:74-91 | the same round trip when both ids name one user |
| Friendship.FriendshipRoundTrip | social_network.py:74-91 | adding and then removing a new friendship restores both the friend lists and every adjacency list |
| Network.IndexedAfterInsert | social_network.py:62-66 | appending a new user to its bucket keeps the table an exact index of the dictionary |
| Network.IndexedAfterRemove | social_network.py:68-72 | removing the id from its bucket by the corrected removal keeps the table an exact index |
| Network.RemoveAsWrittenLeavesStaleUser | social_network.py:196-199 | with the as-written removal, the removed user stays in its bucket and the table stops indexing the dictionary |
| Network.RemoveRaisesLeavesTreeBehind | social_network.py:68-72 | when the tree removal raises inside `remove_user`, the id has already left the dictionary but its user stays in the tree, so the tree no longer mirrors the dictionary |
| Network.MirrorsAfterInsert | social_network.py:62-66 | dictionary, tree contents and table agree after the three insertions of `add_user` |
| Network.MirrorsAfterRemove | social_network.py:68-72 | dictionary, tree contents and table agree after the three removals of `remove_user` |
| Network.FriendsOfAdded | social_network.py:64 | registering a user adds its friend list to the lists by id and changes no other |
| Network.FriendsOfRemoved | social_network.py:70 | deleting an id drops only that id's friend list |
| Network.SocialNetwork.constructor | social_network.py:56-60 | a new network is empty, its structures agree, and its lists and graph are in step |
| Network.SocialNetwork.Register | social_network.py:64 | the dictionary gains the user under its id; the lists by id gain its friend list |
| Network.SocialNetwork.InsertIndexes | social_network.py:65-66 | the tree model becomes the pure insertion and the user is appended to its bucket |
| Network.SocialNetwork.AddNewUser | social_network.py:63-66 | a new id is registered in all three structures, which keep agreeing |
| Network.SocialNetwork.AddUser | social_network.py:62-66 | a known id changes nothing; otherwise the user is in the dictionary, tree and bucket, and the friend lists stay in step exactly when its list is empty |
| Network.SocialNetwork.Unregister | social_network.py:70 | the id leaves the dictionary and the lists by id |
| Network.SocialNetwork.RemoveIndexes | social_network.py:71-72 | the tree model becomes the pure removal; the bucket loses the id's users |
| Network.SocialNetwork.RemoveExistingUser | social_network.py:69-72 | a registered id leaves all three structures, which keep agreeing |
| Network.SocialNetwork.RemoveUser | social_network.py:68-72 | the id leaves the dictionary, tree and bucket, and an unknown id changes nothing; the lists stay in step exactly when the id was unknown or friendless |
| Network.SocialNetwork.AppendFriend | social_network.py:23-24 | one registered user's friend list grows by the friend; no other list changes |
| Network.SocialNetwork.DropFriend | social_network.py:26-28 | one registered user's friend list loses the first occurrence of the friend; no other list changes |
| Network.SocialNetwork.Befriend | social_network.py:78-80 | both friend lists gain the other user |
| Network.SocialNetwork.Unfriend | social_network.py:89-90 | both friend lists lose the other user |
| Network.SocialNetwork.Connect | social_network.py:81 | the graph gains the edge by `WithEdge`; no friend list changes |
| Network.SocialNetwork.Disconnect | social_network.py:91 | the graph loses the edge by the corrected `WithoutEdge`; no friend list changes |
| Network.SocialNetwork.AddFriendship | social_network.py:74-83 | returns true exactly when both ids are registered and not yet friends; then both lists gain the other and the graph gains the edge; otherwise nothing changes; the lists and graph stay in step; the users stay mirrored in dictionary, tree and table |
| Network.SocialNetwork.RemoveFriendship | social_network.py:85-91 | with both ids registered, both lists lose the other and the edge goes; otherwise nothing changes; the lists and graph stay in step; the users stay mirrored in dictionary, tree and table |
| Network.SocialNetwork.GetFriendsList | social_network.py:93-100 | returns the friends' ids in list order, empty for an unknown id; in step, this is the user's graph entry |
| Network.SocialNetwork.GetUser | social_network.py:102-105 | returns a user exactly when the id is in the tree; that user has the id and is in its bucket |
| Network.SocialNetwork.AddLikes | social_network.py:107-114 | with both ids registered, the friend's counter goes up by exactly one and nothing but that counter may change; otherwise no user changes; the users stay mirrored in dictionary, tree and table, and the friend lists stay in step with the graph |
| Network.SocialNetwork.GetLikes | social_network.py:116-122 | returns a count exactly for a registered id, and nothing for an unknown id; `AddLikesTimes` ties the count to `add_likes` |
| Network.SocialNetwork.AddLikesTimes | social_network.py:107-122 | after `n` calls of `add_likes` with both ids registered, `get_likes` of the friend reports exactly `n` more likes than before; otherwise no user changes; only that counter may change |

## Left out

- `SocialNetworkGUI` and the `__main__` block (social_network.py:226-413) are left out. They are PyQt windows, dialogs and event wiring.
- The `tabulate` rendering is left out. It is a foreign library used only for display.
- The `print` calls in `add_likes` and `get_likes` are console output. `GetLikes` returns an optional count instead, and `AddLikes` returns nothing.
- `search` indexes the `defaultdict` (social_network.py:203), which creates an empty list for a bucket that was never used. The model starts with ten empty buckets instead.
- `get_friends` checks membership first (social_network.py:221) and creates nothing. `add_edge` creates a missing key, and `Graphs.Linked` models that.
- Object identity and aliasing of returned live lists are not modelled. The source's `get_friends` and `search` return the live lists; the model returns their values.
- `Hashing.PyHash` follows CPython's int hash on a 64-bit build (modulus 2^61 - 1). Other builds are not modelled.
- `Network.SocialNetwork.AddFriendship` requires only that the dictionary be keyed by id. It does not require the full `Valid` invariant, because the friendship operations touch only the friend lists and the graph; it keeps `Valid` whenever `Valid` held before.
- `Network.SocialNetwork.RemoveFriendship` has the same requirement, for the same reason.
- `remove_user` does not remove the user from other users' friend lists or from the graph. This is modelled as written: `RemoveUser` states exactly when the lists and graph stay in step.
- `Network.SocialNetwork.RemoveFriendship` uses the corrected graph removal. The as-written removal, which raises, is modelled on `Graphs.Graph` alone.
- `Network.SocialNetwork.RemoveUser` uses the corrected tree and table removals. The as-written versions are modelled on `Bst.BST` and `Hashing.HashTable` alone.

## Findings

| source | as written | input that shows it | evidently intended | confidence | as-written member | corrected member |
|---|---|---|---|---|---|---|
| social_network.py:171-173 | `_find_min` returns a `User`, and the caller reads `.user` from it, so removing a node with two children raises `AttributeError` | insert ids 5, 3, 8, 1, 4, then remove 3 | replace the node's user with its in-order successor and remove the successor from the right subtree | high; not executed | Bst.BST.RemoveAsWritten, BstTree.SampleRemoval, Network.RemoveRaisesLeavesTreeBehind | Bst.BST.Remove, BstTree.RemoveKeepsOrder |
| social_network.py:214-218 | `remove_edge` calls `list.remove` on every existing key, which raises `ValueError` when the partner id is absent | `add_edge(1, 2)`, `remove_edge(1, 2)`, `remove_edge(1, 2)` | remove each side only where it is present | high; not executed | Graphs.Graph.RemoveEdgeAsWritten, Graphs.SecondRemoveEdgeRaises | Graphs.Graph.RemoveEdge, Graphs.WithoutEdgeKeepsSymmetry |
| social_network.py:196-199 | `remove` tests whether the int key is in a bucket of `User` objects, which is never true, so nothing is removed | add user 1, then `remove_user(1)`: user 1 is still in bucket 1 | drop the users carrying the id from the key's bucket | high; not executed | Hashing.HashTable.RemoveAsWritten, Network.RemoveAsWrittenLeavesStaleUser | Hashing.HashTable.Remove, Network.IndexedAfterRemove |
