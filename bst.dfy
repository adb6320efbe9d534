/** The binary search tree of users keyed by user id (`BSTNode`, `BST`).
    Nodes are linked objects updated in place; each node keeps as ghost
    state the set of nodes below it (`Repr`) and the abstract tree it
    represents (`Model`), and every method is proved to act on `Model` as
    the functions of module BstTree do.

    `_insert_recursive` is split by branch: `InsertRecursive` compares,
    `InsertLeft`/`InsertRight` descend, and `HangLeft`/`HangRight` attach
    a new leaf to an empty link. `_remove_recursive` likewise:
    `RemoveRecursive` handles the missing node and the zero- and one-child
    cases, `RemoveLeft`/`RemoveRight` descend, and `RemoveBySuccessor` is
    the two-child case. */
module Bst {
  import opened Entities
  import opened BstTree

  class BSTNode {
    var user: User
    var left: BSTNode?
    var right: BSTNode?
    ghost var Repr: set<BSTNode>
    ghost var Model: Tree<User>

    ghost predicate Valid()
      reads this, Repr
      decreases Repr
    {
      this in Repr &&
      (left != null ==>
        left in Repr && left.Repr <= Repr && this !in left.Repr && left.Valid()) &&
      (right != null ==>
        right in Repr && right.Repr <= Repr && this !in right.Repr && right.Valid()) &&
      (left != null && right != null ==> left.Repr !! right.Repr) &&
      Model == Node(SubModel(left), user.userId, user, SubModel(right))
    }

    constructor (user: User)
      ensures Valid() && fresh(Repr)
      ensures this.user == user && Model == Node(Leaf, user.userId, user, Leaf)
    {
      this.user := user;
      left := null;
      right := null;
      Repr := {this};
      Model := Node(Leaf, user.userId, user, Leaf);
    }
  }

  /** The abstract tree hanging at a possibly absent child link. */
  ghost function SubModel(n: BSTNode?): (r: Tree<User>)
    reads n
  {
    if n == null then Leaf else n.Model
  }

  class BST {
    var root: BSTNode?
    ghost var Repr: set<BSTNode>
    ghost var Model: Tree<User>

    ghost predicate Valid()
      reads this, Repr
    {
      (root == null ==> Model == Leaf) &&
      (root != null ==> root in Repr && root.Repr <= Repr && root.Valid() && Model == root.Model) &&
      IsBst(Model)
    }

    constructor ()
      ensures Valid() && Model == Leaf && Repr == {}
    {
      root := null;
      Repr := {};
      Model := Leaf;
    }

    method Insert(user: User)
      requires Valid()
      modifies this, Repr
      ensures Valid() && fresh(Repr - old(Repr))
      ensures Model == BstTree.Insert(old(Model), user.userId, user)
    {
      if root == null {
        root := new BSTNode(user);
        Repr := Repr + root.Repr;
      } else {
        InsertRecursive(root, user);
        Repr := Repr + root.Repr;
      }
      Model := root.Model;
      InsertKeepsOrder(old(Model), user.userId, user);
    }

    method InsertRecursive(node: BSTNode, user: User)
      requires node.Valid()
      modifies node.Repr
      ensures node.Valid() && fresh(node.Repr - old(node.Repr))
      ensures node.Model == BstTree.Insert(old(node.Model), user.userId, user)
      decreases node.Repr, 1
    {
      if user.userId < node.user.userId {
        InsertLeft(node, user);
      } else if user.userId > node.user.userId {
        InsertRight(node, user);
      }
    }

    /** The branch of `_insert_recursive` that descends to the left. */
    method InsertLeft(node: BSTNode, user: User)
      requires node.Valid() && user.userId < node.user.userId
      modifies node.Repr
      ensures node.Valid() && fresh(node.Repr - old(node.Repr))
      ensures node.Model == BstTree.Insert(old(node.Model), user.userId, user)
      decreases node.Repr, 0
    {
      if node.left == null {
        HangLeft(node, user);
      } else {
        InsertRecursive(node.left, user);
        node.Repr := node.Repr + node.left.Repr;
        node.Model := Node(node.left.Model, node.user.userId, node.user, SubModel(node.right));
      }
    }

    /** A new leaf for `user` as the missing left child. */
    method HangLeft(node: BSTNode, user: User)
      requires node.Valid() && node.left == null && user.userId < node.user.userId
      modifies node
      ensures node.Valid() && fresh(node.Repr - old(node.Repr))
      ensures node.Model == BstTree.Insert(old(node.Model), user.userId, user)
    {
      node.left := new BSTNode(user);
      node.Repr := node.Repr + node.left.Repr;
      node.Model := Node(node.left.Model, node.user.userId, node.user, SubModel(node.right));
    }

    /** The branch of `_insert_recursive` that descends to the right. */
    method InsertRight(node: BSTNode, user: User)
      requires node.Valid() && user.userId > node.user.userId
      modifies node.Repr
      ensures node.Valid() && fresh(node.Repr - old(node.Repr))
      ensures node.Model == BstTree.Insert(old(node.Model), user.userId, user)
      decreases node.Repr, 0
    {
      if node.right == null {
        HangRight(node, user);
      } else {
        InsertRecursive(node.right, user);
        node.Repr := node.Repr + node.right.Repr;
        node.Model := Node(SubModel(node.left), node.user.userId, node.user, node.right.Model);
      }
    }

    /** A new leaf for `user` as the missing right child. */
    method HangRight(node: BSTNode, user: User)
      requires node.Valid() && node.right == null && user.userId > node.user.userId
      modifies node
      ensures node.Valid() && fresh(node.Repr - old(node.Repr))
      ensures node.Model == BstTree.Insert(old(node.Model), user.userId, user)
    {
      node.right := new BSTNode(user);
      node.Repr := node.Repr + node.right.Repr;
      node.Model := Node(SubModel(node.left), node.user.userId, node.user, node.right.Model);
    }

    /** Removal with the in-order successor's user promoted into a node
        that has two children. */
    method Remove(userId: int)
      requires Valid()
      modifies this, Repr
      ensures Valid() && Repr == old(Repr)
      ensures Model == BstTree.Remove(old(Model), userId)
    {
      root := RemoveRecursive(root, userId);
      Model := SubModel(root);
      RemoveKeepsOrder(old(Model), userId);
    }

    method RemoveRecursive(node: BSTNode?, userId: int) returns (r: BSTNode?)
      requires node != null ==> node.Valid()
      modifies if node != null then node.Repr else {}
      ensures node == null ==> r == null
      ensures node != null ==> SubModel(r) == BstTree.Remove(old(node.Model), userId)
      ensures r != null ==> node != null && r.Valid() && r.Repr <= old(node.Repr)
      decreases if node != null then node.Repr else {}, 1
    {
      if node == null {
        return null;
      }
      if userId < node.user.userId {
        r := RemoveLeft(node, userId);
      } else if userId > node.user.userId {
        r := RemoveRight(node, userId);
      } else if node.left == null {
        return node.right;
      } else if node.right == null {
        return node.left;
      } else {
        r := RemoveBySuccessor(node, userId);
      }
    }

    /** The branch of `_remove_recursive` that descends to the left. */
    method RemoveLeft(node: BSTNode, userId: int) returns (r: BSTNode)
      requires node.Valid() && userId < node.user.userId
      modifies node.Repr
      ensures r.Model == BstTree.Remove(old(node.Model), userId)
      ensures r.Valid() && r.Repr <= old(node.Repr)
      decreases node.Repr, 0
    {
      node.left := RemoveRecursive(node.left, userId);
      node.Model := Node(SubModel(node.left), node.user.userId, node.user, SubModel(node.right));
      r := node;
    }

    /** The branch of `_remove_recursive` that descends to the right. */
    method RemoveRight(node: BSTNode, userId: int) returns (r: BSTNode)
      requires node.Valid() && userId > node.user.userId
      modifies node.Repr
      ensures r.Model == BstTree.Remove(old(node.Model), userId)
      ensures r.Valid() && r.Repr <= old(node.Repr)
      decreases node.Repr, 0
    {
      node.right := RemoveRecursive(node.right, userId);
      node.Model := Node(SubModel(node.left), node.user.userId, node.user, SubModel(node.right));
      r := node;
    }

    /** The two-children branch of `_remove_recursive`: the node takes the
        in-order successor's user, and the successor leaves the right
        subtree. */
    method RemoveBySuccessor(node: BSTNode, userId: int) returns (r: BSTNode)
      requires node.Valid() && userId == node.user.userId
      requires node.left != null && node.right != null
      modifies node.Repr
      ensures r.Model == BstTree.Remove(old(node.Model), userId)
      ensures r.Valid() && r.Repr <= old(node.Repr)
      decreases node.Repr, 0
    {
      var successor := FindMin(node.right);
      node.user := successor;
      node.right := RemoveRecursive(node.right, successor.userId);
      node.Model := Node(SubModel(node.left), node.user.userId, node.user, SubModel(node.right));
      r := node;
    }

    /** `_find_min`: follow left links to the leftmost node and return its
        user, which holds the smallest id of the subtree. */
    method FindMin(node: BSTNode) returns (u: User)
      requires node.Valid()
      ensures (u.userId, u) == MinEntry(node.Model)
    {
      var current: BSTNode := node;
      while current.left != null
        invariant current.Valid()
        invariant MinEntry(current.Model) == MinEntry(node.Model)
        decreases current.Repr
      {
        current := current.left;
      }
      u := current.user;
    }

    /** `remove` as the source writes it: in the two-children case the
        successor returned by `_find_min` is a user, and reading its `user`
        attribute raises, so the removal stops with nothing relinked. */
    method RemoveAsWritten(userId: int) returns (raised: bool)
      requires Valid()
      modifies this, Repr
      ensures Valid() && Repr == old(Repr)
      ensures raised == RemoveRaises(old(Model), userId)
      ensures Model == if raised then old(Model) else BstTree.Remove(old(Model), userId)
    {
      var r;
      r, raised := RemoveRecursiveAsWritten(root, userId);
      if !raised {
        root := r;
        Model := SubModel(root);
        RemoveKeepsOrder(old(Model), userId);
      }
    }

    method RemoveRecursiveAsWritten(node: BSTNode?, userId: int) returns (r: BSTNode?, raised: bool)
      requires node != null ==> node.Valid()
      modifies if node != null then node.Repr else {}
      ensures node == null ==> r == null && !raised
      ensures node != null ==> raised == RemoveRaises(old(node.Model), userId)
      ensures raised ==> node != null && node.Valid() && node.Model == old(node.Model)
      ensures raised ==> forall o :: o in old(node.Repr) ==> unchanged(o)
      ensures !raised && node != null ==> SubModel(r) == BstTree.Remove(old(node.Model), userId)
      ensures !raised && r != null ==> node != null && r.Valid() && r.Repr <= old(node.Repr)
      decreases if node != null then node.Repr else {}
    {
      if node == null {
        return null, false;
      }
      if userId < node.user.userId {
        var l;
        l, raised := RemoveRecursiveAsWritten(node.left, userId);
        if raised {
          return node, true;
        }
        node.left := l;
      } else if userId > node.user.userId {
        var rr;
        rr, raised := RemoveRecursiveAsWritten(node.right, userId);
        if raised {
          return node, true;
        }
        node.right := rr;
      } else if node.left == null {
        return node.right, false;
      } else if node.right == null {
        return node.left, false;
      } else {
        var successor := FindMin(node.right);
        // `successor.user` on a user object: the source raises here.
        return node, true;
      }
      node.Model := Node(SubModel(node.left), node.user.userId, node.user, SubModel(node.right));
      r, raised := node, false;
    }
  }
}
