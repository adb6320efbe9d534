/** The two entities of the social network: a user with posts, friends and
    a like counter, and a post with content and a like counter. */
module Entities {
  import opened Common

  class Post {
    const content: string
    var likes: nat

    constructor (content: string)
      ensures this.content == content && likes == 0
    {
      this.content := content;
      likes := 0;
    }

    method AddLike()
      modifies this`likes
      ensures likes == old(likes) + 1
    {
      likes := likes + 1;
    }

    /** A like is taken back only when there is one: the counter stops at zero. */
    method RemoveLike()
      modifies this`likes
      ensures old(likes) > 0 ==> likes == old(likes) - 1
      ensures old(likes) == 0 ==> likes == 0
    {
      if likes > 0 {
        likes := likes - 1;
      }
    }
  }

  class User {
    const name: string
    const userId: int
    const location: string
    var posts: seq<Post>
    /** Friends are held by reference, as the source holds `User` objects. */
    var friends: seq<User>
    var likes: nat

    constructor (name: string, userId: int, location: string)
      ensures this.name == name && this.userId == userId && this.location == location
      ensures posts == [] && friends == [] && likes == 0
    {
      this.name := name;
      this.userId := userId;
      this.location := location;
      posts := [];
      friends := [];
      likes := 0;
    }

    method AddPost(post: Post)
      modifies this`posts
      ensures posts == old(posts) + [post]
      ensures NumberOfPosts() == old(NumberOfPosts()) + 1
    {
      posts := posts + [post];
    }

    /** Removes the first occurrence of `post` (compared by identity); a post
        the user does not own is ignored. */
    method RemovePost(post: Post)
      modifies this`posts
      ensures posts == RemoveFirst(old(posts), post)
      ensures NumberOfPosts() == if post in old(posts) then old(NumberOfPosts()) - 1 else old(NumberOfPosts())
    {
      if post in posts {
        posts := RemoveFirst(posts, post);
      }
    }

    method AddFriend(friend: User)
      modifies this`friends
      ensures friends == old(friends) + [friend]
      ensures NumberOfFriends() == old(NumberOfFriends()) + 1
    {
      friends := friends + [friend];
    }

    /** Removes the first occurrence of `friend`; an absent friend is ignored. */
    method RemoveFriend(friend: User)
      modifies this`friends
      ensures friends == RemoveFirst(old(friends), friend)
      ensures multiset(friends) == old(multiset(friends)) - multiset{friend}
    {
      RemoveFirstMultiset(friends, friend);
      if friend in friends {
        friends := RemoveFirst(friends, friend);
      }
    }

    function NumberOfPosts(): (n: nat)
      reads this
      ensures n == |multiset(posts)|
    {
      |posts|
    }

    function NumberOfFriends(): (n: nat)
      reads this
      ensures n == |multiset(friends)|
    {
      |friends|
    }

    method AddLike()
      modifies this`likes
      ensures likes == old(likes) + 1
    {
      likes := likes + 1;
    }

    function GetLikes(): (n: nat)
      reads this
      ensures n == likes
    {
      likes
    }
  }

  /** The ids of a list of users, in list order. */
  function Ids(s: seq<User>): (r: seq<int>)
    ensures |r| == |s|
    ensures forall i :: 0 <= i < |s| ==> r[i] == s[i].userId
  {
    if s == [] then [] else [s[0].userId] + Ids(s[1..])
  }

  lemma {:induction false} IdsOfAppend(s: seq<User>, t: seq<User>)
    ensures Ids(s + t) == Ids(s) + Ids(t)
  {
    if s != [] {
      assert (s + t)[1..] == s[1..] + t;
      IdsOfAppend(s[1..], t);
    }
  }

  /** Within a list in which the users carrying `u`'s id are all `u` itself,
      removing `u` by identity and removing `u`'s id from the id list agree. */
  lemma {:induction false} IdsOfRemoveFirst(s: seq<User>, u: User)
    requires forall v :: v in s && v.userId == u.userId ==> v == u
    ensures Ids(RemoveFirst(s, u)) == RemoveFirst(Ids(s), u.userId)
  {
    if s != [] && s[0] != u {
      assert s[0].userId != u.userId;
      IdsOfRemoveFirst(s[1..], u);
    }
  }
}
