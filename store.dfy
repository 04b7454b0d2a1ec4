/** The persistent state both controllers work on: the Post and User collections of the
    document store and the set of file names in the `uploads` directory. */
module Store {
  import opened Common
  import opened Credentials

  /** A Post document. `creator` is the owning user's id; both times come from the
      schema's timestamps. */
  datatype Post = Post(
    title: string, category: string, description: string,
    thumbnail: string, creator: nat, createdAt: nat, updatedAt: nat)

  /** A User document. `posts` is the counter the post handlers keep by read-then-write. */
  datatype User = User(
    name: string, email: string, password: PasswordHash,
    avatar: Option<string>, posts: int)

  /** A post together with its id, as the handlers return it. */
  datatype Entry = Entry(id: nat, post: Post)

  /** A user as returned with the password field deselected. */
  datatype Profile = Profile(id: nat, name: string, email: string, avatar: Option<string>, posts: int)

  /** The user with its password deselected. */
  function ProfileOf(id: nat, u: User): Profile {
    Profile(id, u.name, u.email, u.avatar, u.posts)
  }

  /** Two users give the same profile exactly when they differ at most in the password:
      the profile hides the password and nothing else. */
  lemma ProfileHidesOnlyPassword(id: nat, u: User, v: User)
    ensures ProfileOf(id, u) == ProfileOf(id, v) <==> u.(password := v.password) == v
  {
  }

  /** The two collections and the upload directory. Fresh ids come from two counters,
      standing for the ids the document store assigns. */
  class Blog {
    var posts: map<nat, Post>
    var users: map<nat, User>
    var uploads: set<string>
    var nextPostId: nat
    var nextUserId: nat

    /** Every id in use was handed out by its counter. */
    ghost predicate Valid()
      reads this
    {
      (forall id :: id in posts ==> id < nextPostId) &&
      (forall id :: id in users ==> id < nextUserId)
    }

    constructor ()
      ensures Valid()
      ensures posts == map[] && users == map[] && uploads == {}
      ensures nextPostId == 0 && nextUserId == 0
    {
      posts, users, uploads := map[], map[], {};
      nextPostId, nextUserId := 0, 0;
    }

    /** `User.create`: stores `u` under a fresh id. A zero counter keeps the counters in
        agreement, an email nobody holds keeps emails unique. */
    method CreateUser(u: User) returns (id: nat)
      requires Valid()
      modifies this
      ensures Valid()
      ensures id == old(nextUserId) && id !in old(users)
      ensures users == old(users)[id := u] && nextUserId == id + 1
      ensures posts == old(posts) && uploads == old(uploads) && nextPostId == old(nextPostId)
      ensures u.posts == 0 && old(CountersAgree(users, posts)) ==> CountersAgree(users, posts)
      ensures (forall v :: v in old(users) ==> old(users)[v].email != u.email) && old(EmailsUnique(users)) ==>
        EmailsUnique(users)
    {
      id := nextUserId;
      if u.posts == 0 && CountersAgree(users, posts) {
        RegisterKeepsCounters(users, posts, id, u);
      }
      if (forall v :: v in users ==> users[v].email != u.email) && EmailsUnique(users) {
        AddUserKeepsEmailsUnique(users, id, u);
      }
      users := users[id := u];
      nextUserId := id + 1;
    }
  }

  /** The ids of the posts `u` created. */
  function PostsBy(posts: map<nat, Post>, u: nat): set<nat> {
    set id | id in posts && posts[id].creator == u
  }

  /** How many posts `u` created. */
  function Authored(posts: map<nat, Post>, u: nat): nat {
    |PostsBy(posts, u)|
  }

  /** The intended relation between the two collections: every post's creator is a user,
      and each user's counter is the number of posts it created. */
  ghost predicate CountersAgree(users: map<nat, User>, posts: map<nat, Post>) {
    (forall id :: id in posts ==> posts[id].creator in users) &&
    (forall u :: u in users ==> users[u].posts == Authored(posts, u))
  }

  /** No two users hold the same email (compared exactly, as the store compares it). */
  ghost predicate EmailsUnique(users: map<nat, User>) {
    forall u, v :: u in users && v in users && users[u].email == users[v].email ==> u == v
  }

  /** Adding a post with a fresh id adds one to its creator's count and no other. */
  lemma AuthoredAfterInsert(posts: map<nat, Post>, id: nat, p: Post, u: nat)
    requires id !in posts
    ensures Authored(posts[id := p], u) == Authored(posts, u) + (if p.creator == u then 1 else 0)
  {
    var after := PostsBy(posts[id := p], u);
    if p.creator == u {
      assert after == PostsBy(posts, u) + {id};
    } else {
      assert after == PostsBy(posts, u);
    }
  }

  /** Removing a post takes one from its creator's count and from no other. */
  lemma AuthoredAfterRemove(posts: map<nat, Post>, id: nat, u: nat)
    requires id in posts
    ensures Authored(posts - {id}, u) == Authored(posts, u) - (if posts[id].creator == u then 1 else 0)
  {
    var after := PostsBy(posts - {id}, u);
    if posts[id].creator == u {
      assert PostsBy(posts, u) == after + {id};
    } else {
      assert after == PostsBy(posts, u);
    }
  }

  /** Replacing a post by one with the same creator changes no count. */
  lemma AuthoredAfterReplace(posts: map<nat, Post>, id: nat, p: Post, u: nat)
    requires id in posts && posts[id].creator == p.creator
    ensures Authored(posts[id := p], u) == Authored(posts, u)
  {
    assert PostsBy(posts[id := p], u) == PostsBy(posts, u);
  }

  /** Creating a post by a registered user and raising that user's counter by one keeps
      the counters in agreement. */
  lemma CreateKeepsCounters(users: map<nat, User>, posts: map<nat, Post>, id: nat, p: Post)
    requires CountersAgree(users, posts)
    requires id !in posts && p.creator in users
    ensures CountersAgree(
      users[p.creator := users[p.creator].(posts := users[p.creator].posts + 1)],
      posts[id := p])
  {
    var users' := users[p.creator := users[p.creator].(posts := users[p.creator].posts + 1)];
    forall u | u in users'
      ensures users'[u].posts == Authored(posts[id := p], u)
    {
      AuthoredAfterInsert(posts, id, p, u);
    }
  }

  /** Deleting a post and lowering its creator's counter by one keeps the counters in
      agreement. */
  lemma DeleteKeepsCounters(users: map<nat, User>, posts: map<nat, Post>, id: nat)
    requires CountersAgree(users, posts)
    requires id in posts
    ensures posts[id].creator in users
    ensures CountersAgree(
      users[posts[id].creator := users[posts[id].creator].(posts := users[posts[id].creator].posts - 1)],
      posts - {id})
  {
    var c := posts[id].creator;
    var users' := users[c := users[c].(posts := users[c].posts - 1)];
    forall u | u in users'
      ensures users'[u].posts == Authored(posts - {id}, u)
    {
      AuthoredAfterRemove(posts, id, u);
    }
  }

  /** Rewriting a post without changing its creator keeps the counters in agreement. */
  lemma ReplaceKeepsCounters(users: map<nat, User>, posts: map<nat, Post>, id: nat, p: Post)
    requires CountersAgree(users, posts)
    requires id in posts && posts[id].creator == p.creator
    ensures CountersAgree(users, posts[id := p])
  {
    forall u | u in users
      ensures users[u].posts == Authored(posts[id := p], u)
    {
      AuthoredAfterReplace(posts, id, p, u);
    }
  }

  /** A new user with a zero counter and a fresh id keeps the counters in agreement. */
  lemma RegisterKeepsCounters(users: map<nat, User>, posts: map<nat, Post>, id: nat, u: User)
    requires CountersAgree(users, posts)
    requires id !in users && u.posts == 0
    ensures CountersAgree(users[id := u], posts)
  {
    assert PostsBy(posts, id) == {};
  }

  /** Changing a user's fields other than its counter keeps the counters in agreement. */
  lemma UpdateUserKeepsCounters(users: map<nat, User>, posts: map<nat, Post>, id: nat, u: User)
    requires CountersAgree(users, posts)
    requires id in users && u.posts == users[id].posts
    ensures CountersAgree(users[id := u], posts)
  {
  }

  /** Adding a user with a fresh id and an email nobody holds keeps emails unique. */
  lemma AddUserKeepsEmailsUnique(users: map<nat, User>, id: nat, u: User)
    requires EmailsUnique(users)
    requires id !in users && forall v :: v in users ==> users[v].email != u.email
    ensures EmailsUnique(users[id := u])
  {
  }

  /** Giving a user an email no other user holds keeps emails unique. */
  lemma UpdateUserKeepsEmailsUnique(users: map<nat, User>, id: nat, u: User)
    requires EmailsUnique(users)
    requires id in users && forall v :: v in users && users[v].email == u.email ==> v == id
    ensures EmailsUnique(users[id := u])
  {
  }

  /** `findOne({email})`: the lowest id below `n` whose user holds exactly `email`. */
  function FindEmail(users: map<nat, User>, email: string, n: nat): (r: Option<nat>)
    ensures r.Some? ==> r.value < n && r.value in users && users[r.value].email == email
    ensures r.Some? ==> forall id :: id < r.value && id in users ==> users[id].email != email
    ensures r.None? ==> forall id :: id < n && id in users ==> users[id].email != email
  {
    if n == 0 then None
    else
      match FindEmail(users, email, n - 1)
      case Some(id) => Some(id)
      case None => if n - 1 in users && users[n - 1].email == email then Some(n - 1) else None
  }
}
