/** Request sequences applied to a fresh store, each ending in what a client observes. */
module Scenarios {
  import opened Common
  import opened Text
  import opened Credentials
  import opened Store
  import opened PostController
  import opened UserController

  /** Trimming "  abc " leaves three characters. */
  lemma ShortPasswordAfterTrim()
    ensures Trim("  abc ") == "abc"
  {
    assert "  abc " == "  " + "abc" + " ";
    TrimPadded("  ", "abc", " ");
  }

  /** "secret1" has no white space to trim and is long enough. */
  lemma LongPasswordAfterTrim()
    ensures Trim("secret1") == "secret1"
  {
    assert "secret1" == "" + "secret1" + "";
    TrimPadded("", "secret1", "");
  }

  /** So registering with the password "  abc " is refused with 424. */
  lemma ShortPasswordRefused()
    ensures RegisterGuard(map[], 0, Some("A"), Some("a@x.com"), Some("  abc "), Some("  abc ")) ==
      Some(Rejected(PasswordTooShort, Some(424)))
  {
    ShortPasswordAfterTrim();
  }

  /** The record registering A with "a@x.com" and "secret1" stores. */
  function UserA(): User {
    User("A", "a@x.com", Hash("secret1"), None, 0)
  }

  /** On an empty store A's registration passes every check. */
  lemma RegisterAAccepted()
    ensures RegisterGuard(map[], 0, Some("A"), Some("a@x.com"), Some("secret1"), Some("secret1")) == None
    ensures Lower("a@x.com") == "a@x.com"
  {
    LongPasswordAfterTrim();
    LowerOfLowerCase("a@x.com");
  }

  /** Once A is stored, registering "a@x.com" again is refused as a duplicate. */
  lemma RegisterATwiceRefused()
    ensures RegisterGuard(map[0 := UserA()], 1, Some("A"), Some("a@x.com"), Some("secret1"), Some("secret1")) ==
      Some(Rejected(EmailExists, Some(422)))
  {
    LowerOfLowerCase("a@x.com");
    assert FindEmail(map[0 := UserA()], "a@x.com", 1) == Some(0);
  }

  /** With A the only user, a wrong password and the right one. */
  lemma LoginA(db: Blog)
    requires db.Valid() && db.users == map[0 := UserA()]
    ensures LoginUser(db, Some("a@x.com"), Some("wrong1")) == Err(Rejected(InvalidCredentials, Some(422)))
    ensures LoginUser(db, Some("a@x.com"), Some("secret1")) == Ok(Session(Signed(0, "A"), 0, "A"))
  {
    LowerOfLowerCase("a@x.com");
    assert 0 in db.users && db.users[0].email == "a@x.com";
    assert FindEmail(db.users, "a@x.com", db.nextUserId) == Some(0);
  }

  /** Register A; registering the same email again is refused; a wrong password gets the
      generic credentials error; the right one yields a session for A's id. */
  method AccountScenario() returns (first: Result<string>, again: Result<string>,
                                    wrong: Result<Session>, right: Result<Session>)
    ensures first.Ok?
    ensures again == Err(Rejected(EmailExists, Some(422)))
    ensures wrong == Err(Rejected(InvalidCredentials, Some(422)))
    ensures right.Ok? && right.value.id == 0 && right.value.token.id == 0 && right.value.name == "A"
  {
    var db := new Blog();
    RegisterAAccepted();
    first := RegisterUser(db, Some("A"), Some("a@x.com"), Some("secret1"), Some("secret1"));
    assert db.users == map[0 := UserA()] && db.nextUserId == 1;
    RegisterATwiceRefused();
    again := RegisterUser(db, Some("A"), Some("a@x.com"), Some("secret1"), Some("secret1"));
    LoginA(db);
    wrong := LoginUser(db, Some("a@x.com"), Some("wrong1"));
    right := LoginUser(db, Some("a@x.com"), Some("secret1"));
  }

  /** The record registering B with "b@x.com" and "secret1" stores. */
  function UserB(): User {
    User("B", "b@x.com", Hash("secret1"), None, 0)
  }

  /** Once A is stored, B's registration passes every check. */
  lemma RegisterBAccepted()
    ensures RegisterGuard(map[0 := UserA()], 1, Some("B"), Some("b@x.com"), Some("secret1"), Some("secret1")) == None
    ensures Lower("b@x.com") == "b@x.com"
  {
    LongPasswordAfterTrim();
    LowerOfLowerCase("b@x.com");
  }

  /** A fresh store in which A (id 0) and B (id 1) have registered. */
  method RegisterAB() returns (db: Blog)
    ensures fresh(db) && db.Valid()
    ensures db.users == map[0 := UserA(), 1 := UserB()] && db.posts == map[] && db.uploads == {}
    ensures db.nextPostId == 0
  {
    db := new Blog();
    RegisterAAccepted();
    var a := RegisterUser(db, Some("A"), Some("a@x.com"), Some("secret1"), Some("secret1"));
    RegisterBAccepted();
    var b := RegisterUser(db, Some("B"), Some("b@x.com"), Some("secret1"), Some("secret1"));
  }

  /** A creates a post with a 1,000,000-byte thumbnail and its counter reads 1; fetching
      the post gives back what was submitted; B may not delete it; A deletes it, the
      thumbnail file goes, A's counter reads 0 again and fetching the post finds nothing. */
  method PostScenario() returns (created: Result<Entry>, fetched: Result<Entry>,
                                 byOther: Result<nat>, byOwner: Result<nat>,
                                 countAfterCreate: int, countAfterDelete: int,
                                 fetchedAfterDelete: Result<Entry>, thumbnailKept: bool)
    ensures created.Ok? && created.value.post.creator == 0
    ensures fetched.Ok? && fetched.value.post.title == "Title" &&
            fetched.value.post.category == "News" && fetched.value.post.description == "A description"
    ensures countAfterCreate == 1
    ensures byOther == Err(Rejected(NotDeleted, Some(403)))
    ensures byOwner.Ok? && countAfterDelete == 0
    ensures fetchedAfterDelete == Err(Rejected(PostNotFound, Some(404))) && !thumbnailKept
  {
    var db := RegisterAB();
    assert CountersAgree(db.users, db.posts);
    var files := Some(map["thumbnail" := Upload("photo.png", 1000000)]);
    assert CreateGuard(Some("Title"), Some("News"), Some("A description"), files) == Ok(files.value["thumbnail"]);
    created := CreatePost(db, 0, Some("Title"), Some("News"), Some("A description"), files, "t1", true, 1);
    var id := created.value.id;
    assert db.users[0].posts == 1;
    assert id in db.posts && db.posts[id].creator == 0 && db.posts[id].thumbnail in db.uploads;
    countAfterCreate := db.users[0].posts;
    fetched := GetSinglePost(db, id);
    byOther := DeletePost(db, 1, id, true);
    assert db.users[0].posts == 1;
    byOwner := DeletePost(db, 0, id, true);
    countAfterDelete := db.users[0].posts;
    fetchedAfterDelete := GetSinglePost(db, id);
    thumbnailKept := created.value.post.thumbnail in db.uploads;
  }
}
