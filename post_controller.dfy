/** The post handlers: create, list, fetch, edit and delete. Each state-changing handler
    is a method on the shared store; file moves and unlinks are set insertions and
    removals whose success is an input. */
module PostController {
  import opened Common
  import opened Store
  import opened Listing
  import opened FileNames

  /** Largest thumbnail accepted, in bytes. */
  const MaxThumbnail := 2000000

  const MissingCreateFields := "Fill all fields and choose thumbnail"
  const ThumbnailTooBig := "Thumbnail is big, File should be less than 2mb"
  const MissingEditFields := "Fill all fields"
  const NotUpdated := "Could not update post."
  const NotDeleted := "Post cannot be delete"
  const PostNotFound := "Post not found"

  /** The checks `createPost` makes before touching anything, in their order: the three
      text fields, then the thumbnail attachment (reading it off an absent `req.files` or
      an absent field throws), then its size. On success, the thumbnail. */
  function CreateGuard(title: Field, category: Field, description: Field, files: Files): (r: Result<Upload>)
    ensures r.Ok? <==>
      Given(title) && Given(category) && Given(description) &&
      files.Some? && "thumbnail" in files.value && files.value["thumbnail"].size <= MaxThumbnail
    ensures r.Ok? ==> r.value == files.value["thumbnail"]
    ensures !(Given(title) && Given(category) && Given(description)) ==>
      r == Err(Rejected(MissingCreateFields, None))
    ensures (Given(title) && Given(category) && Given(description) &&
             (files.None? || "thumbnail" !in files.value)) ==> r == Err(Internal)
    ensures (Given(title) && Given(category) && Given(description) &&
             files.Some? && "thumbnail" in files.value && files.value["thumbnail"].size > MaxThumbnail) ==>
      r == Err(Rejected(ThumbnailTooBig, None))
  {
    if !Given(title) || !Given(category) || !Given(description) then
      Err(Rejected(MissingCreateFields, None))
    else if files.None? || "thumbnail" !in files.value then
      Err(Internal)
    else if files.value["thumbnail"].size > MaxThumbnail then
      Err(Rejected(ThumbnailTooBig, None))
    else
      Ok(files.value["thumbnail"])
  }

  /** `createPost`: move the thumbnail into the upload directory under its generated name,
      create the post owned by the caller, then read the caller's counter and write it back
      raised by one. A failed move stops before anything is created. When the caller has no
      user record the post is created but reading its counter throws. */
  method CreatePost(db: Blog, caller: nat, title: Field, category: Field, description: Field,
                    files: Files, token: string, moveOk: bool, now: nat) returns (r: Result<Entry>)
    requires db.Valid()
    modifies db
    ensures db.Valid()
    ensures db.nextUserId == old(db.nextUserId)
    ensures CreateGuard(title, category, description, files).Err? ==>
      r == Err(CreateGuard(title, category, description, files).failure) && unchanged(db)
    ensures CreateGuard(title, category, description, files).Ok? && !moveOk ==>
      r == Err(IoFailure) && unchanged(db)
    ensures CreateGuard(title, category, description, files).Ok? && moveOk ==>
      var name := UploadName(files.value["thumbnail"].name, token);
      var id := old(db.nextPostId);
      var p := Post(title.value, category.value, description.value, name, caller, now, now);
      id !in old(db.posts) && db.posts == old(db.posts)[id := p] && db.nextPostId == id + 1 &&
      db.uploads == old(db.uploads) + {name} &&
      (caller in old(db.users) ==>
        r == Ok(Entry(id, p)) &&
        db.users == old(db.users)[caller := old(db.users)[caller].(posts := old(db.users)[caller].posts + 1)]) &&
      (caller !in old(db.users) ==> r == Err(Internal) && db.users == old(db.users))
    ensures r.Ok? && old(CountersAgree(db.users, db.posts)) ==> CountersAgree(db.users, db.posts)
  {
    var guard := CreateGuard(title, category, description, files);
    if guard.Err? {
      return Err(guard.failure);
    }
    var name := UploadName(guard.value.name, token);
    if !moveOk {
      return Err(IoFailure);
    }
    db.uploads := db.uploads + {name};
    var id := db.nextPostId;
    var p := Post(title.value, category.value, description.value, name, caller, now, now);
    ghost var before := db.posts;
    db.posts := db.posts[id := p];
    db.nextPostId := id + 1;
    if caller !in db.users {
      return Err(Internal);
    }
    var user := db.users[caller];
    ghost var usersBefore := db.users;
    db.users := db.users[caller := user.(posts := user.posts + 1)];
    if CountersAgree(usersBefore, before) {
      CreateKeepsCounters(usersBefore, before, id, p);
    }
    r := Ok(Entry(id, p));
  }

  /** `getPosts`: every post, most recently updated first. */
  function GetPosts(db: Blog): (r: seq<Entry>)
    reads db
    requires db.Valid()
    ensures SortedDesc(r, UpdatedAt)
    ensures forall e :: e in r <==> e.id in db.posts && db.posts[e.id] == e.post
    ensures forall i, j :: 0 <= i < j < |r| ==> r[i].id != r[j].id
  {
    Query(db.posts, db.nextPostId, Everything, UpdatedAt)
  }

  /** `getSinglePost`: the post with the given id, or "Post not found" with 404. */
  function GetSinglePost(db: Blog, id: nat): (r: Result<Entry>)
    reads db
    ensures r.Ok? <==> id in db.posts
    ensures r.Ok? ==> r.value == Entry(id, db.posts[id])
    ensures r.Err? ==> r.failure == Rejected(PostNotFound, Some(404))
  {
    if id in db.posts then Ok(Entry(id, db.posts[id])) else Err(Rejected(PostNotFound, Some(404)))
  }

  /** `getCatPosts`: the posts of one category, newest first. */
  function GetCatPosts(db: Blog, category: string): (r: seq<Entry>)
    reads db
    requires db.Valid()
    ensures SortedDesc(r, CreatedAt)
    ensures forall e :: e in r <==> e.id in db.posts && db.posts[e.id] == e.post && e.post.category == category
    ensures forall i, j :: 0 <= i < j < |r| ==> r[i].id != r[j].id
  {
    Query(db.posts, db.nextPostId, InCategory(category), CreatedAt)
  }

  /** `getUserPosts`: the posts one user created, newest first; there are as many as
      that user's counter says whenever the counters agree. */
  function GetUserPosts(db: Blog, creator: nat): (r: seq<Entry>)
    reads db
    requires db.Valid()
    ensures SortedDesc(r, CreatedAt)
    ensures forall e :: e in r <==> e.id in db.posts && db.posts[e.id] == e.post && e.post.creator == creator
    ensures forall i, j :: 0 <= i < j < |r| ==> r[i].id != r[j].id
    ensures |r| == Authored(db.posts, creator)
  {
    ListingByCreatorLength(db.posts, db.nextPostId, creator, CreatedAt);
    Query(db.posts, db.nextPostId, ByCreator(creator), CreatedAt)
  }

  /** The checks `editPost` makes before any lookup: title and category, then the
      description's length (reading the length of an absent description throws). */
  function EditGuard(title: Field, category: Field, description: Field): (r: Option<Failure>)
    ensures r.None? <==> Given(title) && Given(category) && description.Some? && |description.value| >= 12
    ensures !(Given(title) && Given(category)) ==> r == Some(Rejected(MissingEditFields, Some(422)))
    ensures Given(title) && Given(category) && description.None? ==> r == Some(Internal)
    ensures Given(title) && Given(category) && description.Some? && |description.value| < 12 ==>
      r == Some(Rejected(MissingEditFields, Some(422)))
  {
    if !Given(title) || !Given(category) then Some(Rejected(MissingEditFields, Some(422)))
    else if description.None? then Some(Internal)
    else if |description.value| < 12 then Some(Rejected(MissingEditFields, Some(422)))
    else None
  }

  /** `editPost`. Without files, the owner's edit rewrites the three text fields. With
      files, the old thumbnail is unlinked first (its outcome is not awaited), and only then
      is the new thumbnail read and its size checked; the new file's move is not awaited
      either, so the post takes the new name whether or not the move succeeds. The size
      error hands 422 to `next` rather than to the error, so it carries no status. */
  method EditPost(db: Blog, caller: nat, postId: nat, title: Field, category: Field, description: Field,
                  files: Files, token: string, unlinkOk: bool, moveOk: bool, now: nat)
    returns (r: Result<Entry>)
    requires db.Valid()
    modifies db
    ensures db.Valid()
    ensures db.users == old(db.users)
    ensures db.nextPostId == old(db.nextPostId) && db.nextUserId == old(db.nextUserId)
    ensures db.posts.Keys == old(db.posts.Keys)
    ensures EditGuard(title, category, description).Some? ==>
      r == Err(EditGuard(title, category, description).value) && unchanged(db)
    ensures EditGuard(title, category, description).None? && postId !in old(db.posts) ==>
      r == Err(Internal) && unchanged(db)
    ensures (EditGuard(title, category, description).None? && postId in old(db.posts) &&
             caller != old(db.posts)[postId].creator) ==>
      r == Err(Rejected(NotUpdated, Some(400))) && unchanged(db)
    ensures (EditGuard(title, category, description).None? && postId in old(db.posts) &&
             caller == old(db.posts)[postId].creator) ==>
      var p := old(db.posts)[postId].(title := title.value, category := category.value,
                                      description := description.value, updatedAt := now);
      (files.None? ==>
        r == Ok(Entry(postId, p)) && db.posts == old(db.posts)[postId := p] && db.uploads == old(db.uploads)) &&
      (files.Some? ==> ThumbnailReplaced(old(db.posts), old(db.uploads), db.posts, db.uploads,
                                         postId, p, files.value, token, unlinkOk, moveOk, r))
    ensures old(CountersAgree(db.users, db.posts)) ==> CountersAgree(db.users, db.posts)
  {
    var guard := EditGuard(title, category, description);
    if guard.Some? {
      return Err(guard.value);
    }
    if postId !in db.posts {
      return Err(Internal);
    }
    var before := db.posts[postId];
    if caller != before.creator {
      return Err(Rejected(NotUpdated, Some(400)));
    }
    var p := before.(title := title.value, category := category.value,
                     description := description.value, updatedAt := now);
    if files.None? {
      if CountersAgree(db.users, db.posts) {
        ReplaceKeepsCounters(db.users, db.posts, postId, p);
      }
      db.posts := db.posts[postId := p];
      r := Ok(Entry(postId, p));
    } else {
      r := ReplaceThumbnail(db, postId, p, files.value, token, unlinkOk, moveOk);
    }
  }

  /** What an owner's edit with files does to the posts and the upload directory, given
      the post with its new text fields `p`: the old thumbnail is gone if its unlink
      succeeded; then a missing or oversized thumbnail fails with the post untouched, and
      otherwise the post is `p` under the new name, whose file exists if its move succeeded. */
  ghost predicate ThumbnailReplaced(posts: map<nat, Post>, uploads: set<string>,
                                    posts': map<nat, Post>, uploads': set<string>,
                                    postId: nat, p: Post, files: map<string, Upload>,
                                    token: string, unlinkOk: bool, moveOk: bool, r: Result<Entry>)
    requires postId in posts
  {
    var kept := if unlinkOk then uploads - {posts[postId].thumbnail} else uploads;
    if "thumbnail" !in files then
      r == Err(Internal) && posts' == posts && uploads' == kept
    else if files["thumbnail"].size > MaxThumbnail then
      r == Err(Rejected(ThumbnailTooBig, None)) && posts' == posts && uploads' == kept
    else
      var name := UploadName(files["thumbnail"].name, token);
      r == Ok(Entry(postId, p.(thumbnail := name))) && posts' == posts[postId := p.(thumbnail := name)] &&
      uploads' == (if moveOk then kept + {name} else kept)
  }

  /** The files branch of `editPost` never adds or removes a post, leaves every other post
      as it was, and succeeds exactly when a thumbnail of at most 2000000 bytes was sent. */
  lemma ThumbnailReplacedEffect(posts: map<nat, Post>, uploads: set<string>,
                                posts': map<nat, Post>, uploads': set<string>,
                                postId: nat, p: Post, files: map<string, Upload>,
                                token: string, unlinkOk: bool, moveOk: bool, r: Result<Entry>)
    requires postId in posts
    requires ThumbnailReplaced(posts, uploads, posts', uploads', postId, p, files, token, unlinkOk, moveOk, r)
    ensures posts'.Keys == posts.Keys
    ensures forall q :: q in posts && q != postId ==> posts'[q] == posts[q]
    ensures r.Ok? <==> "thumbnail" in files && files["thumbnail"].size <= MaxThumbnail
  {
  }

  /** The files branch of `editPost`, from the unlink of the old thumbnail on. */
  method ReplaceThumbnail(db: Blog, postId: nat, p: Post, files: map<string, Upload>,
                          token: string, unlinkOk: bool, moveOk: bool) returns (r: Result<Entry>)
    requires db.Valid() && postId in db.posts && db.posts[postId].creator == p.creator
    modifies db`posts, db`uploads
    ensures db.Valid() && db.posts.Keys == old(db.posts.Keys)
    ensures ThumbnailReplaced(old(db.posts), old(db.uploads), db.posts, db.uploads,
                              postId, p, files, token, unlinkOk, moveOk, r)
    ensures old(CountersAgree(db.users, db.posts)) ==> CountersAgree(db.users, db.posts)
  {
    ghost var kept := if unlinkOk then db.uploads - {db.posts[postId].thumbnail} else db.uploads;
    if unlinkOk {
      db.uploads := db.uploads - {db.posts[postId].thumbnail};
    }
    assert db.uploads == kept;
    if "thumbnail" !in files {
      return Err(Internal);
    }
    var thumbnail := files["thumbnail"];
    if thumbnail.size > MaxThumbnail {
      return Err(Rejected(ThumbnailTooBig, None));
    }
    var name := UploadName(thumbnail.name, token);
    if moveOk {
      db.uploads := db.uploads + {name};
    }
    assert db.uploads == if moveOk then kept + {name} else kept;
    var q := p.(thumbnail := name);
    StorePost(db, postId, q);
    r := Ok(Entry(postId, q));
  }

  /** `Post.findByIdAndUpdate` on an existing post, keeping its creator: the post is
      rewritten and the counters still agree. */
  method StorePost(db: Blog, postId: nat, q: Post)
    requires db.Valid() && postId in db.posts && db.posts[postId].creator == q.creator
    modifies db`posts
    ensures db.Valid() && db.posts == old(db.posts)[postId := q]
    ensures old(CountersAgree(db.users, db.posts)) ==> CountersAgree(db.users, db.posts)
  {
    if CountersAgree(db.users, db.posts) {
      ReplaceKeepsCounters(db.users, db.posts, postId, q);
    }
    db.posts := db.posts[postId := q];
  }

  /** `deletePost`: only the creator may delete. The thumbnail is unlinked first; only if
      that succeeds are the post removed and the caller's counter read and written back
      lowered by one. With no user record the counter read gives NaN, whose write fails
      after the post and its file are gone, so that path is an internal failure. On
      success the handler reports the deleted id. */
  method DeletePost(db: Blog, caller: nat, postId: nat, unlinkOk: bool) returns (r: Result<nat>)
    requires db.Valid()
    modifies db
    ensures db.Valid()
    ensures db.nextPostId == old(db.nextPostId) && db.nextUserId == old(db.nextUserId)
    ensures postId !in old(db.posts) ==> r == Err(Internal) && unchanged(db)
    ensures (postId in old(db.posts) && caller != old(db.posts)[postId].creator) ==>
      r == Err(Rejected(NotDeleted, Some(403))) && unchanged(db)
    ensures (postId in old(db.posts) && caller == old(db.posts)[postId].creator) ==>
      var thumbnail := old(db.posts)[postId].thumbnail;
      (!(unlinkOk && thumbnail in old(db.uploads)) ==> r == Err(IoFailure) && unchanged(db)) &&
      (unlinkOk && thumbnail in old(db.uploads) ==>
        r == (if caller in old(db.users) then Ok(postId) else Err(Internal)) &&
        db.posts == old(db.posts) - {postId} &&
        db.uploads == old(db.uploads) - {thumbnail} &&
        db.users == (if caller in old(db.users)
                     then old(db.users)[caller := old(db.users)[caller].(posts := old(db.users)[caller].posts - 1)]
                     else old(db.users)))
    ensures old(CountersAgree(db.users, db.posts)) ==> CountersAgree(db.users, db.posts)
  {
    if postId !in db.posts {
      return Err(Internal);
    }
    var post := db.posts[postId];
    if caller != post.creator {
      return Err(Rejected(NotDeleted, Some(403)));
    }
    if !(unlinkOk && post.thumbnail in db.uploads) {
      return Err(IoFailure);
    }
    ghost var agreed := CountersAgree(db.users, db.posts);
    if agreed {
      DeleteKeepsCounters(db.users, db.posts, postId);
    }
    db.uploads := db.uploads - {post.thumbnail};
    db.posts := db.posts - {postId};
    if caller !in db.users {
      return Err(Internal);
    }
    var user := db.users[caller];
    db.users := db.users[caller := user.(posts := user.posts - 1)];
    r := Ok(postId);
  }
}
