# Blog API controllers — a Dafny model

This project models the two controller files of a Node.js blogging backend
(`controllers/postControllers.js`, `controllers/userControllers.js`) as a small
state machine over an abstract store:

- `Store.Blog` holds the Post collection (`id → Post`), the User collection
  (`id → User`), the set of file names in the `uploads` directory, and two id
  counters that stand for the ids the document store hands out.
- Each request handler is a method (`createPost`, `editPost`, `deletePost`,
  `registerUser`, `changeAvatar`, `editUser`) or a function (`getPosts`,
  `getSinglePost`, `getCatPosts`, `getUserPosts`, `loginUser`, `getUser`,
  `getAuthors`). The caller id, the body fields, the uploaded files, the
  uniqueness token, the current time and the success of each file move or
  unlink are parameters.
- A handler returns `Ok(result)` or `Err(failure)`. A failure is
  `Rejected(message, status)` for `next(new HttpError(message, status))`
  (`status` is `None` where the code passes no status), `IoFailure` for an error
  object from a move or unlink callback, or `Internal` for an exception thrown
  inside the handler, such as reading a property of a missing record or attachment.
- A body field is `Option<string>`. `Given` is JavaScript truthiness: present and
  not empty.

Main results:

- **Post counter.** `CountersAgree` says every post's creator is a user, and each
  user's `posts` equals the number of posts it created (the size of `PostsBy`, the
  set of post ids whose creator is that user). Every handler keeps it when
  it succeeds. `createPost` by a caller with no user record is the one failing
  path that breaks it. `getUserPosts` returns exactly that many posts.
- **Upload names.** `UploadName` is `split('.')[0] + token + "." + split('.')[last]`.
  It equals the text before the first dot, then the token, a dot, and the text
  after the last dot. A name without a dot gives `name + token + "." + name`.
  Two distinct tokens of equal length give distinct names.
- **Listings.** Each returns exactly the matching posts, each once, newest first.
  Sorting is an insertion sort proved to return a sorted permutation.
- **Accounts.** Registration and profile edits keep exact-match email uniqueness.
  Login gives the same error for an unknown email and a wrong password. Profiles
  from `getUser` and `getAuthors` have no password field.
- **Scenarios.** Two scenarios on a fresh store are proved: account registration
  and login, and a post's create, fetch, forbidden delete, owner delete and failed re-fetch.

Quirks kept as written:

- `editPost` unlinks the old thumbnail (postControllers.js:138) before it reads
  the new one and checks its size (:145-149). `changeAvatar` unlinks the old
  avatar (userControllers.js:116-121) before its size check (:125). A refused
  upload therefore leaves the record naming a removed file.
- In `editPost`, both the unlink and the new file's move are not awaited. The
  post takes the new name whether or not the move succeeded (:154-160).
- The `editPost` size error hands 422 to `next`, not to `HttpError` (:148), so
  it carries no status.
- A non-owner edit returns 400 (:164). A non-owner delete returns 403 (:205).
- `editUser` looks the email up exactly as typed (userControllers.js:169) and
  stores it as typed (:192). Login lower-cases the email it looks up (:61-63).
  `MixedCaseEmailLocksOut` proves the consequence: a user whose stored email has
  an ASCII capital letter can never log in.
- `changeAvatar` and `editUser` return the full updated record, password hash
  included (:143, :193). Only `getUser` and `getAuthors` deselect the password.

Further behaviour of the handlers that the model keeps:

- A missing post on edit or delete reaches a property read of `null` and is an
  `Internal` failure, not a "not found" response (postControllers.js:131, :190).
- A missing caller in `editUser` is refused with 403 (userControllers.js:164-166).
- The thumbnail size errors carry no status (postControllers.js:22, :148).

## Model

| member | source | states |
|---|---|---|
| Text.Lower | controllers/userControllers.js:23 | the model's lower-casing keeps the length, lower-cases each character, leaves no ASCII capital letter |
| Text.LowerIdempotent | controllers/userControllers.js:61 | lower-casing an already lower-cased email changes nothing |
| Text.TrimStart | controllers/userControllers.js:31 | result is a suffix; what was cut is all white space; result does not start with white space |
| Text.TrimEnd | controllers/userControllers.js:31 | result is a prefix; what was cut is all white space; result does not end with white space |
| Text.Trim | controllers/userControllers.js:31 | `trim` never lengthens and leaves no white space at either end |
| Text.TrimPadded | controllers/userControllers.js:31 | `trim` of white space + non-empty text + white space is exactly the text |
| Text.TrimAllSpace | controllers/userControllers.js:31 | `trim` gives the empty string exactly when the text is all white space (so "      " fails the six-character rule) |
| Text.Split | controllers/postControllers.js:25 | `split('.')` has at least one piece, no piece holds a dot, joining with '.' gives the input back |
| Text.SplitSegments | controllers/postControllers.js:25-26 | piece 0 is the text before the first dot, the last piece the text after the last dot |
| FileNames.UploadName | controllers/postControllers.js:24-26 | the stored name is some text-before-the-first-dot, the token, a dot, and some text-after-the-last-dot of the original name |
| FileNames.UploadNameShape | controllers/postControllers.js:24-26 | stored name = text before first dot + token + "." + text after last dot |
| FileNames.UploadNameWithoutDot | controllers/userControllers.js:131-133 | a name with no dot becomes name + token + "." + name |
| FileNames.UploadNameSeparatesTokens | controllers/postControllers.js:152-153 | distinct tokens of equal length give distinct stored names |
| Credentials.VerifyHash | controllers/userControllers.js:68 | a hash verifies against the password it was made from and no other (whole-password comparison, see Left out) |
| Store.ProfileHidesOnlyPassword | controllers/userControllers.js:91 | two users give the same profile exactly when they differ at most in the password: `select('-password')` drops that field and keeps the others |
| Store.Blog.CreateUser | controllers/userControllers.js:42 | `User.create` adds one user under a fresh id; zero counter keeps counters agreeing; unused email keeps emails unique |
| Store.AuthoredAfterInsert | controllers/postControllers.js:31 | a new post raises its creator's count by one and no other |
| Store.AuthoredAfterRemove | controllers/postControllers.js:196 | removing a post lowers its creator's count by one and no other |
| Store.AuthoredAfterReplace | controllers/postControllers.js:160 | rewriting a post with the same creator changes no count |
| Store.CreateKeepsCounters | controllers/postControllers.js:31-39 | create plus counter+1 keeps `posts` equal to posts authored |
| Store.DeleteKeepsCounters | controllers/postControllers.js:196-200 | delete plus counter-1 keeps `posts` equal to posts authored |
| Store.ReplaceKeepsCounters | controllers/postControllers.js:134 | an edit keeps `posts` equal to posts authored |
| Store.RegisterKeepsCounters | controllers/userControllers.js:42 | a new user with counter 0 keeps the counters agreeing |
| Store.UpdateUserKeepsCounters | controllers/userControllers.js:192 | changing user fields other than `posts` keeps the counters agreeing |
| Store.AddUserKeepsEmailsUnique | controllers/userControllers.js:25-29 | adding a user with an unused email keeps emails unique |
| Store.UpdateUserKeepsEmailsUnique | controllers/userControllers.js:169-174 | giving a user an email no other user holds keeps emails unique |
| Store.FindEmail | controllers/userControllers.js:25 | `findOne({email})`: the lowest id holding the email, or none holds it |
| Listing.Select | controllers/postControllers.js:93 | `find(filter)`: exactly the stored posts matching the filter, in increasing id order |
| Listing.InsertPermutes | controllers/postControllers.js:56 | inserting adds the entry and loses none |
| Listing.InsertMembers | controllers/postControllers.js:56 | after inserting, each entry is the new one or an old one |
| Listing.InsertSorted | controllers/postControllers.js:56 | inserting keeps a newest-first sequence newest first |
| Listing.Sort | controllers/postControllers.js:56 | `sort({key: -1})` returns a newest-first permutation of its input |
| Listing.OccursAtMostOnce | controllers/postControllers.js:56 | a sequence with increasing ids holds each entry at most once |
| Listing.ReorderingKeepsIdsDistinct | controllers/postControllers.js:56 | a permutation of such a sequence holds each id once |
| Listing.Query | controllers/postControllers.js:93 | find-then-sort: sorted, a permutation of the matching posts, each id once |
| Listing.SelectByCreatorCount | controllers/postControllers.js:107 | selecting by creator finds as many posts as that creator has |
| Listing.ListingByCreatorLength | controllers/postControllers.js:107 | an author's listing is exactly as long as that author's post count |
| PostController.CreateGuard | controllers/postControllers.js:14-23 | ordered checks: text fields, then attachment present, then size ≤ 2000000 (exactly 2000000 passes) |
| PostController.CreatePost | controllers/postControllers.js:12-47 | refusal or failed move changes nothing; success adds one post by the caller with the generated thumbnail, adds the file, raises only the caller's counter by 1 |
| PostController.GetPosts | controllers/postControllers.js:54-62 | all posts, each once, most recently updated first |
| PostController.GetSinglePost | controllers/postControllers.js:69-84 | the stored post with that id, or "Post not found" 404 |
| PostController.GetCatPosts | controllers/postControllers.js:90-99 | exactly the posts of that category, each once, newest first |
| PostController.GetUserPosts | controllers/postControllers.js:104-112 | exactly that creator's posts, each once, newest first, as many as the creator authored |
| PostController.EditGuard | controllers/postControllers.js:123-127 | title and category given and description of at least 12 characters, else 422 (absent description throws) |
| PostController.EditPost | controllers/postControllers.js:117-177 | refusals, a missing post and a non-owner (400) change nothing; without files only title, category, description (and updatedAt) change |
| PostController.ThumbnailReplacedEffect | controllers/postControllers.js:135-161 | effect of the files branch: no post appears or disappears, other posts are untouched, and the edit succeeds exactly when a thumbnail of at most 2000000 bytes was sent |
| PostController.ReplaceThumbnail | controllers/postControllers.js:135-161 | old thumbnail unlinked first; missing or oversized thumbnail fails leaving the post; otherwise post takes the new name, file exists iff the move succeeded |
| PostController.StorePost | controllers/postControllers.js:160 | `findByIdAndUpdate` rewrites only that post and, the creator being kept, the counters still agree |
| PostController.DeletePost | controllers/postControllers.js:182-212 | non-owner 403 and failed unlink change nothing; otherwise post and file are removed and only the caller's counter drops by 1, a caller with no user record giving an internal failure |
| UserController.RegisterGuard | controllers/userControllers.js:17-37 | passes exactly when all checks pass; ordered failures: fields "Fill in all fields" 422, lower-cased email present "Email already exists" 422, trimmed password < 6 "Password should be more than 6 characters" 424, mismatch "Password doesn't match" 422 |
| UserController.RegisterUser | controllers/userControllers.js:15-48 | refusal changes nothing; success adds exactly one user with lower-cased email, hash of the password, no avatar, counter 0 |
| UserController.LoginUser | controllers/userControllers.js:53-81 | unknown email and wrong password give the same 422; success returns the matching user's id and name, token carrying both |
| UserController.MixedCaseEmailLocksOut | controllers/userControllers.js:61-63 | a user whose stored email has an ASCII capital letter is never logged in |
| UserController.GetUser | controllers/userControllers.js:87-101 | the user's password-free profile, or "User not found" 404 |
| UserController.Profiles | controllers/userControllers.js:205 | one password-free profile per user, in id order |
| UserController.GetAuthors | controllers/userControllers.js:203-210 | every user's password-free profile, each once |
| UserController.ChangeAvatar | controllers/userControllers.js:106-150 | missing avatar 422 changes nothing; old avatar unlinked before the 500000-byte check; success changes only the caller's avatar, to the generated name |
| UserController.EditUserGuard | controllers/userControllers.js:157-185 | passes whenever all checks pass, and with unique emails only then; ordered failures: fields "Fill all fields" 422, unknown caller "User not found" 403, email of another user "Email already exists" 422, wrong current password "Invalid current password" 422, mismatch "New password do not match" 422 |
| UserController.EditUser | controllers/userControllers.js:155-198 | refusal changes nothing; success replaces exactly name, email as typed and password hash |
| Scenarios.ShortPasswordAfterTrim | controllers/userControllers.js:31 | "  abc " trims to "abc" |
| Scenarios.ShortPasswordRefused | controllers/userControllers.js:31-33 | registering with "  abc " is refused with 424 |
| Scenarios.LongPasswordAfterTrim | controllers/userControllers.js:31 | "secret1" is unchanged by trimming |
| Scenarios.RegisterAAccepted | controllers/userControllers.js:19-37 | a first registration passes every check |
| Scenarios.RegisterATwiceRefused | controllers/userControllers.js:25-29 | registering the same email again is refused as a duplicate |
| Scenarios.LoginA | controllers/userControllers.js:61-76 | wrong password → "Invalid credentials" 422; right password → session for id 0 |
| Scenarios.RegisterBAccepted | controllers/userControllers.js:19-37 | a second user with another email passes every check |
| Scenarios.AccountScenario | controllers/userControllers.js:15-81 | register, duplicate register, wrong and right login give the expected results |
| Scenarios.PostScenario | controllers/postControllers.js:182-212 | A creates a post (counter 1), fetch returns the submitted fields, B's delete is 403, A's delete succeeds (counter 0, thumbnail file gone), a later fetch is "Post not found" 404 |

## Left out

- Route and middleware wiring (`routes/postRoutes.js`) and the token check. The authenticated caller's id is a parameter.
- The document store is an in-memory map. Store calls never fail, and ids are counters. Cast errors from malformed ids in the URL are not modelled.
- The `Post.create` null check (postControllers.js:32-34), the `!updatedPost` check (:168-170) and the `!updatedAvatar` check (userControllers.js:140-142) are not modelled. The store in this model never returns null for a record that exists.
- The `!postId` guard in `deletePost` (postControllers.js:185-187) is not modelled. The `/:id` route never gives an empty id.
- The catch-all errors of `registerUser` and `loginUser` (userControllers.js:46, :79) are not modelled. Body fields in the model are always strings, so nothing there can throw.
- bcrypt's salt and cost factor are not modelled. `Hash` and `Verify` stand in for `bcrypt.hash` and `bcrypt.compare`.
- Credentials.VerifyHash: the model compares whole passwords, while bcrypt reads only the first 72 bytes of a password. Two passwords sharing their first 72 bytes verify against each other's hash in the source and not in the model.
- PostController.DeletePost: `findOneAndDelete(postId)` (postControllers.js:196) receives the id where a filter is expected; the model reads it as delete-by-id. With a real document store the call may delete a different document while the caller's counter still drops (:198-200). The counter-agreement result of `DeletePost` rests on this reading.
- JWT signing and the one-day expiry are not modelled. The token is the opaque value `Signed(id, name)`.
- `uuid()` is a token parameter. The upload name's uniqueness cannot be proved; only `UploadNameSeparatesTokens` is stated.
- `mv` and `unlink` are set insertion and removal with a success input. An unlink also fails when the file is absent.
- Late `next` calls from fire-and-forget callbacks (postControllers.js:138-142, :154-158; userControllers.js:117-121) are not modelled. That is callback concurrency.
- Races between requests and the non-atomic counter read-then-write are not modelled.
- PostController.CreatePost: for a caller with no user record, the source throws inside the move callback and never responds. The model returns `Internal` and keeps the created post.
- PostController.DeletePost: for an owner with no user record, the source writes a NaN counter (postControllers.js:199-200), the write rejects inside the unlink callback and no response is sent. The model returns `Internal` with the post and its file already removed.
- The status of an `HttpError` built without a code is not modelled (`None`). The error model file is not part of this model.
- `createdAt`/`updatedAt` come from a `now` parameter. The schema is assumed to keep timestamps.
- A new user's `posts` is assumed to start at 0. The user schema is not part of this model.
- Text.Lower: only ASCII letters are lower-cased.
- PostController.EditGuard, UserController.RegisterGuard: string lengths (the 12-character description rule, postControllers.js:125, and the 6-character password rule, userControllers.js:31) are counted in characters, while JavaScript counts UTF-16 code units; six characters outside the Basic Multilingual Plane are 12 units and pass the description rule in the source but not in the model.
- Text.Trim: its contract states only the length bound and the ends. What `trim` returns is stated by two lemmas together: `TrimAllSpace` for an all-white-space text, `TrimPadded` for white space around a non-empty text with non-white ends.
- Listing.Sort: ties are kept in one fixed order. The store's own order among equal timestamps is unspecified.
- UserController.GetAuthors: profiles come in id order. The store's natural order is unspecified.
- Store.FindEmail: when several records share an email, `findOne` picks one of them; the model picks the lowest id.
- UserController.LoginUser: success iff a matching user verifies is stated only when emails are unique.
- UserController.EditUserGuard: the duplicate-email rejection, and the direction "passes only when every check passes", are stated only when emails are unique; the direction "every check passing means it passes" holds for any store.
