/** The post queries: `find(filter)` over the Post collection, then `sort` descending
    on one timestamp. */
module Listing {
  import opened Store

  /** The filters the three listing handlers pass to `find`. */
  datatype Filter = Everything | InCategory(category: string) | ByCreator(creator: nat)

  predicate Matches(f: Filter, p: Post) {
    match f
    case Everything => true
    case InCategory(c) => p.category == c
    case ByCreator(u) => p.creator == u
  }

  datatype SortKey = CreatedAt | UpdatedAt

  function Key(e: Entry, k: SortKey): nat {
    match k
    case CreatedAt => e.post.createdAt
    case UpdatedAt => e.post.updatedAt
  }

  /** Newest first. */
  predicate SortedDesc(s: seq<Entry>, k: SortKey) {
    forall i, j :: 0 <= i < j < |s| ==> Key(s[i], k) >= Key(s[j], k)
  }

  /** The posts with an id below `n` that match `f`, in increasing id order. */
  function Select(posts: map<nat, Post>, n: nat, f: Filter): (s: seq<Entry>)
    ensures forall e :: e in s <==> e.id < n && e.id in posts && posts[e.id] == e.post && Matches(f, e.post)
    ensures forall i, j :: 0 <= i < j < |s| ==> s[i].id < s[j].id
  {
    if n == 0 then []
    else
      var s := Select(posts, n - 1, f);
      if n - 1 in posts && Matches(f, posts[n - 1]) then s + [Entry(n - 1, posts[n - 1])] else s
  }

  /** Puts `e` before the first entry no newer than it. */
  function Insert(e: Entry, s: seq<Entry>, k: SortKey): seq<Entry> {
    if s == [] || Key(s[0], k) <= Key(e, k) then [e] + s
    else [s[0]] + Insert(e, s[1..], k)
  }

  /** Inserting adds `e` and loses nothing. */
  lemma {:induction false} InsertPermutes(e: Entry, s: seq<Entry>, k: SortKey)
    ensures multiset(Insert(e, s, k)) == multiset(s) + multiset{e}
  {
    if s != [] && Key(s[0], k) > Key(e, k) {
      InsertPermutes(e, s[1..], k);
      assert s == [s[0]] + s[1..];
    }
  }

  /** Every entry after inserting is `e` or was there before. */
  lemma {:induction false} InsertMembers(e: Entry, s: seq<Entry>, k: SortKey, x: Entry)
    requires x in Insert(e, s, k)
    ensures x == e || x in s
  {
    if s != [] && Key(s[0], k) > Key(e, k) && x != s[0] {
      InsertMembers(e, s[1..], k, x);
    }
  }

  /** Inserting into a newest-first sequence keeps it newest first. */
  lemma {:induction false} InsertSorted(e: Entry, s: seq<Entry>, k: SortKey)
    requires SortedDesc(s, k)
    ensures SortedDesc(Insert(e, s, k), k)
  {
    if s != [] && Key(s[0], k) > Key(e, k) {
      var t := Insert(e, s[1..], k);
      InsertSorted(e, s[1..], k);
      var r := [s[0]] + t;
      assert Insert(e, s, k) == r;
      forall i, j | 0 <= i < j < |r|
        ensures Key(r[i], k) >= Key(r[j], k)
      {
        assert r[j] == t[j - 1];
        InsertMembers(e, s[1..], k, r[j]);
        if i > 0 {
          assert r[i] == t[i - 1];
        }
      }
    }
  }

  /** Insertion sort, newest first: a reordering of `s` that is sorted. */
  function Sort(s: seq<Entry>, k: SortKey): (r: seq<Entry>)
    ensures SortedDesc(r, k)
    ensures multiset(r) == multiset(s)
  {
    if s == [] then []
    else
      var t := Sort(s[1..], k);
      InsertSorted(s[0], t, k);
      InsertPermutes(s[0], t, k);
      assert s == [s[0]] + s[1..];
      Insert(s[0], t, k)
  }

  /** An entry occurs at most once in a sequence with increasing ids. */
  lemma {:induction false} OccursAtMostOnce(s: seq<Entry>, x: Entry)
    requires forall i, j :: 0 <= i < j < |s| ==> s[i].id < s[j].id
    ensures multiset(s)[x] <= 1
  {
    if s != [] {
      var init := s[..|s| - 1];
      assert s == init + [s[|s| - 1]];
      OccursAtMostOnce(init, x);
      if x == s[|s| - 1] {
        assert x !in init;
      }
    }
  }

  /** A reordering of a sequence with increasing ids holds each id once. */
  lemma ReorderingKeepsIdsDistinct(r: seq<Entry>, s: seq<Entry>)
    requires forall i, j :: 0 <= i < j < |s| ==> s[i].id < s[j].id
    requires multiset(r) == multiset(s)
    ensures forall i, j :: 0 <= i < j < |r| ==> r[i].id != r[j].id
  {
    forall i, j | 0 <= i < j < |r|
      ensures r[i].id != r[j].id
    {
      if r[i].id == r[j].id {
        assert r[i] in multiset(s) && r[j] in multiset(s);
        assert r[i] == r[j];
        assert r == r[..j] + r[j..];
        assert r[i] in multiset(r[..j]) && r[j] in multiset(r[j..]);
        assert multiset(r)[r[i]] >= 2;
        OccursAtMostOnce(s, r[i]);
      }
    }
  }

  /** `Post.find(filter).sort({key: -1})`: exactly the stored posts that match, each
      once, newest first. */
  function Query(posts: map<nat, Post>, n: nat, f: Filter, k: SortKey): (r: seq<Entry>)
    requires forall id :: id in posts ==> id < n
    ensures SortedDesc(r, k)
    ensures multiset(r) == multiset(Select(posts, n, f))
    ensures forall e :: e in r <==> e.id in posts && posts[e.id] == e.post && Matches(f, e.post)
    ensures forall i, j :: 0 <= i < j < |r| ==> r[i].id != r[j].id
  {
    var s := Select(posts, n, f);
    var r := Sort(s, k);
    assert forall e :: e in r <==> e in multiset(r);
    assert forall e :: e in s <==> e in multiset(s);
    ReorderingKeepsIdsDistinct(r, s);
    r
  }

  /** The ids below `n` of the posts `u` created. */
  function CreatedBelow(posts: map<nat, Post>, n: nat, u: nat): set<nat> {
    set id | id in posts && id < n && posts[id].creator == u
  }

  /** Selecting by creator finds as many posts as that creator has below `n`. */
  lemma {:induction false} SelectByCreatorCount(posts: map<nat, Post>, n: nat, u: nat)
    ensures |Select(posts, n, ByCreator(u))| == |CreatedBelow(posts, n, u)|
  {
    if n > 0 {
      SelectByCreatorCount(posts, n - 1, u);
      if n - 1 in posts && posts[n - 1].creator == u {
        assert CreatedBelow(posts, n, u) == CreatedBelow(posts, n - 1, u) + {n - 1};
      } else {
        assert CreatedBelow(posts, n, u) == CreatedBelow(posts, n - 1, u);
      }
    }
  }

  /** An author's listing is as long as the number of posts the author created. */
  lemma ListingByCreatorLength(posts: map<nat, Post>, n: nat, u: nat, k: SortKey)
    requires forall id :: id in posts ==> id < n
    ensures |Query(posts, n, ByCreator(u), k)| == Authored(posts, u)
  {
    var r := Query(posts, n, ByCreator(u), k);
    assert |multiset(r)| == |r|;
    assert |multiset(Select(posts, n, ByCreator(u)))| == |Select(posts, n, ByCreator(u))|;
    SelectByCreatorCount(posts, n, u);
    assert CreatedBelow(posts, n, u) == PostsBy(posts, u);
  }
}
