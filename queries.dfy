/** The read methods of the store (database.js:178-227, 267-316, 370-381,
    406-431) as functions of the table they query, and what each promises. */
module Queries {
  import opened Rows
  import opened Table

  // ---------------------------------------------------------------------
  // Column accessors used as WHERE conditions and UNIQUE keys

  predicate PostPublished(p: Post) { p.cols.published == Some(1) }
  predicate ProjectPublished(p: Project) { p.cols.published == Some(1) }
  function PostSlug(c: PostCols): string { c.slug }
  function ProjectSlug(c: ProjectCols): string { c.slug }
  function Username(c: UserCols): string { c.username }

  /** `SELECT * FROM t WHERE <key> = ?` read with `db.get`. */
  function FindByKey<C>(rows: seq<Row<C>>, key: C -> string, k: string): Option<Row<C>> {
    First(rows, (y: Row<C>) => key(y.cols) == k)
  }

  /** `SELECT * FROM t WHERE id = ?` read with `db.get`. */
  function FindById<C>(rows: seq<Row<C>>, id: int): Option<Row<C>> {
    First(rows, (y: Row<C>) => y.id == id)
  }

  /** `SELECT * FROM t WHERE keep ORDER BY created_at DESC LIMIT ? OFFSET ?`. */
  function Listing<C>(rows: seq<Row<C>>, keep: Row<C> -> bool, limit: int, offset: int): seq<Row<C>> {
    Page(NewestFirst(Where(rows, keep)), limit, offset)
  }

  // ---------------------------------------------------------------------
  // The store's queries

  /** getPosts(limit = 10, offset = 0). */
  function GetPosts(posts: seq<Post>, limit: int := 10, offset: int := 0): seq<Post> {
    Listing(posts, PostPublished, limit, offset)
  }

  /** getPostCount(). */
  function GetPostCount(posts: seq<Post>): nat {
    Count(posts, PostPublished)
  }

  function GetPostBySlug(posts: seq<Post>, slug: string): Option<Post> {
    FindByKey(posts, PostSlug, slug)
  }

  function GetPostById(posts: seq<Post>, id: int): Option<Post> {
    FindById(posts, id)
  }

  /** getProjects(limit = 10): no OFFSET. */
  function GetProjects(projects: seq<Project>, limit: int := 10): seq<Project> {
    Listing(projects, ProjectPublished, limit, 0)
  }

  function GetProjectCount(projects: seq<Project>): nat {
    Count(projects, ProjectPublished)
  }

  function GetProjectBySlug(projects: seq<Project>, slug: string): Option<Project> {
    FindByKey(projects, ProjectSlug, slug)
  }

  function GetProjectById(projects: seq<Project>, id: int): Option<Project> {
    FindById(projects, id)
  }

  /** getContacts(limit = 50): every contact, read or not. */
  function GetContacts(contacts: seq<Contact>, limit: int := 50): seq<Contact> {
    Page(NewestFirst(contacts), limit, 0)
  }

  /** getUserByUsername(username): a missing username binds NULL, and
      `username = NULL` holds for no row. */
  function GetUserByUsername(users: seq<User>, username: Option<string>): Option<User> {
    if username.None? then None else FindByKey(users, Username, username.value)
  }

  /** getRelatedPosts(postId, limit = 3). */
  function GetRelatedPosts(posts: seq<Post>, postId: int, limit: int := 3): seq<Post> {
    Listing(posts, (p: Post) => p.id != postId && PostPublished(p), limit, 0)
  }

  // ---------------------------------------------------------------------
  // What the listings promise

  /** The unbounded listing holds every qualifying row of the table, as
      many rows as COUNT(*) reports, and no other row. */
  lemma FullListing<C>(rows: seq<Row<C>>, keep: Row<C> -> bool)
    ensures |Listing(rows, keep, -1, 0)| == Count(rows, keep)
    ensures forall x :: x in Listing(rows, keep, -1, 0) <==> x in rows && keep(x)
  {
    var filtered := Where(rows, keep);
    assert Listing(rows, keep, -1, 0) == NewestFirst(filtered);
    WhereCount(rows, keep);
    NewestFirstSpec(filtered);
    WhereMembers(rows, keep);
  }

  /** A page of a newest-first sequence is itself newest first. */
  lemma PageNewestFirst<C>(s: seq<Row<C>>, limit: int, offset: int)
    requires NewestFirstOrder(s)
    ensures NewestFirstOrder(Page(s, limit, offset))
  {
    var r := Page(s, limit, offset);
    var k := Skipped(offset, |s|);
    forall i, j | 0 <= i < j < |r| ensures r[i].createdAt >= r[j].createdAt {
      assert r[i] == s[k + i] && r[j] == s[k + j];
    }
  }

  /** A row on a page of the listing is a qualifying row of the table. */
  lemma ListingSound<C>(rows: seq<Row<C>>, keep: Row<C> -> bool, limit: int, offset: int, x: Row<C>)
    requires x in Listing(rows, keep, limit, offset)
    ensures x in rows && keep(x)
  {
    var filtered := Where(rows, keep);
    var all := NewestFirst(filtered);
    var r := Page(all, limit, offset);
    var i :| 0 <= i < |r| && r[i] == x;
    assert x == all[Skipped(offset, |all|) + i];
    NewestFirstSpec(filtered);
    WhereSound(rows, keep, x);
  }

  /** Any filtered, newest-first, paginated listing: only qualifying rows of
      the table, newest first, at most `limit` of them, the rows of the full
      listing after the first OFFSET ones, and a short page only at the end. */
  lemma ListingSpec<C>(rows: seq<Row<C>>, keep: Row<C> -> bool, limit: int, offset: int)
    ensures var all, r := Listing(rows, keep, -1, 0), Listing(rows, keep, limit, offset);
            && (forall x :: x in r ==> x in rows && keep(x))
            && NewestFirstOrder(r)
            && (limit >= 0 ==> |r| <= limit)
            && r == all[Skipped(offset, |all|)..Skipped(offset, |all|) + |r|]
            && (|r| == |all| - Skipped(offset, |all|) || |r| == limit)
  {
    var all := NewestFirst(Where(rows, keep));
    assert Listing(rows, keep, -1, 0) == all;
    NewestFirstSpec(Where(rows, keep));
    PageNewestFirst(all, limit, offset);
    forall x | x in Listing(rows, keep, limit, offset) ensures x in rows && keep(x) {
      ListingSound(rows, keep, limit, offset, x);
    }
  }

  /** getPosts: only published posts, newest first, at most `limit`, and the
      first `offset` published posts (in listing order) skipped. */
  lemma GetPostsSpec(posts: seq<Post>, limit: int, offset: int)
    ensures var all, r := GetPosts(posts, -1, 0), GetPosts(posts, limit, offset);
            && (forall x :: x in r ==> x in posts && PostPublished(x))
            && NewestFirstOrder(r)
            && (limit >= 0 ==> |r| <= limit)
            && r == all[Skipped(offset, |all|)..Skipped(offset, |all|) + |r|]
            && (|r| == |all| - Skipped(offset, |all|) || |r| == limit)
  {
    ListingSpec(posts, PostPublished, limit, offset);
  }

  /** getPostCount is the number of published posts: the length of the
      unbounded listing, which holds every published post. */
  lemma PostCountIsListingSize(posts: seq<Post>)
    ensures GetPostCount(posts) == |GetPosts(posts, -1, 0)|
    ensures forall x :: x in posts && PostPublished(x) ==> x in GetPosts(posts, -1, 0)
  {
    FullListing(posts, PostPublished);
  }

  /** Paging through getPosts with a fixed page size neither skips nor
      repeats a post. */
  lemma PostPagesTile(posts: seq<Post>, limit: nat, offset: nat)
    ensures GetPosts(posts, limit, offset) + GetPosts(posts, limit, offset + limit)
            == GetPosts(posts, 2 * limit, offset)
  {
    PagesTile(NewestFirst(Where(posts, PostPublished)), limit, offset);
  }

  /** getProjects: only published projects, newest first, at most `limit`;
      a page shorter than `limit` holds every published project. */
  lemma GetProjectsSpec(projects: seq<Project>, limit: int)
    ensures var r := GetProjects(projects, limit);
            && (forall x :: x in r ==> x in projects && ProjectPublished(x))
            && NewestFirstOrder(r)
            && (limit >= 0 ==> |r| <= limit)
            && (limit < 0 || |r| < limit ==>
                  |r| == GetProjectCount(projects)
                  && forall x :: x in projects && ProjectPublished(x) ==> x in r)
  {
    ListingSpec(projects, ProjectPublished, limit, 0);
    FullListing(projects, ProjectPublished);
  }

  /** getRelatedPosts never returns the post itself; it returns published
      posts, newest first, at most `limit`, and a short page holds every
      other published post. */
  lemma GetRelatedPostsSpec(posts: seq<Post>, postId: int, limit: int)
    ensures var r := GetRelatedPosts(posts, postId, limit);
            && (forall x :: x in r ==> x in posts && x.id != postId && PostPublished(x))
            && NewestFirstOrder(r)
            && (limit >= 0 ==> |r| <= limit)
            && (limit < 0 || |r| < limit ==>
                  forall x :: x in posts && PostPublished(x) && x.id != postId ==> x in r)
  {
    var keep := (p: Post) => p.id != postId && PostPublished(p);
    ListingSpec(posts, keep, limit, 0);
    FullListing(posts, keep);
  }

  /** getContacts: contacts of the table whether read or not, newest first,
      min(limit, count) of them. */
  lemma GetContactsSpec(contacts: seq<Contact>, limit: int)
    ensures var r := GetContacts(contacts, limit);
            && (forall x :: x in r ==> x in contacts)
            && NewestFirstOrder(r)
            && |r| == (if limit < 0 || limit > |contacts| then |contacts| else limit)
            && (|r| == |contacts| ==> forall x :: x in contacts ==> x in r)
  {
    var sorted := NewestFirst(contacts);
    var r := GetContacts(contacts, limit);
    NewestFirstSpec(contacts);
    PageNewestFirst(sorted, limit, 0);
    forall x | x in r ensures x in contacts {
      var i :| 0 <= i < |r| && r[i] == x;
      assert x == sorted[i];
    }
  }

  // ---------------------------------------------------------------------
  // What the lookups promise

  /** A lookup by a UNIQUE key finds something exactly when some row holds
      the key, and then it is that row. */
  lemma FindByKeySpec<C>(rows: seq<Row<C>>, key: C -> string, k: string)
    requires KeyUnique(rows, key)
    ensures FindByKey(rows, key, k).Some? <==> KeyTaken(rows, key, k)
    ensures forall x :: x in rows && key(x.cols) == k ==> FindByKey(rows, key, k) == Some(x)
  {
    var r := FindByKey(rows, key, k);
    forall x | x in rows && key(x.cols) == k ensures r == Some(x) {
      var i :| 0 <= i < |rows| && rows[i] == x;
      var j :| 0 <= j < |rows| && rows[j] == r.value;
      assert !(i < j) && !(j < i);
    }
  }

  /** A lookup by id finds the row with that id, if there is one. */
  lemma FindByIdSpec<C>(rows: seq<Row<C>>, id: int)
    requires IdsAscending(rows)
    ensures FindById(rows, id).Some? <==> HasId(rows, id)
    ensures forall x :: x in rows && x.id == id ==> FindById(rows, id) == Some(x)
  {
    var r := FindById(rows, id);
    forall x | x in rows && x.id == id ensures r == Some(x) {
      var i :| 0 <= i < |rows| && rows[i] == x;
      var j :| 0 <= j < |rows| && rows[j] == r.value;
      assert !(i < j) && !(j < i);
    }
  }

  /** getPostBySlug finds the one post holding the slug, if any. */
  lemma GetPostBySlugSpec(posts: seq<Post>, slug: string)
    requires KeyUnique(posts, PostSlug)
    ensures GetPostBySlug(posts, slug).Some? <==> KeyTaken(posts, PostSlug, slug)
    ensures forall x :: x in posts && x.cols.slug == slug ==> GetPostBySlug(posts, slug) == Some(x)
  {
    FindByKeySpec(posts, PostSlug, slug);
  }

  /** getProjectBySlug finds the one project holding the slug, if any. */
  lemma GetProjectBySlugSpec(projects: seq<Project>, slug: string)
    requires KeyUnique(projects, ProjectSlug)
    ensures GetProjectBySlug(projects, slug).Some? <==> KeyTaken(projects, ProjectSlug, slug)
    ensures forall x :: x in projects && x.cols.slug == slug ==> GetProjectBySlug(projects, slug) == Some(x)
  {
    FindByKeySpec(projects, ProjectSlug, slug);
  }

  /** getUserByUsername finds the one user with that name; a missing name
      finds nobody. */
  lemma GetUserByUsernameSpec(users: seq<User>, username: Option<string>)
    requires KeyUnique(users, Username)
    ensures GetUserByUsername(users, username).Some? <==>
              username.Some? && KeyTaken(users, Username, username.value)
    ensures forall x :: x in users && username == Some(x.cols.username) ==>
              GetUserByUsername(users, username) == Some(x)
  {
    if username.Some? {
      FindByKeySpec(users, Username, username.value);
    }
  }
}
