/** The `DB` class of database.js: four tables held in one SQLite database,
    each operation one SQL statement. A table is the sequence of its rows in
    rowid order; each AUTOINCREMENT table has the counter SQLite keeps in
    `sqlite_sequence`; CURRENT_TIMESTAMP reads a clock that never goes back. */
module Store {
  import opened Rows
  import opened Table
  import opened Queries

  // ---------------------------------------------------------------------
  // What `init` and `seedData` write

  /** The administrator `init` creates; its password is stored as the bcrypt
      hash of `AdminPassword`, and `role` takes the column DEFAULT. */
  const AdminUsername: string := "admin"
  const AdminPassword: string := "admin123"
  const AdminEmail: string := "admin@puppaka.com"
  const DefaultRole: string := "admin"

  function AdminCols(hash: string -> string): UserCols {
    UserCols(AdminUsername, hash(AdminPassword), Some(AdminEmail), DefaultRole)
  }

  /** The two sample posts; featured_image is not listed by the seeding
      INSERT, so it is NULL, and updated_at takes its DEFAULT `now`. */
  function SeedPosts(now: nat): seq<PostCols> {
    [ PostCols("开始使用 PUPPAKA", "getting-started",
               "欢迎！这是 PUPPAKA 网站的第一篇文章。\n\n这是一个现代化的个人网站平台，支持博客和作品集展示。",
               Some("欢迎来到 PUPPAKA，这是一个现代化的个人网站平台。"), None,
               Some("教程"), Some("开始,教程"), Some(1), now),
      PostCols("深色科技风格设计", "dark-tech-design",
               "PUPPAKA 采用了深色科技风格设计，配合霓虹光效和渐变色彩。",
               Some("探索深色科技风格的美学原则。"), None,
               Some("设计"), Some("设计,深色,科技"), Some(1), now) ]
  }

  /** The sample project; the columns the seeding INSERT omits are NULL. */
  function SeedProjects(now: nat): seq<ProjectCols> {
    [ ProjectCols("PUPPAKA 网站", "puppaka-website", "基于 Node.js 的动态网站项目",
                  Some("使用 Express + EJS + SQLite 构建的个人网站平台"), None, None,
                  Some("Web开发"), Some("Node.js,Express,EJS"), None, None, Some(1), now) ]
  }

  /** On empty tables the sample slugs are all distinct, so every seeding
      statement inserts: the posts get ids 1 and 2, the project id 1. */
  lemma SeedsOnEmptyTables(now: nat)
    ensures InsertEachOrIgnore([], 0, now, SeedPosts(now), PostSlug)
         == [Row(1, now, SeedPosts(now)[0]), Row(2, now, SeedPosts(now)[1])]
    ensures InsertEachOrIgnore([], 0, now, SeedProjects(now), ProjectSlug)
         == [Row(1, now, SeedProjects(now)[0])]
  {
    var ps := SeedPosts(now);
    assert ps[..1][..0] == [] && ps[..|ps| - 1] == ps[..1];
    assert !KeyTaken<PostCols>([], PostSlug, ps[0].slug);
    var first := InsertEachOrIgnore([], 0, now, ps[..1], PostSlug);
    assert first == InsertOrIgnore(InsertEachOrIgnore([], 0, now, ps[..1][..0], PostSlug), 0, now, ps[0], PostSlug);
    assert first == [Row(1, now, ps[0])];
    assert !KeyTaken(first, PostSlug, ps[1].slug) by {
      assert |ps[0].slug| == 15 && |ps[1].slug| == 16;
    }
    var qs := SeedProjects(now);
    assert qs[..|qs| - 1] == [];
    assert !KeyTaken<ProjectCols>([], ProjectSlug, qs[0].slug);
  }

  /** Seeding tables that already hold the sample rows adds nothing, at any
      later time: the slugs are the same, so every INSERT OR IGNORE is
      ignored. */
  lemma SeedsAgain(now: nat, later: nat, postSeq: int, projectSeq: int)
    ensures var posts := [Row(1, now, SeedPosts(now)[0]), Row(2, now, SeedPosts(now)[1])];
            InsertEachOrIgnore(posts, postSeq, later, SeedPosts(later), PostSlug) == posts
    ensures var projects := [Row(1, now, SeedProjects(now)[0])];
            InsertEachOrIgnore(projects, projectSeq, later, SeedProjects(later), ProjectSlug) == projects
  {
    var posts := [Row(1, now, SeedPosts(now)[0]), Row(2, now, SeedPosts(now)[1])];
    forall k | 0 <= k < |SeedPosts(later)| ensures KeyTaken(posts, PostSlug, SeedPosts(later)[k].slug) {
      assert posts[k].cols.slug == SeedPosts(later)[k].slug;
    }
    InsertEachOrIgnoreHeld(posts, postSeq, later, SeedPosts(later), PostSlug);
    var projects := [Row(1, now, SeedProjects(now)[0])];
    assert projects[0].cols.slug == SeedProjects(later)[0].slug;
    InsertEachOrIgnoreHeld(projects, projectSeq, later, SeedProjects(later), ProjectSlug);
  }

  // ---------------------------------------------------------------------
  // The writing statements as functions of the table they write

  /** savePost: UPDATE every column when the object carries a truthy id,
      INSERT otherwise; updated_at is stamped `now` either way. */
  function PostSaved(posts: seq<Post>, last: int, now: nat, input: PostInput): Written<PostCols> {
    var cols := PostColumns(input, now);
    if HasTruthyId(input.id) then UpdateUnique(posts, last, input.id.value, cols, PostSlug, "posts.slug")
    else InsertUnique(posts, last, now, cols, PostSlug, "posts.slug")
  }

  /** saveProject, the same two statements on `projects`. */
  function ProjectSaved(projects: seq<Project>, last: int, now: nat, input: ProjectInput): Written<ProjectCols> {
    var cols := ProjectColumns(input, now);
    if HasTruthyId(input.id) then UpdateUnique(projects, last, input.id.value, cols, ProjectSlug, "projects.slug")
    else InsertUnique(projects, last, now, cols, ProjectSlug, "projects.slug")
  }

  /** `UPDATE contacts SET read = 1 WHERE id = ?`. */
  function MarkRead(contacts: seq<Contact>, id: int): seq<Contact> {
    seq(|contacts|, i requires 0 <= i < |contacts| =>
      if contacts[i].id == id then contacts[i].(cols := contacts[i].cols.(read := true)) else contacts[i])
  }

  /** `UPDATE users SET password = ? WHERE username = ?`. */
  function SetPassword(users: seq<User>, username: string, password: string): seq<User> {
    seq(|users|, i requires 0 <= i < |users| =>
      if users[i].cols.username == username then users[i].(cols := users[i].cols.(password := password))
      else users[i])
  }

  // ---------------------------------------------------------------------
  // What the writing statements promise

  /** A post saved without a truthy id is a new row: it fails only on a
      missing title, slug or content or a slug already in use, and then
      nothing changes; on success its id is larger than every id before it
      and the table keeps one row per slug. */
  lemma SavePostInsertSpec(posts: seq<Post>, last: int, now: nat, input: PostInput)
    requires TableOk(posts, last, now) && last >= 0 && KeyUnique(posts, PostSlug)
    requires !HasTruthyId(input.id)
    ensures PostSaved(posts, last, now, input).result.Ok? <==>
            input.title.Some? && input.slug.Some? && input.content.Some?
            && !KeyTaken(posts, PostSlug, input.slug.value)
    ensures PostSaved(posts, last, now, input).result.Err? ==> PostSaved(posts, last, now, input).rows == posts
    ensures (input.title.None? || input.slug.None? || input.content.None? ==>
             PostSaved(posts, last, now, input).result.Err? && PostSaved(posts, last, now, input).result.error.NotNull?)
    ensures PostSaved(posts, last, now, input).result.Ok? ==>
              forall i :: 0 <= i < |posts| ==> posts[i].id < PostSaved(posts, last, now, input).result.value
    ensures PostSaved(posts, last, now, input).result.Ok? ==> PostSaved(posts, last, now, input).result.value > last
    ensures (PostSaved(posts, last, now, input).result.Ok? ==>
             PostSaved(posts, last, now, input).rows
               == posts + [Row(PostSaved(posts, last, now, input).result.value, now, PostColumns(input, now).value)])
    ensures TableOk(PostSaved(posts, last, now, input).rows, PostSaved(posts, last, now, input).last, now)
    ensures KeyUnique(PostSaved(posts, last, now, input).rows, PostSlug)
  {
    var cols := PostColumns(input, now);
    InsertUniqueSpec(posts, last, now, cols, PostSlug, "posts.slug");
    InsertSpec(posts, last, now, cols);
  }

  /** A post saved with a truthy id that no row has resolves to that id and
      changes nothing; with an id that a row has, it rewrites that row only
      (same id and created_at, updated_at = `now`), unless a column is
      missing or another post holds the slug. */
  lemma SavePostUpdateSpec(posts: seq<Post>, last: int, now: nat, input: PostInput)
    requires TableOk(posts, last, now) && KeyUnique(posts, PostSlug)
    requires HasTruthyId(input.id)
    ensures !HasId(posts, input.id.value) ==> PostSaved(posts, last, now, input) == Written(posts, last, Ok(input.id.value))
    ensures (HasId(posts, input.id.value) ==>
              (PostSaved(posts, last, now, input).result.Ok? <==>
               input.title.Some? && input.slug.Some? && input.content.Some?
               && !KeyTakenByOther(posts, PostSlug, input.slug.value, input.id.value)))
    ensures PostSaved(posts, last, now, input).result.Err? ==> PostSaved(posts, last, now, input).rows == posts
    ensures (PostSaved(posts, last, now, input).result.Ok? && HasId(posts, input.id.value) ==>
             PostSaved(posts, last, now, input).rows == SetCols(posts, input.id.value, PostColumns(input, now).value))
    ensures TableOk(PostSaved(posts, last, now, input).rows, last, now)
    ensures KeyUnique(PostSaved(posts, last, now, input).rows, PostSlug)
  {
    UpdateUniqueSpec(posts, last, now, input.id.value, PostColumns(input, now), PostSlug, "posts.slug");
  }

  /** What a successful save wrote is what getPostById and getPostBySlug
      read back: the row with the saved columns, under the id the save
      resolved to. */
  lemma SavedPostReadsBack(posts: seq<Post>, last: int, now: nat, input: PostInput)
    requires TableOk(posts, last, now) && last >= 0 && KeyUnique(posts, PostSlug)
    requires PostSaved(posts, last, now, input).result.Ok?
    requires HasTruthyId(input.id) ==> HasId(posts, input.id.value)
    ensures GetPostById(PostSaved(posts, last, now, input).rows, PostSaved(posts, last, now, input).result.value).Some?
    ensures GetPostById(PostSaved(posts, last, now, input).rows, PostSaved(posts, last, now, input).result.value).value.cols
            == PostColumns(input, now).value
    ensures GetPostBySlug(PostSaved(posts, last, now, input).rows, input.slug.value)
            == GetPostById(PostSaved(posts, last, now, input).rows, PostSaved(posts, last, now, input).result.value)
  {
    var w := PostSaved(posts, last, now, input);
    var c := PostColumns(input, now).value;
    var id := w.result.value;
    var x: Post;
    if HasTruthyId(input.id) {
      SavePostUpdateSpec(posts, last, now, input);
      var i :| 0 <= i < |posts| && posts[i].id == id;
      x := w.rows[i];
      assert x == Row(id, posts[i].createdAt, c);
    } else {
      SavePostInsertSpec(posts, last, now, input);
      InsertSpec(posts, last, now, PostColumns(input, now));
      x := w.rows[|posts|];
      assert x == Row(id, now, c);
    }
    assert x in w.rows;
    FindByIdSpec(w.rows, id);
    GetPostBySlugSpec(w.rows, c.slug);
  }

  /** AUTOINCREMENT never hands out an id again: after the post with id `id`
      is deleted, a new post saved without a truthy id gets another id. */
  lemma DeletedPostIdNotReused(posts: seq<Post>, last: int, now: nat, id: int, input: PostInput)
    requires TableOk(posts, last, now) && last >= 0 && KeyUnique(posts, PostSlug)
    requires HasId(posts, id) && !HasTruthyId(input.id)
    requires PostSaved(DeleteById(posts, id), last, now, input).result.Ok?
    ensures PostSaved(DeleteById(posts, id), last, now, input).result.value != id
  {
    var i :| 0 <= i < |posts| && posts[i].id == id;
    DeleteKeeps(posts, id, last, now, PostSlug);
    SavePostInsertSpec(DeleteById(posts, id), last, now, input);
  }

  /** The same statements on `projects`: a project saved without a truthy id
      is inserted unless a NOT NULL column is missing or the slug is taken;
      with a truthy id it updates that row or, when no row has the id,
      changes nothing and resolves to the id. */
  lemma SaveProjectSpec(projects: seq<Project>, last: int, now: nat, input: ProjectInput)
    requires TableOk(projects, last, now) && last >= 0 && KeyUnique(projects, ProjectSlug)
    ensures (!HasTruthyId(input.id) ==>
              (ProjectSaved(projects, last, now, input).result.Ok? <==>
               input.title.Some? && input.slug.Some? && input.description.Some?
               && !KeyTaken(projects, ProjectSlug, input.slug.value)))
    ensures (HasTruthyId(input.id) && !HasId(projects, input.id.value) ==>
             ProjectSaved(projects, last, now, input) == Written(projects, last, Ok(input.id.value)))
    ensures (HasTruthyId(input.id) && HasId(projects, input.id.value) ==>
              (ProjectSaved(projects, last, now, input).result.Ok? <==>
               input.title.Some? && input.slug.Some? && input.description.Some?
               && !KeyTakenByOther(projects, ProjectSlug, input.slug.value, input.id.value)))
    ensures ProjectSaved(projects, last, now, input).result.Err? ==> ProjectSaved(projects, last, now, input).rows == projects
    ensures (!HasTruthyId(input.id) && ProjectSaved(projects, last, now, input).result.Ok? ==>
             forall i :: 0 <= i < |projects| ==> projects[i].id < ProjectSaved(projects, last, now, input).result.value)
    ensures (!HasTruthyId(input.id) && ProjectSaved(projects, last, now, input).result.Ok? ==>
             ProjectSaved(projects, last, now, input).result.value > last
             && ProjectSaved(projects, last, now, input).rows
                  == projects + [Row(ProjectSaved(projects, last, now, input).result.value, now,
                                     ProjectColumns(input, now).value)])
    ensures (HasTruthyId(input.id) && HasId(projects, input.id.value)
             && ProjectSaved(projects, last, now, input).result.Ok? ==>
             ProjectSaved(projects, last, now, input).rows
               == SetCols(projects, input.id.value, ProjectColumns(input, now).value))
    ensures TableOk(ProjectSaved(projects, last, now, input).rows, ProjectSaved(projects, last, now, input).last, now)
    ensures KeyUnique(ProjectSaved(projects, last, now, input).rows, ProjectSlug)
    ensures ProjectSaved(projects, last, now, input).last >= last
  {
    var cols := ProjectColumns(input, now);
    if HasTruthyId(input.id) {
      UpdateUniqueSpec(projects, last, now, input.id.value, cols, ProjectSlug, "projects.slug");
    } else {
      InsertUniqueSpec(projects, last, now, cols, ProjectSlug, "projects.slug");
      InsertSpec(projects, last, now, cols);
    }
  }

  /** A contact message is stored exactly when name, email and message are
      all present; it arrives unread, with an id above every earlier one,
      and the unbounded getContacts lists it. A refused message changes
      nothing. */
  lemma SaveContactSpec(contacts: seq<Contact>, last: int, now: nat, input: ContactInput)
    requires TableOk(contacts, last, now) && last >= 0
    ensures Insert(contacts, last, now, ContactColumns(input)).result.Ok? <==>
            input.name.Some? && input.email.Some? && input.message.Some?
    ensures Insert(contacts, last, now, ContactColumns(input)).result.Err? ==>
            Insert(contacts, last, now, ContactColumns(input)).rows == contacts
    ensures (Insert(contacts, last, now, ContactColumns(input)).result.Ok? ==>
             Insert(contacts, last, now, ContactColumns(input)).rows
               == contacts + [Row(Insert(contacts, last, now, ContactColumns(input)).result.value, now,
                                  ContactCols(input.name.value, input.email.value, input.subject,
                                              input.message.value, false))])
    ensures (Insert(contacts, last, now, ContactColumns(input)).result.Ok? ==>
             forall i :: 0 <= i < |contacts| ==> contacts[i].id < Insert(contacts, last, now, ContactColumns(input)).result.value)
    ensures (Insert(contacts, last, now, ContactColumns(input)).result.Ok? ==>
             Insert(contacts, last, now, ContactColumns(input)).result.value > last)
    ensures (Insert(contacts, last, now, ContactColumns(input)).result.Ok? ==>
             var w := Insert(contacts, last, now, ContactColumns(input));
             w.rows[|contacts|] in GetContacts(w.rows, -1))
  {
    var w := Insert(contacts, last, now, ContactColumns(input));
    InsertSpec(contacts, last, now, ContactColumns(input));
    GetContactsSpec(w.rows, -1);
    if w.result.Ok? {
      assert w.rows[|contacts|] in w.rows;
    }
  }

  /** Marking a contact read sets the flag of the row with that id and
      changes nothing else; doing it twice is doing it once. */
  lemma MarkReadSpec(contacts: seq<Contact>, id: int)
    ensures |MarkRead(contacts, id)| == |contacts|
    ensures forall i :: 0 <= i < |contacts| && contacts[i].id != id ==> MarkRead(contacts, id)[i] == contacts[i]
    ensures forall i :: 0 <= i < |contacts| && contacts[i].id == id ==>
              MarkRead(contacts, id)[i].cols.read
              && MarkRead(contacts, id)[i].(cols := MarkRead(contacts, id)[i].cols.(read := contacts[i].cols.read))
                 == contacts[i]
    ensures MarkRead(MarkRead(contacts, id), id) == MarkRead(contacts, id)
    ensures Matched(MarkRead(contacts, id), id) == Matched(contacts, id)
  {
    var r := MarkRead(contacts, id);
    if HasId(contacts, id) {
      var i :| 0 <= i < |contacts| && contacts[i].id == id;
      assert r[i].id == id;
    }
  }

  /** Changing a password rewrites the password of the user with that name
      and nothing else; under a unique username it touches at most one row. */
  lemma SetPasswordSpec(users: seq<User>, username: string, password: string)
    requires KeyUnique(users, Username)
    ensures |SetPassword(users, username, password)| == |users|
    ensures forall i :: 0 <= i < |users| && users[i].cols.username != username ==>
              SetPassword(users, username, password)[i] == users[i]
    ensures forall i :: 0 <= i < |users| && users[i].cols.username == username ==>
              SetPassword(users, username, password)[i] == users[i].(cols := users[i].cols.(password := password))
    ensures KeyCount(users, Username, username) <= 1
    ensures KeyCount(users, Username, username) == 1 <==> KeyTaken(users, Username, username)
  {
    KeyHeldOnce(users, Username, username);
  }

  // ---------------------------------------------------------------------
  // The store

  class DB {
    /** `isHostinger`: the database lives in memory and is seeded at start. */
    const inMemory: bool
    var posts: seq<Post>
    var projects: seq<Project>
    var contacts: seq<Contact>
    var users: seq<User>
    /** The largest id each table has handed out (`sqlite_sequence`). */
    var postSeq: int
    var projectSeq: int
    var contactSeq: int
    var userSeq: int
    /** What CURRENT_TIMESTAMP reads now. */
    var now: nat

    ghost predicate Valid()
      reads this
    {
      && postSeq >= 0 && projectSeq >= 0 && contactSeq >= 0 && userSeq >= 0
      && TableOk(posts, postSeq, now) && KeyUnique(posts, PostSlug)
      && TableOk(projects, projectSeq, now) && KeyUnique(projects, ProjectSlug)
      && TableOk(contacts, contactSeq, now)
      && TableOk(users, userSeq, now) && KeyUnique(users, Username)
    }

    /** Opens a database with no tables yet and runs `init`. */
    constructor(inMemory: bool, hash: string -> string)
      ensures Valid() && this.inMemory == inMemory
      ensures users == [Row(1, 0, AdminCols(hash))] && contacts == []
      ensures inMemory ==> posts == InsertEachOrIgnore([], 0, 0, SeedPosts(0), PostSlug)
      ensures inMemory ==> projects == InsertEachOrIgnore([], 0, 0, SeedProjects(0), ProjectSlug)
      ensures inMemory ==> postSeq == |SeedPosts(0)| && projectSeq == |SeedProjects(0)|
      ensures !inMemory ==> posts == [] && projects == [] && postSeq == 0 && projectSeq == 0
    {
      this.inMemory := inMemory;
      posts, projects, contacts, users := [], [], [], [];
      postSeq, projectSeq, contactSeq, userSeq := 0, 0, 0, 0;
      now := 0;
      new;
      Init(hash);
    }

    /** The clock moves on; it never goes back. */
    method Tick(t: nat)
      requires Valid()
      modifies this`now
      ensures Valid()
      ensures now == if t > old(now) then t else old(now)
    {
      if t > now {
        now := t;
      }
    }

    /** `init`: create the administrator unless a user named "admin" exists,
        and seed the sample content when the database is in memory. */
    method Init(hash: string -> string)
      requires Valid()
      modifies this`users, this`userSeq, this`posts, this`postSeq, this`projects, this`projectSeq
      ensures Valid()
      ensures KeyTaken(old(users), Username, AdminUsername) ==> users == old(users)
      ensures !KeyTaken(old(users), Username, AdminUsername) ==>
                users == old(users) + [Row(old(userSeq) + 1, now, AdminCols(hash))]
      ensures userSeq == old(userSeq) + 1
      ensures KeyCount(users, Username, AdminUsername) == 1
      ensures inMemory ==> posts == InsertEachOrIgnore(old(posts), old(postSeq), now, SeedPosts(now), PostSlug)
      ensures inMemory ==> projects == InsertEachOrIgnore(old(projects), old(projectSeq), now, SeedProjects(now), ProjectSlug)
      ensures inMemory ==> postSeq == old(postSeq) + |SeedPosts(now)| && projectSeq == old(projectSeq) + |SeedProjects(now)|
      ensures !inMemory ==> posts == old(posts) && projects == old(projects)
      ensures !inMemory ==> postSeq == old(postSeq) && projectSeq == old(projectSeq)
    {
      var admin := AdminCols(hash);
      InsertOrIgnoreUser(admin);
      assert KeyTaken(users, Username, AdminUsername) by {
        if !KeyTaken(old(users), Username, AdminUsername) {
          assert users[|users| - 1].cols == admin;
        }
      }
      KeyHeldOnce(users, Username, AdminUsername);
      if inMemory {
        SeedData();
      }
    }

    /** `seedData`: INSERT OR IGNORE each sample post, then each sample
        project. */
    method SeedData()
      requires Valid()
      modifies this`posts, this`postSeq, this`projects, this`projectSeq
      ensures Valid()
      ensures posts == InsertEachOrIgnore(old(posts), old(postSeq), now, SeedPosts(now), PostSlug)
      ensures postSeq == old(postSeq) + |SeedPosts(now)|
      ensures projects == InsertEachOrIgnore(old(projects), old(projectSeq), now, SeedProjects(now), ProjectSlug)
      ensures projectSeq == old(projectSeq) + |SeedProjects(now)|
    {
      SeedPostRows(SeedPosts(now));
      SeedProjectRows(SeedProjects(now));
    }

    /** The posts half of `seedData`. */
    method SeedPostRows(seeds: seq<PostCols>)
      requires Valid()
      modifies this`posts, this`postSeq
      ensures Valid()
      ensures posts == InsertEachOrIgnore(old(posts), old(postSeq), now, seeds, PostSlug)
      ensures postSeq == old(postSeq) + |seeds|
    {
      for i := 0 to |seeds|
        invariant Valid()
        invariant posts == InsertEachOrIgnore(old(posts), old(postSeq), now, seeds[..i], PostSlug)
        invariant postSeq == old(postSeq) + i
      {
        InsertEachOrIgnoreNext(old(posts), old(postSeq), now, seeds, i, PostSlug);
        InsertOrIgnorePost(seeds[i]);
      }
      assert seeds[..|seeds|] == seeds;
    }

    /** The projects half of `seedData`. */
    method SeedProjectRows(seeds: seq<ProjectCols>)
      requires Valid()
      modifies this`projects, this`projectSeq
      ensures Valid()
      ensures projects == InsertEachOrIgnore(old(projects), old(projectSeq), now, seeds, ProjectSlug)
      ensures projectSeq == old(projectSeq) + |seeds|
    {
      for i := 0 to |seeds|
        invariant Valid()
        invariant projects == InsertEachOrIgnore(old(projects), old(projectSeq), now, seeds[..i], ProjectSlug)
        invariant projectSeq == old(projectSeq) + i
      {
        InsertEachOrIgnoreNext(old(projects), old(projectSeq), now, seeds, i, ProjectSlug);
        InsertOrIgnoreProject(seeds[i]);
      }
      assert seeds[..|seeds|] == seeds;
    }

    /** `INSERT OR IGNORE INTO posts`, every NOT NULL column supplied. The
        rowid is drawn before the UNIQUE check, and an ignored row does not
        give it back: the AUTOINCREMENT counter advances either way. */
    method InsertOrIgnorePost(c: PostCols)
      requires Valid()
      modifies this`posts, this`postSeq
      ensures Valid()
      ensures posts == InsertOrIgnore(old(posts), old(postSeq), now, c, PostSlug)
      ensures postSeq == old(postSeq) + 1
    {
      if !KeyTaken(posts, PostSlug, c.slug) {
        AppendKeeps(posts, postSeq, now, Row(postSeq + 1, now, c), PostSlug);
        posts := posts + [Row(postSeq + 1, now, c)];
      }
      postSeq := postSeq + 1;
    }

    /** `INSERT OR IGNORE INTO projects`, every NOT NULL column supplied. */
    method InsertOrIgnoreProject(c: ProjectCols)
      requires Valid()
      modifies this`projects, this`projectSeq
      ensures Valid()
      ensures projects == InsertOrIgnore(old(projects), old(projectSeq), now, c, ProjectSlug)
      ensures projectSeq == old(projectSeq) + 1
    {
      if !KeyTaken(projects, ProjectSlug, c.slug) {
        AppendKeeps(projects, projectSeq, now, Row(projectSeq + 1, now, c), ProjectSlug);
        projects := projects + [Row(projectSeq + 1, now, c)];
      }
      projectSeq := projectSeq + 1;
    }

    /** `INSERT OR IGNORE INTO users`. */
    method InsertOrIgnoreUser(c: UserCols)
      requires Valid()
      modifies this`users, this`userSeq
      ensures Valid()
      ensures users == InsertOrIgnore(old(users), old(userSeq), now, c, Username)
      ensures userSeq == old(userSeq) + 1
    {
      if !KeyTaken(users, Username, c.username) {
        AppendKeeps(users, userSeq, now, Row(userSeq + 1, now, c), Username);
        users := users + [Row(userSeq + 1, now, c)];
      }
      userSeq := userSeq + 1;
    }

    /** savePost: resolves to `{ id }` or rejects with the SQLite error. */
    method SavePost(input: PostInput) returns (r: Result<int>)
      requires Valid()
      modifies this`posts, this`postSeq
      ensures Valid()
      ensures Written(posts, postSeq, r) == PostSaved(old(posts), old(postSeq), now, input)
    {
      if HasTruthyId(input.id) {
        r := UpdatePostById(input.id.value, input);
      } else {
        var cols := PostColumns(input, now);
        InsertUniqueSpec(posts, postSeq, now, cols, PostSlug, "posts.slug");
        var w := InsertUnique(posts, postSeq, now, cols, PostSlug, "posts.slug");
        posts, postSeq, r := w.rows, w.last, w.result;
      }
    }

    /** The UPDATE branch of savePost, for the row with id `id`; the id
        inside `input` plays no part. */
    method UpdatePostById(id: int, input: PostInput) returns (r: Result<int>)
      requires Valid()
      modifies this`posts
      ensures Valid()
      ensures Written(posts, postSeq, r) == UpdateUnique(old(posts), postSeq, id, PostColumns(input, now), PostSlug, "posts.slug")
    {
      var cols := PostColumns(input, now);
      UpdateUniqueSpec(posts, postSeq, now, id, cols, PostSlug, "posts.slug");
      var w := UpdateUnique(posts, postSeq, id, cols, PostSlug, "posts.slug");
      posts, r := w.rows, w.result;
    }

    /** deletePost: resolves to `{ changes }`. */
    method DeletePost(id: int) returns (changes: nat)
      requires Valid()
      modifies this`posts
      ensures Valid()
      ensures posts == DeleteById(old(posts), id) && changes == Matched(old(posts), id)
    {
      DeleteKeeps(posts, id, postSeq, now, PostSlug);
      changes := Matched(posts, id);
      posts := DeleteById(posts, id);
    }

    /** saveProject. */
    method SaveProject(input: ProjectInput) returns (r: Result<int>)
      requires Valid()
      modifies this`projects, this`projectSeq
      ensures Valid()
      ensures Written(projects, projectSeq, r) == ProjectSaved(old(projects), old(projectSeq), now, input)
    {
      if HasTruthyId(input.id) {
        r := UpdateProjectById(input.id.value, input);
      } else {
        var cols := ProjectColumns(input, now);
        InsertUniqueSpec(projects, projectSeq, now, cols, ProjectSlug, "projects.slug");
        var w := InsertUnique(projects, projectSeq, now, cols, ProjectSlug, "projects.slug");
        projects, projectSeq, r := w.rows, w.last, w.result;
      }
    }

    /** The UPDATE branch of saveProject, for the row with id `id`; the id
        inside `input` plays no part. */
    method UpdateProjectById(id: int, input: ProjectInput) returns (r: Result<int>)
      requires Valid()
      modifies this`projects
      ensures Valid()
      ensures Written(projects, projectSeq, r) == UpdateUnique(old(projects), projectSeq, id, ProjectColumns(input, now), ProjectSlug, "projects.slug")
    {
      var cols := ProjectColumns(input, now);
      UpdateUniqueSpec(projects, projectSeq, now, id, cols, ProjectSlug, "projects.slug");
      var w := UpdateUnique(projects, projectSeq, id, cols, ProjectSlug, "projects.slug");
      projects, r := w.rows, w.result;
    }

    /** deleteProject. */
    method DeleteProject(id: int) returns (changes: nat)
      requires Valid()
      modifies this`projects
      ensures Valid()
      ensures projects == DeleteById(old(projects), id) && changes == Matched(old(projects), id)
    {
      DeleteKeeps(projects, id, projectSeq, now, ProjectSlug);
      changes := Matched(projects, id);
      projects := DeleteById(projects, id);
    }

    /** saveContact: a new unread message, or the NOT NULL error. */
    method SaveContact(input: ContactInput) returns (r: Result<int>)
      requires Valid()
      modifies this`contacts, this`contactSeq
      ensures Valid()
      ensures Written(contacts, contactSeq, r) == Insert(old(contacts), old(contactSeq), now, ContactColumns(input))
    {
      var cols := ContactColumns(input);
      InsertSpec(contacts, contactSeq, now, cols);
      var w := Insert(contacts, contactSeq, now, cols);
      contacts, contactSeq, r := w.rows, w.last, w.result;
    }

    /** markContactAsRead: resolves to `{ changes }`, the rows whose id
        matched, whether or not they were read already. */
    method MarkContactAsRead(id: int) returns (changes: nat)
      requires Valid()
      modifies this`contacts
      ensures Valid()
      ensures contacts == MarkRead(old(contacts), id) && changes == Matched(old(contacts), id)
    {
      changes := Matched(contacts, id);
      contacts := MarkRead(contacts, id);
    }

    /** deleteContact. */
    method DeleteContact(id: int) returns (changes: nat)
      requires Valid()
      modifies this`contacts
      ensures Valid()
      ensures contacts == DeleteById(old(contacts), id) && changes == Matched(old(contacts), id)
    {
      DeleteKeeps(contacts, id, contactSeq, now, (c: ContactCols) => c.name);
      changes := Matched(contacts, id);
      contacts := DeleteById(contacts, id);
    }

    /** The password change the admin router asks of the store: one UPDATE
        of the row with that username. */
    method UpdateUserPassword(username: string, password: string) returns (changes: nat)
      requires Valid()
      modifies this`users
      ensures Valid()
      ensures users == SetPassword(old(users), username, password)
      ensures changes == KeyCount(old(users), Username, username)
    {
      changes := KeyCount(users, Username, username);
      var r := SetPassword(users, username, password);
      forall i, j | 0 <= i < j < |r| ensures r[i].cols.username != r[j].cols.username {
        assert r[i].cols.username == users[i].cols.username;
        assert r[j].cols.username == users[j].cols.username;
      }
      users := r;
    }
  }

  /** Running `init` a second time on the same `DB` leaves one
      administrator, the first one, and exactly the first sample rows, while
      the ignored sample inserts still use up ids. */
  method InitTwice(inMemory: bool, hash: string -> string, later: nat) returns (db: DB)
    ensures db.Valid()
    ensures db.users == [Row(1, 0, AdminCols(hash))]
    ensures KeyCount(db.users, Username, AdminUsername) == 1
    ensures inMemory ==> db.posts == [Row(1, 0, SeedPosts(0)[0]), Row(2, 0, SeedPosts(0)[1])] && db.postSeq == 4
    ensures inMemory ==> db.projects == [Row(1, 0, SeedProjects(0)[0])] && db.projectSeq == 2
    ensures !inMemory ==> db.posts == [] && db.projects == []
  {
    db := new DB(inMemory, hash);
    assert db.users[0].cols.username == AdminUsername;
    ghost var postSeq, projectSeq := db.postSeq, db.projectSeq;
    db.Tick(later);
    db.Init(hash);
    if inMemory {
      SeedsOnEmptyTables(0);
      SeedsAgain(0, db.now, postSeq, projectSeq);
    }
  }
}
