/** The decisions of the admin router (routes/admin.js): the login gate,
    login and logout, the featured image a post or project form stores, the
    upload filter, and the password change. bcrypt is a pair of parameters:
    `hash` stands for `bcrypt.hashSync(_, 10)` and `matches(p, h)` for
    `bcrypt.compareSync(p, h)` on two strings. */
module Admin {
  import opened Rows
  import opened Table
  import opened Queries
  import opened Store

  /** `req.session.user`. */
  datatype SessionUser = SessionUser(id: int, username: string, role: string)

  /** The `{ type, text }` message of the settings page. */
  datatype Notice = Notice(kind: string, text: string)

  /** What a handler sends back. */
  datatype Response =
    | Redirect(location: string)
    | LoginPage(error: Option<string>)
    | SettingsPage(user: SessionUser, notice: Notice)
    | ErrorPage(status: int, message: string)

  const LoginPath: string := "/admin/login"
  const DashboardPath: string := "/admin"

  // ---------------------------------------------------------------------
  // requireAuth

  datatype Gate = Next | Deny(response: Response)

  /** The middleware in front of every admin page: the request goes on
      exactly when the session holds a user, and is otherwise sent to the
      login page. */
  function RequireAuth(user: Option<SessionUser>): (g: Gate)
    ensures g.Next? <==> user.Some?
    ensures g.Deny? ==> g.response == Redirect(LoginPath)
  {
    if user.Some? then Next else Deny(Redirect(LoginPath))
  }

  /** GET /login: a signed-in user goes to the dashboard; anyone else gets
      the form with no error. */
  function LoginForm(user: Option<SessionUser>): (r: Response)
    ensures r.Redirect? <==> user.Some?
    ensures user.Some? ==> r.location == DashboardPath
    ensures user.None? ==> r == LoginPage(None)
  {
    if user.Some? then Redirect(DashboardPath) else LoginPage(None)
  }

  // ---------------------------------------------------------------------
  // POST /login

  /** What the router holds after asking the store for a user: the row, no
      row (`undefined`), or the unsettled Promise itself when the call is
      not awaited. A Promise is truthy and has no `password` property. */
  datatype Lookup = Found(user: User) | Missing | Pending

  /** The awaited lookup. */
  function LookupIn(users: seq<User>, username: Option<string>): Lookup {
    match GetUserByUsername(users, username)
    case None => Missing
    case Some(u) => Found(u)
  }

  /** The `password` property the router reads from what it holds. */
  function StoredPassword(lookup: Lookup): Option<string> {
    if lookup.Found? then Some(lookup.user.cols.password) else None
  }

  /** `bcrypt.compareSync(s, h)`: None when it throws because an argument
      is not a string. */
  function CompareSync(s: Option<string>, h: Option<string>, matches: (string, string) -> bool): (r: Option<bool>)
    ensures r.Some? <==> s.Some? && h.Some?
    ensures r.Some? ==> r.value == matches(s.value, h.value)
  {
    if s.Some? && h.Some? then Some(matches(s.value, h.value)) else None
  }

  datatype LoginOutcome = LoggedIn(user: SessionUser) | Refused(error: string)

  /** The login handler's decision on what the lookup produced: no user is
      refused before any comparison; a comparison that throws lands in the
      catch branch; a mismatch is refused with the same words as no user. */
  function Login(lookup: Lookup, password: Option<string>, matches: (string, string) -> bool): LoginOutcome {
    if lookup.Missing? then Refused("Invalid credentials")
    else
      match CompareSync(password, StoredPassword(lookup), matches)
      case None => Refused("Login failed")
      case Some(ok) =>
        if !ok then Refused("Invalid credentials")
        else LoggedIn(SessionUser(lookup.user.id, lookup.user.cols.username, lookup.user.cols.role))
  }

  /** Login succeeds exactly for a found user whose stored hash the given
      password matches, and the session then holds that user's id,
      username and role and nothing else. */
  lemma LoginSpec(lookup: Lookup, password: Option<string>, matches: (string, string) -> bool)
    ensures Login(lookup, password, matches).LoggedIn? <==>
            lookup.Found? && password.Some? && matches(password.value, lookup.user.cols.password)
    ensures Login(lookup, password, matches).LoggedIn? ==>
            Login(lookup, password, matches).user
              == SessionUser(lookup.user.id, lookup.user.cols.username, lookup.user.cols.role)
    ensures Login(lookup, password, matches).Refused? ==>
            Login(lookup, password, matches).error in {"Invalid credentials", "Login failed"}
  {
  }

  /** An unknown username and a wrong password are refused with the same
      message, so the form does not reveal which usernames exist. */
  lemma LoginRefusalsAlike(u: User, password: string, matches: (string, string) -> bool)
    requires !matches(password, u.cols.password)
    ensures Login(Missing, Some(password), matches) == Login(Found(u), Some(password), matches)
    ensures Login(Missing, Some(password), matches) == Refused("Invalid credentials")
  {
  }

  /** Against the store: signing in as `name` with `password` succeeds
      exactly when a user of that name exists and the password matches its
      stored hash. */
  lemma {:induction false} LoginAgainstUsers(users: seq<User>, name: string, password: string,
                                             matches: (string, string) -> bool)
    requires KeyUnique(users, Username)
    ensures Login(LookupIn(users, Some(name)), Some(password), matches).LoggedIn? <==>
            exists i :: 0 <= i < |users| && users[i].cols.username == name && matches(password, users[i].cols.password)
  {
    GetUserByUsernameSpec(users, Some(name));
    var lookup := LookupIn(users, Some(name));
    if lookup.Found? {
      var i :| 0 <= i < |users| && users[i] == lookup.user;
      forall j | 0 <= j < |users| && users[j].cols.username == name
        ensures users[j] == lookup.user
      {
        assert users[j] in users;
      }
    }
  }

  /** As written, the handler does not await the lookup, so it holds a
      Promise: the comparison always throws and every login, right or
      wrong, ends with "Login failed". */
  function LoginAsWritten(password: Option<string>, matches: (string, string) -> bool): LoginOutcome {
    Login(Pending, password, matches)
  }

  lemma LoginAsWrittenAlwaysFails(password: Option<string>, matches: (string, string) -> bool)
    ensures LoginAsWritten(password, matches) == Refused("Login failed")
  {
  }

  /** A concrete instance: the administrator typing the right password. */
  lemma LoginAsWrittenRefusesAdmin(hash: string -> string, matches: (string, string) -> bool)
    requires matches(AdminPassword, hash(AdminPassword))
    ensures Login(LookupIn([Row(1, 0, AdminCols(hash))], Some(AdminUsername)), Some(AdminPassword), matches).LoggedIn?
    ensures !LoginAsWritten(Some(AdminPassword), matches).LoggedIn?
  {
    var users := [Row(1, 0, AdminCols(hash))];
    assert KeyUnique(users, Username);
    LoginAgainstUsers(users, AdminUsername, AdminPassword, matches);
    assert users[0].cols.username == AdminUsername;
  }

  /** The session of one browser. */
  class Session {
    var user: Option<SessionUser>

    constructor()
      ensures user == None
    {
      user := None;
    }

    /** POST /login, with the lookup awaited. */
    method PostLogin(db: DB, username: Option<string>, password: Option<string>,
                     matches: (string, string) -> bool) returns (r: Response)
      modifies this`user
      ensures Login(LookupIn(db.users, username), password, matches).LoggedIn? ==>
                user == Some(Login(LookupIn(db.users, username), password, matches).user)
                && r == Redirect(DashboardPath)
      ensures Login(LookupIn(db.users, username), password, matches).Refused? ==>
                user == old(user)
                && r == LoginPage(Some(Login(LookupIn(db.users, username), password, matches).error))
    {
      var outcome := Login(LookupIn(db.users, username), password, matches);
      match outcome
      case LoggedIn(u) =>
        user := Some(u);
        r := Redirect(DashboardPath);
      case Refused(e) =>
        r := LoginPage(Some(e));
    }

    /** GET /logout: the session is destroyed and the browser sent to the
        login page, which the gate now refuses to pass. */
    method Logout() returns (r: Response)
      modifies this`user
      ensures user == None && r == Redirect(LoginPath)
      ensures RequireAuth(user) == Deny(Redirect(LoginPath))
    {
      user := None;
      r := Redirect(LoginPath);
    }
  }

  // ---------------------------------------------------------------------
  // Uploads

  /** The MIME types the upload filter lets through. */
  const AllowedImageTypes: seq<string> := ["image/jpeg", "image/png", "image/gif", "image/webp"]
  /** The upload size limit, 5 MiB. */
  const MaxUploadBytes: nat := 5 * 1024 * 1024

  datatype UploadVerdict = Accepted | Rejected(message: string)

  /** The upload filter and then the size limit: a file whose type is not
      allowed is refused before it is read; one longer than the limit is
      refused while it is read. */
  function CheckUpload(mimetype: string, size: nat): UploadVerdict {
    if mimetype !in AllowedImageTypes then Rejected("Only images allowed")
    else if size > MaxUploadBytes then Rejected("File too large")
    else Accepted
  }

  /** A file is accepted exactly when it is a JPEG, PNG, GIF or WebP image
      of at most 5242880 bytes; any other type is refused as not an image,
      whatever its size. */
  lemma CheckUploadSpec(mimetype: string, size: nat)
    ensures CheckUpload(mimetype, size) == Accepted <==>
            (mimetype == "image/jpeg" || mimetype == "image/png" || mimetype == "image/gif" || mimetype == "image/webp")
            && size <= 5242880
    ensures !(mimetype == "image/jpeg" || mimetype == "image/png" || mimetype == "image/gif" || mimetype == "image/webp")
            ==> CheckUpload(mimetype, size) == Rejected("Only images allowed")
  {
  }

  /** The public path of a stored upload. */
  function UploadPath(filename: string): string {
    "/uploads/" + filename
  }

  /** featured_image when a post or project is created: the upload's path,
      or NULL without one. */
  function CreateImage(upload: Option<string>): Option<string> {
    if upload.Some? then Some(UploadPath(upload.value)) else None
  }

  /** featured_image when a post or project is updated: the upload's path,
      or the image the form carried over (`existing_image`). */
  function UpdateImage(upload: Option<string>, existing: Option<string>): Option<string> {
    if upload.Some? then Some(UploadPath(upload.value)) else existing
  }

  /** A new upload always wins; without one an update keeps the image it
      was sent, so an image is never cleared unless the form leaves it out,
      and a create has an image exactly when a file came with it. */
  lemma ImageSpec(upload: Option<string>, existing: Option<string>)
    ensures CreateImage(upload).Some? <==> upload.Some?
    ensures upload.Some? ==> UpdateImage(upload, existing) == CreateImage(upload)
    ensures upload.None? ==> UpdateImage(upload, existing) == existing
    ensures UpdateImage(upload, None) == CreateImage(upload)
    ensures existing.Some? ==> UpdateImage(upload, existing).Some?
    ensures (upload.Some? ==>
             |CreateImage(upload).value| >= 9 && CreateImage(upload).value[..9] == "/uploads/"
             && CreateImage(upload).value[9..] == upload.value)
  {
  }

  // ---------------------------------------------------------------------
  // Post and project forms

  /** How the call a form handler makes into the store ends. */
  datatype StoreCall = Threw | Settled(result: Result<int>)

  /** A form handler redirects to its list once the store call resolves and
      renders a 500 page when it throws or rejects. */
  function FormResponse(call: StoreCall, list: string, failure: string): (r: Response)
    ensures r == Redirect(list) <==> call.Settled? && call.result.Ok?
    ensures r != Redirect(list) ==> r == ErrorPage(500, failure)
  {
    if call.Settled? && call.result.Ok? then Redirect(list) else ErrorPage(500, failure)
  }

  /** As written the handlers call `createPost`, `updatePost`,
      `createProject` and `updateProject`, which the store does not have:
      the call throws before any statement runs, so every submission, valid
      or not, gets the 500 page. */
  lemma FormAsWrittenAlwaysFails(list: string, failure: string)
    ensures FormResponse(Threw, list, failure) == ErrorPage(500, failure)
    ensures FormResponse(Threw, list, failure) != Redirect(list)
  {
  }

  /** A post or project submission as written: past the gate, the call to
      the missing store method throws, so a signed-in user always gets the
      500 page and, having no `modifies` clause, the handler changes nothing
      in the store. */
  method SubmitFormAsWritten(db: DB, session: Session, list: string, failure: string) returns (r: Response)
    ensures session.user.None? ==> r == Redirect(LoginPath)
    ensures session.user.Some? ==> r == ErrorPage(500, failure)
  {
    var gate := RequireAuth(session.user);
    if gate.Deny? {
      return gate.response;
    }
    r := FormResponse(Threw, list, failure);
  }

  /** The post a create form stores: the form's fields, no id, and the
      upload's path as featured_image. */
  function NewPost(form: PostInput, upload: Option<string>): PostInput {
    form.(id := None, featuredImage := CreateImage(upload))
  }

  /** The post an edit form stores. */
  function EditedPost(form: PostInput, existing: Option<string>, upload: Option<string>): PostInput {
    form.(featuredImage := UpdateImage(upload, existing))
  }

  function NewProject(form: ProjectInput, upload: Option<string>): ProjectInput {
    form.(id := None, featuredImage := CreateImage(upload))
  }

  function EditedProject(form: ProjectInput, existing: Option<string>, upload: Option<string>): ProjectInput {
    form.(featuredImage := UpdateImage(upload, existing))
  }

  /** POST /posts, with the create mapped onto savePost without an id. */
  method CreatePost(db: DB, session: Session, form: PostInput, upload: Option<string>) returns (r: Response)
    requires db.Valid()
    modifies db`posts, db`postSeq
    ensures db.Valid()
    ensures session.user.None? ==>
              r == Redirect(LoginPath) && db.posts == old(db.posts) && db.postSeq == old(db.postSeq)
    ensures session.user.Some? ==>
              var w := PostSaved(old(db.posts), old(db.postSeq), db.now, NewPost(form, upload));
              db.posts == w.rows && db.postSeq == w.last
              && r == FormResponse(Settled(w.result), "/admin/posts", "Failed to create post")
  {
    var gate := RequireAuth(session.user);
    if gate.Deny? {
      return gate.response;
    }
    var saved := db.SavePost(NewPost(form, upload));
    r := FormResponse(Settled(saved), "/admin/posts", "Failed to create post");
  }

  /** POST /posts/:id, with the update mapped onto the UPDATE branch of
      savePost for the id in the path. */
  method UpdatePost(db: DB, session: Session, id: int, form: PostInput, existing: Option<string>,
                    upload: Option<string>) returns (r: Response)
    requires db.Valid()
    modifies db`posts
    ensures db.Valid()
    ensures session.user.None? ==> r == Redirect(LoginPath) && db.posts == old(db.posts)
    ensures session.user.Some? ==>
              var w := UpdateUnique(old(db.posts), db.postSeq, id, PostColumns(EditedPost(form, existing, upload), db.now),
                                    PostSlug, "posts.slug");
              db.posts == w.rows
              && r == FormResponse(Settled(w.result), "/admin/posts", "Failed to update post")
  {
    var gate := RequireAuth(session.user);
    if gate.Deny? {
      return gate.response;
    }
    var saved := db.UpdatePostById(id, EditedPost(form, existing, upload));
    r := FormResponse(Settled(saved), "/admin/posts", "Failed to update post");
  }

  /** POST /projects, with the create mapped onto saveProject without an id. */
  method CreateProject(db: DB, session: Session, form: ProjectInput, upload: Option<string>) returns (r: Response)
    requires db.Valid()
    modifies db`projects, db`projectSeq
    ensures db.Valid()
    ensures session.user.None? ==>
              r == Redirect(LoginPath) && db.projects == old(db.projects) && db.projectSeq == old(db.projectSeq)
    ensures session.user.Some? ==>
              var w := ProjectSaved(old(db.projects), old(db.projectSeq), db.now, NewProject(form, upload));
              db.projects == w.rows && db.projectSeq == w.last
              && r == FormResponse(Settled(w.result), "/admin/projects", "Failed to create project")
  {
    var gate := RequireAuth(session.user);
    if gate.Deny? {
      return gate.response;
    }
    var saved := db.SaveProject(NewProject(form, upload));
    r := FormResponse(Settled(saved), "/admin/projects", "Failed to create project");
  }

  /** POST /projects/:id. */
  method UpdateProject(db: DB, session: Session, id: int, form: ProjectInput, existing: Option<string>,
                       upload: Option<string>) returns (r: Response)
    requires db.Valid()
    modifies db`projects
    ensures db.Valid()
    ensures session.user.None? ==> r == Redirect(LoginPath) && db.projects == old(db.projects)
    ensures session.user.Some? ==>
              var w := UpdateUnique(old(db.projects), db.projectSeq, id,
                                    ProjectColumns(EditedProject(form, existing, upload), db.now),
                                    ProjectSlug, "projects.slug");
              db.projects == w.rows
              && r == FormResponse(Settled(w.result), "/admin/projects", "Failed to update project")
  {
    var gate := RequireAuth(session.user);
    if gate.Deny? {
      return gate.response;
    }
    var saved := db.UpdateProjectById(id, EditedProject(form, existing, upload));
    r := FormResponse(Settled(saved), "/admin/projects", "Failed to update project");
  }

  // ---------------------------------------------------------------------
  // POST /settings/password

  datatype PasswordStep = Change(password: string) | Incorrect | Failed

  /** The password handler's decision: the current password must match the
      stored hash; a lookup or comparison or hashing that throws ends in
      the catch branch. `Change` carries the new hash to store. */
  function PasswordCheck(lookup: Lookup, current: Option<string>, newPassword: Option<string>,
                         hash: string -> string, matches: (string, string) -> bool): PasswordStep {
    if lookup.Missing? then Failed
    else
      match CompareSync(current, StoredPassword(lookup), matches)
      case None => Failed
      case Some(ok) =>
        if !ok then Incorrect
        else if newPassword.None? then Failed
        else Change(hash(newPassword.value))
  }

  /** The password is changed exactly when the user is found, both fields
      are present and the current one matches; a wrong current password is
      reported as such and changes nothing. */
  lemma PasswordCheckSpec(lookup: Lookup, current: Option<string>, newPassword: Option<string>,
                          hash: string -> string, matches: (string, string) -> bool)
    ensures PasswordCheck(lookup, current, newPassword, hash, matches).Change? <==>
            lookup.Found? && current.Some? && newPassword.Some? && matches(current.value, lookup.user.cols.password)
    ensures PasswordCheck(lookup, current, newPassword, hash, matches).Change? ==>
            PasswordCheck(lookup, current, newPassword, hash, matches).password == hash(newPassword.value)
    ensures PasswordCheck(lookup, current, newPassword, hash, matches) == Incorrect <==>
            lookup.Found? && current.Some? && !matches(current.value, lookup.user.cols.password)
  {
  }

  /** As written the lookup is not awaited (and the store has no
      `updateUserPassword`): every request ends with "Failed to update
      password" and nothing is written. */
  function PasswordCheckAsWritten(current: Option<string>, newPassword: Option<string>,
                                  hash: string -> string, matches: (string, string) -> bool): PasswordStep {
    PasswordCheck(Pending, current, newPassword, hash, matches)
  }

  lemma PasswordAsWrittenAlwaysFails(current: Option<string>, newPassword: Option<string>,
                                     hash: string -> string, matches: (string, string) -> bool)
    ensures PasswordCheckAsWritten(current, newPassword, hash, matches) == Failed
  {
  }

  /** The settings-page message for each outcome. */
  function PasswordNotice(step: PasswordStep): Notice {
    match step
    case Change(_) => Notice("success", "Password updated successfully")
    case Incorrect => Notice("error", "Current password is incorrect")
    case Failed => Notice("error", "Failed to update password")
  }

  /** POST /settings/password with the lookup awaited and the update a
      single-row write on `users`. */
  method ChangePassword(db: DB, session: Session, current: Option<string>, newPassword: Option<string>,
                        hash: string -> string, matches: (string, string) -> bool) returns (r: Response)
    requires db.Valid()
    modifies db`users
    ensures db.Valid()
    ensures session.user.None? ==> r == Redirect(LoginPath) && db.users == old(db.users)
    ensures session.user.Some? ==>
              var step := PasswordCheck(LookupIn(old(db.users), Some(session.user.value.username)),
                                        current, newPassword, hash, matches);
              r == SettingsPage(session.user.value, PasswordNotice(step))
              && db.users == if step.Change? then SetPassword(old(db.users), session.user.value.username, step.password)
                             else old(db.users)
  {
    var gate := RequireAuth(session.user);
    if gate.Deny? {
      return gate.response;
    }
    var me := session.user.value;
    var step := PasswordCheck(LookupIn(db.users, Some(me.username)), current, newPassword, hash, matches);
    if step.Change? {
      var _ := db.UpdateUserPassword(me.username, step.password);
    }
    r := SettingsPage(me, PasswordNotice(step));
  }

  /** After a successful change the new password signs the user in and the
      old one no longer does (given a hash that the comparison accepts
      exactly for its own password). */
  lemma {:induction false} LoginAfterChange(users: seq<User>, name: string, current: string, newPassword: string,
                                            hash: string -> string, matches: (string, string) -> bool)
    requires KeyUnique(users, Username)
    requires forall p, q :: matches(p, hash(q)) <==> p == q
    requires PasswordCheck(LookupIn(users, Some(name)), Some(current), Some(newPassword), hash, matches).Change?
    ensures Login(LookupIn(SetPassword(users, name, hash(newPassword)), Some(name)), Some(newPassword), matches).LoggedIn?
    ensures current != newPassword ==>
              !Login(LookupIn(SetPassword(users, name, hash(newPassword)), Some(name)), Some(current), matches).LoggedIn?
  {
    var after := SetPassword(users, name, hash(newPassword));
    GetUserByUsernameSpec(users, Some(name));
    SetPasswordSpec(users, name, hash(newPassword));
    assert KeyUnique(after, Username) by {
      forall i, j | 0 <= i < j < |after| ensures after[i].cols.username != after[j].cols.username {
        assert after[i].cols.username == users[i].cols.username;
        assert after[j].cols.username == users[j].cols.username;
      }
    }
    var u := LookupIn(users, Some(name)).user;
    var i :| 0 <= i < |users| && users[i] == u;
    assert after[i].cols.username == name && after[i].cols.password == hash(newPassword);
    LoginAgainstUsers(after, name, newPassword, matches);
    LoginAgainstUsers(after, name, current, matches);
    forall j | 0 <= j < |after| && after[j].cols.username == name ensures after[j].cols.password == hash(newPassword) {
    }
  }
}
