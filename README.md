# PUPPAKA content store and admin rules, in Dafny

This project models the core of the PUPPAKA personal website (a blog and a
portfolio with an admin panel):

- the content store, the `DB` class of `database.js`. It keeps four SQLite
  tables: posts, projects, contact messages and admin users. Every operation
  is one SQL statement.
- the decisions the admin router makes in `routes/admin.js`: the login
  gate, login and logout, which `featured_image` a post or project form
  stores, the upload filter and size limit, and the password change.

Files and modules:

- `rows.dfy` (`Rows`): the row and column types of the four tables. Also the
  objects handed to `savePost`, `saveProject` and `saveContact`, and how SQLite
  refuses a statement: NOT NULL is checked in schema column order, then UNIQUE.
  A JavaScript `undefined` bound as a parameter is SQL NULL, modelled as `None`.
- `table.dfy` (`Table`): a table as the sequence of its rows in rowid order,
  plus what one statement does to it. That covers `INSERT`, `INSERT OR IGNORE`,
  `UPDATE ... WHERE id = ?` and `DELETE ... WHERE id = ?`, together with
  `ORDER BY created_at DESC` and SQLite's `LIMIT`/`OFFSET`. A negative limit
  means no limit, and a negative offset means 0.
- `queries.dfy` (`Queries`): the store's read methods, as functions of the
  table they read, with what each one promises.
- `store.dfy` (`Store`): the class `DB`. It has one sequence per table, the
  AUTOINCREMENT counter SQLite keeps for each table, and a clock `now` that
  stands for CURRENT_TIMESTAMP and never goes back. The writing methods change
  these fields in place. Each is proved against a function of the old table,
  and the invariant `Valid` is kept: ids ascend and never exceed the counter,
  no row is stamped later than `now`, and slugs and usernames are unique.
- `admin.dfy` (`Admin`): the router's decisions. It also has a `Session` class
  whose `user` field login sets and logout clears. The form handlers and the
  password handler are methods over a `DB`. bcrypt becomes two parameters:
  `hash` for `hashSync` and `matches` for `compareSync` on two strings.

## Model

| member | source | states |
|---|---|---|
| Rows.PostColumns | database.js:44-58 | a post row gets exactly the submitted fields, with updated_at = now; a missing title, slug or content is the NOT NULL error for the first missing one in column order |
| Rows.ProjectColumns | database.js:61-78 | the same for projects, whose required columns are title, slug and description |
| Rows.ContactColumns | database.js:81-91 | a contact is stored exactly when name, email and message are present, and it starts unread |
| Table.Insert | database.js:243-253 | the INSERT of savePost, saveProject and saveContact: a NOT NULL error writes nothing, otherwise one row with the next id; its promises are proved in InsertSpec |
| Table.InsertUnique | database.js:243-253 | the INSERT into a table with a UNIQUE slug; its promises are proved in InsertUniqueSpec |
| Table.UpdateUnique | database.js:232-242 | the `UPDATE ... WHERE id = ?` of savePost and saveProject; its promises are proved in UpdateUniqueSpec |
| Table.DeleteById | database.js:257-264 | `DELETE ... WHERE id = ?`; its promises are proved in DeleteRemovesOne and DeleteKeeps |
| Table.Matched | database.js:257-264 | the `changes` a statement by id reports: the number of rows with that id; proved in DeleteRemovesOne |
| Table.KeyHeldOnce | database.js:97 | under a UNIQUE column, a value is held by exactly one row or by none |
| Table.InsertSpec | database.js:243-253 | an INSERT either fails with the NOT NULL error and writes nothing, or appends one row whose id is above the AUTOINCREMENT counter, so above every id ever handed out, and the counter records it; the table invariant is kept |
| Table.InsertUniqueSpec | database.js:243-253 | an INSERT under a UNIQUE slug succeeds iff the columns are present and the slug is free; otherwise nothing is written; slugs stay unique |
| Table.UpdateUniqueSpec | database.js:232-242 | an UPDATE of a missing id resolves to that id and changes nothing; on a present id it fails on a NULL column or on a slug held by another row, and otherwise rewrites that row only |
| Table.SetCols | database.js:232-242 | an UPDATE by id gives that row the new columns, keeps its id and created_at, and leaves every other row as it was |
| Table.SetColsKeeps | database.js:232-242 | such an UPDATE keeps ids, stamps and slug uniqueness when no other row holds the new slug |
| Table.DeleteRemovesOne | database.js:257-264 | a DELETE by id removes exactly the row with that id, keeps every other row in order, and reports changes = 1 if the row existed, else 0 |
| Table.DeleteKeeps | database.js:396-403 | a DELETE keeps the table invariant and the uniqueness of a key |
| Table.AppendKeeps | database.js:243-253 | appending a row with the next id keeps the invariant, and a new key value keeps the key unique |
| Table.InsertOrIgnore | database.js:148-151 | one INSERT OR IGNORE: the row with the next id unless its slug is held |
| Table.InsertEachOrIgnore | database.js:147-152 | the INSERT OR IGNORE statements of a forEach, in order; each draws an id whether or not its row is kept |
| Table.InsertEachOrIgnoreNext | database.js:147-152 | the first i + 1 statements are the first i followed by the next one, offering id last + i + 1 |
| Table.InsertEachOrIgnoreSpec | database.js:147-152 | those statements keep the old rows, make every seeded key value present, add only rows whose key was free, and add nothing when every key was held |
| Table.InsertEachOrIgnoreHeld | database.js:147-152 | when every key value is already held, the statements add no row |
| Table.InsertedOrIgnoredNext | database.js:147-152 | the loop step: after the i-th statement the first i + 1 values are described |
| Table.InsertedOrIgnoredStep | database.js:147-152 | one more INSERT OR IGNORE extends the description of what seeding has done by one more row |
| Table.InsertedOrIgnoredOnce | database.js:167-172 | after INSERT OR IGNORE under a unique key, each seeded key value is held by exactly one row |
| Table.InsertedOrIgnoredTwice | database.js:105-120 | running the same INSERT OR IGNORE statements a second time adds nothing |
| Table.NewestFirst | database.js:178-189 | `ORDER BY created_at DESC`; its promises are proved in NewestFirstSorts and NewestFirstSpec |
| Table.NewestFirstSorts | database.js:178-189 | ORDER BY created_at DESC returns a permutation of the rows with created_at non-increasing |
| Table.NewestFirstSpec | database.js:178-189 | the sorted listing has exactly the table's rows as members and the table's length |
| Table.InsertByTimePerm | database.js:178-189 | placing one row into a sorted list adds exactly that row |
| Table.InsertByTimeOrdered | database.js:178-189 | placing one row into a newest-first list keeps it newest first |
| Table.Page | database.js:178-189 | LIMIT/OFFSET returns a contiguous slice that starts after the skipped rows, is no longer than the limit, and is short only at the end |
| Table.PagesTile | database.js:178-189 | two consecutive pages of size n are the single page of size 2n |
| Table.WhereCount | database.js:191-201 | the rows a WHERE keeps are as many as COUNT(*) with the same condition |
| Queries.GetPosts | database.js:178-189 | getPosts as a function of the posts table; its promises are proved in GetPostsSpec and PostPagesTile |
| Queries.GetPostCount | database.js:191-201 | getPostCount; proved equal to the unbounded getPosts in PostCountIsListingSize |
| Queries.GetPostBySlug | database.js:203-214 | getPostBySlug; its promise is proved in GetPostBySlugSpec |
| Queries.GetPostById | database.js:216-227 | getPostById; its promise is proved in FindByIdSpec and SavedPostReadsBack |
| Queries.GetProjects | database.js:267-278 | getProjects, with no offset; its promises are proved in GetProjectsSpec |
| Queries.GetProjectCount | database.js:280-290 | getProjectCount; related to getProjects in GetProjectsSpec |
| Queries.GetProjectBySlug | database.js:292-303 | getProjectBySlug; its promise is proved in GetProjectBySlugSpec |
| Queries.GetProjectById | database.js:305-316 | getProjectById; its promise is proved in FindByIdSpec |
| Queries.GetContacts | database.js:370-381 | getContacts; its promises are proved in GetContactsSpec |
| Queries.GetUserByUsername | database.js:406-417 | getUserByUsername; its promise is proved in GetUserByUsernameSpec |
| Queries.GetRelatedPosts | database.js:420-431 | getRelatedPosts; its promises are proved in GetRelatedPostsSpec |
| Queries.FullListing | database.js:178-201 | the unbounded listing holds every qualifying row and only those, as many as COUNT(*) |
| Queries.ListingSpec | database.js:178-189 | a listing holds only qualifying rows, newest first, at most `limit`, and is the slice of the full listing that starts after `offset` rows |
| Queries.GetPostsSpec | database.js:178-189 | getPosts returns only published posts, newest first, at most `limit`, after skipping `offset` published posts |
| Queries.PostCountIsListingSize | database.js:191-201 | getPostCount is the number of published posts, the size of the unbounded getPosts |
| Queries.PostPagesTile | database.js:178-189 | consecutive getPosts pages join into one larger page |
| Queries.GetProjectsSpec | database.js:267-290 | getProjects returns only published projects, newest first, at most `limit`; a short page holds all getProjectCount of them |
| Queries.GetRelatedPostsSpec | database.js:420-431 | getRelatedPosts never returns the post itself, returns only published posts, newest first, at most `limit` |
| Queries.GetContactsSpec | database.js:370-381 | getContacts returns contacts whether read or not, newest first, min(limit, count) of them |
| Queries.FindByKeySpec | database.js:203-214 | a lookup by a UNIQUE column finds a row iff one holds the value, and then it is that row |
| Queries.FindByIdSpec | database.js:216-227 | a lookup by id finds the row with that id iff there is one |
| Queries.GetPostBySlugSpec | database.js:203-214 | getPostBySlug finds the one post with that slug, if any |
| Queries.GetProjectBySlugSpec | database.js:292-303 | getProjectBySlug finds the one project with that slug, if any |
| Queries.GetUserByUsernameSpec | database.js:406-417 | getUserByUsername finds the one user with that name; a missing name finds nobody |
| Store.AdminCols | database.js:105-113 | the administrator row init offers: admin, hashSync('admin123'), admin@puppaka.com, the default role |
| Store.SeedPosts | database.js:126-145 | the two sample posts, with the columns the seeding INSERT omits as NULL |
| Store.SeedProjects | database.js:155-165 | the sample project |
| Store.SeedsOnEmptyTables | database.js:124-175 | on empty tables every seeding statement inserts: the sample posts get ids 1 and 2, the sample project id 1 |
| Store.SeedsAgain | database.js:124-175 | seeding tables that already hold the samples adds no row, at any later time |
| Store.PostSaved | database.js:229-255 | savePost as a function of the posts table: UPDATE for a truthy id, INSERT otherwise; its promises are proved in SavePostInsertSpec, SavePostUpdateSpec and SavedPostReadsBack |
| Store.ProjectSaved | database.js:318-344 | saveProject the same way; its promises are proved in SaveProjectSpec |
| Store.MarkRead | database.js:383-394 | `UPDATE contacts SET read = 1 WHERE id = ?`; its promises are proved in MarkReadSpec |
| Store.SetPassword | routes/admin.js:251 | the password write by username; its promises are proved in SetPasswordSpec |
| Store.SavePostInsertSpec | database.js:243-253 | savePost without a truthy id inserts iff title, slug and content are present and the slug is free, with an id above the counter, and the table is then the old one plus exactly that row; a refused insert writes nothing |
| Store.DeletedPostIdNotReused | database.js:46 | after a post is deleted, a post inserted later never gets its id: AUTOINCREMENT does not reuse ids |
| Store.SavePostUpdateSpec | database.js:232-242 | savePost with a truthy id that no row has resolves to `{ id }` and writes nothing; otherwise it rewrites only that row unless a column is NULL or the slug is taken by another post |
| Store.SavedPostReadsBack | database.js:229-255 | after a successful save, getPostById and getPostBySlug both read back the row holding the saved columns |
| Store.SaveProjectSpec | database.js:318-344 | saveProject inserts iff title, slug and description are present and the slug is free, appending exactly one row with an id above the counter; with a truthy id that no row has it resolves to the id and writes nothing, otherwise it rewrites only that row unless a column is NULL or another project holds the slug; slugs stay unique |
| Store.SaveContactSpec | database.js:356-368 | a contact is stored iff name, email and message are present; it arrives unread with an id above every id the counter has handed out, and getContacts lists it; a refused one writes nothing |
| Store.MarkReadSpec | database.js:383-394 | markContactAsRead sets the read flag of only that id, changes nothing else, is idempotent, and a repeat still reports the same `changes` |
| Store.SetPasswordSpec | routes/admin.js:251 | the password write rewrites only the password of the user with that name, at most one row |
| Store.DB.constructor | database.js:10-40 | opening a new database runs init: one administrator row with id 1, no contacts; in memory mode the sample rows as the seeding statements leave empty tables and counters advanced by the number of samples, otherwise no rows |
| Store.DB.Tick | database.js:55-56 | the clock behind CURRENT_TIMESTAMP never goes back |
| Store.DB.Init | database.js:42-121 | init inserts the administrator unless a user named admin exists, leaves exactly one admin, advances the users counter either way, and in memory mode leaves posts and projects as the seeding statements do; otherwise they are untouched |
| Store.DB.SeedData | database.js:124-175 | seedData leaves posts and projects as the INSERT OR IGNORE statements for the samples do, and advances each counter by the number of samples |
| Store.DB.SeedPostRows | database.js:147-152 | the post loop of seedData: the table after it is InsertEachOrIgnore of the old one, and the counter has moved by the number of samples |
| Store.DB.SeedProjectRows | database.js:167-172 | the same for the project loop |
| Store.DB.InsertOrIgnorePost | database.js:148-151 | INSERT OR IGNORE INTO posts appends a row with the next id iff the slug is free; the counter advances by one either way |
| Store.DB.InsertOrIgnoreProject | database.js:168-171 | INSERT OR IGNORE INTO projects appends a row with the next id iff the slug is free; the counter advances by one either way |
| Store.DB.InsertOrIgnoreUser | database.js:108-113 | INSERT OR IGNORE INTO users appends a row with the next id iff the username is free; the counter advances by one either way |
| Store.DB.SavePost | database.js:229-255 | the new posts table, counter and result are those of the UPDATE (truthy id) or INSERT (otherwise) statement |
| Store.DB.UpdatePostById | database.js:232-242 | the UPDATE branch of savePost for a given id: the new table and result are those of UpdateUnique, the counter is untouched |
| Store.DB.DeletePost | database.js:257-264 | deletePost removes the row with that id and reports the number of rows matched |
| Store.DB.SaveProject | database.js:318-344 | the new projects table, counter and result are those of the statement saveProject runs |
| Store.DB.UpdateProjectById | database.js:321-331 | the UPDATE branch of saveProject for a given id |
| Store.DB.DeleteProject | database.js:346-353 | deleteProject removes the row with that id and reports the number of rows matched |
| Store.DB.SaveContact | database.js:356-368 | saveContact runs the INSERT into contacts |
| Store.DB.MarkContactAsRead | database.js:383-394 | markContactAsRead flags that id as read and reports the rows matched |
| Store.DB.DeleteContact | database.js:396-403 | deleteContact removes the row with that id and reports the rows matched |
| Store.DB.UpdateUserPassword | routes/admin.js:251 | the single-row password write; reports how many users had that name |
| Store.InitTwice | database.js:105-120 | init run twice in memory mode leaves exactly one admin user, the first one, and exactly the first sample rows, while the post and project counters stand at 4 and 2 |
| Admin.RequireAuth | routes/admin.js:35-41 | a request passes iff the session holds a user, and is otherwise redirected to /admin/login |
| Admin.LoginForm | routes/admin.js:44-49 | the login page redirects a signed-in user to /admin and shows an empty form to anyone else |
| Admin.CompareSync | routes/admin.js:57 | the comparison throws unless both arguments are strings, and otherwise answers whether they match |
| Admin.Login | routes/admin.js:52-67 | the login decision on an awaited lookup; its promises are proved in LoginSpec, LoginRefusalsAlike and LoginAgainstUsers |
| Admin.LoginSpec | routes/admin.js:52-67 | login succeeds iff the user is found and the password matches; the session then holds exactly {id, username, role} |
| Admin.LoginRefusalsAlike | routes/admin.js:57-59 | an unknown username and a wrong password get the same "Invalid credentials" |
| Admin.LoginAgainstUsers | routes/admin.js:55-62 | against the users table, login succeeds iff a user with that name has a hash the password matches |
| Admin.LoginAsWritten | routes/admin.js:55-66 | the login as written, on the pending lookup; proved always refused in LoginAsWrittenAlwaysFails |
| Admin.LoginAsWrittenAlwaysFails | routes/admin.js:55-66 | as written, every login ends with "Login failed" |
| Admin.LoginAsWrittenRefusesAdmin | routes/admin.js:55-66 | the administrator with the right password is refused as written but signed in once the lookup is awaited |
| Admin.Session.PostLogin | routes/admin.js:52-67 | on success the session user is set and the browser goes to /admin; on refusal the session is unchanged and the login page shows the error |
| Admin.Session.Logout | routes/admin.js:70-73 | logout empties the session, after which the gate refuses, and redirects to /admin/login |
| Admin.CheckUpload | routes/admin.js:21-32 | the fileFilter and the size limit; proved in CheckUploadSpec |
| Admin.CheckUploadSpec | routes/admin.js:21-32 | an upload is accepted iff it is a JPEG, PNG, GIF or WebP image of at most 5 MiB; any other type is refused as "Only images allowed" |
| Admin.CreateImage | routes/admin.js:109 | the featured_image of a create; proved in ImageSpec |
| Admin.UpdateImage | routes/admin.js:136 | the featured_image of an update; proved in ImageSpec |
| Admin.ImageSpec | routes/admin.js:105-144 | a create stores the upload's /uploads/ path or NULL; an update stores the new upload's path, or else the existing image, so it is never cleared implicitly |
| Admin.FormResponse | routes/admin.js:105-117 | a form handler redirects to its list iff the store call resolves, and otherwise shows a 500 page with its own message |
| Admin.FormAsWrittenAlwaysFails | routes/admin.js:105-117 | as written, every post or project submission gets the 500 page |
| Admin.SubmitFormAsWritten | routes/admin.js:105-117 | the handler as written: an anonymous request is sent to the login page, a signed-in one always gets the 500 page, and the store is left untouched |
| Admin.CreatePost | routes/admin.js:105-117 | an anonymous request changes nothing; otherwise the post is saved without an id and with the create image, and the response follows the result |
| Admin.UpdatePost | routes/admin.js:132-144 | an anonymous request changes nothing; otherwise the post with the path's id is updated with the update image |
| Admin.CreateProject | routes/admin.js:171-183 | the same as CreatePost for projects |
| Admin.UpdateProject | routes/admin.js:198-210 | the same as UpdatePost for projects |
| Admin.PasswordCheck | routes/admin.js:238-264 | the password handler's decision on an awaited lookup; proved in PasswordCheckSpec |
| Admin.PasswordCheckSpec | routes/admin.js:238-264 | the password changes iff the user is found, both fields are present and the current password matches; the new hash is `hash(new_password)`; a wrong current password is reported as incorrect |
| Admin.PasswordCheckAsWritten | routes/admin.js:241-263 | the password handler as written, on the pending lookup; proved always failing in PasswordAsWrittenAlwaysFails |
| Admin.PasswordAsWrittenAlwaysFails | routes/admin.js:241-263 | as written, every password change ends with "Failed to update password" |
| Admin.ChangePassword | routes/admin.js:238-264 | the users table changes only on a successful check, and then only that user's password; the settings page shows the matching message |
| Admin.LoginAfterChange | routes/admin.js:250-251 | after a successful change the new password signs the user in and the old one no longer does |

## Left out

- The sqlite3 engine, its callbacks and the Promise wrappers. Each operation
  is a synchronous method that returns a result or a `DbError`. Only the
  constraint errors the schema can raise are modelled.
- The choice of storage path, the environment test behind `isHostinger`, the
  data directory and the singleton. `inMemory` is a constructor parameter.
  A file database reopened with its tables is modelled by calling `Init` again
  on an existing `DB`.
- bcrypt. `hash` and `matches` are parameters. Salting, which gives a
  different hash on every call, is not modelled.
- multer's disk storage and its random file names. The stored file name is a
  parameter. How Express answers a rejected upload is not modelled either;
  `CheckUpload` only says whether a file is accepted and with which message.
- Express routing, templates, session cookies and the other files (server.js,
  app.js, routes/api.js, index.js, setup.js, public/js/main.js, start.js,
  index.php). So are the dashboard, the list and edit pages, and the delete
  routes of the admin router.
- The DATETIME text of created_at and updated_at, and the one-second
  resolution of CURRENT_TIMESTAMP. The clock is a natural number.
- Rows with equal created_at: SQLite gives them no defined order. The model
  sorts them stably (rowid order), so two queries order them the same way.
  Table.PagesTile, Queries.PostPagesTile and the slice clause of
  Queries.ListingSpec rely on that; SQLite does not promise it.
- Type affinity. `published` is an optional integer. A form that sends text
  for it is not modelled. An id taken from the URL is an integer.

Where the code differs from what its schema and comments suggest, the model follows the code:

- Required columns are checked only for NULL. An empty title or message is
  stored.
- Updating a post or project with an id that no row has is not an error. The
  call resolves with that id and writes nothing.
- The default administrator is inserted unless a user named `admin` exists,
  not whenever the users table is empty.
- An INSERT OR IGNORE that is ignored still uses up an AUTOINCREMENT id:
  SQLite draws the rowid before the UNIQUE check and keeps the raised
  counter. Seeding a second time therefore moves the counters, and the next
  post saved gets a higher id than the table's rows suggest.

## Findings

| source | as written | input that shows it | evidently intended | confidence | as-written member | corrected member |
|---|---|---|---|---|---|---|
| routes/admin.js:55-59 | the user lookup is not awaited, so `user` is a Promise and `compareSync(password, undefined)` throws | username `admin`, password `admin123` right after init | await the lookup, then sign the user in | high; not executed | Admin.LoginAsWritten | Admin.Session.PostLogin |
| routes/admin.js:105-117 | the create and update handlers call `createPost`, `updatePost`, `createProject` and `updateProject`, which `DB` does not define, so the call throws | any complete post form from a signed-in admin | save through `savePost`/`saveProject` and redirect to the list | high; not executed | Admin.SubmitFormAsWritten | Admin.CreatePost |
| routes/admin.js:241-251 | the password handler does not await the lookup and calls `updateUserPassword`, which `DB` does not define | the correct current password and any new password | check the awaited user's hash, then update that one row | high; not executed | Admin.PasswordCheckAsWritten | Admin.ChangePassword |
