/** Rows of the four tables (posts, projects, contacts, users), the values an
    operation hands to the store, and the store's constraint errors.
    A column that SQL allows to be NULL is an Option; a JavaScript `undefined`
    bound as a statement parameter becomes NULL, so it is None as well. */
module Rows {

  datatype Option<+T> = None | Some(value: T)

  /** The two ways a single statement is refused by the schema. The column is
      written as SQLite reports it ("posts.slug"). */
  datatype DbError = NotNull(column: string) | Unique(column: string)

  datatype Result<+T> = Ok(value: T) | Err(error: DbError)

  /** One stored row: the INTEGER PRIMARY KEY AUTOINCREMENT id, the
      `created_at DEFAULT CURRENT_TIMESTAMP` stamp (an abstract clock reading)
      and the remaining columns. */
  datatype Row<C> = Row(id: int, createdAt: nat, cols: C)

  /** Columns of `posts` besides id and created_at (database.js:44-58). */
  datatype PostCols = PostCols(
    title: string,
    slug: string,
    content: string,
    excerpt: Option<string>,
    featuredImage: Option<string>,
    category: Option<string>,
    tags: Option<string>,
    published: Option<int>,
    updatedAt: nat)

  /** Columns of `projects` besides id and created_at (database.js:61-78). */
  datatype ProjectCols = ProjectCols(
    title: string,
    slug: string,
    description: string,
    content: Option<string>,
    featuredImage: Option<string>,
    images: Option<string>,
    category: Option<string>,
    technologies: Option<string>,
    link: Option<string>,
    github: Option<string>,
    published: Option<int>,
    updatedAt: nat)

  /** Columns of `contacts` besides id and created_at (database.js:81-91);
      `read` is the 0/1 INTEGER flag. */
  datatype ContactCols = ContactCols(
    name: string,
    email: string,
    subject: Option<string>,
    message: string,
    read: bool)

  /** Columns of `users` besides id and created_at (database.js:94-103);
      `password` holds the bcrypt hash. */
  datatype UserCols = UserCols(
    username: string,
    password: string,
    email: Option<string>,
    role: string)

  type Post = Row<PostCols>
  type Project = Row<ProjectCols>
  type Contact = Row<ContactCols>
  type User = Row<UserCols>

  /** The object handed to `savePost`: every field may be missing. */
  datatype PostInput = PostInput(
    id: Option<int>,
    title: Option<string>,
    slug: Option<string>,
    content: Option<string>,
    excerpt: Option<string>,
    featuredImage: Option<string>,
    category: Option<string>,
    tags: Option<string>,
    published: Option<int>)

  /** The object handed to `saveProject`. */
  datatype ProjectInput = ProjectInput(
    id: Option<int>,
    title: Option<string>,
    slug: Option<string>,
    description: Option<string>,
    content: Option<string>,
    featuredImage: Option<string>,
    images: Option<string>,
    category: Option<string>,
    technologies: Option<string>,
    link: Option<string>,
    github: Option<string>,
    published: Option<int>)

  /** The object handed to `saveContact`. */
  datatype ContactInput = ContactInput(
    name: Option<string>,
    email: Option<string>,
    subject: Option<string>,
    message: Option<string>)

  /** JavaScript truthiness of the `id` property as `savePost` and
      `saveProject` test it with `if (id)`: a missing id and the number 0 are
      falsy. */
  predicate HasTruthyId(id: Option<int>) {
    id.Some? && id.value != 0
  }

  /** The columns a post row gets from `input`, stamped `updatedAt`, or the
      NOT NULL violation SQLite reports first (columns in schema order). */
  function PostColumns(input: PostInput, updatedAt: nat): (r: Result<PostCols>)
    ensures r.Ok? <==> input.title.Some? && input.slug.Some? && input.content.Some?
    ensures r.Ok? ==> r.value.title == input.title.value && r.value.slug == input.slug.value
                      && r.value.content == input.content.value && r.value.excerpt == input.excerpt
                      && r.value.featuredImage == input.featuredImage && r.value.category == input.category
                      && r.value.tags == input.tags && r.value.published == input.published
                      && r.value.updatedAt == updatedAt
    ensures r.Err? ==> r.error.NotNull?
    ensures input.title.None? ==> r == Err(NotNull("posts.title"))
    ensures input.title.Some? && input.slug.None? ==> r == Err(NotNull("posts.slug"))
    ensures input.title.Some? && input.slug.Some? && input.content.None? ==> r == Err(NotNull("posts.content"))
  {
    if input.title.None? then Err(NotNull("posts.title"))
    else if input.slug.None? then Err(NotNull("posts.slug"))
    else if input.content.None? then Err(NotNull("posts.content"))
    else Ok(PostCols(input.title.value, input.slug.value, input.content.value, input.excerpt,
                     input.featuredImage, input.category, input.tags, input.published, updatedAt))
  }

  /** The columns a project row gets from `input`, or the first NOT NULL
      violation. */
  function ProjectColumns(input: ProjectInput, updatedAt: nat): (r: Result<ProjectCols>)
    ensures r.Ok? <==> input.title.Some? && input.slug.Some? && input.description.Some?
    ensures r.Ok? ==> r.value.title == input.title.value && r.value.slug == input.slug.value
                      && r.value.description == input.description.value && r.value.content == input.content
                      && r.value.featuredImage == input.featuredImage && r.value.images == input.images
                      && r.value.category == input.category && r.value.technologies == input.technologies
                      && r.value.link == input.link && r.value.github == input.github
                      && r.value.published == input.published && r.value.updatedAt == updatedAt
    ensures r.Err? ==> r.error.NotNull?
    ensures input.title.None? ==> r == Err(NotNull("projects.title"))
    ensures input.title.Some? && input.slug.None? ==> r == Err(NotNull("projects.slug"))
    ensures input.title.Some? && input.slug.Some? && input.description.None? ==> r == Err(NotNull("projects.description"))
  {
    if input.title.None? then Err(NotNull("projects.title"))
    else if input.slug.None? then Err(NotNull("projects.slug"))
    else if input.description.None? then Err(NotNull("projects.description"))
    else Ok(ProjectCols(input.title.value, input.slug.value, input.description.value, input.content,
                        input.featuredImage, input.images, input.category, input.technologies,
                        input.link, input.github, input.published, updatedAt))
  }

  /** The columns a new contact row gets: `read` takes its DEFAULT 0. */
  function ContactColumns(input: ContactInput): (r: Result<ContactCols>)
    ensures r.Ok? <==> input.name.Some? && input.email.Some? && input.message.Some?
    ensures r.Ok? ==> r.value == ContactCols(input.name.value, input.email.value, input.subject,
                                             input.message.value, false)
    ensures r.Err? ==> r.error.NotNull?
    ensures input.name.None? ==> r == Err(NotNull("contacts.name"))
    ensures input.name.Some? && input.email.None? ==> r == Err(NotNull("contacts.email"))
    ensures input.name.Some? && input.email.Some? && input.message.None? ==> r == Err(NotNull("contacts.message"))
  {
    if input.name.None? then Err(NotNull("contacts.name"))
    else if input.email.None? then Err(NotNull("contacts.email"))
    else if input.message.None? then Err(NotNull("contacts.message"))
    else Ok(ContactCols(input.name.value, input.email.value, input.subject, input.message.value, false))
  }
}
