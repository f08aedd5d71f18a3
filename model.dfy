/**
 * The entities: Post with its status enum, and the two entities the post refers to,
 * User and Category, reduced to the fields the core reads.
 */
module Model {
  import opened Wrappers
  import opened Text

  /** Wall-clock instants, abstracted to a tick count. */
  type Timestamp = nat

  datatype PostStatus = DRAFT | PUBLISHED | ARCHIVED

  /** The author; only the id and the username are used by the core. */
  datatype User = User(id: int, username: string)

  /** A category row: a nullable description and a slug derived from the name. */
  datatype Category = Category(id: int, name: string, description: Option<string>, slug: string)

  /**
   * A post row. `categories` holds the ids of the categories joined to the post
   * (the many-to-many association); `tags` is the element collection.
   */
  datatype Post = Post(
    id: int,
    title: string,
    content: string,
    excerpt: Option<string>,
    slug: string,
    author: User,
    categories: set<int>,
    tags: set<string>,
    status: PostStatus,
    publishedAt: Option<Timestamp>,
    viewCount: int,
    featuredImage: Option<string>,
    createdAt: Timestamp,
    updatedAt: Timestamp)

  /**
   * `new Post()` with its field initialisers: no categories, no tags, status DRAFT,
   * no publication stamp, view count 0. Title and content start empty here; the service
   * overwrites both from the request before the row is saved. The id, author, slug and
   * creation stamps are the ones the service and the persistence layer assign on save.
   */
  function NewPost(id: int, author: User, slug: string, now: Timestamp): Post {
    Post(id, "", "", None, slug, author, {}, {}, DRAFT, None, 0, None, now, now)
  }

  /** `@NotBlank @Size(min = 5, max = 200)` on the title. */
  predicate ValidTitle(title: string) {
    !IsJavaBlank(title) && 5 <= |title| <= 200
  }

  /** `@NotBlank @Size(min = 10)` on the content. */
  predicate ValidContent(content: string) {
    !IsJavaBlank(content) && |content| >= 10
  }

  /** The bean-validation constraints declared on the entity. */
  predicate SatisfiesConstraints(p: Post) {
    ValidTitle(p.title) && ValidContent(p.content)
  }
}
