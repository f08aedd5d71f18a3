/**
 * PostDTO: the request body of the write endpoints and the projection the read
 * endpoints return. Every field may be absent (null); `None` in `categoryIds` or `tags`
 * means "not supplied". Title and content are typed as strings because the request
 * validation that precedes every service call rejects a null one.
 */
module Dto {
  import opened Wrappers
  import opened Model

  datatype PostDTO = PostDTO(
    id: Option<int>,
    title: string,
    content: string,
    excerpt: Option<string>,
    slug: Option<string>,
    authorUsername: Option<string>,
    authorId: Option<int>,
    categoryIds: Option<set<int>>,
    tags: Option<set<string>>,
    status: Option<PostStatus>,
    publishedAt: Option<Timestamp>,
    viewCount: Option<int>,
    featuredImage: Option<string>,
    createdAt: Option<Timestamp>,
    updatedAt: Option<Timestamp>)

  /**
   * The constraints `@Valid` checks: the title and content rules, shared with the entity.
   * No other field carries a constraint.
   */
  predicate ValidPostDTO(dto: PostDTO) {
    ValidTitle(dto.title) && ValidContent(dto.content)
  }

  /** A request body carrying only the fields a client sends. */
  function Request(title: string, content: string, status: Option<PostStatus>): PostDTO {
    PostDTO(None, title, content, None, None, None, None, None, None, status, None, None, None, None, None)
  }
}
