/**
 * PostController: the REST endpoints under /api/posts, as functions (reads) and methods
 * (writes) over a PostService, returning a status code and a body.
 */
module PostController {
  import opened Wrappers
  import opened Model
  import opened Dto
  import opened Slug
  import opened Service
  import PostRepository

  const OK := 200
  const CREATED := 201
  const BAD_REQUEST := 400
  const UNAUTHORIZED := 401
  const FORBIDDEN := 403
  const NOT_FOUND := 404

  /** The response bodies: a post, a list of posts, the tags, `{"error": …}`, `{"message": …}`. */
  datatype Body =
    | PostBody(post: PostDTO)
    | PostList(posts: seq<PostDTO>)
    | TagList(tags: set<string>)
    | ErrorBody(error: string)
    | MessageBody(message: string)
    | ValidationErrors
    | NoBody

  datatype Response = Response(status: int, body: Body)

  /** The security principal the framework passes in, when there is one. */
  datatype Authentication = Authentication(name: string, authenticated: bool)

  predicate IsAuthenticated(auth: Option<Authentication>) {
    auth.Some? && auth.value.authenticated
  }

  const NotAuthenticated := Response(UNAUTHORIZED, ErrorBody("User not authenticated"))

  // ---------------------------------------------------------------- GET /api/posts

  /**
   * Which listing the query parameters select: a non-empty search wins, then a category
   * id, then a non-empty tag; otherwise every published post.
   */
  function Selected(search: Option<string>, categoryId: Option<int>, tag: Option<string>): (c: PostRepository.Criterion)
    ensures search.Some? && search.value != "" ==> c == PostRepository.SearchTerm(search.value)
    ensures (search.None? || search.value == "") && categoryId.Some? ==> c == PostRepository.InCategory(categoryId.value)
    ensures (search.None? || search.value == "") && categoryId.None? && tag.Some? && tag.value != "" ==>
      c == PostRepository.WithTag(tag.value)
    ensures (search.None? || search.value == "") && categoryId.None? && (tag.None? || tag.value == "") ==>
      c == PostRepository.Everything
  {
    if search.Some? && search.value != "" then PostRepository.SearchTerm(search.value)
    else if categoryId.Some? then PostRepository.InCategory(categoryId.value)
    else if tag.Some? && tag.value != "" then PostRepository.WithTag(tag.value)
    else PostRepository.Everything
  }

  /** `getAllPosts`. */
  function GetAllPosts(svc: PostService, search: Option<string>, categoryId: Option<int>, tag: Option<string>): Response
    requires svc.Valid()
    reads svc
  {
    var posts :=
      if search.Some? && search.value != "" then svc.SearchPosts(search.value)
      else if categoryId.Some? then svc.GetPostsByCategory(categoryId.value)
      else if tag.Some? && tag.value != "" then svc.GetPostsByTag(tag.value)
      else svc.GetAllPublishedPosts();
    Response(OK, PostList(posts))
  }

  /**
   * The listing endpoint always answers 200 with the published posts the selected
   * criterion matches, projected, in non-increasing publication order.
   */
  lemma GetAllPostsListing(svc: PostService, search: Option<string>, categoryId: Option<int>, tag: Option<string>)
    requires svc.Valid()
    ensures var r := GetAllPosts(svc, search, categoryId, tag);
      var c := Selected(search, categoryId, tag);
      && r.status == OK
      && r.body == PostList(Project(PostRepository.Query(svc.Table(), c)))
      && forall d :: d in r.body.posts <==>
           exists id :: id in svc.posts && PostRepository.IsPublished(svc.posts[id])
                        && PostRepository.Matches(c, svc.posts[id]) && d == ToDTO(svc.posts[id])
  {
    var c := Selected(search, categoryId, tag);
    forall d ensures d in Project(PostRepository.Query(svc.Table(), c)) <==>
      exists id :: id in svc.posts && PostRepository.IsPublished(svc.posts[id])
                   && PostRepository.Matches(c, svc.posts[id]) && d == ToDTO(svc.posts[id])
    {
      ListingOfTable(svc.posts, svc.nextId, c, d);
    }
  }

  /** A non-empty search wins: category and tag are then ignored. */
  lemma SearchWins(svc: PostService, search: string, categoryId: Option<int>, tag: Option<string>)
    requires svc.Valid()
    requires search != ""
    ensures GetAllPosts(svc, Some(search), categoryId, tag) == GetAllPosts(svc, Some(search), None, None)
    ensures GetAllPosts(svc, Some(search), categoryId, tag) == Response(OK, PostList(svc.SearchPosts(search)))
  {
  }

  /** Without a search, a category id wins over a tag. */
  lemma CategoryWinsOverTag(svc: PostService, search: Option<string>, categoryId: int, tag: Option<string>)
    requires svc.Valid()
    requires search.None? || search.value == ""
    ensures GetAllPosts(svc, search, Some(categoryId), tag) == Response(OK, PostList(svc.GetPostsByCategory(categoryId)))
  {
  }

  /** An empty search or tag parameter counts as absent. */
  lemma EmptyParametersAreAbsent(svc: PostService, categoryId: Option<int>, tag: Option<string>)
    requires svc.Valid()
    ensures GetAllPosts(svc, Some(""), categoryId, tag) == GetAllPosts(svc, None, categoryId, tag)
    ensures GetAllPosts(svc, None, None, Some("")) == GetAllPosts(svc, None, None, None)
  {
  }

  // ---------------------------------------------------------------- GET by id, by slug, tags

  /** `getPostById`: 200 with the post, or 404 with no body. */
  function GetPostById(svc: PostService, id: int): (r: Response)
    reads svc
    ensures r.status == OK <==> id in svc.posts
    ensures r.status == OK ==> r.body == PostBody(ToDTO(svc.posts[id]))
    ensures r.status != OK ==> r == Response(NOT_FOUND, NoBody)
  {
    match svc.GetPostById(id)
    case Ok(post) => Response(OK, PostBody(post))
    case Err(_) => Response(NOT_FOUND, NoBody)
  }

  /** `getPostBySlug`: 200 with the post holding that slug, or 404 with no body. */
  function GetPostBySlug(svc: PostService, slug: string): (r: Response)
    requires svc.Valid()
    reads svc
    ensures r.status == OK <==> slug in PostSlugs(svc.posts)
    ensures r.status == OK ==> r.body.PostBody? && r.body.post.slug == Some(slug)
    ensures r.status == OK ==>
      exists id :: id in svc.posts && svc.posts[id].slug == slug && r.body == PostBody(ToDTO(svc.posts[id]))
    ensures r.status != OK ==> r == Response(NOT_FOUND, NoBody)
  {
    match svc.GetPostBySlug(slug)
    case Ok(post) => Response(OK, PostBody(post))
    case Err(_) => Response(NOT_FOUND, NoBody)
  }

  /** `getAllTags`. */
  function GetAllTags(svc: PostService): (r: Response)
    requires svc.Valid()
    reads svc
    ensures r.status == OK && r.body.TagList?
    ensures forall t :: t in r.body.tags <==>
      exists id :: id in svc.posts && PostRepository.IsPublished(svc.posts[id]) && t in svc.posts[id].tags
  {
    Response(OK, TagList(svc.GetAllTags()))
  }

  // ---------------------------------------------------------------- writes

  /**
   * `createPost`: a request failing validation is answered 400 before the handler runs;
   * an anonymous caller gets 401; a failure in the service becomes 400 with its
   * message; success is 201 with the saved post.
   */
  method CreatePost(svc: PostService, dto: PostDTO, auth: Option<Authentication>,
                    users: map<string, User>, known: set<int>, now: Timestamp)
    returns (resp: Response)
    requires svc.Valid() && UserDirectory(users)
    modifies svc
    ensures svc.Valid()
    ensures !ValidPostDTO(dto) ==> resp == Response(BAD_REQUEST, ValidationErrors) && svc.posts == old(svc.posts) && svc.nextId == old(svc.nextId)
    ensures ValidPostDTO(dto) && !IsAuthenticated(auth) ==> resp == NotAuthenticated && svc.posts == old(svc.posts) && svc.nextId == old(svc.nextId)
    ensures ValidPostDTO(dto) && IsAuthenticated(auth) && auth.value.name !in users ==>
      resp == Response(BAD_REQUEST, ErrorBody("User not found")) && svc.posts == old(svc.posts) && svc.nextId == old(svc.nextId)
    ensures ValidPostDTO(dto) && IsAuthenticated(auth) && auth.value.name in users ==>
      && svc.nextId == old(svc.nextId) + 1
      && old(svc.nextId) in svc.posts
      && var p := svc.posts[old(svc.nextId)];
      && svc.posts == old(svc.posts)[old(svc.nextId) := p]
      && IsFirstFree(BaseSlug(dto.title), PostSlugs(old(svc.posts)), p.slug)
      && p == Created(old(svc.nextId), users[auth.value.name], p.slug, dto, known, now)
      && p.author.username == auth.value.name
      && resp == Response(CREATED, PostBody(ToDTO(p)))
  {
    if !ValidPostDTO(dto) {
      return Response(BAD_REQUEST, ValidationErrors);
    }
    if !IsAuthenticated(auth) {
      return NotAuthenticated;
    }
    var result := svc.CreatePost(dto, auth.value.name, users, known, now);
    match result
    case Ok(created) => resp := Response(CREATED, PostBody(created));
    case Err(message) => resp := Response(BAD_REQUEST, ErrorBody(message));
  }

  /**
   * `updatePost`: 400 for an invalid request, 401 for an anonymous caller, 403 with the
   * service's message for a missing post or a caller who is not the author, 200 with
   * the saved post otherwise.
   */
  method UpdatePost(svc: PostService, id: int, dto: PostDTO, auth: Option<Authentication>,
                    known: set<int>, now: Timestamp)
    returns (resp: Response)
    requires svc.Valid()
    modifies svc
    ensures svc.Valid()
    ensures !ValidPostDTO(dto) ==> resp == Response(BAD_REQUEST, ValidationErrors) && svc.posts == old(svc.posts) && svc.nextId == old(svc.nextId)
    ensures ValidPostDTO(dto) && !IsAuthenticated(auth) ==> resp == NotAuthenticated && svc.posts == old(svc.posts) && svc.nextId == old(svc.nextId)
    ensures ValidPostDTO(dto) && IsAuthenticated(auth) && id !in old(svc.posts) ==>
      resp == Response(FORBIDDEN, ErrorBody("Post not found")) && svc.posts == old(svc.posts) && svc.nextId == old(svc.nextId)
    ensures ValidPostDTO(dto) && IsAuthenticated(auth) && id in old(svc.posts)
            && old(svc.posts)[id].author.username != auth.value.name ==>
      resp == Response(FORBIDDEN, ErrorBody("You can only update your own posts")) && svc.posts == old(svc.posts) && svc.nextId == old(svc.nextId)
    ensures ValidPostDTO(dto) && IsAuthenticated(auth) && id in old(svc.posts)
            && old(svc.posts)[id].author.username == auth.value.name ==>
      && svc.posts == old(svc.posts)[id := Updated(old(svc.posts)[id], dto, known, now)]
      && svc.nextId == old(svc.nextId)
      && resp == Response(OK, PostBody(ToDTO(svc.posts[id])))
  {
    if !ValidPostDTO(dto) {
      return Response(BAD_REQUEST, ValidationErrors);
    }
    if !IsAuthenticated(auth) {
      return NotAuthenticated;
    }
    var result := svc.UpdatePost(id, dto, auth.value.name, known, now);
    match result
    case Ok(updated) => resp := Response(OK, PostBody(updated));
    case Err(message) => resp := Response(FORBIDDEN, ErrorBody(message));
  }

  /**
   * `deletePost`: 401 for an anonymous caller, 403 with the service's message for a
   * missing post or a caller who is not the author, 200 with the success message
   * otherwise, the post then being gone.
   */
  method DeletePost(svc: PostService, id: int, auth: Option<Authentication>) returns (resp: Response)
    requires svc.Valid()
    modifies svc
    ensures svc.Valid()
    ensures !IsAuthenticated(auth) ==> resp == NotAuthenticated && svc.posts == old(svc.posts) && svc.nextId == old(svc.nextId)
    ensures IsAuthenticated(auth) && id !in old(svc.posts) ==>
      resp == Response(FORBIDDEN, ErrorBody("Post not found")) && svc.posts == old(svc.posts) && svc.nextId == old(svc.nextId)
    ensures IsAuthenticated(auth) && id in old(svc.posts) && old(svc.posts)[id].author.username != auth.value.name ==>
      resp == Response(FORBIDDEN, ErrorBody("You can only delete your own posts")) && svc.posts == old(svc.posts) && svc.nextId == old(svc.nextId)
    ensures IsAuthenticated(auth) && id in old(svc.posts) && old(svc.posts)[id].author.username == auth.value.name ==>
      && resp == Response(OK, MessageBody("Post deleted successfully"))
      && svc.posts == old(svc.posts) - {id} && svc.nextId == old(svc.nextId)
  {
    if !IsAuthenticated(auth) {
      return NotAuthenticated;
    }
    var result := svc.DeletePost(id, auth.value.name);
    match result
    case Ok(_) => resp := Response(OK, MessageBody("Post deleted successfully"));
    case Err(message) => resp := Response(FORBIDDEN, ErrorBody(message));
  }
}
