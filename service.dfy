/**
 * The service layer: PostService and CategoryService as classes whose fields are the
 * stores their repositories persist (a map from generated id to row, and the next id
 * the identity column will hand out).
 */
module Service {
  import opened Wrappers
  import opened Text
  import opened Model
  import opened Dto
  import opened Tables
  import opened Slug
  import PostRepository
  import CategoryRepository

  // ================================================================ posts: pure parts

  /** A null status in the request becomes DRAFT. */
  function StatusOrDraft(s: Option<PostStatus>): PostStatus {
    if s.Some? then s.value else DRAFT
  }

  /**
   * What `updatePostFromDTO` leaves in the post: title, content, excerpt, featured image
   * and status are overwritten; categories and tags only when the request supplies them,
   * categories keeping only the ids the category store resolves (`known`).
   */
  function ApplyDTO(p: Post, dto: PostDTO, known: set<int>): Post {
    p.(title := dto.title, content := dto.content, excerpt := dto.excerpt,
       status := StatusOrDraft(dto.status), featuredImage := dto.featuredImage,
       categories := if dto.categoryIds.Some? then dto.categoryIds.value * known else p.categories,
       tags := if dto.tags.Some? then dto.tags.value else p.tags)
  }

  /** The publication stamp: set to `now` when PUBLISHED is requested and no stamp exists yet. */
  function StampIfPublished(p: Post, requested: Option<PostStatus>, now: Timestamp): Post {
    if requested == Some(PUBLISHED) && p.publishedAt.None? then p.(publishedAt := Some(now)) else p
  }

  /** The row `createPost` saves. */
  function Created(id: int, author: User, slug: string, dto: PostDTO, known: set<int>, now: Timestamp): Post {
    StampIfPublished(ApplyDTO(NewPost(id, author, slug, now), dto, known), dto.status, now)
  }

  /** The row `updatePost` saves; the update timestamp is refreshed on save. */
  function Updated(p: Post, dto: PostDTO, known: set<int>, now: Timestamp): Post {
    StampIfPublished(ApplyDTO(p, dto, known), dto.status, now).(updatedAt := now)
  }

  /** `convertToDTO`: the projection, exposing the author's id and username only. */
  function ToDTO(p: Post): PostDTO {
    PostDTO(Some(p.id), p.title, p.content, p.excerpt, Some(p.slug), Some(p.author.username),
            Some(p.author.id), Some(p.categories), Some(p.tags), Some(p.status), p.publishedAt,
            Some(p.viewCount), p.featuredImage, Some(p.createdAt), Some(p.updatedAt))
  }

  function Project(rows: seq<Post>): (r: seq<PostDTO>)
    ensures |r| == |rows| && forall i :: 0 <= i < |rows| ==> r[i] == ToDTO(rows[i])
  {
    seq(|rows|, i requires 0 <= i < |rows| => ToDTO(rows[i]))
  }

  lemma ProjectMembership(rows: seq<Post>, d: PostDTO)
    ensures d in Project(rows) <==> exists p :: p in rows && d == ToDTO(p)
  {
    if d in Project(rows) {
      var i :| 0 <= i < |rows| && Project(rows)[i] == d;
      assert rows[i] in rows;
    }
  }

  lemma NonEmptyHasElement(s: set<int>)
    requires s != {}
    ensures exists x :: x in s
  {
    if forall x :: x !in s {
      assert false;
    }
  }

  /**
   * `updatePostFromDTO`: the setters, then the loop that looks every requested category
   * id up and collects the ones found.
   */
  method UpdatePostFromDTO(p: Post, dto: PostDTO, known: set<int>) returns (q: Post)
    ensures q == ApplyDTO(p, dto, known)
  {
    q := p.(title := dto.title);
    q := q.(content := dto.content);
    q := q.(excerpt := dto.excerpt);
    q := q.(status := if dto.status.Some? then dto.status.value else DRAFT);
    q := q.(featuredImage := dto.featuredImage);
    if dto.categoryIds.Some? {
      var categories: set<int> := {};
      var requested: set<int> := dto.categoryIds.value;
      var pending: set<int> := requested;
      while pending != {}
        invariant pending <= requested
        invariant categories == (requested - pending) * known
        decreases pending
      {
        NonEmptyHasElement(pending);
        var categoryId: int :| categoryId in pending;
        if categoryId in known {
          categories := categories + {categoryId};
        }
        pending := pending - {categoryId};
      }
      q := q.(categories := categories);
    }
    if dto.tags.Some? {
      q := q.(tags := dto.tags.value);
    }
  }

  // ---------------------------------------------------------------- posts: properties of one write

  /** The partial-update rules of `updatePostFromDTO`, field by field. */
  lemma ApplyDTORules(p: Post, dto: PostDTO, known: set<int>)
    ensures var q := ApplyDTO(p, dto, known);
      && q.title == dto.title && q.content == dto.content && q.excerpt == dto.excerpt
      && q.featuredImage == dto.featuredImage
      && (dto.status.None? ==> q.status == DRAFT)
      && (dto.status.Some? ==> q.status == dto.status.value)
      && (dto.categoryIds.None? ==> q.categories == p.categories)
      && (dto.categoryIds.Some? ==> forall c :: c in q.categories <==> c in dto.categoryIds.value && c in known)
      && (dto.tags.None? ==> q.tags == p.tags)
      && (dto.tags.Some? ==> q.tags == dto.tags.value)
      && q.id == p.id && q.slug == p.slug && q.author == p.author && q.publishedAt == p.publishedAt
      && q.viewCount == p.viewCount && q.createdAt == p.createdAt && q.updatedAt == p.updatedAt
  {
  }

  /** A request that passes validation yields a row that meets the entity's constraints. */
  lemma ValidRequestGivesValidRow(p: Post, dto: PostDTO, known: set<int>, now: Timestamp)
    requires ValidPostDTO(dto)
    ensures SatisfiesConstraints(Updated(p, dto, known, now))
    ensures forall id, a, s :: SatisfiesConstraints(Created(id, a, s, dto, known, now))
  {
  }

  /**
   * A created row: the requested status or DRAFT, a stamp exactly when PUBLISHED,
   * view count 0, the resolved author and slug, and empty categories and tags unless
   * the request supplies them.
   */
  lemma CreatedPostDefaults(id: int, author: User, slug: string, dto: PostDTO, known: set<int>, now: Timestamp)
    ensures var p := Created(id, author, slug, dto, known, now);
      && p.status == StatusOrDraft(dto.status)
      && (p.publishedAt.Some? <==> p.status == PUBLISHED)
      && (p.publishedAt.Some? ==> p.publishedAt == Some(now))
      && p.viewCount == 0 && p.author == author && p.slug == slug && p.id == id
      && p.createdAt == now
      && p.tags == (if dto.tags.Some? then dto.tags.value else {})
      && p.categories == (if dto.categoryIds.Some? then dto.categoryIds.value * known else {})
  {
  }

  /**
   * Publish-once: an existing stamp is never changed or cleared, whatever the new status;
   * a missing one is set, to `now`, exactly when PUBLISHED is requested.
   */
  lemma PublishOnce(p: Post, dto: PostDTO, known: set<int>, now: Timestamp)
    ensures var q := Updated(p, dto, known, now);
      && (p.publishedAt.Some? ==> q.publishedAt == p.publishedAt)
      && (p.publishedAt.None? ==> (q.publishedAt.Some? <==> dto.status == Some(PUBLISHED)))
      && (p.publishedAt.None? && q.publishedAt.Some? ==> q.publishedAt == Some(now))
  {
  }

  /** An update never changes the id, slug, author, creation stamp or view count. */
  lemma UpdateKeepsIdentity(p: Post, dto: PostDTO, known: set<int>, now: Timestamp)
    ensures var q := Updated(p, dto, known, now);
      q.id == p.id && q.slug == p.slug && q.author == p.author && q.createdAt == p.createdAt
      && q.viewCount == p.viewCount && q.updatedAt == now
  {
  }

  /** Re-submitting the projection of a row changes none of its fields. */
  lemma ProjectionRoundTrip(p: Post, known: set<int>)
    requires p.categories <= known
    ensures ApplyDTO(p, ToDTO(p), known) == p
  {
    assert p.categories * known == p.categories;
  }

  // ---------------------------------------------------------------- posts: store invariants

  ghost predicate PostKeysValid(m: map<int, Post>, nextId: int) {
    nextId >= 1 && forall id :: id in m ==> 1 <= id < nextId && m[id].id == id
  }

  ghost predicate PostSlugsUnique(m: map<int, Post>) {
    forall i, j :: i in m && j in m && i != j ==> m[i].slug != m[j].slug
  }

  /** Every PUBLISHED row carries a publication stamp. */
  ghost predicate PublishedStamped(m: map<int, Post>) {
    forall id :: id in m && m[id].status == PUBLISHED ==> m[id].publishedAt.Some?
  }

  function PostSlugs(m: map<int, Post>): set<string> {
    set id | id in m :: m[id].slug
  }

  /** The stamp invariant survives every update. */
  lemma UpdatedStamped(p: Post, dto: PostDTO, known: set<int>, now: Timestamp)
    ensures var q := Updated(p, dto, known, now); q.status == PUBLISHED ==> q.publishedAt.Some?
  {
  }

  /** `existsBySlug` over the table is membership in the slug set of the store. */
  lemma PostTableSlugs(m: map<int, Post>, nextId: int, slug: string)
    requires PostKeysValid(m, nextId)
    ensures PostRepository.ExistsBySlug(Rows(m, 1, nextId), slug) <==> slug in PostSlugs(m)
  {
    PostRepository.ExistsBySlugIffFound(Rows(m, 1, nextId), slug);
    if slug in PostSlugs(m) {
      var id :| id in m && m[id].slug == slug;
      RowsMembership(m, 1, nextId, m[id]);
    }
    if PostRepository.ExistsBySlug(Rows(m, 1, nextId), slug) {
      var p :| p in Rows(m, 1, nextId) && p.slug == slug;
      RowsMembership(m, 1, nextId, p);
    }
  }

  /**
   * A listing query over the table holds exactly the projections of the stored rows
   * that are published and match the criterion.
   */
  lemma ListingOfTable(m: map<int, Post>, nextId: int, c: PostRepository.Criterion, d: PostDTO)
    requires PostKeysValid(m, nextId)
    ensures d in Project(PostRepository.Query(Rows(m, 1, nextId), c)) <==>
      exists id :: id in m && PostRepository.IsPublished(m[id]) && PostRepository.Matches(c, m[id]) && d == ToDTO(m[id])
  {
    var rows := PostRepository.Query(Rows(m, 1, nextId), c);
    ProjectMembership(rows, d);
    if d in Project(rows) {
      var p :| p in rows && d == ToDTO(p);
      RowsMembership(m, 1, nextId, p);
    }
    if exists id :: id in m && PostRepository.IsPublished(m[id]) && PostRepository.Matches(c, m[id]) && d == ToDTO(m[id]) {
      var id :| id in m && PostRepository.IsPublished(m[id]) && PostRepository.Matches(c, m[id]) && d == ToDTO(m[id]);
      RowsMembership(m, 1, nextId, m[id]);
    }
  }

  lemma TagsOfTable(m: map<int, Post>, nextId: int, t: string)
    requires PostKeysValid(m, nextId)
    ensures var rows := Rows(m, 1, nextId);
      (exists i :: 0 <= i < |rows| && PostRepository.IsPublished(rows[i]) && t in rows[i].tags) <==>
      exists id :: id in m && PostRepository.IsPublished(m[id]) && t in m[id].tags
  {
    var rows := Rows(m, 1, nextId);
    if exists i :: 0 <= i < |rows| && PostRepository.IsPublished(rows[i]) && t in rows[i].tags {
      var i :| 0 <= i < |rows| && PostRepository.IsPublished(rows[i]) && t in rows[i].tags;
      RowsMembership(m, 1, nextId, rows[i]);
    }
    if exists id :: id in m && PostRepository.IsPublished(m[id]) && t in m[id].tags {
      var id :| id in m && PostRepository.IsPublished(m[id]) && t in m[id].tags;
      RowsMembership(m, 1, nextId, m[id]);
      var i :| 0 <= i < |rows| && rows[i] == m[id];
    }
  }

  // ================================================================ PostService

  /** `findByUsername` finds a user by its own username: each entry is keyed by its username. */
  ghost predicate UserDirectory(users: map<string, User>) {
    forall u :: u in users ==> users[u].username == u
  }

  class PostService {
    var posts: map<int, Post>
    var nextId: int

    ghost predicate Valid()
      reads this
    {
      PostKeysValid(posts, nextId) && PostSlugsUnique(posts) && PublishedStamped(posts)
    }

    constructor ()
      ensures Valid() && posts == map[] && nextId == 1
    {
      posts := map[];
      nextId := 1;
    }

    /** The post table in id order. */
    function Table(): seq<Post>
      reads this
    {
      Rows(posts, 1, nextId)
    }

    // ---------------------------------------------------------- reads

    /** `getAllPublishedPosts`: the projections of exactly the published rows. */
    function GetAllPublishedPosts(): (r: seq<PostDTO>)
      requires Valid()
      reads this
      ensures forall d :: d in r <==>
        exists id :: id in posts && PostRepository.IsPublished(posts[id]) && d == ToDTO(posts[id])
    {
      forall d ensures d in Project(PostRepository.Query(Table(), PostRepository.Everything)) <==>
        exists id :: id in posts && PostRepository.IsPublished(posts[id]) && d == ToDTO(posts[id])
      {
        ListingOfTable(posts, nextId, PostRepository.Everything, d);
      }
      Project(PostRepository.FindAllPublishedPosts(Table()))
    }

    /** `getAllPosts`: one projection per stored row, in id order. */
    function GetAllPosts(): (r: seq<PostDTO>)
      requires Valid()
      reads this
      ensures forall d :: d in r <==> exists id :: id in posts && d == ToDTO(posts[id])
    {
      forall d ensures d in Project(Table()) <==> exists id :: id in posts && d == ToDTO(posts[id]) {
        ProjectMembership(Table(), d);
        if d in Project(Table()) {
          var p :| p in Table() && d == ToDTO(p);
          RowsMembership(posts, 1, nextId, p);
        }
        if exists id :: id in posts && d == ToDTO(posts[id]) {
          var id :| id in posts && d == ToDTO(posts[id]);
          RowsMembership(posts, 1, nextId, posts[id]);
        }
      }
      Project(Table())
    }

    /** `getPostById`: the projected row, or the not-found failure. */
    function GetPostById(id: int): (r: Result<PostDTO>)
      reads this
      ensures r.Ok? <==> id in posts
      ensures r.Ok? ==> r.value == ToDTO(posts[id])
      ensures r.Err? ==> r.error == "Post not found with id: " + IntToString(id)
    {
      if id in posts then Ok(ToDTO(posts[id])) else Err("Post not found with id: " + IntToString(id))
    }

    /** `getPostBySlug`: found exactly when some stored row has the slug. */
    function GetPostBySlug(slug: string): (r: Result<PostDTO>)
      requires Valid()
      reads this
      ensures r.Ok? <==> slug in PostSlugs(posts)
      ensures r.Ok? ==> exists id :: id in posts && posts[id].slug == slug && r.value == ToDTO(posts[id])
      ensures r.Err? ==> r.error == "Post not found with slug: " + slug
    {
      PostTableSlugs(posts, nextId, slug);
      PostRepository.ExistsBySlugIffFound(Table(), slug);
      match PostRepository.FindBySlug(Table(), slug)
      case Some(p) =>
        RowsMembership(posts, 1, nextId, p);
        Ok(ToDTO(p))
      case None => Err("Post not found with slug: " + slug)
    }

    /** `searchPosts`: the published rows whose title, content or excerpt contains the term. */
    function SearchPosts(search: string): (r: seq<PostDTO>)
      requires Valid()
      reads this
      ensures forall d :: d in r <==>
        exists id :: id in posts && PostRepository.IsPublished(posts[id]) && PostRepository.MatchesSearch(posts[id], search) && d == ToDTO(posts[id])
    {
      forall d ensures d in Project(PostRepository.Query(Table(), PostRepository.SearchTerm(search))) <==>
        exists id :: id in posts && PostRepository.IsPublished(posts[id]) && PostRepository.MatchesSearch(posts[id], search) && d == ToDTO(posts[id])
      {
        ListingOfTable(posts, nextId, PostRepository.SearchTerm(search), d);
      }
      Project(PostRepository.SearchPublishedPosts(Table(), search))
    }

    /** `getPostsByCategory`: the published rows in the category. */
    function GetPostsByCategory(categoryId: int): (r: seq<PostDTO>)
      requires Valid()
      reads this
      ensures forall d :: d in r <==>
        exists id :: id in posts && PostRepository.IsPublished(posts[id]) && categoryId in posts[id].categories && d == ToDTO(posts[id])
    {
      forall d ensures d in Project(PostRepository.Query(Table(), PostRepository.InCategory(categoryId))) <==>
        exists id :: id in posts && PostRepository.IsPublished(posts[id]) && categoryId in posts[id].categories && d == ToDTO(posts[id])
      {
        ListingOfTable(posts, nextId, PostRepository.InCategory(categoryId), d);
      }
      Project(PostRepository.FindPublishedPostsByCategory(Table(), categoryId))
    }

    /** `getPostsByTag`: the published rows carrying exactly the tag. */
    function GetPostsByTag(tag: string): (r: seq<PostDTO>)
      requires Valid()
      reads this
      ensures forall d :: d in r <==>
        exists id :: id in posts && PostRepository.IsPublished(posts[id]) && tag in posts[id].tags && d == ToDTO(posts[id])
    {
      forall d ensures d in Project(PostRepository.Query(Table(), PostRepository.WithTag(tag))) <==>
        exists id :: id in posts && PostRepository.IsPublished(posts[id]) && tag in posts[id].tags && d == ToDTO(posts[id])
      {
        ListingOfTable(posts, nextId, PostRepository.WithTag(tag), d);
      }
      Project(PostRepository.FindPublishedPostsByTag(Table(), tag))
    }

    /** `getAllTags`: every tag of some published row, each once. */
    function GetAllTags(): (r: set<string>)
      requires Valid()
      reads this
      ensures forall t :: t in r <==> exists id :: id in posts && PostRepository.IsPublished(posts[id]) && t in posts[id].tags
    {
      var rows := Table();
      forall t ensures t in PostRepository.FindAllTags(rows) <==>
        exists id :: id in posts && PostRepository.IsPublished(posts[id]) && t in posts[id].tags
      {
        TagsOfTable(posts, nextId, t);
      }
      PostRepository.FindAllTags(rows)
    }

    // ---------------------------------------------------------- writes

    /**
     * `createPost`: resolves the author, builds the row from the request, gives it the
     * first free slug derived from the title and saves it under a fresh id.
     */
    method CreatePost(dto: PostDTO, username: string, users: map<string, User>, known: set<int>, now: Timestamp)
      returns (r: Result<PostDTO>)
      requires Valid() && UserDirectory(users)
      modifies this
      ensures Valid()
      ensures username !in users ==>
        r == Err("User not found") && posts == old(posts) && nextId == old(nextId)
      ensures username in users ==>
        && old(nextId) !in old(posts) && old(nextId) in posts
        && nextId == old(nextId) + 1
        && var p := posts[old(nextId)];
        && posts == old(posts)[old(nextId) := p]
        && IsFirstFree(BaseSlug(dto.title), PostSlugs(old(posts)), p.slug)
        && p == Created(old(nextId), users[username], p.slug, dto, known, now)
        && p.author.username == username
        && r == Ok(ToDTO(p))
    {
      if username !in users {
        return Err("User not found");
      }
      var author := users[username];
      var post := NewPost(nextId, author, "", now);
      post := UpdatePostFromDTO(post, dto, known);
      post := post.(author := author);
      var slug := GenerateSlug(dto.title, PostSlugs(posts));
      post := post.(slug := slug);
      if dto.status == Some(PUBLISHED) && post.publishedAt.None? {
        post := post.(publishedAt := Some(now));
      }
      assert post == Created(nextId, author, slug, dto, known, now);
      assert slug !in PostSlugs(posts);
      posts := posts[nextId := post];
      nextId := nextId + 1;
      r := Ok(ToDTO(post));
    }

    /**
     * `updatePost`: only the author may update; the slug stays, the stamp is set at most
     * once.
     */
    method UpdatePost(id: int, dto: PostDTO, username: string, known: set<int>, now: Timestamp)
      returns (r: Result<PostDTO>)
      requires Valid()
      modifies this
      ensures Valid()
      ensures nextId == old(nextId)
      ensures id !in old(posts) ==> r == Err("Post not found") && posts == old(posts)
      ensures id in old(posts) && old(posts)[id].author.username != username ==>
        r == Err("You can only update your own posts") && posts == old(posts)
      ensures id in old(posts) && old(posts)[id].author.username == username ==>
        && posts == old(posts)[id := Updated(old(posts)[id], dto, known, now)]
        && r == Ok(ToDTO(posts[id]))
    {
      if id !in posts {
        return Err("Post not found");
      }
      var post := posts[id];
      if post.author.username != username {
        return Err("You can only update your own posts");
      }
      var old_post := post;
      post := UpdatePostFromDTO(post, dto, known);
      if dto.status == Some(PUBLISHED) && post.publishedAt.None? {
        post := post.(publishedAt := Some(now));
      }
      post := post.(updatedAt := now);
      assert post == Updated(old_post, dto, known, now);
      UpdatedStamped(old_post, dto, known, now);
      posts := posts[id := post];
      r := Ok(ToDTO(post));
    }

    /** `deletePost`: only the author may delete; the row goes and nothing else changes. */
    method DeletePost(id: int, username: string) returns (r: Result<()>)
      requires Valid()
      modifies this
      ensures Valid()
      ensures nextId == old(nextId)
      ensures id !in old(posts) ==> r == Err("Post not found") && posts == old(posts)
      ensures id in old(posts) && old(posts)[id].author.username != username ==>
        r == Err("You can only delete your own posts") && posts == old(posts)
      ensures id in old(posts) && old(posts)[id].author.username == username ==>
        r == Ok(()) && posts == old(posts) - {id}
    {
      if id !in posts {
        return Err("Post not found");
      }
      if posts[id].author.username != username {
        return Err("You can only delete your own posts");
      }
      posts := posts - {id};
      r := Ok(());
    }
  }

  // ================================================================ categories

  ghost predicate CategoryKeysValid(m: map<int, Category>, nextId: int) {
    nextId >= 1 && forall id :: id in m ==> 1 <= id < nextId && m[id].id == id
  }

  ghost predicate CategoryNamesUnique(m: map<int, Category>) {
    forall i, j :: i in m && j in m && i != j ==> m[i].name != m[j].name
  }

  ghost predicate CategorySlugsUnique(m: map<int, Category>) {
    forall i, j :: i in m && j in m && i != j ==> m[i].slug != m[j].slug
  }

  function CategorySlugs(m: map<int, Category>): set<string> {
    set id | id in m :: m[id].slug
  }

  function CategoryNames(m: map<int, Category>): set<string> {
    set id | id in m :: m[id].name
  }

  /** `existsBySlug` and `existsByName` over the table are membership in the store's sets. */
  lemma CategoryTableLookups(m: map<int, Category>, nextId: int, s: string)
    requires CategoryKeysValid(m, nextId)
    ensures CategoryRepository.ExistsBySlug(Rows(m, 1, nextId), s) <==> s in CategorySlugs(m)
    ensures CategoryRepository.ExistsByName(Rows(m, 1, nextId), s) <==> s in CategoryNames(m)
  {
    var rows := Rows(m, 1, nextId);
    CategoryRepository.ExistsBySlugIffFound(rows, s);
    CategoryRepository.ExistsByNameIffFound(rows, s);
    forall id | id in m ensures m[id] in rows {
      RowsMembership(m, 1, nextId, m[id]);
    }
    forall c | c in rows ensures exists id :: id in m && m[id] == c {
      RowsMembership(m, 1, nextId, c);
    }
  }

  /** The error `getCategoryById` throws. */
  function CategoryNotFound(id: int): string {
    "Category not found with id: " + IntToString(id)
  }

  const DuplicateName := "Category with this name already exists"

  // ================================================================ CategoryService

  class CategoryService {
    var categories: map<int, Category>
    var nextId: int

    ghost predicate Valid()
      reads this
    {
      CategoryKeysValid(categories, nextId) && CategoryNamesUnique(categories)
      && CategorySlugsUnique(categories)
    }

    constructor ()
      ensures Valid() && categories == map[] && nextId == 1
    {
      categories := map[];
      nextId := 1;
    }

    /** The category table in id order. */
    function Table(): seq<Category>
      reads this
    {
      Rows(categories, 1, nextId)
    }

    /** `getAllCategories`: every stored category, in id order. */
    function GetAllCategories(): (r: seq<Category>)
      requires Valid()
      reads this
      ensures forall c :: c in r <==> exists id :: id in categories && categories[id] == c
    {
      forall c ensures c in Table() <==> exists id :: id in categories && categories[id] == c {
        RowsMembership(categories, 1, nextId, c);
      }
      Table()
    }

    /** `getCategoryById`. */
    function GetCategoryById(id: int): (r: Result<Category>)
      reads this
      ensures r.Ok? <==> id in categories
      ensures r.Ok? ==> r.value == categories[id]
      ensures r.Err? ==> r.error == CategoryNotFound(id)
    {
      if id in categories then Ok(categories[id]) else Err(CategoryNotFound(id))
    }

    /** `getCategoryBySlug`: found exactly when some stored category has the slug. */
    function GetCategoryBySlug(slug: string): (r: Result<Category>)
      requires Valid()
      reads this
      ensures r.Ok? <==> slug in CategorySlugs(categories)
      ensures r.Ok? ==> r.value.slug == slug && r.value.id in categories && categories[r.value.id] == r.value
      ensures r.Err? ==> r.error == "Category not found with slug: " + slug
    {
      CategoryTableLookups(categories, nextId, slug);
      CategoryRepository.ExistsBySlugIffFound(Table(), slug);
      match CategoryRepository.FindBySlug(Table(), slug)
      case Some(c) =>
        RowsMembership(categories, 1, nextId, c);
        Ok(c)
      case None => Err("Category not found with slug: " + slug)
    }

    /** `searchCategories`: the stored categories whose name or description contains the term. */
    function SearchCategories(search: string): (r: seq<Category>)
      requires Valid()
      reads this
      ensures forall c :: c in r <==>
        exists id :: id in categories && categories[id] == c && CategoryRepository.MatchesSearch(c, search)
    {
      forall c ensures c in Table() <==> exists id :: id in categories && categories[id] == c {
        RowsMembership(categories, 1, nextId, c);
      }
      CategoryRepository.SearchCategories(Table(), search)
    }

    /**
     * `createCategory`: refuses a name already in use, otherwise saves the category
     * under a fresh id with the first free slug derived from the name.
     */
    method CreateCategory(name: string, description: Option<string>) returns (r: Result<Category>)
      requires Valid()
      modifies this
      ensures Valid()
      ensures name in CategoryNames(old(categories)) ==>
        r == Err(DuplicateName) && categories == old(categories) && nextId == old(nextId)
      ensures name !in CategoryNames(old(categories)) ==>
        && r.Ok? && nextId == old(nextId) + 1 && old(nextId) !in old(categories)
        && categories == old(categories)[old(nextId) := r.value]
        && r.value == Category(old(nextId), name, description, r.value.slug)
        && IsFirstFree(BaseSlug(name), CategorySlugs(old(categories)), r.value.slug)
    {
      CategoryTableLookups(categories, nextId, name);
      if CategoryRepository.ExistsByName(Table(), name) {
        return Err(DuplicateName);
      }
      var slug := GenerateSlug(name, CategorySlugs(categories));
      var category := Category(nextId, name, description, slug);
      categories := categories[nextId := category];
      nextId := nextId + 1;
      r := Ok(category);
    }

    /**
     * `updateCategory`: a rename to a name another category holds is refused (keeping
     * the current name skips the check); name and description are overwritten and the
     * slug is recomputed against all slugs, the category's own current one included.
     */
    method UpdateCategory(id: int, name: string, description: Option<string>) returns (r: Result<Category>)
      requires Valid()
      modifies this
      ensures Valid()
      ensures nextId == old(nextId)
      ensures id !in old(categories) ==> r == Err(CategoryNotFound(id)) && categories == old(categories)
      ensures id in old(categories) && old(categories)[id].name != name && name in CategoryNames(old(categories)) ==>
        r == Err(DuplicateName) && categories == old(categories)
      ensures id in old(categories) && (old(categories)[id].name == name || name !in CategoryNames(old(categories))) ==>
        && r.Ok? && categories == old(categories)[id := r.value]
        && r.value == Category(id, name, description, r.value.slug)
        && IsFirstFree(BaseSlug(name), CategorySlugs(old(categories)), r.value.slug)
        && r.value.slug != old(categories)[id].slug
    {
      var found := GetCategoryById(id);
      if found.Err? {
        return Err(found.error);
      }
      var category := found.value;
      CategoryTableLookups(categories, nextId, name);
      if category.name != name && CategoryRepository.ExistsByName(Table(), name) {
        return Err(DuplicateName);
      }
      var slug := GenerateSlug(name, CategorySlugs(categories));
      assert category.slug in CategorySlugs(categories);
      category := category.(name := name);
      category := category.(description := description);
      category := category.(slug := slug);
      categories := categories[id := category];
      r := Ok(category);
    }

    /** `deleteCategory`: removes exactly that category. */
    method DeleteCategory(id: int) returns (r: Result<()>)
      requires Valid()
      modifies this
      ensures Valid()
      ensures nextId == old(nextId)
      ensures id !in old(categories) ==> r == Err(CategoryNotFound(id)) && categories == old(categories)
      ensures id in old(categories) ==> r == Ok(()) && categories == old(categories) - {id}
    {
      var found := GetCategoryById(id);
      if found.Err? {
        return Err(found.error);
      }
      categories := categories - {id};
      r := Ok(());
    }
  }
}
