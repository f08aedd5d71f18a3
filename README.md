# Blog CMS content lifecycle, modelled in Dafny

This project models the core of a blog content-management backend and of its post
editor form. The backend is a Spring service written in Java; the form is a React page.

- **Slugs.** A title or category name is lower-cased and normalised into a base slug by
  four regular-expression passes. The generator then tries the base, `base-1`,
  `base-2`, … until a candidate is not stored yet.
- **Posts.** `PostService` creates, updates and deletes posts. Only a post's author may
  change or delete it. An update overwrites some fields and leaves others alone. The
  publication stamp is set at most once, the first time a post is saved as PUBLISHED.
- **Listings.** The post repository's queries return only PUBLISHED posts, filtered by a
  search term, a category or a tag, in non-increasing publication order.
- **Categories.** `CategoryService` keeps category names unique and gives each category a
  unique slug.
- **Controller.** `PostController` picks a listing from the query parameters and maps
  the service's outcomes to HTTP status codes.
- **Editor form.** `CreatePost` validates the form on the client and updates it through
  its change, category-toggle and tag handlers.

Files and modules:

| file | module | models |
|---|---|---|
| `wrappers.dfy` | `Wrappers` | `Option` and `Result` |
| `text.dfy` | `Text` | Java `toLowerCase` (ASCII), Java `trim` blankness, JavaScript `trim`, SQL `LIKE '%…%'` containment, decimal rendering of the slug counter and of ids |
| `model.dfy` | `Model` | the `Post` entity, `PostStatus`, the `User` and `Category` records, the entity's validation constraints |
| `dto.dfy` | `Dto` | `PostDTO` and its Bean Validation constraints |
| `tables.dfy` | `Tables` | a table as a map from generated id to row, read in id order |
| `slug.dfy` | `Slug` | `generateSlug`: one generator serving both services, which carry identical private copies |
| `post_repository.dfy` | `PostRepository` | the slug lookups and the JPQL listing queries as functions over the rows |
| `category_repository.dfy` | `CategoryRepository` | the slug and name lookups and the category search |
| `service.dfy` | `Service` | `updatePostFromDTO`, `convertToDTO`, and the classes `PostService` and `CategoryService`, whose fields are the stores |
| `post_controller.dfy` | `PostController` | the `/api/posts` endpoints |
| `create_post.dfy` | `CreatePost` | the editor form's state and handlers |
| `scenarios.dfy` | `Scenarios` | worked examples on fresh stores, pinned down by the contracts |

Design notes:

- **Store state.** Each service object owns its store. This is a `map<int, T>` plus the
  next identity value, which starts at 1.
- **Store invariants.** `Valid()` holds before and after every write:
  - every id is below the next one, and each row holds its own id;
  - post slugs are unique;
  - category names and slugs are unique;
  - every PUBLISHED post carries a publication stamp.
- **Writes.** Each write method states its complete new store. On a failure path the
  error message is exactly the source's text and the store is unchanged.
- **Collaborators as parameters.** The current time is a parameter (`now`). So are the
  user directory (`users`) and the set of category ids that resolve (`known`).
- **Listing order.** Listings are sorted by a stable insertion sort on the publication
  stamp. Sort and filter therefore commute, and every filtered listing is the full
  published listing with rows removed (`PostRepository.QueryIsFilteredListing`).
- **Category slug on update.** When a category is updated, its slug is recomputed against
  a slug set that still holds its own current slug. An update that keeps the name
  therefore moves the slug from `base` to `base-1`. The model keeps this behaviour as
  written; `Service.CategoryService.UpdateCategory` and
  `Scenarios.SameNameUpdateScenario` state it.
- **Empty base slug.** A title with no letter or digit has the empty base slug. The
  second such title gets `-1`, then `-2`, and so on (`Slug.EmptyBaseSuffix`,
  `Slug.GeneratedSlugShape`).
- **Form and backend disagree.** The form checks blankness with JavaScript `trim` and
  has no maximum title length. The backend uses Java `trim` and a 200-character maximum.
  Each accepts titles the other refuses (`CreatePost.LongTitlePassesForm`,
  `CreatePost.NoBreakSpaceTitle`, `CreatePost.ControlCharacterTitle`). On ASCII text, a
  title the backend accepts always passes the form
  (`CreatePost.AsciiBackendTitleImpliesForm`).

## Model

| member | source | states |
|---|---|---|
| Text.Lower | backend/src/main/java/com/blogcms/service/PostService.java:176 | lower-casing keeps the length and maps each character to its lower-case form |
| Text.JsTrimEmpty | frontend/src/pages/CreatePost.jsx:100 | `trim()` yields the empty string exactly when every character is JavaScript white space |
| Text.JsTrimEnds | frontend/src/pages/CreatePost.jsx:81 | a trimmed string has no white space at either end |
| Text.ContainsAt | backend/src/main/java/com/blogcms/repository/PostRepository.java:27-29 | `LIKE '%s%'` containment agrees with the positional definition of a substring |
| Text.Decimal | backend/src/main/java/com/blogcms/service/PostService.java:185 | the counter's decimal text is non-empty, all digits, with no leading zero |
| Text.ParseDecimalOfDecimal | backend/src/main/java/com/blogcms/service/PostService.java:185 | reading the decimal text back gives the counter (round trip) |
| Text.DecimalInjective | backend/src/main/java/com/blogcms/service/PostService.java:185 | different counters give different suffixes |
| Text.IntToString | backend/src/main/java/com/blogcms/service/PostService.java:49 | the rendered id begins with '-' exactly when it is negative |
| Tables.RowsMembership | backend/src/main/java/com/blogcms/service/PostService.java:41 | `findAll` lists exactly the stored rows |
| Slug.StripDisallowed | backend/src/main/java/com/blogcms/service/PostService.java:177 | only [a-z0-9], Java white space and '-' survive, and the text does not grow |
| Slug.StripKeepsKept | backend/src/main/java/com/blogcms/service/PostService.java:177 | every kept character survives the strip exactly as often as it occurs in the text, and no other character survives |
| Slug.BaseSlugWellFormed | backend/src/main/java/com/blogcms/service/PostService.java:176-180 | the base slug (`Slug.BaseSlug`, the four `replaceAll` passes) has only [a-z0-9-], no "--" and no '-' at either end; it may be empty |
| Slug.BaseSlugKeepsAlnums | backend/src/main/java/com/blogcms/service/PostService.java:176-180 | the base slug holds exactly the letters and digits of the lower-cased text, in order |
| Slug.BaseSlugOfTwoWords | backend/src/main/java/com/blogcms/service/PostService.java:176-180 | two words whose characters lower-case to letters or digits, separated by a space, become the lower-cased words joined by a single '-' |
| Slug.BaseSlugIgnoresDropped | backend/src/main/java/com/blogcms/service/PostService.java:177 | inserting characters the first pass deletes anywhere leaves the base slug unchanged |
| Slug.WellFormedIsFixpoint | backend/src/main/java/com/blogcms/service/PostService.java:176-180 | a well-formed slug normalises to itself |
| Slug.BaseSlugIdempotent | backend/src/main/java/com/blogcms/service/PostService.java:176-180 | normalising twice gives the same result as normalising once |
| Slug.CandidateInjective | backend/src/main/java/com/blogcms/service/PostService.java:185 | different counters never produce the same candidate |
| Slug.FirstFreeUnique | backend/src/main/java/com/blogcms/service/PostService.java:182-188 | the first free candidate is unique |
| Slug.GenerateSlug | backend/src/main/java/com/blogcms/service/PostService.java:175-189 | the result is not an existing slug; it is the base if the base is free, else the base plus "-k" for the smallest free k ≥ 1 |
| Slug.CandidateWellFormed | backend/src/main/java/com/blogcms/service/PostService.java:185 | a suffixed candidate is well formed exactly when the base is non-empty |
| Slug.GeneratedSlugShape | backend/src/main/java/com/blogcms/service/CategoryService.java:71-85 | the generated slug is well formed exactly when the base is non-empty or the empty slug is free |
| Slug.EmptyBaseSuffix | backend/src/main/java/com/blogcms/service/CategoryService.java:78-84 | once the empty slug is taken, a text with an empty base gets '-' followed by a counter k ≥ 1 |
| PostRepository.FindBySlug | backend/src/main/java/com/blogcms/repository/PostRepository.java:15 | a post is found exactly when some row has the slug, and the one found has it |
| PostRepository.ExistsBySlugIffFound | backend/src/main/java/com/blogcms/repository/PostRepository.java:15-17 | `existsBySlug` holds exactly when `findBySlug` finds a post, i.e. when some row has the slug |
| PostRepository.PublishedCount | backend/src/main/java/com/blogcms/repository/PostRepository.java:23 | the status filter keeps every PUBLISHED row as often as stored, and nothing else |
| PostRepository.KeepCount | backend/src/main/java/com/blogcms/repository/PostRepository.java:26-37 | a criterion filter keeps every matching row as often as stored, and nothing else |
| PostRepository.SortByPublishedDesc | backend/src/main/java/com/blogcms/repository/PostRepository.java:23 | `ORDER BY publishedAt DESC` is a permutation into non-increasing stamp order |
| PostRepository.SortKeepCommute | backend/src/main/java/com/blogcms/repository/PostRepository.java:23-37 | filtering then sorting equals sorting then filtering |
| PostRepository.Query | backend/src/main/java/com/blogcms/repository/PostRepository.java:23-37 | a listing holds the published matching rows, each as often as stored, sorted |
| PostRepository.FindAllPublishedPosts | backend/src/main/java/com/blogcms/repository/PostRepository.java:23-24 | exactly the PUBLISHED rows, in non-increasing `publishedAt` order |
| PostRepository.SearchPublishedPosts | backend/src/main/java/com/blogcms/repository/PostRepository.java:26-31 | the PUBLISHED rows whose lower-cased title, content or non-null excerpt contains the lower-cased term, sorted |
| PostRepository.FindPublishedPostsByCategory | backend/src/main/java/com/blogcms/repository/PostRepository.java:33-34 | the PUBLISHED rows in the category, sorted |
| PostRepository.FindPublishedPostsByTag | backend/src/main/java/com/blogcms/repository/PostRepository.java:36-37 | the PUBLISHED rows carrying exactly the tag, sorted |
| PostRepository.QueryIsFilteredListing | backend/src/main/java/com/blogcms/repository/PostRepository.java:23-37 | every filtered listing is the full published listing with rows removed, order kept |
| PostRepository.FindAllTags | backend/src/main/java/com/blogcms/repository/PostRepository.java:39-40 | exactly the union of the tag sets of the PUBLISHED rows, without duplicates |
| CategoryRepository.FindBySlug | backend/src/main/java/com/blogcms/repository/CategoryRepository.java:14 | a category is found exactly when some row has the slug, and the one found has it |
| CategoryRepository.FindByName | backend/src/main/java/com/blogcms/repository/CategoryRepository.java:16 | a category is found exactly when some row has the name, and the one found has it |
| CategoryRepository.ExistsBySlugIffFound | backend/src/main/java/com/blogcms/repository/CategoryRepository.java:14-18 | `existsBySlug` holds exactly when some row has the slug |
| CategoryRepository.ExistsByNameIffFound | backend/src/main/java/com/blogcms/repository/CategoryRepository.java:16-20 | `existsByName` holds exactly when some row has exactly that name |
| CategoryRepository.SearchCategories | backend/src/main/java/com/blogcms/repository/CategoryRepository.java:22-24 | the rows whose lower-cased name or non-null description contains the term, as often as stored; never more rows than stored |
| Service.UpdatePostFromDTO | backend/src/main/java/com/blogcms/service/PostService.java:135-153 | the setters and the category-resolving loop yield exactly the partial update `ApplyDTO` |
| Service.ApplyDTORules | backend/src/main/java/com/blogcms/service/PostService.java:136-152 | for `Service.ApplyDTO` (`updatePostFromDTO`): title, content, excerpt and image are overwritten; a null status gives DRAFT; null categories or tags are kept; given categories become exactly the ids that resolve; no other field changes |
| Service.ValidRequestGivesValidRow | backend/src/main/java/com/blogcms/model/Post.java:28-36 | a request passing the DTO constraints yields a row meeting the entity constraints, on create and on update |
| Service.CreatedPostDefaults | backend/src/main/java/com/blogcms/service/PostService.java:87-101 | a post built by `Service.Created` (the new row of `createPost`) has the requested status or DRAFT, a stamp exactly when PUBLISHED, view count 0, the resolved author, and empty categories and tags unless supplied |
| Service.PublishOnce | backend/src/main/java/com/blogcms/service/PostService.java:115-117 | an existing stamp is never changed or cleared; a missing one is set to now exactly when PUBLISHED is requested |
| Service.UpdateKeepsIdentity | backend/src/main/java/com/blogcms/service/PostService.java:113-120 | a post rewritten by `Service.Updated` (the row `updatePost` saves) keeps id, slug, author, creation stamp and view count, and refreshes the update stamp |
| Service.ProjectionRoundTrip | backend/src/main/java/com/blogcms/service/PostService.java:155-173 | applying a post's own projection `Service.ToDTO` (`convertToDTO`) back to it changes nothing |
| Service.UpdatedStamped | backend/src/main/java/com/blogcms/service/PostService.java:113-117 | after an update, a PUBLISHED post carries a stamp |
| Service.PostTableSlugs | backend/src/main/java/com/blogcms/service/PostService.java:184 | `existsBySlug` over the table is membership in the store's slug set |
| Service.ProjectMembership | backend/src/main/java/com/blogcms/service/PostService.java:34-36 | a projected listing holds exactly the projections of the listed rows |
| Service.ListingOfTable | backend/src/main/java/com/blogcms/service/PostService.java:60-79 | a listing query over the table projects exactly the stored published rows the criterion matches |
| Service.TagsOfTable | backend/src/main/java/com/blogcms/service/PostService.java:82-84 | the tags of published table rows are the tags of published stored posts |
| Service.PostService.GetAllPublishedPosts | backend/src/main/java/com/blogcms/service/PostService.java:32-37 | the projections of exactly the published posts |
| Service.PostService.GetAllPosts | backend/src/main/java/com/blogcms/service/PostService.java:39-44 | the projections of exactly the stored posts |
| Service.PostService.GetPostById | backend/src/main/java/com/blogcms/service/PostService.java:46-51 | found exactly when the id is stored; otherwise fails with "Post not found with id: " and the id |
| Service.PostService.GetPostBySlug | backend/src/main/java/com/blogcms/service/PostService.java:53-58 | found exactly when some stored post has the slug; otherwise fails with "Post not found with slug: " and the slug |
| Service.PostService.SearchPosts | backend/src/main/java/com/blogcms/service/PostService.java:60-65 | the projections of the published posts matching the term |
| Service.PostService.GetPostsByCategory | backend/src/main/java/com/blogcms/service/PostService.java:67-72 | the projections of the published posts in the category |
| Service.PostService.GetPostsByTag | backend/src/main/java/com/blogcms/service/PostService.java:74-79 | the projections of the published posts with the tag |
| Service.PostService.GetAllTags | backend/src/main/java/com/blogcms/service/PostService.java:81-84 | every tag of some published post, each once |
| Service.PostService.CreatePost | backend/src/main/java/com/blogcms/service/PostService.java:86-102 | an unknown user fails with "User not found" and no change; otherwise exactly one new post under a fresh id, with the first free slug of its title and the resolved author, whose username is the caller's; the store invariant is kept |
| Service.PostService.UpdatePost | backend/src/main/java/com/blogcms/service/PostService.java:104-121 | a missing id or a caller who is not the author fails with the source's message and no change; otherwise only that post changes, to the update of it |
| Service.PostService.DeletePost | backend/src/main/java/com/blogcms/service/PostService.java:123-133 | a missing id or a caller who is not the author fails with no change; otherwise exactly that post is removed |
| Service.CategoryTableLookups | backend/src/main/java/com/blogcms/service/CategoryService.java:41 | `existsByName` and `existsBySlug` over the table are membership in the store's name and slug sets |
| Service.CategoryService.GetAllCategories | backend/src/main/java/com/blogcms/service/CategoryService.java:17-20 | exactly the stored categories |
| Service.CategoryService.GetCategoryById | backend/src/main/java/com/blogcms/service/CategoryService.java:22-26 | found exactly when the id is stored; otherwise fails with "Category not found with id: " and the id |
| Service.CategoryService.GetCategoryBySlug | backend/src/main/java/com/blogcms/service/CategoryService.java:28-32 | found exactly when some stored category has the slug |
| Service.CategoryService.SearchCategories | backend/src/main/java/com/blogcms/service/CategoryService.java:34-37 | exactly the stored categories matching the term |
| Service.CategoryService.CreateCategory | backend/src/main/java/com/blogcms/service/CategoryService.java:39-47 | a name in use fails with no change; otherwise one new category with the first free slug of its name; names and slugs stay unique |
| Service.CategoryService.UpdateCategory | backend/src/main/java/com/blogcms/service/CategoryService.java:49-63 | a missing id fails; a rename to another category's name fails with no change; otherwise name and description are overwritten, the slug is the first free one counting its own old slug, so it always differs from the old one |
| Service.CategoryService.DeleteCategory | backend/src/main/java/com/blogcms/service/CategoryService.java:65-69 | a missing id fails with no change; otherwise exactly that category is removed |
| PostController.Selected | backend/src/main/java/com/blogcms/controller/PostController.java:30-38 | the first present parameter wins: non-empty search, then category id, then non-empty tag, else everything |
| PostController.GetAllPostsListing | backend/src/main/java/com/blogcms/controller/PostController.java:24-41 | the listing endpoint `PostController.GetAllPosts` answers 200 with the projections of exactly the published posts the selected criterion matches, sorted |
| PostController.SearchWins | backend/src/main/java/com/blogcms/controller/PostController.java:30-33 | with a non-empty search, category and tag are ignored and the result is the search-only result |
| PostController.CategoryWinsOverTag | backend/src/main/java/com/blogcms/controller/PostController.java:32-35 | without a search, a category id wins over a tag |
| PostController.EmptyParametersAreAbsent | backend/src/main/java/com/blogcms/controller/PostController.java:30-34 | an empty search or tag parameter counts as absent |
| PostController.GetPostById | backend/src/main/java/com/blogcms/controller/PostController.java:43-51 | 200 with the post exactly when the id is stored, else 404 with no body |
| PostController.GetPostBySlug | backend/src/main/java/com/blogcms/controller/PostController.java:53-61 | 200 exactly when some stored post has the slug, with the projection of that stored post as the body; else 404 with no body |
| PostController.GetAllTags | backend/src/main/java/com/blogcms/controller/PostController.java:63-66 | 200 with exactly the tags of published posts |
| PostController.CreatePost | backend/src/main/java/com/blogcms/controller/PostController.java:68-83 | invalid body gives 400; no authentication gives 401 with no change; a service failure gives 400 with its message; success gives 201 with the new post, owned by the authenticated user |
| PostController.UpdatePost | backend/src/main/java/com/blogcms/controller/PostController.java:85-102 | invalid body gives 400; no authentication gives 401; a missing post or a non-author caller gives 403 with the message and no change; success gives 200 |
| PostController.DeletePost | backend/src/main/java/com/blogcms/controller/PostController.java:104-119 | no authentication gives 401; a missing post or a non-author caller gives 403 and no change; success gives 200 with "Post deleted successfully" and the post gone |
| Scenarios.TechNewsSameBase | backend/src/main/java/com/blogcms/service/CategoryService.java:72-76 | "Tech News!!" and "Tech News" have the same base slug |
| Scenarios.TechNewsWords | backend/src/main/java/com/blogcms/service/CategoryService.java:72-76 | "Tech News" is the words "Tech" and "News", which lower-case to "tech" and "news" |
| Scenarios.FirstFreeOfBase | backend/src/main/java/com/blogcms/service/CategoryService.java:78-84 | a free base is the slug; when only the base is taken, base-1 is |
| Scenarios.CreateDraftScenario | backend/src/main/java/com/blogcms/service/PostService.java:87-101 | for any valid title and content, a first DRAFT post gets the base slug of its title and no stamp |
| Scenarios.PublishOnceScenario | backend/src/main/java/com/blogcms/service/PostService.java:113-117 | for any valid post, DRAFT → PUBLISHED at 200 → PUBLISHED at 300 leaves the stamp at 200 |
| Scenarios.OwnershipScenario | backend/src/main/java/com/blogcms/controller/PostController.java:104-119 | another user's delete gets 403 and an anonymous one 401, both keeping the post; the author's delete gets 200 and removes it |
| Scenarios.CategorySlugScenario | backend/src/main/java/com/blogcms/service/CategoryService.java:39-47 | a first category gets its base slug; a second, differently named one with the same base (such as "Tech News!!" after "Tech News") gets the base plus "-1" |
| Scenarios.TwoWordCategories | backend/src/main/java/com/blogcms/service/CategoryService.java:39-47 | for two words (such as "Tech" and "News"), the category "a b" gets the slug "a-b" lower-cased and a later "a b!!" gets that slug plus "-1" |
| Scenarios.SampleRequestValid | backend/src/main/java/com/blogcms/model/Post.java:28-36 | a sample title and content meet the entity constraints the post runs ask for |
| Scenarios.DuplicateNameScenario | backend/src/main/java/com/blogcms/service/CategoryService.java:40-42 | a second category with a name already in use is refused with "Category with this name already exists" |
| Scenarios.SameNameUpdateScenario | backend/src/main/java/com/blogcms/service/CategoryService.java:58-60 | for any name, an update that keeps it moves the slug from the base to the base plus "-1" |
| CreatePost.Without | frontend/src/pages/CreatePost.jsx:93 | `filter(y => y !== x)` removes every occurrence of x and keeps every other value as often as before |
| CreatePost.WithoutAppend | frontend/src/pages/CreatePost.jsx:93 | the filter preserves order: it distributes over concatenation |
| CreatePost.HandleChange | frontend/src/pages/CreatePost.jsx:63-70 | only the named field takes the new value; that field shows no error afterwards; other errors are untouched |
| CreatePost.HandleCategoryChange | frontend/src/pages/CreatePost.jsx:72-78 | membership of the id flips; an absent id is appended at the end; other ids are unchanged |
| CreatePost.ToggleTwice | frontend/src/pages/CreatePost.jsx:72-78 | ticking an unticked category and unticking it again restores the form |
| CreatePost.HandleAddTag | frontend/src/pages/CreatePost.jsx:80-88 | the trimmed input is appended and the input cleared only when it is non-empty and not listed; otherwise nothing changes |
| CreatePost.AddTagKeepsDistinct | frontend/src/pages/CreatePost.jsx:80-88 | the tag list stays free of duplicates |
| CreatePost.AddedTagTrimmed | frontend/src/pages/CreatePost.jsx:81-84 | an added tag is non-empty and has no white space at either end |
| CreatePost.HandleRemoveTag | frontend/src/pages/CreatePost.jsx:90-95 | exactly the occurrences of the tag are removed; other tags keep their counts |
| CreatePost.AddThenRemove | frontend/src/pages/CreatePost.jsx:80-95 | removing a tag just added restores the form |
| CreatePost.ValidateForm | frontend/src/pages/CreatePost.jsx:97-113 | an error entry for title and for content exactly when that field fails: "… is required" when blank after trim, else the minimum-length message |
| CreatePost.ValidateFormAccepts | frontend/src/pages/CreatePost.jsx:97-113 | the form has no error exactly when neither title nor content is white space only, the title has ≥ 5 characters and the content ≥ 10 |
| CreatePost.AsciiBackendTitleImpliesForm | frontend/src/pages/CreatePost.jsx:100-104 | on ASCII text, a title valid for the backend raises no title error |
| CreatePost.LongTitlePassesForm | frontend/src/pages/CreatePost.jsx:100-104 | a 201-character title passes the form but fails the backend's 200 limit |
| CreatePost.NoBreakSpaceTitle | frontend/src/pages/CreatePost.jsx:100 | five no-break spaces: "Title is required" on the form, yet valid for the backend |
| CreatePost.ControlCharacterTitle | frontend/src/pages/CreatePost.jsx:100 | five U+0001 characters pass the form, yet are blank for the backend |
| CreatePost.HandleSubmit | frontend/src/pages/CreatePost.jsx:115-133 | with any validation error the errors are shown and no request is made; otherwise a create, or an update when editing |
| CreatePost.SubmitSendsOnlyValidForms | frontend/src/pages/CreatePost.jsx:118-122 | a request is sent only for a form passing the title and content checks |

## Left out

- Text.Lower: lower-cases ASCII letters only, while Java `toLowerCase` and SQL `LOWER` are Unicode-aware and Java's is locale-dependent. Three differences follow.
  - In slugs, a non-ASCII character that lower-cases to ASCII survives in Java but is stripped in the model: U+0130 'İ' gives 'i' plus a combining dot, and the Kelvin sign gives 'k'.
  - Under a Turkish or Azeri default locale Java lower-cases 'I' to U+0131 'ı', which the strip then drops; the model keeps 'i'.
  - In the post and category searches SQL `LOWER` folds non-ASCII letters too, so a search for "É" matches a title holding "é"; the model's match is case-sensitive outside ASCII.
- Text.Contains: reads `LIKE CONCAT('%', s, '%')` as plain substring containment. A '%' or '_' typed into the search term is a wildcard in the database.
- CategoryRepository.ExistsByNameIffFound: uses exact string equality. A case-insensitive database collation would also treat names differing in case as equal. Tag equality in the tag query is exact for the same reason.
- Transactions and concurrency: each operation runs alone. The check-then-insert race between two posts generating the same slug is not modelled.
- Time: every operation takes `now` as a parameter, and one operation uses a single instant. The source reads the clock separately for the creation, update and publication stamps.
- Integer widths: ids, view counts and the slug counter are unbounded. The Java `int` counter and `Long` ids could overflow.
- String lengths: `@Size` and the form's `length` count UTF-16 code units. The model counts characters, so the two differ for characters outside the Basic Multilingual Plane.
- PostRepository.SortByPublishedDesc: breaks ties by id order and places a null stamp last. The database does not fix either order; under the store invariant no PUBLISHED post lacks a stamp.
- PostRepository.FindAllTags: returns a set. The source returns a list whose order the database does not fix.
- Service.PostService.GetAllPosts: lists rows in id order. `findAll` does not fix an order.
- Null strings: title and content are plain strings. `@NotBlank` rejects null before any service call, and the form always sends strings.
- Service.UpdatePostFromDTO: a request whose category ids contain `null` makes `findById(null)` throw; the model's ids are integers, so that failure is not modelled.
- The user directory and the category store are parameters of the post operations: `users`, and `known`, the ids that resolve. The `UserRepository` source and the `User` entity are not part of this model. The directory is required to key each user by its own username, as `findByUsername` returns a user with that username. `User` keeps only id and username; `Category` keeps id, name, description and slug.
- A post's categories are held as category ids. The DTO projection of a post's categories is therefore the identity.
- Service.CategoryService.CreateCategory: always stores under a fresh id. An id sent in the request body would make the repository's save merge into an existing row instead.
- Service.CategoryService.DeleteCategory: does not touch posts that reference the deleted category. The join-table and foreign-key effects are database behaviour.
- Failures the source does not raise itself are not modelled: database errors and constraint violations at save.
- The security filter chain in front of the controller is not part of this model. The security configuration could refuse anonymous writes before the controller's own check runs.
- The 400 body Spring produces for a request failing `@Valid` is shown only as `ValidationErrors`; its field messages are not modelled.
- `AuthController`, `CategoryController` and the other pages and components of the frontend are not part of this model. They are wrappers over unshown authentication code, HTTP glue, and display and remote-call code.
- The editor form's data fetching, toasts, navigation and loading flag are left out: `fetchCategories`, `fetchPost` and the outcome of the API call in `handleSubmit`. So are the JSON conversion of the form's arrays into the DTO's sets and the rendering.
- CreatePost.HandleSubmit: treats edit mode as "a post id is present in the route". The route always supplies a non-empty id.
- View counts are never incremented anywhere in the modelled code, so the model only carries the field.
- JPA lazy loading, entity equality and the JSON projection that hides the author's other fields are left out. `convertToDTO` is modelled as the projection it builds field by field.
