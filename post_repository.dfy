/**
 * PostRepository: the derived and JPQL queries, as functions over the rows of the post
 * table in table order. Results sorted `ORDER BY p.publishedAt DESC` are produced by a
 * stable sort, so rows with equal stamps stay in table order.
 */
module PostRepository {
  import opened Wrappers
  import opened Text
  import opened Model

  // ---------------------------------------------------------------- lookups by slug

  /** `findBySlug`: the first row with that slug. */
  function FindBySlug(rows: seq<Post>, slug: string): (r: Option<Post>)
    ensures r.Some? <==> exists i :: 0 <= i < |rows| && rows[i].slug == slug
    ensures r.Some? ==> r.value in rows && r.value.slug == slug
  {
    if rows == [] then None
    else if rows[0].slug == slug then Some(rows[0])
    else FindBySlug(rows[1..], slug)
  }

  /** `existsBySlug`. */
  predicate ExistsBySlug(rows: seq<Post>, slug: string)
  {
    rows != [] && (rows[0].slug == slug || ExistsBySlug(rows[1..], slug))
  }

  /** `existsBySlug` holds exactly when `findBySlug` finds a row. */
  lemma {:induction false} ExistsBySlugIffFound(rows: seq<Post>, slug: string)
    ensures ExistsBySlug(rows, slug) <==> FindBySlug(rows, slug).Some?
    ensures ExistsBySlug(rows, slug) <==> exists p :: p in rows && p.slug == slug
  {
    if rows != [] {
      ExistsBySlugIffFound(rows[1..], slug);
      assert rows == [rows[0]] + rows[1..];
    }
  }

  // ---------------------------------------------------------------- filters

  predicate IsPublished(p: Post) { p.status == PUBLISHED }

  /** The `WHERE` part the listing queries add to `p.status = 'PUBLISHED'`. */
  datatype Criterion = Everything | SearchTerm(term: string) | InCategory(categoryId: int) | WithTag(tag: string)

  /**
   * `LOWER(field) LIKE LOWER('%' + term + '%')` on title, content or excerpt. A null
   * excerpt makes its comparison unknown, which never selects a row.
   */
  predicate MatchesSearch(p: Post, term: string) {
    var t := Lower(term);
    Contains(Lower(p.title), t) || Contains(Lower(p.content), t)
    || (p.excerpt.Some? && Contains(Lower(p.excerpt.value), t))
  }

  predicate Matches(c: Criterion, p: Post) {
    match c
    case Everything => true
    case SearchTerm(term) => MatchesSearch(p, term)
    case InCategory(id) => id in p.categories
    case WithTag(tag) => tag in p.tags
  }

  /** The rows with status PUBLISHED, in table order. */
  function Published(rows: seq<Post>): seq<Post>
  {
    if rows == [] then []
    else (if IsPublished(rows[0]) then [rows[0]] else []) + Published(rows[1..])
  }

  /** The rows a criterion selects, in their order. */
  function Keep(rows: seq<Post>, c: Criterion): seq<Post>
  {
    if rows == [] then []
    else (if Matches(c, rows[0]) then [rows[0]] else []) + Keep(rows[1..], c)
  }

  lemma {:induction false} PublishedCount(rows: seq<Post>)
    ensures forall p :: multiset(Published(rows))[p] == if IsPublished(p) then multiset(rows)[p] else 0
  {
    if rows != [] {
      PublishedCount(rows[1..]);
      assert rows == [rows[0]] + rows[1..];
    }
  }

  lemma {:induction false} KeepCount(rows: seq<Post>, c: Criterion)
    ensures forall p :: multiset(Keep(rows, c))[p] == if Matches(c, p) then multiset(rows)[p] else 0
  {
    if rows != [] {
      KeepCount(rows[1..], c);
      assert rows == [rows[0]] + rows[1..];
    }
  }

  lemma {:induction false} KeepEverything(rows: seq<Post>)
    ensures Keep(rows, Everything) == rows
  {
    if rows != [] {
      KeepEverything(rows[1..]);
    }
  }

  // ---------------------------------------------------------------- ORDER BY p.publishedAt DESC

  /** The sort key; a missing stamp ranks below every stamp. */
  function Rank(p: Post): int {
    match p.publishedAt
    case Some(t) => t
    case None => -1
  }

  predicate SortedDesc(s: seq<Post>) {
    forall i, j :: 0 <= i < j < |s| ==> Rank(s[i]) >= Rank(s[j])
  }

  /** Inserts `x` before the first row that does not rank above it. */
  function Insert(x: Post, s: seq<Post>): (r: seq<Post>)
    ensures multiset(r) == multiset(s) + multiset{x}
  {
    if s == [] then [x]
    else if Rank(s[0]) <= Rank(x) then [x] + s
    else
      assert s == [s[0]] + s[1..];
      [s[0]] + Insert(x, s[1..])
  }

  lemma SortedTail(s: seq<Post>)
    requires SortedDesc(s) && s != []
    ensures SortedDesc(s[1..])
    ensures forall z :: z in s[1..] ==> Rank(z) <= Rank(s[0])
  {
    forall i, j | 0 <= i < j < |s[1..]| ensures Rank(s[1..][i]) >= Rank(s[1..][j]) {
      assert s[1..][i] == s[i + 1] && s[1..][j] == s[j + 1];
    }
  }

  lemma SortedCons(y: Post, s: seq<Post>)
    requires SortedDesc(s)
    requires forall z :: z in s ==> Rank(z) <= Rank(y)
    ensures SortedDesc([y] + s)
  {
    forall i, j | 0 <= i < j < |[y] + s| ensures Rank(([y] + s)[i]) >= Rank(([y] + s)[j]) {
      assert ([y] + s)[j] == s[j - 1];
      if i > 0 {
        assert ([y] + s)[i] == s[i - 1];
      }
    }
  }

  /** Inserting into a sorted list keeps it sorted. */
  lemma {:induction false} InsertSorted(x: Post, s: seq<Post>)
    requires SortedDesc(s)
    ensures SortedDesc(Insert(x, s))
  {
    if s == [] {
    } else if Rank(s[0]) <= Rank(x) {
      SortedCons(x, s);
    } else {
      SortedTail(s);
      InsertSorted(x, s[1..]);
      var rest := Insert(x, s[1..]);
      forall z | z in rest ensures Rank(z) <= Rank(s[0]) {
        assert z in multiset(rest);
        assert z == x || z in multiset(s[1..]);
      }
      SortedCons(s[0], rest);
    }
  }

  /** A stable insertion sort by non-increasing publication stamp. */
  function SortByPublishedDesc(s: seq<Post>): (r: seq<Post>)
    ensures multiset(r) == multiset(s)
    ensures SortedDesc(r)
  {
    if s == [] then []
    else
      var rest := SortByPublishedDesc(s[1..]);
      InsertSorted(s[0], rest);
      assert s == [s[0]] + s[1..];
      Insert(s[0], rest)
  }

  /** `Insert` puts a row that ranks at least as high as all others at the front. */
  lemma InsertFront(x: Post, s: seq<Post>)
    requires forall z :: z in s ==> Rank(z) <= Rank(x)
    ensures Insert(x, s) == [x] + s
  {
  }

  /** Filtering out a row that is not selected commutes with inserting it. */
  lemma {:induction false} KeepInsertSkip(x: Post, s: seq<Post>, c: Criterion)
    requires !Matches(c, x)
    ensures Keep(Insert(x, s), c) == Keep(s, c)
  {
    if s == [] {
      assert Keep([x], c) == [] + Keep([], c);
    } else if Rank(s[0]) <= Rank(x) {
      assert ([x] + s)[1..] == s;
    } else {
      KeepInsertSkip(x, s[1..], c);
      var rest := Insert(x, s[1..]);
      assert ([s[0]] + rest)[1..] == rest;
    }
  }

  /** Every row a filter keeps from a sorted list ranks at most as high as its head. */
  lemma KeepBelowHead(s: seq<Post>, c: Criterion, x: Post)
    requires SortedDesc(s) && s != [] && Rank(s[0]) <= Rank(x)
    ensures forall z :: z in Keep(s, c) ==> Rank(z) <= Rank(x)
  {
    KeepCount(s, c);
    forall z | z in Keep(s, c) ensures Rank(z) <= Rank(x) {
      assert z in multiset(Keep(s, c));
      assert z in multiset(s);
      var k :| 0 <= k < |s| && s[k] == z;
      assert Rank(s[0]) >= Rank(s[k]);
    }
  }

  /** Filtering a sorted list commutes with inserting a selected row. */
  lemma {:induction false} KeepInsertTake(x: Post, s: seq<Post>, c: Criterion)
    requires Matches(c, x)
    requires SortedDesc(s)
    ensures Keep(Insert(x, s), c) == Insert(x, Keep(s, c))
  {
    if s == [] {
      assert Keep([x], c) == [x] + Keep([], c);
    } else if Rank(s[0]) <= Rank(x) {
      assert Insert(x, s) == [x] + s;
      assert ([x] + s)[1..] == s;
      assert Keep([x] + s, c) == [x] + Keep(s, c);
      KeepBelowHead(s, c, x);
      InsertFront(x, Keep(s, c));
    } else {
      var t := s[1..];
      SortedTail(s);
      KeepInsertTake(x, t, c);
      var rest := Insert(x, t);
      assert Insert(x, s) == [s[0]] + rest;
      assert ([s[0]] + rest)[1..] == rest;
      KeepInsertTakeStep(x, s, c, rest);
    }
  }

  /** The step of `KeepInsertTake` when the head of the list ranks above `x`. */
  lemma KeepInsertTakeStep(x: Post, s: seq<Post>, c: Criterion, rest: seq<Post>)
    requires s != [] && Rank(s[0]) > Rank(x)
    requires Keep(rest, c) == Insert(x, Keep(s[1..], c))
    ensures Keep([s[0]] + rest, c) == Insert(x, Keep(s, c))
  {
    var u := [s[0]] + rest;
    assert u[0] == s[0] && u[1..] == rest;
    var k := Keep(s[1..], c);
    if Matches(c, s[0]) {
      assert Keep(u, c) == [s[0]] + Keep(rest, c);
      assert Keep(s, c) == [s[0]] + k;
      var v := [s[0]] + k;
      assert v[0] == s[0] && v[1..] == k;
      assert Insert(x, v) == [s[0]] + Insert(x, k);
    } else {
      assert Keep(u, c) == Keep(rest, c);
      assert Keep(s, c) == k;
    }
  }

  /** Sorting and filtering commute: the sort is stable. */
  lemma {:induction false} SortKeepCommute(s: seq<Post>, c: Criterion)
    ensures SortByPublishedDesc(Keep(s, c)) == Keep(SortByPublishedDesc(s), c)
  {
    if s != [] {
      SortKeepCommute(s[1..], c);
      var sorted := SortByPublishedDesc(s[1..]);
      if Matches(c, s[0]) {
        assert Keep(s, c) == [s[0]] + Keep(s[1..], c);
        assert Keep(s, c)[1..] == Keep(s[1..], c);
        KeepInsertTake(s[0], sorted, c);
      } else {
        assert Keep(s, c) == Keep(s[1..], c);
        KeepInsertSkip(s[0], sorted, c);
      }
    }
  }

  // ---------------------------------------------------------------- the listing queries

  /**
   * A listing query: the published rows the criterion selects, each as often as in the
   * table, ordered by non-increasing publication stamp.
   */
  function Query(rows: seq<Post>, c: Criterion): (r: seq<Post>)
    ensures forall p :: multiset(r)[p] == if IsPublished(p) && Matches(c, p) then multiset(rows)[p] else 0
    ensures forall p :: p in r <==> p in rows && IsPublished(p) && Matches(c, p)
    ensures SortedDesc(r)
  {
    var r := SortByPublishedDesc(Keep(Published(rows), c));
    PublishedCount(rows);
    KeepCount(Published(rows), c);
    assert forall p :: p in r <==> p in multiset(r);
    assert forall p :: p in rows <==> p in multiset(rows);
    r
  }

  /** `findAllPublishedPosts`. */
  function FindAllPublishedPosts(rows: seq<Post>): (r: seq<Post>)
    ensures forall p :: p in r <==> p in rows && IsPublished(p)
    ensures forall p :: multiset(r)[p] == if IsPublished(p) then multiset(rows)[p] else 0
    ensures SortedDesc(r)
  {
    Query(rows, Everything)
  }

  /** `searchPublishedPosts`. */
  function SearchPublishedPosts(rows: seq<Post>, search: string): (r: seq<Post>)
    ensures forall p :: p in r <==> p in rows && IsPublished(p) && MatchesSearch(p, search)
    ensures SortedDesc(r)
  {
    Query(rows, SearchTerm(search))
  }

  /** `findPublishedPostsByCategory`. */
  function FindPublishedPostsByCategory(rows: seq<Post>, categoryId: int): (r: seq<Post>)
    ensures forall p :: p in r <==> p in rows && IsPublished(p) && categoryId in p.categories
    ensures SortedDesc(r)
  {
    Query(rows, InCategory(categoryId))
  }

  /** `findPublishedPostsByTag`: exact tag equality. */
  function FindPublishedPostsByTag(rows: seq<Post>, tag: string): (r: seq<Post>)
    ensures forall p :: p in r <==> p in rows && IsPublished(p) && tag in p.tags
    ensures SortedDesc(r)
  {
    Query(rows, WithTag(tag))
  }

  /**
   * Every filtered listing is the full published listing with the rows the criterion
   * does not select removed, in the same order.
   */
  lemma QueryIsFilteredListing(rows: seq<Post>, c: Criterion)
    ensures Query(rows, c) == Keep(FindAllPublishedPosts(rows), c)
  {
    KeepEverything(Published(rows));
    SortKeepCommute(Published(rows), c);
  }

  /** `findAllTags`: the distinct tags of the published rows (the order is unspecified). */
  function FindAllTags(rows: seq<Post>): (r: set<string>)
    ensures forall t :: t in r <==> exists i :: 0 <= i < |rows| && IsPublished(rows[i]) && t in rows[i].tags
  {
    if rows == [] then {}
    else
      var rest := FindAllTags(rows[1..]);
      assert forall i :: 1 <= i < |rows| ==> rows[i] == rows[1..][i - 1];
      (if IsPublished(rows[0]) then rows[0].tags else {}) + rest
  }
}
