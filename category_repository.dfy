/** CategoryRepository: derived lookups and the search query over the category rows. */
module CategoryRepository {
  import opened Wrappers
  import opened Text
  import opened Model

  /** `findBySlug`: the first row with that slug. */
  function FindBySlug(rows: seq<Category>, slug: string): (r: Option<Category>)
    ensures r.Some? <==> exists i :: 0 <= i < |rows| && rows[i].slug == slug
    ensures r.Some? ==> r.value in rows && r.value.slug == slug
  {
    if rows == [] then None
    else if rows[0].slug == slug then Some(rows[0])
    else FindBySlug(rows[1..], slug)
  }

  /** `findByName`: the first row with exactly that name. */
  function FindByName(rows: seq<Category>, name: string): (r: Option<Category>)
    ensures r.Some? <==> exists i :: 0 <= i < |rows| && rows[i].name == name
    ensures r.Some? ==> r.value in rows && r.value.name == name
  {
    if rows == [] then None
    else if rows[0].name == name then Some(rows[0])
    else FindByName(rows[1..], name)
  }

  /** `existsBySlug`. */
  predicate ExistsBySlug(rows: seq<Category>, slug: string) {
    rows != [] && (rows[0].slug == slug || ExistsBySlug(rows[1..], slug))
  }

  /** `existsByName`. */
  predicate ExistsByName(rows: seq<Category>, name: string) {
    rows != [] && (rows[0].name == name || ExistsByName(rows[1..], name))
  }

  /** `existsBySlug` holds exactly when some row has the slug, which `findBySlug` then finds. */
  lemma {:induction false} ExistsBySlugIffFound(rows: seq<Category>, slug: string)
    ensures ExistsBySlug(rows, slug) <==> FindBySlug(rows, slug).Some?
    ensures ExistsBySlug(rows, slug) <==> exists c :: c in rows && c.slug == slug
  {
    if rows != [] {
      ExistsBySlugIffFound(rows[1..], slug);
      assert rows == [rows[0]] + rows[1..];
    }
  }

  /** `existsByName` holds exactly when some row has the name, which `findByName` then finds. */
  lemma {:induction false} ExistsByNameIffFound(rows: seq<Category>, name: string)
    ensures ExistsByName(rows, name) <==> FindByName(rows, name).Some?
    ensures ExistsByName(rows, name) <==> exists c :: c in rows && c.name == name
  {
    if rows != [] {
      ExistsByNameIffFound(rows[1..], name);
      assert rows == [rows[0]] + rows[1..];
    }
  }

  /** Case-insensitive substring match on the name or on a non-null description. */
  predicate MatchesSearch(c: Category, search: string) {
    var t := Lower(search);
    Contains(Lower(c.name), t) || (c.description.Some? && Contains(Lower(c.description.value), t))
  }

  /** `searchCategories`: the matching rows, in table order. */
  function SearchCategories(rows: seq<Category>, search: string): (r: seq<Category>)
    ensures forall c :: multiset(r)[c] == if MatchesSearch(c, search) then multiset(rows)[c] else 0
    ensures forall c :: c in r <==> c in rows && MatchesSearch(c, search)
    ensures |r| <= |rows|
  {
    if rows == [] then []
    else
      var rest := SearchCategories(rows[1..], search);
      assert rows == [rows[0]] + rows[1..];
      var r := (if MatchesSearch(rows[0], search) then [rows[0]] else []) + rest;
      assert forall c :: c in r <==> c in multiset(r);
      assert forall c :: c in rows <==> c in multiset(rows);
      r
  }
}
