/**
 * Worked examples over the post endpoints and the category store, stated as methods and
 * lemmas on fresh stores and pinned down by the contracts of the modules they use.
 */
module Scenarios {
  import opened Wrappers
  import opened Text
  import opened Model
  import opened Dto
  import opened Slug
  import opened Service
  import opened PostController

  /** "Tech News!!" differs from "Tech News" only by characters the slug drops. */
  lemma TechNewsSameBase()
    ensures BaseSlug("Tech News!!") == BaseSlug("Tech News")
  {
    assert "Tech News" + "!!" + "" == "Tech News!!";
    assert "Tech News" + "" == "Tech News";
    BaseSlugIgnoresDropped("Tech News", "!!", "");
  }

  /** "Tech News" is two words, which lower-case to "tech" and "news". */
  lemma TechNewsWords()
    ensures "Tech News" == "Tech" + " " + "News"
    ensures Word("Tech") && Word("News") && Lower("Tech") == "tech" && Lower("News") == "news"
  {
  }

  /** When the base is free it is the slug; when only it is taken, base-1 is. */
  lemma FirstFreeOfBase(base: string, existing: set<string>, slug: string)
    requires IsFirstFree(base, existing, slug)
    ensures base !in existing ==> slug == base
    ensures base in existing && base + "-1" !in existing ==> slug == base + "-1"
  {
    if base !in existing {
      assert IsFirstFree(base, existing, Candidate(base, 0));
      FirstFreeUnique(base, existing, slug, base);
    } else if base + "-1" !in existing {
      assert Candidate(base, 1) == base + "-1" by { assert Decimal(1) == "1"; }
      assert forall j: nat :: j < 1 ==> Candidate(base, j) in existing;
      assert IsFirstFree(base, existing, Candidate(base, 1));
      FirstFreeUnique(base, existing, slug, base + "-1");
    }
  }

  const Users := map["alice" := User(1, "alice"), "bob" := User(2, "bob")]
  const Alice := Some(Authentication("alice", true))

  /** A sample request body that meets the constraints the runs below ask of theirs. */
  lemma SampleRequestValid()
    ensures ValidTitle("Hello World Today") && ValidContent("Some content here")
  {
    assert "Hello World Today"[0] == 'H' && "Some content here"[0] == 'S';
  }

  /** alice's first post gets the base slug of its title and, as a DRAFT, no stamp. */
  method CreateDraftScenario(title: string, content: string)
    returns (slug: string, status: PostStatus, publishedAt: Option<Timestamp>)
    requires ValidTitle(title) && ValidContent(content)
    ensures slug == BaseSlug(title) && status == DRAFT && publishedAt == None
  {
    var svc := new PostService();
    var draft := Request(title, content, Some(DRAFT));
    assert PostSlugs(svc.posts) == {};
    var r := CreatePost(svc, draft, Alice, Users, {}, 100);
    CreatedPostDefaults(1, Users["alice"], svc.posts[1].slug, draft, {}, 100);
    FirstFreeOfBase(BaseSlug(title), {}, svc.posts[1].slug);
    slug := svc.posts[1].slug;
    status := svc.posts[1].status;
    publishedAt := svc.posts[1].publishedAt;
  }

  /**
   * alice creates a DRAFT post, publishes it, and saves it as PUBLISHED again: the
   * stamp is set by the first publication and kept by the second.
   */
  method PublishOnceScenario(title: string, content: string)
    returns (afterCreate: Option<Timestamp>, afterPublish: Option<Timestamp>, afterRepublish: Option<Timestamp>)
    requires ValidTitle(title) && ValidContent(content)
    ensures afterCreate == None && afterPublish == Some(200) && afterRepublish == Some(200)
  {
    var svc := new PostService();
    var draft := Request(title, content, Some(DRAFT));
    var published := Request(title, content, Some(PUBLISHED));
    var r := CreatePost(svc, draft, Alice, Users, {}, 100);
    CreatedPostDefaults(1, Users["alice"], svc.posts[1].slug, draft, {}, 100);
    afterCreate := svc.posts[1].publishedAt;
    ghost var before := svc.posts[1];
    r := UpdatePost(svc, 1, published, Alice, {}, 200);
    PublishOnce(before, published, {}, 200);
    afterPublish := svc.posts[1].publishedAt;
    before := svc.posts[1];
    r := UpdatePost(svc, 1, published, Alice, {}, 300);
    PublishOnce(before, published, {}, 300);
    afterRepublish := svc.posts[1].publishedAt;
  }

  /**
   * bob's delete of alice's post is refused and an anonymous delete is refused, both
   * leaving the post in place; alice's own delete removes it.
   */
  method OwnershipScenario(title: string, content: string)
    returns (bobDelete: Response, keptAfterBob: bool, anonymousDelete: Response, keptAfterAnonymous: bool,
             aliceDelete: Response, keptAfterAlice: bool)
    requires ValidTitle(title) && ValidContent(content)
    ensures bobDelete == Response(FORBIDDEN, ErrorBody("You can only delete your own posts")) && keptAfterBob
    ensures anonymousDelete == Response(UNAUTHORIZED, ErrorBody("User not authenticated")) && keptAfterAnonymous
    ensures aliceDelete == Response(OK, MessageBody("Post deleted successfully")) && !keptAfterAlice
  {
    var svc := new PostService();
    var r := CreatePost(svc, Request(title, content, Some(PUBLISHED)), Alice, Users, {}, 100);
    bobDelete := DeletePost(svc, 1, Some(Authentication("bob", true)));
    keptAfterBob := 1 in svc.posts;
    anonymousDelete := DeletePost(svc, 1, None);
    keptAfterAnonymous := 1 in svc.posts;
    aliceDelete := DeletePost(svc, 1, Alice);
    keptAfterAlice := 1 in svc.posts;
  }

  /**
   * A first category gets its base slug; a second whose name normalises to the same base
   * (as "Tech News!!" does to that of "Tech News") gets the base with "-1" appended.
   */
  method CategorySlugScenario(name: string, variant: string) returns (first: string, second: string)
    requires name != variant && BaseSlug(variant) == BaseSlug(name)
    ensures first == BaseSlug(name) && second == first + "-1"
  {
    var svc := new CategoryService();
    var base := BaseSlug(name);
    var c1 := svc.CreateCategory(name, None);
    FirstFreeOfBase(base, {}, c1.value.slug);
    first := c1.value.slug;
    ghost var slugs := CategorySlugs(svc.categories);
    assert 1 in svc.categories && svc.categories[1].slug == base;
    assert base in slugs;
    assert base + "-1" !in slugs by {
      assert |base + "-1"| != |base|;
      forall id | id in svc.categories ensures svc.categories[id].slug != base + "-1" {
        assert id == 1;
      }
    }
    assert variant !in CategoryNames(svc.categories) by {
      forall id | id in svc.categories ensures svc.categories[id].name != variant {
        assert id == 1;
      }
    }
    var c2 := svc.CreateCategory(variant, None);
    FirstFreeOfBase(base, slugs, c2.value.slug);
    second := c2.value.slug;
  }

  /**
   * Two words such as "Tech" and "News": the category "Tech News" gets "tech-news" and a
   * later "Tech News!!" gets "tech-news-1".
   */
  method TwoWordCategories(a: string, b: string) returns (first: string, second: string)
    requires Word(a) && Word(b)
    ensures first == Lower(a) + "-" + Lower(b) && second == first + "-1"
  {
    var name := a + " " + b;
    var variant := name + "!!";
    assert name + "!!" + "" == variant && name + "" == name;
    assert AllDropped("!!");
    BaseSlugIgnoresDropped(name, "!!", "");
    BaseSlugOfTwoWords(a, b);
    assert |variant| != |name|;
    first, second := CategorySlugScenario(name, variant);
  }

  /** A second category with a name already in use is refused. */
  method DuplicateNameScenario(name: string, description: Option<string>) returns (duplicate: Result<Category>)
    ensures duplicate == Err("Category with this name already exists")
  {
    var svc := new CategoryService();
    var c1 := svc.CreateCategory(name, None);
    assert name in CategoryNames(svc.categories) by {
      assert svc.categories[1].name == name;
    }
    duplicate := svc.CreateCategory(name, description);
  }

  /**
   * Updating a category without renaming it still recomputes the slug against a set
   * holding its own, so the base slug becomes the base with "-1" appended.
   */
  method SameNameUpdateScenario(name: string, description: Option<string>) returns (before: string, after: string)
    ensures before == BaseSlug(name) && after == before + "-1"
  {
    var svc := new CategoryService();
    var base := BaseSlug(name);
    var c1 := svc.CreateCategory(name, None);
    FirstFreeOfBase(base, {}, c1.value.slug);
    before := c1.value.slug;
    ghost var slugs := CategorySlugs(svc.categories);
    assert 1 in svc.categories && svc.categories[1].slug == base;
    assert base in slugs;
    assert base + "-1" !in slugs by {
      assert |base + "-1"| != |base|;
      forall id | id in svc.categories ensures svc.categories[id].slug != base + "-1" {
        assert id == 1;
      }
    }
    var u := svc.UpdateCategory(1, name, description);
    FirstFreeOfBase(base, slugs, u.value.slug);
    after := u.value.slug;
  }
}
