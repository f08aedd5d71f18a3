/**
 * The post editor form: its state, the change handlers that build the next state, the
 * client-side validation and the gate in front of the create/update request.
 */
module CreatePost {
  import opened Wrappers
  import opened Text
  import Model

  /** The form fields; `status` is the select's string value. */
  datatype FormData = FormData(
    title: string,
    content: string,
    excerpt: string,
    status: string,
    categoryIds: seq<int>,
    tags: seq<string>,
    featuredImage: string)

  /** Field name to error message; a field whose message is "" shows no error. */
  type Errors = map<string, string>

  datatype FormState = FormState(form: FormData, tagInput: string, errors: Errors)

  const InitialForm := FormData("", "", "", "DRAFT", [], [], "")
  const InitialState := FormState(InitialForm, "", map[])

  // ---------------------------------------------------------------- list helpers

  /** `list.filter(y => y !== x)`. */
  function Without<T(==,!new)>(s: seq<T>, x: T): (r: seq<T>)
    ensures x !in r
    ensures forall y :: y != x ==> multiset(r)[y] == multiset(s)[y]
    ensures |r| == |s| - multiset(s)[x]
  {
    if s == [] then []
    else
      assert s == [s[0]] + s[1..];
      (if s[0] == x then [] else [s[0]]) + Without(s[1..], x)
  }

  /** Filtering keeps the order of what remains: it distributes over concatenation. */
  lemma {:induction false} WithoutAppend<T(!new)>(a: seq<T>, b: seq<T>, x: T)
    ensures Without(a + b, x) == Without(a, x) + Without(b, x)
  {
    if a == [] {
      assert a + b == b;
    } else {
      assert (a + b)[1..] == a[1..] + b;
      WithoutAppend(a[1..], b, x);
    }
  }

  lemma {:induction false} WithoutAbsent<T(!new)>(s: seq<T>, x: T)
    requires x !in s
    ensures Without(s, x) == s
  {
    if s != [] {
      WithoutAbsent(s[1..], x);
    }
  }

  predicate Distinct<T(==)>(s: seq<T>) {
    forall i, j :: 0 <= i < j < |s| ==> s[i] != s[j]
  }

  // ---------------------------------------------------------------- handleChange

  /** The inputs wired to `handleChange`, each named after its field. */
  datatype Field = Title | Content | Excerpt | Status | FeaturedImage

  function FieldName(f: Field): string {
    match f
    case Title => "title"
    case Content => "content"
    case Excerpt => "excerpt"
    case Status => "status"
    case FeaturedImage => "featuredImage"
  }

  function FieldValue(form: FormData, f: Field): string {
    match f
    case Title => form.title
    case Content => form.content
    case Excerpt => form.excerpt
    case Status => form.status
    case FeaturedImage => form.featuredImage
  }

  /** The error entry is set to a non-empty message. */
  predicate HasError(errors: Errors, name: string) {
    name in errors && errors[name] != ""
  }

  /**
   * `handleChange`: stores the value in the named field and, when that field shows an
   * error, blanks its message.
   */
  function HandleChange(st: FormState, f: Field, value: string): (r: FormState)
    ensures FieldValue(r.form, f) == value
    ensures forall g :: g != f ==> FieldValue(r.form, g) == FieldValue(st.form, g)
    ensures r.form.categoryIds == st.form.categoryIds && r.form.tags == st.form.tags
    ensures r.tagInput == st.tagInput
    ensures !HasError(r.errors, FieldName(f))
    ensures forall k :: k != FieldName(f) ==> (k in r.errors <==> k in st.errors)
    ensures forall k :: k != FieldName(f) && k in r.errors ==> r.errors[k] == st.errors[k]
  {
    var form := match f
      case Title => st.form.(title := value)
      case Content => st.form.(content := value)
      case Excerpt => st.form.(excerpt := value)
      case Status => st.form.(status := value)
      case FeaturedImage => st.form.(featuredImage := value);
    var name := FieldName(f);
    var errors := if HasError(st.errors, name) then st.errors[name := ""] else st.errors;
    st.(form := form, errors := errors)
  }

  // ---------------------------------------------------------------- categories

  /** `handleCategoryChange`: a ticked category is removed everywhere, an unticked one appended. */
  function HandleCategoryChange(st: FormState, categoryId: int): (r: FormState)
    ensures categoryId in r.form.categoryIds <==> categoryId !in st.form.categoryIds
    ensures categoryId !in st.form.categoryIds ==> r.form.categoryIds == st.form.categoryIds + [categoryId]
    ensures forall c :: c != categoryId ==> multiset(r.form.categoryIds)[c] == multiset(st.form.categoryIds)[c]
    ensures r.form == st.form.(categoryIds := r.form.categoryIds)
    ensures r.tagInput == st.tagInput && r.errors == st.errors
  {
    var ids := st.form.categoryIds;
    var next := if categoryId in ids then Without(ids, categoryId) else ids + [categoryId];
    st.(form := st.form.(categoryIds := next))
  }

  /** Ticking an unticked category and unticking it again restores the form. */
  lemma ToggleTwice(st: FormState, categoryId: int)
    requires categoryId !in st.form.categoryIds
    ensures HandleCategoryChange(HandleCategoryChange(st, categoryId), categoryId) == st
  {
    var ids := st.form.categoryIds;
    WithoutAppend(ids, [categoryId], categoryId);
    WithoutAbsent(ids, categoryId);
    assert Without([categoryId], categoryId) == [];
  }

  // ---------------------------------------------------------------- tags

  /**
   * `handleAddTag`: appends the trimmed input when it is non-empty and not yet listed,
   * and only then clears the input; otherwise nothing changes.
   */
  function HandleAddTag(st: FormState): (r: FormState)
    ensures r.form == st.form.(tags := r.form.tags) && r.errors == st.errors
    ensures JsTrim(st.tagInput) != "" && JsTrim(st.tagInput) !in st.form.tags ==>
      r.form.tags == st.form.tags + [JsTrim(st.tagInput)] && r.tagInput == ""
    ensures JsTrim(st.tagInput) == "" || JsTrim(st.tagInput) in st.form.tags ==> r == st
  {
    var t := JsTrim(st.tagInput);
    if t != "" && t !in st.form.tags then
      st.(form := st.form.(tags := st.form.tags + [t]), tagInput := "")
    else st
  }

  /** The tag list stays free of duplicates. */
  lemma AddTagKeepsDistinct(st: FormState)
    requires Distinct(st.form.tags)
    ensures Distinct(HandleAddTag(st).form.tags)
  {
    var t := JsTrim(st.tagInput);
    if t != "" && t !in st.form.tags {
      var s := st.form.tags + [t];
      forall i, j | 0 <= i < j < |s| ensures s[i] != s[j] {
        if j == |s| - 1 {
          assert s[i] in st.form.tags;
        }
      }
    }
  }

  /** An added tag never carries white space at either end. */
  lemma AddedTagTrimmed(st: FormState)
    ensures forall t :: t in HandleAddTag(st).form.tags && t !in st.form.tags ==>
      t == JsTrim(st.tagInput) && t != "" && !IsJsSpace(t[0]) && !IsJsSpace(t[|t| - 1])
  {
    JsTrimEnds(st.tagInput);
  }

  /** `handleRemoveTag`: drops exactly the occurrences of the tag, keeping the order of the rest. */
  function HandleRemoveTag(st: FormState, tag: string): (r: FormState)
    ensures tag !in r.form.tags
    ensures forall t :: t != tag ==> multiset(r.form.tags)[t] == multiset(st.form.tags)[t]
    ensures r.form == st.form.(tags := r.form.tags)
    ensures r.tagInput == st.tagInput && r.errors == st.errors
  {
    st.(form := st.form.(tags := Without(st.form.tags, tag)))
  }

  /** Removing a tag just added gives back the tag list before the addition. */
  lemma AddThenRemove(st: FormState)
    requires JsTrim(st.tagInput) != "" && JsTrim(st.tagInput) !in st.form.tags
    ensures HandleRemoveTag(HandleAddTag(st), JsTrim(st.tagInput)).form == st.form
  {
    var t := JsTrim(st.tagInput);
    WithoutAppend(st.form.tags, [t], t);
    WithoutAbsent(st.form.tags, t);
    assert Without([t], t) == [];
  }

  // ---------------------------------------------------------------- validateForm

  function TitleError(title: string): string {
    if JsTrim(title) == "" then "Title is required"
    else if |title| < 5 then "Title must be at least 5 characters"
    else ""
  }

  function ContentError(content: string): string {
    if JsTrim(content) == "" then "Content is required"
    else if |content| < 10 then "Content must be at least 10 characters"
    else ""
  }

  /** `validateForm`: an entry for each of title and content that fails its check. */
  function ValidateForm(form: FormData): (errors: Errors)
    ensures errors.Keys <= {"title", "content"}
    ensures forall k :: k in errors ==> errors[k] != ""
    ensures "title" in errors <==> TitleError(form.title) != ""
    ensures "title" in errors ==> errors["title"] == TitleError(form.title)
    ensures "content" in errors <==> ContentError(form.content) != ""
    ensures "content" in errors ==> errors["content"] == ContentError(form.content)
  {
    var withTitle: Errors := if TitleError(form.title) != "" then map["title" := TitleError(form.title)] else map[];
    if ContentError(form.content) != "" then withTitle["content" := ContentError(form.content)] else withTitle
  }

  /** Every character is JavaScript white space. */
  predicate IsJsBlank(s: string) {
    forall i :: 0 <= i < |s| ==> IsJsSpace(s[i])
  }

  /** The form passes exactly when title and content are not blank and long enough. */
  lemma ValidateFormAccepts(form: FormData)
    ensures ValidateForm(form) == map[] <==>
      !IsJsBlank(form.title) && |form.title| >= 5 && !IsJsBlank(form.content) && |form.content| >= 10
  {
    JsTrimEmpty(form.title);
    JsTrimEmpty(form.content);
    if ValidateForm(form) != map[] {
      assert "title" in ValidateForm(form) || "content" in ValidateForm(form);
    }
  }

  /**
   * On ASCII text the backend's title check is at least as strict as the form's: a title
   * the entity accepts raises no title error.
   */
  lemma AsciiBackendTitleImpliesForm(title: string)
    requires forall i :: 0 <= i < |title| ==> title[i] < '\U{0080}'
    requires Model.ValidTitle(title)
    ensures TitleError(title) == ""
  {
    var i :| 0 <= i < |title| && !IsJavaTrimmed(title[i]);
    assert !IsJsSpace(title[i]);
    JsTrimEmpty(title);
  }

  /** A 201-character title passes the form but not the backend's 200-character limit. */
  lemma LongTitlePassesForm(title: string)
    requires |title| == 201 && forall i :: 0 <= i < |title| ==> title[i] == 'a'
    ensures TitleError(title) == "" && !Model.ValidTitle(title)
  {
    assert !IsJsSpace(title[0]);
    JsTrimEmpty(title);
  }

  /** A title of no-break spaces is refused by the form but not blank to the backend. */
  lemma NoBreakSpaceTitle(title: string)
    requires |title| == 5 && forall i :: 0 <= i < |title| ==> title[i] == '\U{00A0}'
    ensures TitleError(title) == "Title is required" && Model.ValidTitle(title)
  {
    JsTrimEmpty(title);
    assert !IsJavaTrimmed(title[0]);
  }

  /** A title of control characters passes the form but is blank to the backend. */
  lemma ControlCharacterTitle(title: string)
    requires |title| == 5 && forall i :: 0 <= i < |title| ==> title[i] == '\U{0001}'
    ensures TitleError(title) == "" && !Model.ValidTitle(title)
  {
    assert !IsJsSpace(title[0]);
    JsTrimEmpty(title);
  }

  // ---------------------------------------------------------------- handleSubmit

  /** What a submit sends: nothing, a create, or an update of the post being edited. */
  datatype Submission = NoRequest | CreateRequest(form: FormData) | UpdateRequest(id: string, form: FormData)

  /**
   * The gate in `handleSubmit`: with any validation error the errors are shown and no
   * request is made; otherwise the form goes out as a create, or as an update when a
   * post id is in the route.
   */
  function HandleSubmit(st: FormState, routeId: Option<string>): (r: (FormState, Submission))
    ensures ValidateForm(st.form) != map[] ==> r == (st.(errors := ValidateForm(st.form)), NoRequest)
    ensures ValidateForm(st.form) == map[] ==> r.0 == st
    ensures ValidateForm(st.form) == map[] && routeId.None? ==> r.1 == CreateRequest(st.form)
    ensures ValidateForm(st.form) == map[] && routeId.Some? ==> r.1 == UpdateRequest(routeId.value, st.form)
  {
    var errors := ValidateForm(st.form);
    if |errors.Keys| > 0 then (st.(errors := errors), NoRequest)
    else if routeId.Some? then (st, UpdateRequest(routeId.value, st.form))
    else (st, CreateRequest(st.form))
  }

  /** A request is only ever sent for a form whose title and content pass the checks. */
  lemma SubmitSendsOnlyValidForms(st: FormState, routeId: Option<string>)
    ensures HandleSubmit(st, routeId).1 != NoRequest ==>
      !IsJsBlank(st.form.title) && |st.form.title| >= 5 && !IsJsBlank(st.form.content) && |st.form.content| >= 10
  {
    ValidateFormAccepts(st.form);
  }
}
