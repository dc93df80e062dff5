/** Article endpoints: the paged listing's parameters, creation, and the
    owner-only update and deletion. */
module Articles {
  import opened Store
  import opened Validation

  /** Go's `int` on a 64-bit target: arithmetic wraps modulo 2^64. */
  const Two63: int := 0x8000_0000_0000_0000
  const Two64: int := 0x1_0000_0000_0000_0000

  predicate InInt64(x: int) {
    -Two63 <= x < Two63
  }

  function Wrap64(x: int): (r: int)
    ensures InInt64(r)
    ensures (r - x) % Two64 == 0
    ensures InInt64(x) ==> r == x
  {
    (x + Two63) % Two64 - Two63
  }

  /** The listing's effective parameters. */
  datatype Listing = Listing(page: int, size: int, status: string, offset: int)

  const DefaultPage := 1
  const DefaultSize := 10

  /** The listing query: absent parameters take their defaults (page 1, size
      10, status PUBLISHED) and the offset is (page - 1) * size in 64-bit
      arithmetic. */
  function ListParameters(page: Option<int>, size: Option<int>, status: Option<string>): (r: Listing)
    requires page.Some? ==> InInt64(page.value)
    requires size.Some? ==> InInt64(size.value)
    ensures r.page == (if page.Some? then page.value else 1)
    ensures r.size == (if size.Some? then size.value else 10)
    ensures r.status == (if status.Some? then status.value else Published)
    ensures InInt64(r.offset)
    ensures InInt64((r.page - 1) * r.size) ==> r.offset == (r.page - 1) * r.size
    ensures r.offset == Wrap64((r.page - 1) * r.size)
  {
    var p := if page.Some? then page.value else DefaultPage;
    var s := if size.Some? then size.value else DefaultSize;
    Listing(p, s, if status.Some? then status.value else Published, Offset(p, s))
  }

  /** The offset as Go computes it: `page - 1` and the product each wrap to
      64 bits, which is the mathematical product wrapped once. */
  function Offset(page: int, size: int): (r: int)
    requires InInt64(page) && InInt64(size)
    ensures InInt64(r)
    ensures r == Wrap64((page - 1) * size)
  {
    var p := Wrap64(page - 1);
    CongruentProduct(p, page - 1, size);
    WrapCongruent(p * size, (page - 1) * size);
    Wrap64(p * size)
  }

  /** Values congruent modulo 2^64 wrap to the same value. */
  lemma {:induction false} WrapCongruent(x: int, y: int)
    requires (x - y) % Two64 == 0
    ensures Wrap64(x) == Wrap64(y)
  {
    var k := (x - y) / Two64;
    assert x + Two63 == (y + Two63) + k * Two64;
    ModShift(y + Two63, k);
  }

  /** Adding a multiple of 2^64 leaves the remainder unchanged. */
  lemma {:induction false} ModShift(a: int, k: int)
    ensures (a + k * Two64) % Two64 == a % Two64
  {
    var q := a / Two64;
    assert a == q * Two64 + a % Two64;
    assert a + k * Two64 == (q + k) * Two64 + a % Two64;
  }

  /** Congruence modulo 2^64 is preserved by multiplication. */
  lemma {:induction false} CongruentProduct(a: int, b: int, c: int)
    requires (a - b) % Two64 == 0
    ensures (a * c - b * c) % Two64 == 0
  {
    var k := (a - b) / Two64;
    assert a - b == k * Two64;
    assert a * c - b * c == (k * c) * Two64 by {
      assert a * c - b * c == (a - b) * c;
    }
    ModShift(0, k * c);
  }

  /** With no parameters the first ten published articles are asked for. */
  lemma DefaultListing()
    ensures ListParameters(None, None, None) == Listing(1, 10, Published, 0)
  {
  }

  /** Page 1 starts at the beginning, whatever the size. */
  lemma FirstPageStartsAtZero(size: int)
    requires InInt64(size)
    ensures Offset(1, size) == 0
  {
  }

  /** Consecutive pages of a positive size are adjacent windows: each starts
      where the previous one ends, as long as no wrap-around occurs. */
  lemma NextPageFollows(page: int, size: int)
    requires 1 <= page && 0 < size && InInt64(page + 1) && InInt64(size) && page * size < Two63
    ensures Offset(page + 1, size) == Offset(page, size) + size
  {
    var before, after := (page - 1) * size, (page + 1 - 1) * size;
    assert after == before + size;
    assert 0 <= before <= after < Two63;
    assert Offset(page, size) == before;
    assert Offset(page + 1, size) == after;
  }

  /** For a positive size the offset never decreases with the page, up to the
      64-bit limit. */
  lemma OffsetMonotone(p1: int, p2: int, size: int)
    requires 1 <= p1 <= p2 && 0 < size && InInt64(p2) && InInt64(size) && (p2 - 1) * size < Two63
    ensures Offset(p1, size) <= Offset(p2, size)
  {
    assert 0 <= (p1 - 1) * size <= (p2 - 1) * size;
  }

  /** A page far enough out wraps the offset around to a negative value. */
  lemma LargePageWraps()
    ensures Offset(Two63 / 2 + 1, 2) == -Two63
  {
  }

  datatype ArticleForm = ArticleForm(title: string, content: string, status: string)

  function RequiredArticleFields(form: ArticleForm): (r: seq<string>)
    ensures r == [] <==> form.title != "" && form.content != "" && form.status != ""
  {
    var fields := [("Title", form.title), ("Content", form.content), ("Status", form.status)];
    assert fields[1].1 == form.content && fields[2].1 == form.status;
    MissingFields(fields)
  }

  /** Article creation: the payload is validated before the caller is resolved;
      the caller becomes the owner; the slug's unique index may refuse it. */
  function CreateArticle(articles: seq<Article>, caller: Option<User>, form: ArticleForm,
                         makeSlug: string -> string, newId: int): (r: Result<seq<Article>>)
    ensures RequiredArticleFields(form) != [] ==> r == Err(Invalid(RequiredArticleFields(form)))
    ensures RequiredArticleFields(form) == [] && caller.None? ==> r == Err(Unauthenticated)
    ensures RequiredArticleFields(form) == [] && caller.Some? && SlugTaken(articles, makeSlug(form.title)) ==>
              r == Err(Conflict)
    ensures r.Ok? <==> RequiredArticleFields(form) == [] && caller.Some?
                       && forall i :: 0 <= i < |articles| ==> articles[i].slug != makeSlug(form.title)
    ensures r.Ok? ==> && |r.value| == |articles| + 1 && r.value[..|articles|] == articles
                      && var a := r.value[|articles|];
                         && a.userId == caller.value.id && a.title == form.title && a.content == form.content
                         && a.status == form.status && a.views == 0 && a.slug == makeSlug(form.title)
                         && a.title != "" && a.content != "" && a.status != "" && !a.deleted
    ensures r.Ok? ==> r.value[|articles|] == Article(newId, caller.value.id, form.title, makeSlug(form.title),
                                                     form.content, 0, form.status, false)
  {
    if RequiredArticleFields(form) != [] then Err(Invalid(RequiredArticleFields(form)))
    else if caller.None? then Err(Unauthenticated)
    else
      var slug := makeSlug(form.title);
      if SlugTaken(articles, slug) then Err(Conflict)
      else Ok(articles + [Article(newId, caller.value.id, form.title, slug, form.content, 0, form.status, false)])
  }

  /** The unique index on the slug; deleted rows still hold their slug. */
  predicate SlugTaken(articles: seq<Article>, slug: string) {
    exists i :: 0 <= i < |articles| && articles[i].slug == slug
  }

  /** A created article is found under its slug, and its creator may update
      and delete it. */
  lemma CreatedArticleIsFound(articles: seq<Article>, caller: User, form: ArticleForm,
                              makeSlug: string -> string, newId: int, edit: ArticleForm)
    requires CreateArticle(articles, Some(caller), form, makeSlug, newId).Ok?
    ensures var created := CreateArticle(articles, Some(caller), form, makeSlug, newId).value;
            var slug := makeSlug(form.title);
            && ArticleBySlug(created, slug) == Some(|articles|)
            && UpdateArticle(created, slug, Some(caller), edit).Ok?
            && DeleteArticle(created, slug, Some(caller)).Ok?
  {
    var created := CreateArticle(articles, Some(caller), form, makeSlug, newId).value;
    var slug := makeSlug(form.title);
    assert created[|articles|].slug == slug && !created[|articles|].deleted;
    assert forall i :: 0 <= i < |articles| ==> created[i].slug != slug;
  }

  /** Only the owner may change or delete an article. */
  predicate Owns(caller: User, a: Article) {
    caller.id == a.userId
  }

  /** The fields an update may change: title and content when non-empty, the
      status always (an empty status included). */
  function Merge(a: Article, form: ArticleForm): (r: Article)
    ensures r.id == a.id && r.userId == a.userId && r.slug == a.slug && r.views == a.views
    ensures r.status == form.status
    ensures r == a.(title := r.title, content := r.content, status := r.status)
    ensures form.title != "" ==> r.title == form.title
    ensures form.title == "" ==> r.title == a.title
    ensures form.content != "" ==> r.content == form.content
    ensures form.content == "" ==> r.content == a.content
  {
    a.(title := if form.title != "" then form.title else a.title,
       content := if form.content != "" then form.content else a.content,
       status := form.status)
  }

  /** Merging the same form twice is merging it once. */
  lemma MergeIdempotent(a: Article, form: ArticleForm)
    ensures Merge(Merge(a, form), form) == Merge(a, form)
  {
  }

  /** A merge keeps the article reachable under its slug and owned by the same
      user, so its owner can update it again. */
  lemma MergeKeepsOwnerAndSlug(a: Article, form: ArticleForm, caller: User)
    requires Owns(caller, a)
    ensures Owns(caller, Merge(a, form)) && Merge(a, form).slug == a.slug
  {
  }

  /** Article update: the saved article. */
  function UpdateArticle(articles: seq<Article>, slug: string, caller: Option<User>, form: ArticleForm)
    : (r: Result<Article>)
    ensures caller.None? ==> r == Err(Unauthenticated)
    ensures caller.Some? && ArticleBySlug(articles, slug).None? ==> r == Err(NotFound(slug))
    ensures r.Ok? <==> caller.Some? && ArticleBySlug(articles, slug).Some?
                       && Owns(caller.value, articles[ArticleBySlug(articles, slug).value])
    ensures r.Err? && caller.Some? && ArticleBySlug(articles, slug).Some? ==> r == Err(Forbidden)
    ensures r.Ok? ==> r.value == Merge(articles[ArticleBySlug(articles, slug).value], form)
  {
    if caller.None? then Err(Unauthenticated)
    else match ArticleBySlug(articles, slug)
      case None => Err(NotFound(slug))
      case Some(k) =>
        if !Owns(caller.value, articles[k]) then Err(Forbidden)
        else Ok(Merge(articles[k], form))
  }

  /** Article deletion: the article is marked deleted and stays in the table. */
  function DeleteArticle(articles: seq<Article>, slug: string, caller: Option<User>)
    : (r: Result<seq<Article>>)
    ensures caller.None? ==> r == Err(Unauthenticated)
    ensures caller.Some? && ArticleBySlug(articles, slug).None? ==> r == Err(NotFound(slug))
    ensures r.Ok? <==> caller.Some? && ArticleBySlug(articles, slug).Some?
                       && Owns(caller.value, articles[ArticleBySlug(articles, slug).value])
    ensures r.Err? && caller.Some? && ArticleBySlug(articles, slug).Some? ==> r == Err(Forbidden)
    ensures r.Ok? ==> var k := ArticleBySlug(articles, slug).value;
                      && |r.value| == |articles|
                      && r.value[k] == articles[k].(deleted := true)
                      && forall i :: 0 <= i < |articles| && i != k ==> r.value[i] == articles[i]
  {
    if caller.None? then Err(Unauthenticated)
    else match ArticleBySlug(articles, slug)
      case None => Err(NotFound(slug))
      case Some(k) =>
        if !Owns(caller.value, articles[k]) then Err(Forbidden)
        else Ok(articles[k := articles[k].(deleted := true)])
  }

  /** A deleted article keeps its slug taken: creating an article with the same
      slug answers Conflict. */
  lemma DeletedArticleKeepsSlugTaken(articles: seq<Article>, slug: string, owner: User, form: ArticleForm,
                                     makeSlug: string -> string, newId: int)
    requires DeleteArticle(articles, slug, Some(owner)).Ok?
    requires RequiredArticleFields(form) == [] && makeSlug(form.title) == slug
    ensures CreateArticle(DeleteArticle(articles, slug, Some(owner)).value, Some(owner), form, makeSlug, newId)
         == Err(Conflict)
  {
    var k := ArticleBySlug(articles, slug).value;
    var after := DeleteArticle(articles, slug, Some(owner)).value;
    assert after[k].slug == slug;
  }
}
