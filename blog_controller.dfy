/**
 * The blog handlers: create, read one (visibility and the view counter),
 * update, delete and the ten most viewed posts. Saving runs the document's
 * validators and then the pre-save hook.
 */
module BlogController {
  import opened Wrappers
  import opened Strings
  import opened Seqs
  import opened Http
  import opened BlogModel

  /** A create request; "" stands for a falsy field, `tags` is `None` when it is not an array. */
  datatype CreateRequest = CreateRequest(
    title: string, content: string, excerpt: string, author: string, category: string,
    status: string, featuredImage: string, tags: Option<seq<string>>)

  /**
   * An update request: `None` for a field the body leaves undefined where that
   * differs from an empty value; "" for a falsy `excerpt` and a missing `category`
   * or `featuredImage`.
   */
  datatype UpdateRequest = UpdateRequest(
    title: Option<string>, content: Option<string>, excerpt: string, author: Option<string>,
    category: string, status: Option<string>, featuredImage: string, tags: Option<seq<string>>)

  predicate MissingField(r: CreateRequest) {
    r.title == [] || r.content == [] || r.author == [] || r.category == []
  }

  function HasId(id: Id): Blog -> bool { (b: Blog) => b.id == id }

  predicate IdTaken(s: seq<Blog>, id: Id) {
    exists k :: 0 <= k < |s| && s[k].id == id
  }

  lemma LookupIff(s: seq<Blog>, id: Id)
    ensures FirstIndex(s, HasId(id)).Some? <==> IdTaken(s, id)
  {
    if IdTaken(s, id) {
      var k :| 0 <= k < |s| && s[k].id == id;
      assert HasId(id)(s[k]);
    }
  }

  function Slugs(s: seq<Blog>): set<string> {
    set k | 0 <= k < |s| :: s[k].slug
  }

  function IdOf(b: Blog): Id { b.id }

  function SlugOf(b: Blog): string { b.slug }

  /** Every stored post passed its validators, and ids and slugs are unique; the read time matches the content. */
  predicate StoreValid(s: seq<Blog>) {
    && Distinct(s, IdOf)
    && Distinct(s, SlugOf)
    && forall k :: 0 <= k < |s| ==> FieldsValid(s[k]) && s[k].readTime == ReadTimeLabel(s[k].content)
  }

  /** The document `new Blog({...})` builds in `createBlog`, setters applied, before the hook runs. */
  function NewBlog(req: CreateRequest, id: Id, user: Id): (b: Blog)
    ensures b.id == id && b.slug == [] && b.views == 0 && b.createdBy == user
    ensures b.title == Trim(req.title) && b.author == Trim(req.author)
    ensures IsTrimmed(b.title) && IsTrimmed(b.author)
    ensures b.content == req.content && b.category == req.category && b.featuredImage == req.featuredImage
    ensures b.status == Some(if req.status == [] then Draft else req.status)
    ensures b.excerpt == if req.excerpt == [] then DefaultExcerpt(req.content) else req.excerpt
    ensures b.tags == if req.tags.None? then [] else TrimAll(req.tags.value)
  {
    TrimTrimmed(req.title);
    TrimTrimmed(req.author);
    Blog(id, [], Trim(req.title), req.content,
         if req.excerpt == [] then DefaultExcerpt(req.content) else req.excerpt,
         Trim(req.author), req.category, Some(if req.status == [] then Draft else req.status),
         req.featuredImage, if req.tags.None? then [] else TrimAll(req.tags.value), 0, [], user)
  }

  /** The assignments of `updateBlog` on the loaded document, setters applied. */
  function Assign(b: Blog, req: UpdateRequest): (r: Blog)
    requires req.title.Some? && req.content.Some? && req.author.Some?
    ensures r.id == b.id && r.slug == b.slug && r.views == b.views && r.readTime == b.readTime
    ensures r.createdBy == b.createdBy
    ensures r.title == Trim(req.title.value) && r.author == Trim(req.author.value)
    ensures r.content == req.content.value && r.status == req.status
    ensures r.category == req.category && r.featuredImage == req.featuredImage
    ensures r.tags == if req.tags.None? then [] else TrimAll(req.tags.value)
    ensures r.excerpt == if req.excerpt == [] then DefaultExcerpt(req.content.value) else req.excerpt
  {
    b.(title := Trim(req.title.value), content := req.content.value,
       excerpt := if req.excerpt == [] then DefaultExcerpt(req.content.value) else req.excerpt,
       author := Trim(req.author.value), category := req.category, status := req.status,
       featuredImage := req.featuredImage, tags := if req.tags.None? then [] else TrimAll(req.tags.value))
  }

  // ---------------------------------------------------------------- most viewed

  function MoreViews(): (Blog, Blog) -> bool { (a: Blog, b: Blog) => a.views >= b.views }

  function PublishedOnly(): Blog -> bool { (b: Blog) => IsPublished(b) }

  const TrendingLimit: nat := 10

  function ByViews(s: seq<Blog>): (r: seq<Blog>)
    ensures multiset(r) == multiset(Filter(s, PublishedOnly()))
    ensures SortedBy(r, MoreViews())
  {
    assert TotalPreorder(MoreViews());
    SortBySorted(Filter(s, PublishedOnly()), MoreViews());
    SortBy(Filter(s, PublishedOnly()), MoreViews())
  }

  /** `find({ status: 'published' }).sort({ views: -1 }).limit(10)`. */
  function MostViewed(s: seq<Blog>): (r: seq<Blog>)
    ensures |r| <= TrendingLimit
    ensures forall i, j :: 0 <= i < j < |r| ==> r[i].views >= r[j].views
    ensures r <= ByViews(s)
  {
    var ordered := ByViews(s);
    var r := Take(ordered, TrendingLimit);
    assert forall i, j :: 0 <= i < j < |r| ==> MoreViews()(ordered[i], ordered[j]);
    r
  }

  lemma ByViewsMember(s: seq<Blog>, x: Blog)
    requires x in ByViews(s)
    ensures x in s && IsPublished(x)
  {
    assert x in multiset(ByViews(s));
    assert x in Filter(s, PublishedOnly());
    var k :| 0 <= k < |Filter(s, PublishedOnly())| && Filter(s, PublishedOnly())[k] == x;
  }

  /**
   * The selection holds only published posts, and a published post left out has
   * no more views than any post that made it.
   */
  lemma MostViewedIsTop(s: seq<Blog>)
    ensures forall k :: 0 <= k < |MostViewed(s)| ==> MostViewed(s)[k] in s && IsPublished(MostViewed(s)[k])
    ensures forall b :: b in s && IsPublished(b) && b !in MostViewed(s) ==>
              forall k :: 0 <= k < |MostViewed(s)| ==> MostViewed(s)[k].views >= b.views
  {
    var ordered := ByViews(s);
    var r := MostViewed(s);
    forall k | 0 <= k < |r| ensures r[k] in s && IsPublished(r[k]) {
      assert r[k] == ordered[k];
      ByViewsMember(s, r[k]);
    }
    forall b | b in s && IsPublished(b) && b !in r
      ensures forall k :: 0 <= k < |r| ==> r[k].views >= b.views
    {
      LeftOutBelow(s, b);
    }
  }

  /** A published post outside the selection sits after it in the ordering. */
  lemma LeftOutBelow(s: seq<Blog>, b: Blog)
    requires b in s && IsPublished(b) && b !in MostViewed(s)
    ensures forall k :: 0 <= k < |MostViewed(s)| ==> MostViewed(s)[k].views >= b.views
  {
    var ordered := ByViews(s);
    var r := MostViewed(s);
    assert b in Filter(s, PublishedOnly());
    assert b in multiset(ordered);
    var i :| 0 <= i < |ordered| && ordered[i] == b;
    assert i >= |r|;
    forall k | 0 <= k < |r| ensures r[k].views >= b.views {
      assert r[k] == ordered[k];
      assert MoreViews()(ordered[k], ordered[i]);
    }
  }

  /** When enough posts are published the selection is full. */
  lemma MostViewedFull(s: seq<Blog>)
    ensures |MostViewed(s)| == if Count(s, PublishedOnly()) <= TrendingLimit then Count(s, PublishedOnly()) else TrendingLimit
  {
    assert |ByViews(s)| == |multiset(ByViews(s))|;
  }

  // ---------------------------------------------------------------- invariant preservation

  lemma AppendStoreValid(s: seq<Blog>, b: Blog)
    requires StoreValid(s) && !IdTaken(s, b.id) && b.slug !in Slugs(s)
    requires FieldsValid(b) && b.readTime == ReadTimeLabel(b.content)
    ensures StoreValid(s + [b])
  {
    var t := s + [b];
    forall i, j | 0 <= i < j < |t| ensures IdOf(t[i]) != IdOf(t[j]) && SlugOf(t[i]) != SlugOf(t[j]) {
      if j == |s| {
        assert t[i] == s[i];
        assert s[i].slug in Slugs(s);
      }
    }
  }

  lemma ReplaceStoreValid(s: seq<Blog>, i: nat, b: Blog)
    requires StoreValid(s) && i < |s| && b.id == s[i].id
    requires b.slug == s[i].slug || b.slug !in Slugs(s)
    requires FieldsValid(b) && b.readTime == ReadTimeLabel(b.content)
    ensures StoreValid(s[i := b])
  {
    var t := s[i := b];
    forall x, y | 0 <= x < y < |t| ensures IdOf(t[x]) != IdOf(t[y]) && SlugOf(t[x]) != SlugOf(t[y]) {
      assert IdOf(t[x]) == IdOf(s[x]) && IdOf(t[y]) == IdOf(s[y]);
      if x == i {
        assert s[y].slug in Slugs(s);
      } else if y == i {
        assert s[x].slug in Slugs(s);
      }
    }
  }

  function Stored(): Blog -> bool {
    (b: Blog) => FieldsValid(b) && b.readTime == ReadTimeLabel(b.content)
  }

  lemma RemoveStoreValid(s: seq<Blog>, i: nat)
    requires StoreValid(s) && i < |s|
    ensures StoreValid(s[..i] + s[i + 1..])
  {
    RemoveDistinct(s, i, IdOf);
    RemoveDistinct(s, i, SlugOf);
    RemoveAll(s, i, s[..i] + s[i + 1..], Stored());
  }

  // ---------------------------------------------------------------- the collection

  class BlogStore {
    var blogs: seq<Blog>

    ghost predicate Valid()
      reads this
    {
      StoreValid(blogs)
    }

    constructor ()
      ensures Valid() && blogs == []
    {
      blogs := [];
    }

    /**
     * `createBlog`: 400 when a required field is falsy; otherwise the document is
     * validated and saved, the hook giving it the first free slug for its title
     * and the read time of its content.
     */
    method Create(req: CreateRequest, newId: Id, user: Id, slugify: string -> string) returns (out: Outcome<Blog>)
      requires Valid()
      modifies this
      ensures Valid()
      ensures MissingField(req) ==> out == BadRequest
      ensures out.BadRequest? || out.ServerError? || out.Ok?
      ensures out.Ok? <==> !MissingField(req) && !IdTaken(old(blogs), newId) && FieldsValid(NewBlog(req, newId, user))
      ensures out.Ok? ==>
                && blogs == old(blogs) + [out.value]
                && out.value == NewBlog(req, newId, user).(slug := out.value.slug, readTime := ReadTimeLabel(req.content))
                && (exists k :: FirstFreeCandidate(slugify(Trim(req.title)), Slugs(old(blogs)), out.value.slug, k))
      ensures !out.Ok? ==> blogs == old(blogs)
    {
      if MissingField(req) {
        return BadRequest;
      }
      var doc := NewBlog(req, newId, user);
      LookupIff(blogs, newId);
      if FirstIndex(blogs, HasId(newId)).Some? || !FieldsValid(doc) {
        return ServerError;
      }
      var slug, k := UniqueSlug(slugify(doc.title), Slugs(blogs));
      doc := doc.(slug := slug, readTime := ReadTimeLabel(doc.content));
      AppendStoreValid(blogs, doc);
      blogs := blogs + [doc];
      return Ok(doc);
    }

    /**
     * `getBlogById`: a post that is not published is hidden from everyone but an
     * admin; reading a published post adds exactly one view.
     */
    method GetById(id: Id, isAdmin: bool) returns (out: Outcome<Blog>)
      requires Valid()
      modifies this
      ensures Valid()
      ensures out.NotFound? || out.Ok?
      ensures out.NotFound? <==>
                (!IdTaken(old(blogs), id) || (!IsPublished(old(blogs)[FirstIndex(old(blogs), HasId(id)).value]) && !isAdmin))
      ensures out.NotFound? ==> blogs == old(blogs)
      ensures out.Ok? ==>
                var i := FirstIndex(old(blogs), HasId(id)).value;
                if IsPublished(old(blogs)[i]) then
                  out.value == old(blogs)[i].(views := old(blogs)[i].views + 1) && blogs == old(blogs)[i := out.value]
                else
                  out.value == old(blogs)[i] && blogs == old(blogs)
    {
      LookupIff(blogs, id);
      var found := FirstIndex(blogs, HasId(id));
      if found.None? {
        return NotFound;
      }
      var i := found.value;
      var b := blogs[i];
      if !IsPublished(b) && !isAdmin {
        return NotFound;
      }
      if IsPublished(b) {
        b := b.(views := b.views + 1);
        ReplaceStoreValid(blogs, i, b);
        blogs := blogs[i := b];
      }
      return Ok(b);
    }

    /**
     * `updateBlog`: every listed field is overwritten. An undefined title, author or
     * content makes the handler throw before saving. The slug is chosen again only
     * when the title changed, the read time only when the content changed.
     */
    method Update(id: Id, req: UpdateRequest, slugify: string -> string) returns (out: Outcome<Blog>)
      requires Valid()
      modifies this
      ensures Valid()
      ensures !IdTaken(old(blogs), id) ==> out == NotFound
      ensures out.NotFound? || out.ServerError? || out.Ok?
      ensures IdTaken(old(blogs), id) && (req.title.None? || req.content.None? || req.author.None?) ==> out == ServerError
      ensures !out.Ok? ==> blogs == old(blogs)
      ensures out.Ok? ==>
                && IdTaken(old(blogs), id) && req.title.Some? && req.content.Some? && req.author.Some?
                && var i := FirstIndex(old(blogs), HasId(id)).value;
                   var old_b := old(blogs)[i];
                   var doc := Assign(old_b, req);
                   && FieldsValid(doc)
                   && blogs == old(blogs)[i := out.value]
                   && out.value == doc.(slug := out.value.slug, readTime := out.value.readTime)
                   && (doc.title == old_b.title ==> out.value.slug == old_b.slug)
                   && (doc.title != old_b.title ==>
                         exists k :: FirstFreeCandidate(slugify(doc.title), Slugs(old(blogs)), out.value.slug, k))
                   && out.value.readTime == (if doc.content == old_b.content then old_b.readTime
                                             else ReadTimeLabel(doc.content))
      ensures IdTaken(old(blogs), id) && req.title.Some? && req.content.Some? && req.author.Some? ==>
                (out.Ok? <==> FieldsValid(Assign(old(blogs)[FirstIndex(old(blogs), HasId(id)).value], req)))
    {
      LookupIff(blogs, id);
      var found := FirstIndex(blogs, HasId(id));
      if found.None? {
        return NotFound;
      }
      if req.title.None? || req.content.None? || req.author.None? {
        return ServerError;
      }
      var i := found.value;
      var current := blogs[i];
      var doc := Assign(current, req);
      if !FieldsValid(doc) {
        return ServerError;
      }
      if doc.title != current.title {
        var slug, k := UniqueSlug(slugify(doc.title), Slugs(blogs));
        doc := doc.(slug := slug);
      }
      if doc.content != current.content {
        doc := doc.(readTime := ReadTimeLabel(doc.content));
      }
      ReplaceStoreValid(blogs, i, doc);
      blogs := blogs[i := doc];
      return Ok(doc);
    }

    /** `deleteBlog`: only the post goes; comments that reference it live in another collection and stay. */
    method Delete(id: Id) returns (out: Outcome<()>)
      requires Valid()
      modifies this
      ensures Valid()
      ensures out.NotFound? <==> !IdTaken(old(blogs), id)
      ensures out.NotFound? || out.Ok?
      ensures out.NotFound? ==> blogs == old(blogs)
      ensures out.Ok? ==>
                var i := FirstIndex(old(blogs), HasId(id)).value;
                blogs == old(blogs)[..i] + old(blogs)[i + 1..]
    {
      LookupIff(blogs, id);
      var found := FirstIndex(blogs, HasId(id));
      if found.None? {
        return NotFound;
      }
      var i := found.value;
      RemoveStoreValid(blogs, i);
      blogs := blogs[..i] + blogs[i + 1..];
      return Ok(());
    }
  }
}
