/**
 * The blog screen of the admin panel: the comma-separated tag field, the
 * author label, the search-and-filter predicate over the listed blogs, the
 * publish/unpublish toggle and the list rebuilds after an edit, a create or a
 * delete.
 */
module BlogManager {
  import opened Wrappers
  import opened Strings
  import opened Seqs
  import ApiService

  // ---------------------------------------------------------------- tags

  function TrimEach(parts: seq<string>): (r: seq<string>)
    ensures |r| == |parts| && forall k :: 0 <= k < |r| ==> r[k] == Trim(parts[k])
  {
    seq(|parts|, k requires 0 <= k < |parts| => Trim(parts[k]))
  }

  function NonEmpty(): string -> bool {
    (t: string) => t != ""
  }

  /** A tag as the form can hold it. */
  predicate TagShaped(t: string) {
    t != "" && IsTrimmed(t) && ',' !in t
  }

  /** Trimming a piece that has no comma leaves a piece without one. */
  lemma TrimKeepsOut(s: string, c: char)
    requires c !in s
    ensures c !in Trim(s)
  {
    TrimSlice(s);
    var i := |s| - |TrimStart(s)|;
    forall k | 0 <= k < |Trim(s)|
      ensures Trim(s)[k] != c
    {
      assert Trim(s)[k] == s[i + k];
    }
  }

  /** The tag field: split on commas, trim every piece, drop the empty ones; what is left is tag-shaped. */
  function ParseTags(field: string): (r: seq<string>)
    ensures forall k :: 0 <= k < |r| ==> TagShaped(r[k])
  {
    var pieces := Split(field, ',');
    var trimmed := TrimEach(pieces);
    forall k | 0 <= k < |trimmed|
      ensures IsTrimmed(trimmed[k]) && ',' !in trimmed[k]
    {
      TrimTrimmed(pieces[k]);
      TrimKeepsOut(pieces[k], ',');
    }
    Filter(trimmed, NonEmpty())
  }

  /** The tag field filled in when a blog is opened for editing. */
  function FormatTags(tags: seq<string>): string {
    Join(tags, ", ")
  }

  lemma TrimAfterSpace(t: string)
    requires t != "" && IsTrimmed(t)
    ensures Trim(" " + t) == t
  {
    assert (" " + t)[1..] == t;
    TrimmedFixed(t);
  }

  /** The pieces of a formatted field trim back to the tags. */
  lemma TrimJoinedPieces(tags: seq<string>)
    requires |tags| >= 1
    requires forall k :: 0 <= k < |tags| ==> TagShaped(tags[k])
    ensures TrimEach([tags[0]] + seq(|tags| - 1, k requires 0 <= k < |tags| - 1 => " " + tags[k + 1])) == tags
  {
    var pieces := [tags[0]] + seq(|tags| - 1, k requires 0 <= k < |tags| - 1 => " " + tags[k + 1]);
    var trimmed := TrimEach(pieces);
    forall k | 0 <= k < |tags|
      ensures trimmed[k] == tags[k]
    {
      if k == 0 {
        TrimmedFixed(tags[0]);
      } else {
        assert pieces[k] == " " + tags[k];
        TrimAfterSpace(tags[k]);
      }
    }
  }

  /** Formatting then parsing gives the tags back when every tag is tag-shaped. */
  lemma {:induction false} TagsRoundTrip(tags: seq<string>)
    requires forall k :: 0 <= k < |tags| ==> TagShaped(tags[k])
    ensures ParseTags(FormatTags(tags)) == tags
  {
    if tags == [] {
      assert Split("", ',') == [""];
      assert TrimEach([""]) == [""];
    } else {
      assert ", " == [','] + " ";
      assert FormatTags(tags) == Join(tags, [','] + " ");
      SplitJoin(tags, ',', " ");
      TrimJoinedPieces(tags);
      FilterAll(tags, NonEmpty());
    }
  }

  /** Parsing normalises: a parsed list survives another format-and-parse unchanged. */
  lemma ParseTagsNormalizes(field: string)
    ensures ParseTags(FormatTags(ParseTags(field))) == ParseTags(field)
  {
    TagsRoundTrip(ParseTags(field));
  }

  // ---------------------------------------------------------------- author label

  /** What a blog's `author` may hold: nothing, a name, a populated user (blank fields as ""), or other data. */
  datatype AuthorValue = Falsy | Text(text: string) | User(name: string, email: string) | OtherValue

  /** The label shown for an author: never blank, taken from the author when it has a usable name or email. */
  function GetAuthorName(author: AuthorValue): (r: string)
    ensures r != ""
    ensures r == "Unknown" || (author.Text? && r == author.text) || (author.User? && (r == author.name || r == author.email))
    ensures author.Text? && author.text != "" ==> r == author.text
    ensures author.User? && author.name != "" ==> r == author.name
    ensures author.User? && author.name == "" && author.email != "" ==> r == author.email
    ensures author.Falsy? || author.OtherValue? ==> r == "Unknown"
  {
    match author
    case Falsy => "Unknown"
    case Text(text) => if text == "" then "Unknown" else text
    case User(name, email) => if name != "" then name else if email != "" then email else "Unknown"
    case OtherValue => "Unknown"
  }

  // ---------------------------------------------------------------- the listed blogs

  /**
   * An entry of the list as fetched. Absent or blank strings are "", fields compared
   * with `===` are options, and `tags` is `None` when it is not an array.
   */
  datatype BlogEntry =
    | NotAnObject
    | Post(id: string, title: string, content: string, excerpt: string, author: AuthorValue,
           category: Option<string>, status: Option<string>, featuredImage: string, tags: Option<seq<string>>)

  function TagsOf(b: BlogEntry): seq<string>
    requires b.Post?
  {
    match b.tags
    case None => []
    case Some(ts) => ts
  }

  /** The lowered search term occurs in the title, the content, the author label or some tag. */
  predicate SearchHit(b: BlogEntry, lowered: string)
    requires b.Post?
  {
    || Contains(Lower(b.title), lowered)
    || Contains(Lower(b.content), lowered)
    || Contains(Lower(GetAuthorName(b.author)), lowered)
    || exists k | 0 <= k < |TagsOf(b)| :: Contains(Lower(TagsOf(b)[k]), lowered)
  }

  predicate Selected(b: BlogEntry, lowered: string, filterStatus: string, filterCategory: string) {
    && b.Post?
    && SearchHit(b, lowered)
    && (filterStatus == "all" || b.status == Some(filterStatus))
    && (filterCategory == "all" || b.category == Some(filterCategory))
  }

  /** The filter callback; it sees the search term only lower-cased. */
  function Matches(searchTerm: string, filterStatus: string, filterCategory: string): BlogEntry -> bool {
    var lowered := Lower(searchTerm);
    (b: BlogEntry) => Selected(b, lowered, filterStatus, filterCategory)
  }

  function FilteredBlogs(blogs: seq<BlogEntry>, searchTerm: string, filterStatus: string, filterCategory: string): seq<BlogEntry> {
    Filter(blogs, Matches(searchTerm, filterStatus, filterCategory))
  }

  /**
   * A blog is listed exactly when it is an object, the lowered term occurs in its title,
   * content, author label or a tag, and its status and category pass their filters.
   */
  lemma FilteredBlogsIff(blogs: seq<BlogEntry>, searchTerm: string, filterStatus: string, filterCategory: string, b: BlogEntry)
    ensures b in FilteredBlogs(blogs, searchTerm, filterStatus, filterCategory) <==>
              && b in blogs && b.Post?
              && (|| Contains(Lower(b.title), Lower(searchTerm))
                  || Contains(Lower(b.content), Lower(searchTerm))
                  || Contains(Lower(GetAuthorName(b.author)), Lower(searchTerm))
                  || exists k | 0 <= k < |TagsOf(b)| :: Contains(Lower(TagsOf(b)[k]), Lower(searchTerm)))
              && (filterStatus == "all" || b.status == Some(filterStatus))
              && (filterCategory == "all" || b.category == Some(filterCategory))
  {
    var r := FilteredBlogs(blogs, searchTerm, filterStatus, filterCategory);
    if b in r {
      var k :| 0 <= k < |r| && r[k] == b;
    }
    if b in blogs {
      var k :| 0 <= k < |blogs| && blogs[k] == b;
    }
  }

  /** With an empty search and both filters on "all", every object is listed and nothing else. */
  lemma EmptySearchKeepsAll(blogs: seq<BlogEntry>)
    ensures forall k :: 0 <= k < |blogs| && blogs[k].Post? ==> blogs[k] in FilteredBlogs(blogs, "", "all", "all")
    ensures forall k :: 0 <= k < |FilteredBlogs(blogs, "", "all", "all")| ==> FilteredBlogs(blogs, "", "all", "all")[k].Post?
  {
    assert Lower("") == "";
    forall k | 0 <= k < |blogs| && blogs[k].Post?
      ensures Matches("", "all", "all")(blogs[k])
    {
      EmptyContained(Lower(blogs[k].title));
    }
  }

  /** The search ignores ASCII case: typing a term in capitals lists the same blogs. */
  lemma SearchIgnoresCase(blogs: seq<BlogEntry>, searchTerm: string, filterStatus: string, filterCategory: string)
    ensures FilteredBlogs(blogs, Lower(searchTerm), filterStatus, filterCategory) ==
            FilteredBlogs(blogs, searchTerm, filterStatus, filterCategory)
  {
    LowerIdempotent(searchTerm);
  }

  // ---------------------------------------------------------------- publish toggle

  /** The status the toggle button sends: a published blog is unpublished, anything else is published. */
  function ToggleStatus(status: Option<string>): (r: string)
    ensures r == "draft" <==> status == Some("published")
    ensures r == "published" <==> status != Some("published")
  {
    if status == Some("published") then "draft" else "published"
  }

  /** Pressing the toggle twice returns a draft or published blog to its status. */
  lemma ToggleTwice(status: string)
    requires status == "draft" || status == "published"
    ensures ToggleStatus(Some(ToggleStatus(Some(status)))) == status
  {
  }

  // ---------------------------------------------------------------- edit form

  /** The form fields. */
  datatype FormData = FormData(
    title: string, content: string, excerpt: string, author: string, category: string,
    status: string, featuredImage: string, tags: string)

  /** The form filled from a listed blog. */
  function EditForm(b: BlogEntry): (f: FormData)
    requires b.Post?
    ensures f.title == b.title && f.content == b.content && f.excerpt == b.excerpt
    ensures f.featuredImage == b.featuredImage
    ensures f.category == if b.category.Some? then b.category.value else ""
    ensures f.author == GetAuthorName(b.author)
    ensures f.status != ""
    ensures f.status == if b.status.None? || b.status == Some("") then "draft" else b.status.value
    ensures b.tags.None? ==> f.tags == ""
    ensures b.tags.Some? ==> f.tags == FormatTags(b.tags.value)
  {
    FormData(
      b.title, b.content, b.excerpt, GetAuthorName(b.author),
      match b.category { case None => "" case Some(c) => c },
      match b.status { case Some(s) => if s == "" then "draft" else s case None => "draft" },
      b.featuredImage,
      match b.tags { case None => "" case Some(ts) => FormatTags(ts) })
  }

  /** What a submit sends: a blank excerpt is generated from the content, and the tag field is parsed. */
  function SubmitData(f: FormData): (d: ApiService.BlogData)
    ensures f.excerpt != "" ==> d.excerpt == f.excerpt
    ensures f.excerpt == "" ==> d.excerpt == ApiService.GenerateExcerpt(f.content)
    ensures d.tags == ParseTags(f.tags)
    ensures d.title == f.title && d.content == f.content && d.author == f.author && d.status == f.status
    ensures d.category == f.category && d.featuredImage == f.featuredImage
  {
    ApiService.BlogData(
      f.title, f.content,
      if f.excerpt != "" then f.excerpt else ApiService.GenerateExcerpt(f.content),
      f.author, f.category, f.status, f.featuredImage, ParseTags(f.tags))
  }

  /**
   * Opening a blog and saving it without changes sends its own title, content, excerpt
   * and tags back, its status (draft when it had none) and its author's label.
   */
  lemma EditUnchangedRoundTrip(b: BlogEntry)
    requires b.Post? && b.excerpt != ""
    requires forall k :: 0 <= k < |TagsOf(b)| ==> TagShaped(TagsOf(b)[k])
    ensures var d := SubmitData(EditForm(b));
      && d.title == b.title && d.content == b.content && d.excerpt == b.excerpt
      && d.tags == TagsOf(b) && d.author == GetAuthorName(b.author)
      && d.status == (if b.status.None? || b.status == Some("") then "draft" else b.status.value)
  {
    if b.tags.None? {
      assert Split("", ',') == [""];
      assert TrimEach([""]) == [""];
    } else {
      assert TagsOf(b) == b.tags.value;
      TagsRoundTrip(b.tags.value);
    }
  }

  // ---------------------------------------------------------------- local updates

  function HasId(id: string): BlogEntry -> bool {
    (b: BlogEntry) => b.Post? && b.id == id
  }

  function NotId(id: string): BlogEntry -> bool {
    (b: BlogEntry) => !(b.Post? && b.id == id)
  }

  /** After an edit: the entries with the edited id become the server's answer, the rest stay. */
  function LocalEdit(blogs: seq<BlogEntry>, id: string, updated: BlogEntry): (r: seq<BlogEntry>)
    ensures |r| == |blogs|
    ensures forall k :: 0 <= k < |blogs| && HasId(id)(blogs[k]) ==> r[k] == updated
    ensures forall k :: 0 <= k < |blogs| && !HasId(id)(blogs[k]) ==> r[k] == blogs[k]
  {
    seq(|blogs|, k requires 0 <= k < |blogs| => if HasId(id)(blogs[k]) then updated else blogs[k])
  }

  /** After a create: the new blog heads the list. */
  function LocalCreate(blogs: seq<BlogEntry>, created: BlogEntry): (r: seq<BlogEntry>)
    ensures |r| == |blogs| + 1 && r[0] == created && r[1..] == blogs
  {
    [created] + blogs
  }

  /** After a delete: the entries with that id are gone; the rest keep their order. */
  function LocalDelete(blogs: seq<BlogEntry>, id: string): (r: seq<BlogEntry>)
    ensures forall k :: 0 <= k < |r| ==> r[k] in blogs && !HasId(id)(r[k])
    ensures forall k :: 0 <= k < |blogs| && !HasId(id)(blogs[k]) ==> blogs[k] in r
    ensures |r| == |blogs| - Count(blogs, HasId(id))
  {
    FilterSplit(blogs, HasId(id), NotId(id));
    Filter(blogs, NotId(id))
  }

  /** Deleting a blog just created gives the list as deleting it beforehand would. */
  lemma DeleteUndoesCreate(blogs: seq<BlogEntry>, created: BlogEntry)
    requires created.Post?
    ensures LocalDelete(LocalCreate(blogs, created), created.id) == LocalDelete(blogs, created.id)
  {
    assert LocalCreate(blogs, created) == [created] + blogs;
    FilterConcat([created], blogs, NotId(created.id));
    assert Filter([created], NotId(created.id)) == [];
  }

  /** Deleting an id nobody has leaves the list as it was. */
  lemma DeleteAbsent(blogs: seq<BlogEntry>, id: string)
    requires forall k :: 0 <= k < |blogs| ==> !HasId(id)(blogs[k])
    ensures LocalDelete(blogs, id) == blogs
  {
    FilterAll(blogs, NotId(id));
  }

  /** An edit of a listed id leaves the server's answer in the list. */
  lemma EditShowsUpdate(blogs: seq<BlogEntry>, id: string, updated: BlogEntry, k: nat)
    requires k < |blogs| && HasId(id)(blogs[k])
    ensures updated in LocalEdit(blogs, id, updated)
  {
    assert LocalEdit(blogs, id, updated)[k] == updated;
  }
}
