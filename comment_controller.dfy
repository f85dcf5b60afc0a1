/**
 * The comment controller: creation with validation, rate limiting and spam
 * classification; the public and admin listings; moderation (status, delete);
 * likes; replies; statistics. The comment collection is an object holding the
 * stored documents in insertion order.
 */
module CommentController {
  import opened Wrappers
  import opened Http
  import opened Strings
  import opened Seqs
  import SpamFilter
  import opened CommentModel

  /** Library code the controller calls that is not part of this model, passed in as functions. */
  datatype Libraries = Libraries(
    escape: string -> string,     // validator.escape
    isEmail: string -> bool,      // validator.isEmail
    emailPattern: string -> bool) // the e-mail regular expression of the comment schema

  /** `sanitizeInput`: escape the trimmed text. */
  function SanitizeInput(lib: Libraries, input: string): string {
    lib.escape(Trim(input))
  }

  /** `email.toLowerCase().trim()`. */
  function NormalizeEmail(email: string): string {
    Trim(Lower(email))
  }

  // ---------------------------------------------------------------- per-address rate limit

  const RateWindowMs: int := 5 * 60 * 1000
  const RateLimitCount: nat := 3

  function IsRecentFrom(email: string, now: int): Comment -> bool {
    (c: Comment) => c.email == email && c.createdAt >= now - RateWindowMs
  }

  /** Stored comments from this address created at or after five minutes before `now`. */
  function RecentCount(s: seq<Comment>, email: string, now: int): nat {
    Count(s, IsRecentFrom(email, now))
  }

  /** A comment from the same address at the same moment adds one to the count. */
  lemma RecentCountAppend(s: seq<Comment>, c: Comment, email: string, now: int)
    ensures RecentCount(s + [c], email, now) ==
      RecentCount(s, email, now) + (if c.email == email && c.createdAt >= now - RateWindowMs then 1 else 0)
  {
    CountAppend(s, c, IsRecentFrom(email, now));
  }

  // ---------------------------------------------------------------- building documents

  function IdOf(c: Comment): Id { c.id }

  function HasId(id: Id): Comment -> bool { (c: Comment) => c.id == id }

  predicate IdTaken(s: seq<Comment>, id: Id) {
    exists k :: 0 <= k < |s| && s[k].id == id
  }

  /** The lookup `findById` finds a document exactly when the id is taken. */
  lemma LookupIff(s: seq<Comment>, id: Id)
    ensures FirstIndex(s, HasId(id)).Some? <==> IdTaken(s, id)
  {
    if IdTaken(s, id) {
      var k :| 0 <= k < |s| && s[k].id == id;
      assert HasId(id)(s[k]);
    }
  }

  /**
   * The document the controller saves for a new comment or reply: sanitised fields,
   * the normalised address, the spam verdict on the sanitised content and the
   * status it implies, then the schema's setters.
   */
  function BuildComment(lib: Libraries, blogId: Id, name: string, email: string, website: string,
                        content: string, parent: Option<Id>, id: Id, now: int): Comment
  {
    var text := SanitizeInput(lib, content);
    var spam := SpamFilter.IsSpamComment(text);
    var doc := NewComment(id, blogId, SanitizeInput(lib, name), NormalizeEmail(email),
                          if website == [] then [] else SanitizeInput(lib, website), text, now);
    ApplySetters(doc.(status := if spam then Pending else Approved, isSpam := spam, parentComment := parent))
  }

  /** What every new comment or reply looks like. */
  lemma BuildCommentFacts(lib: Libraries, blogId: Id, name: string, email: string, website: string,
                          content: string, parent: Option<Id>, id: Id, now: int)
    ensures var c := BuildComment(lib, blogId, name, email, website, content, parent, id, now);
      && c.isSpam == SpamFilter.IsSpamComment(SanitizeInput(lib, content))
      && (c.status == Pending <==> c.isSpam)
      && (c.status == Approved <==> !c.isSpam)
      && c.email == NormalizeEmail(email)
      && IsTrimmed(c.name) && IsTrimmed(c.content) && IsTrimmed(c.website)
      && c.likes == 0 && c.replies == [] && c.parentComment == parent
      && c.id == id && c.blogId == blogId && c.createdAt == now
  {
    var e := Trim(Lower(email));
    TrimLower(email);
    assert e == Lower(Trim(email));
    TrimIdempotent(Lower(email));
    TrimLower(e);
    assert Lower(Trim(e)) == Lower(Lower(Trim(email)));
    LowerIdempotent(Trim(email));
    TrimTrimmed(SanitizeInput(lib, name));
    TrimTrimmed(SanitizeInput(lib, content));
    TrimTrimmed(if website == [] then [] else SanitizeInput(lib, website));
  }

  // ---------------------------------------------------------------- requests

  /** A comment submission; "" stands for a field that is absent or empty, as the handler only tests truthiness. */
  datatype CommentRequest = CommentRequest(blogId: Id, name: string, email: string, website: string, content: string)

  /** A reply submission to `POST /comments/:id/reply`. */
  datatype ReplyRequest = ReplyRequest(name: string, email: string, website: string, content: string)

  predicate MissingField(r: CommentRequest) {
    r.blogId == [] || r.name == [] || r.email == [] || r.content == []
  }

  predicate ReplyMissingField(r: ReplyRequest) {
    r.name == [] || r.email == [] || r.content == []
  }

  /** `/^[0-9a-fA-F]{24}$/`, the public listing's check of the blog id. */
  predicate IsObjectIdText(s: string) {
    |s| == 24 && forall k :: 0 <= k < |s| ==> IsHexDigit(s[k])
  }

  // ---------------------------------------------------------------- paging

  datatype Pagination = Pagination(currentPage: int, totalPages: nat, totalItems: nat, hasNext: bool, hasPrev: bool)

  /** `skip((page - 1) * limit).limit(limit)` on an ordered result. */
  function PageSlice<T>(s: seq<T>, page: int, limit: nat): (r: seq<T>)
    requires page >= 1 && limit >= 1
    ensures |r| <= limit
    ensures var skip := (page - 1) * limit;
      |r| == if skip >= |s| then 0 else if |s| - skip < limit then |s| - skip else limit
    ensures forall k :: 0 <= k < |r| ==> (page - 1) * limit + k < |s| && r[k] == s[(page - 1) * limit + k]
  {
    var skip := (page - 1) * limit;
    if skip >= |s| then [] else s[skip..if skip + limit <= |s| then skip + limit else |s|]
  }

  /** The pagination block of both listings: `totalPages = Math.ceil(total / limit)`. */
  function Paginate(total: nat, page: int, limit: nat): (p: Pagination)
    requires limit >= 1
    ensures p.totalPages * limit >= total && (p.totalPages == 0 || (p.totalPages - 1) * limit < total)
    ensures p.hasNext <==> page < p.totalPages
    ensures p.hasPrev <==> page > 1
  {
    var pages := CeilDiv(total, limit);
    Pagination(page, pages, total, page < pages, page > 1)
  }

  lemma MulMono(a: int, b: int, c: nat)
    requires a <= b
    ensures a * c <= b * c
  {
  }

  /** A page has items exactly when its number is at most the page count. */
  lemma PageNonEmptyIff<T>(s: seq<T>, page: int, limit: nat)
    requires page >= 1 && limit >= 1
    ensures |PageSlice(s, page, limit)| > 0 <==> page <= Paginate(|s|, page, limit).totalPages
  {
    var pages := Paginate(|s|, page, limit).totalPages;
    if page <= pages {
      MulMono(page - 1, pages - 1, limit);
    } else {
      MulMono(pages, page - 1, limit);
    }
  }

  /** Every item of the ordered result is on exactly the page its index says. */
  lemma ItemOnItsPage<T>(s: seq<T>, i: nat, limit: nat)
    requires i < |s| && limit >= 1
    ensures var page := i / limit + 1;
      && page <= Paginate(|s|, page, limit).totalPages
      && i % limit < |PageSlice(s, page, limit)|
      && PageSlice(s, page, limit)[i % limit] == s[i]
  {
    var page := i / limit + 1;
    assert (page - 1) * limit + i % limit == i;
    var slice := PageSlice(s, page, limit);
    assert (page - 1) * limit <= i;
    var end := if (page - 1) * limit + limit <= |s| then (page - 1) * limit + limit else |s|;
    assert slice == s[(page - 1) * limit..end];
    PageNonEmptyIff(s, page, limit);
  }

  lemma PageSliceSorted<T>(s: seq<T>, page: int, limit: nat, le: (T, T) -> bool)
    requires page >= 1 && limit >= 1 && SortedBy(s, le)
    ensures SortedBy(PageSlice(s, page, limit), le)
  {
    var r := PageSlice(s, page, limit);
    forall i, j | 0 <= i < j < |r| ensures le(r[i], r[j]) {
      assert r[i] == s[(page - 1) * limit + i] && r[j] == s[(page - 1) * limit + j];
    }
  }

  /** The number of documents `skip` passes over for a 1-based page number. */
  function Offset(page: int, limit: nat): nat
    requires page >= 1
  {
    MulMono(0, page - 1, limit);
    (page - 1) * limit
  }

  /**
   * One page of the matching documents in the requested order: the `limit`
   * matches (fewer on the last page) that follow the first `(page - 1) * limit`
   * of the sorted matches.
   */
  function SelectPage<T>(s: seq<T>, p: T -> bool, le: (T, T) -> bool, page: int, limit: nat): (r: seq<T>)
    requires page >= 1 && limit >= 1
    ensures |r| <= limit
    ensures var n := Count(s, p); var skip := Offset(page, limit);
      |r| == if skip >= n then 0 else if n - skip < limit then n - skip else limit
    ensures forall k :: 0 <= k < |r| ==>
              Offset(page, limit) + k < |SortBy(Filter(s, p), le)|
              && r[k] == SortBy(Filter(s, p), le)[Offset(page, limit) + k]
    ensures forall k :: 0 <= k < |r| ==> r[k] in s && p(r[k])
  {
    var o := SortBy(Filter(s, p), le);
    assert |o| == Count(s, p);
    var r := PageSlice(o, page, limit);
    forall k | 0 <= k < |r| ensures r[k] in s && p(r[k]) {
      PageMember(s, p, le, page, limit, k);
    }
    r
  }

  /** Every match is shown: the one of rank `i` in the requested order is on page `i / limit + 1`. */
  lemma SelectPageComplete<T>(s: seq<T>, p: T -> bool, le: (T, T) -> bool, i: nat, limit: nat)
    requires i < Count(s, p) && limit >= 1
    ensures i % limit < |SelectPage(s, p, le, i / limit + 1, limit)|
    ensures SelectPage(s, p, le, i / limit + 1, limit)[i % limit] == SortBy(Filter(s, p), le)[i]
  {
    ItemOnItsPage(SortBy(Filter(s, p), le), i, limit);
  }

  lemma SliceMember<T>(o: seq<T>, page: int, limit: nat, k: nat)
    requires page >= 1 && limit >= 1
    requires k < |PageSlice(o, page, limit)|
    ensures PageSlice(o, page, limit)[k] in o
  {
    assert PageSlice(o, page, limit)[k] == o[(page - 1) * limit + k];
  }

  lemma PageMember<T>(s: seq<T>, p: T -> bool, le: (T, T) -> bool, page: int, limit: nat, k: nat)
    requires page >= 1 && limit >= 1
    requires k < |PageSlice(SortBy(Filter(s, p), le), page, limit)|
    ensures PageSlice(SortBy(Filter(s, p), le), page, limit)[k] in s
    ensures p(PageSlice(SortBy(Filter(s, p), le), page, limit)[k])
  {
    SliceMember(SortBy(Filter(s, p), le), page, limit, k);
    SortedMember(Filter(s, p), le, PageSlice(SortBy(Filter(s, p), le), page, limit)[k]);
    FilterMember(s, p, PageSlice(SortBy(Filter(s, p), le), page, limit)[k]);
  }

  /** The page keeps the requested order. */
  lemma SelectPageSorted<T(!new)>(s: seq<T>, p: T -> bool, le: (T, T) -> bool, page: int, limit: nat)
    requires page >= 1 && limit >= 1 && TotalPreorder(le)
    ensures SortedBy(SelectPage(s, p, le, page, limit), le)
  {
    SortBySorted(Filter(s, p), le);
    PageSliceSorted(SortBy(Filter(s, p), le), page, limit, le);
  }

  lemma SortedMember<T>(s: seq<T>, le: (T, T) -> bool, x: T)
    requires x in SortBy(s, le)
    ensures x in s
  {
    assert x in multiset(SortBy(s, le));
  }

  lemma FilterMember<T>(s: seq<T>, p: T -> bool, x: T)
    requires x in Filter(s, p)
    ensures x in s && p(x)
  {
    var k :| 0 <= k < |Filter(s, p)| && Filter(s, p)[k] == x;
  }

  // ---------------------------------------------------------------- orderings

  /** The `sort` query: `oldest`, `likes` (then newest), anything else newest first. */
  predicate Precedes(sort: string, likesA: nat, atA: int, likesB: nat, atB: int) {
    if sort == "oldest" then atA <= atB
    else if sort == "likes" then likesA > likesB || (likesA == likesB && atA >= atB)
    else atA >= atB
  }

  function SortOrder(sort: string): (Comment, Comment) -> bool {
    (a: Comment, b: Comment) => Precedes(sort, a.likes, a.createdAt, b.likes, b.createdAt)
  }

  lemma SortOrderIsPreorder(sort: string)
    ensures TotalPreorder(SortOrder(sort))
  {
  }

  // ---------------------------------------------------------------- listings

  /** A comment as the public listing sends it: e-mail address and spam flag removed. */
  datatype PublicComment = PublicComment(
    id: Id, blogId: Id, name: string, website: string, content: string, status: CommentStatus,
    likes: nat, replies: seq<Id>, parentComment: Option<Id>, createdAt: int)

  function PublicView(c: Comment): PublicComment {
    PublicComment(c.id, c.blogId, c.name, c.website, c.content, c.status, c.likes, c.replies,
                  c.parentComment, c.createdAt)
  }

  function Views(s: seq<Comment>): (r: seq<PublicComment>)
    ensures |r| == |s|
    ensures forall k :: 0 <= k < |s| ==> r[k] == PublicView(s[k])
  {
    seq(|s|, k requires 0 <= k < |s| => PublicView(s[k]))
  }

  lemma ViewsKeepOrder(s: seq<Comment>, sort: string)
    requires SortedBy(s, SortOrder(sort))
    ensures forall i, j :: 0 <= i < j < |s| ==>
      Precedes(sort, Views(s)[i].likes, Views(s)[i].createdAt, Views(s)[j].likes, Views(s)[j].createdAt)
  {
    forall i, j | 0 <= i < j < |s|
      ensures Precedes(sort, Views(s)[i].likes, Views(s)[i].createdAt, Views(s)[j].likes, Views(s)[j].createdAt)
    {
      assert SortOrder(sort)(s[i], s[j]);
    }
  }

  /** The public listing's query: approved top-level comments of one post. */
  function VisibleOn(blogId: Id): Comment -> bool {
    (c: Comment) => c.blogId == blogId && c.status == Approved && c.parentComment == None
  }

  datatype PublicListing = PublicListing(comments: seq<PublicComment>, pagination: Pagination)

  /** The admin listing's filter; the free-text search is read as a case-insensitive substring. */
  function AdminFilter(status: string, blogId: string, search: string): Comment -> bool {
    (c: Comment) => && (status == [] || StatusName(c.status) == status)
         && (blogId == [] || c.blogId == blogId)
         && (search == [] || Contains(Lower(c.name), Lower(search))
             || Contains(Lower(c.email), Lower(search)) || Contains(Lower(c.content), Lower(search)))
  }

  /** A sequence in the `newest` order has non-increasing creation times. */
  lemma NewestFirst(s: seq<Comment>)
    requires SortedBy(s, SortOrder("newest"))
    ensures forall i, j :: 0 <= i < j < |s| ==> s[i].createdAt >= s[j].createdAt
  {
    forall i, j | 0 <= i < j < |s|
      ensures s[i].createdAt >= s[j].createdAt
    {
      assert SortOrder("newest")(s[i], s[j]);
    }
  }

  datatype AdminListing = AdminListing(comments: seq<Comment>, pagination: Pagination)

  datatype CommentStats = CommentStats(total: nat, approved: nat, pending: nat, spam: nat)

  function WithStatus(st: CommentStatus): Comment -> bool { (c: Comment) => c.status == st }

  function Flagged(): Comment -> bool { (c: Comment) => c.isSpam }

  /** Approved, pending and rejected comments partition the collection. */
  lemma StatusPartition(s: seq<Comment>)
    ensures Count(s, WithStatus(Approved)) + Count(s, WithStatus(Pending)) + Count(s, WithStatus(Rejected)) == |s|
  {
    var notApproved := (c: Comment) => c.status != Approved;
    FilterSplit(s, WithStatus(Approved), notApproved);
    CountDisjointUnion(s, WithStatus(Pending), WithStatus(Rejected), notApproved);
  }

  // ---------------------------------------------------------------- deletion helpers

  function IsReplyTo(id: Id): Comment -> bool { (c: Comment) => c.parentComment == Some(id) }

  function SurvivesDelete(id: Id): Comment -> bool { (c: Comment) => c.id != id && c.parentComment != Some(id) }

  predicate WellFormed(s: seq<Comment>) {
    && Distinct(s, IdOf)
    && forall k :: 0 <= k < |s| ==> s[k].parentComment != Some(s[k].id)
  }

  /** Adding a document with a fresh id that is not its own parent keeps the collection well formed. */
  lemma AppendWellFormed(s: seq<Comment>, c: Comment)
    requires WellFormed(s) && !IdTaken(s, c.id) && c.parentComment != Some(c.id)
    ensures WellFormed(s + [c])
  {
    var t := s + [c];
    forall i, j | 0 <= i < j < |t| ensures IdOf(t[i]) != IdOf(t[j]) {
      if j == |s| {
        assert t[i] == s[i];
      }
    }
  }

  /** Changing the replies of one document keeps the collection well formed. */
  lemma UpdateWellFormed(s: seq<Comment>, i: nat, c: Comment)
    requires WellFormed(s) && i < |s| && c.id == s[i].id && c.parentComment == s[i].parentComment
    ensures WellFormed(s[i := c])
  {
    var t := s[i := c];
    forall a, b | 0 <= a < b < |t| ensures IdOf(t[a]) != IdOf(t[b]) {
      assert IdOf(t[a]) == IdOf(s[a]) && IdOf(t[b]) == IdOf(s[b]);
    }
  }

  /** Recording a reply under its parent and adding it keeps the collection well formed. */
  lemma ReplyWellFormed(s: seq<Comment>, p: nat, reply: Comment)
    requires WellFormed(s) && p < |s| && !IdTaken(s, reply.id) && reply.parentComment == Some(s[p].id)
    ensures WellFormed(s[p := s[p].(replies := s[p].replies + [reply.id])] + [reply])
  {
    var updated := s[p := s[p].(replies := s[p].replies + [reply.id])];
    UpdateWellFormed(s, p, updated[p]);
    assert !IdTaken(updated, reply.id) by {
      forall k | 0 <= k < |updated| ensures updated[k].id != reply.id {
        assert updated[k].id == s[k].id;
      }
    }
    AppendWellFormed(updated, reply);
  }

  /** Deleting a comment with N direct replies removes N + 1 documents. */
  lemma DeleteCount(s: seq<Comment>, id: Id, i: nat)
    requires WellFormed(s) && i < |s| && s[i].id == id
    ensures |Filter(s, SurvivesDelete(id))| == |s| - 1 - Count(s, IsReplyTo(id))
  {
    var removed := (c: Comment) => c.id == id || c.parentComment == Some(id);
    FilterSplit(s, SurvivesDelete(id), removed);
    CountDisjointUnion(s, HasId(id), IsReplyTo(id), removed);
    CountSingle(s, HasId(id), i);
  }

  // ---------------------------------------------------------------- the collection

  class CommentStore {
    var comments: seq<Comment>

    ghost predicate Valid()
      reads this
    {
      WellFormed(comments)
    }

    constructor ()
      ensures Valid() && comments == []
    {
      comments := [];
    }

    /**
     * `createComment`: the checks in the handler's order (required fields, e-mail
     * format, post exists, rate limit), then the schema validation of `save()`.
     * A new document's id is supplied by the database; a clash fails the insert.
     */
    method Create(req: CommentRequest, blogIds: set<Id>, now: int, newId: Id, lib: Libraries)
      returns (out: Outcome<Comment>)
      requires Valid()
      modifies this
      ensures Valid()
      ensures MissingField(req) || !lib.isEmail(req.email) ==> out == BadRequest
      ensures !MissingField(req) && lib.isEmail(req.email) && req.blogId !in blogIds ==> out == NotFound
      ensures !MissingField(req) && lib.isEmail(req.email) && req.blogId in blogIds
              && RecentCount(old(comments), NormalizeEmail(req.email), now) >= RateLimitCount
              ==> out == TooManyRequests
      ensures out.Ok? <==>
              && !MissingField(req) && lib.isEmail(req.email) && req.blogId in blogIds
              && RecentCount(old(comments), NormalizeEmail(req.email), now) < RateLimitCount
              && !IdTaken(old(comments), newId)
              && SchemaValid(BuildComment(lib, req.blogId, req.name, req.email, req.website, req.content,
                                          None, newId, now), lib.emailPattern)
      ensures out.Ok? ==> out.value == BuildComment(lib, req.blogId, req.name, req.email, req.website,
                                                    req.content, None, newId, now)
      ensures out.Ok? ==> comments == old(comments) + [out.value]
      ensures !out.Ok? ==> comments == old(comments)
    {
      if MissingField(req) {
        return BadRequest;
      }
      if !lib.isEmail(req.email) {
        return BadRequest;
      }
      if req.blogId !in blogIds {
        return NotFound;
      }
      var email := NormalizeEmail(req.email);
      if RecentCount(comments, email, now) >= RateLimitCount {
        return TooManyRequests;
      }
      var doc := BuildComment(lib, req.blogId, req.name, req.email, req.website, req.content, None, newId, now);
      LookupIff(comments, newId);
      if FirstIndex(comments, HasId(newId)).Some? || !SchemaValid(doc, lib.emailPattern) {
        return ServerError;
      }
      BuildCommentFacts(lib, req.blogId, req.name, req.email, req.website, req.content, None, newId, now);
      AppendWellFormed(comments, doc);
      comments := comments + [doc];
      return Ok(doc);
    }

    /** `getCommentsByBlog`; a `limit` of 0 or less is not modelled. */
    function ListByBlog(blogId: string, page: int, limit: nat, sort: string, blogIds: set<Id>): (r: Outcome<PublicListing>)
      reads this
      requires limit >= 1
      ensures !IsObjectIdText(blogId) ==> r == BadRequest
      ensures IsObjectIdText(blogId) && blogId !in blogIds ==> r == NotFound
      ensures IsObjectIdText(blogId) && blogId in blogIds && page < 1 ==> r == ServerError
      ensures r.Ok? <==> page >= 1 && IsObjectIdText(blogId) && blogId in blogIds
      ensures r.Ok? ==> r.value.comments == Views(SelectPage(comments, VisibleOn(blogId), SortOrder(sort), page, limit))
      ensures r.Ok? ==> forall k :: 0 <= k < |r.value.comments| ==>
                var c := r.value.comments[k]; c.blogId == blogId && c.status == Approved && c.parentComment == None
      ensures r.Ok? ==> |r.value.comments| <= limit
      ensures r.Ok? ==> forall i, j :: 0 <= i < j < |r.value.comments| ==>
                Precedes(sort, r.value.comments[i].likes, r.value.comments[i].createdAt,
                         r.value.comments[j].likes, r.value.comments[j].createdAt)
      ensures r.Ok? ==> r.value.pagination == Paginate(Count(comments, VisibleOn(blogId)), page, limit)
    {
      if !IsObjectIdText(blogId) then BadRequest
      else if blogId !in blogIds then NotFound
      else if page < 1 then ServerError
      else
        var shown := SelectPage(comments, VisibleOn(blogId), SortOrder(sort), page, limit);
        SortOrderIsPreorder(sort);
        SelectPageSorted(comments, VisibleOn(blogId), SortOrder(sort), page, limit);
        ViewsKeepOrder(shown, sort);
        Ok(PublicListing(Views(shown), Paginate(Count(comments, VisibleOn(blogId)), page, limit)))
    }

    /** `getAllComments`: optional status, post and search filters, newest first; a `limit` of 0 or less is not modelled. */
    function ListAll(page: int, limit: nat, status: string, blogId: string, search: string): (r: Outcome<AdminListing>)
      reads this
      requires limit >= 1
      ensures page < 1 ==> r == ServerError
      ensures page >= 1 ==> r.Ok?
      ensures r.Ok? ==> r.value.comments == SelectPage(comments, AdminFilter(status, blogId, search), SortOrder("newest"), page, limit)
      ensures r.Ok? ==> forall k :: 0 <= k < |r.value.comments| ==>
                r.value.comments[k] in comments && AdminFilter(status, blogId, search)(r.value.comments[k])
      ensures r.Ok? ==> |r.value.comments| <= limit
      ensures r.Ok? ==> forall i, j :: 0 <= i < j < |r.value.comments| ==>
                r.value.comments[i].createdAt >= r.value.comments[j].createdAt
      ensures r.Ok? ==> r.value.pagination == Paginate(Count(comments, AdminFilter(status, blogId, search)), page, limit)
    {
      if page < 1 then ServerError
      else
        var shown := SelectPage(comments, AdminFilter(status, blogId, search), SortOrder("newest"), page, limit);
        SortOrderIsPreorder("newest");
        SelectPageSorted(comments, AdminFilter(status, blogId, search), SortOrder("newest"), page, limit);
        NewestFirst(shown);
        Ok(AdminListing(shown, Paginate(Count(comments, AdminFilter(status, blogId, search)), page, limit)))
    }

    /** `updateCommentStatus`: the name is checked before the id is looked up. */
    method UpdateStatus(id: Id, status: string) returns (out: Outcome<Comment>)
      requires Valid()
      modifies this
      ensures Valid()
      ensures ParseStatus(status).None? ==> out == BadRequest
      ensures ParseStatus(status).Some? && !IdTaken(old(comments), id) ==> out == NotFound
      ensures ParseStatus(status).Some? && IdTaken(old(comments), id) ==> out.Ok?
      ensures !out.Ok? ==> comments == old(comments)
      ensures out.Ok? ==> ParseStatus(status).Some? && out.value.id == id && out.value.status == ParseStatus(status).value
      ensures out.Ok? ==> |comments| == |old(comments)| && forall k :: 0 <= k < |comments| ==>
                comments[k] == if old(comments)[k].id == id then old(comments)[k].(status := ParseStatus(status).value)
                               else old(comments)[k]
    {
      var st := ParseStatus(status);
      if st.None? {
        return BadRequest;
      }
      LookupIff(comments, id);
      var found := FirstIndex(comments, HasId(id));
      if found.None? {
        return NotFound;
      }
      var i := found.value;
      var updated := comments[i].(status := st.value);
      comments := comments[i := updated];
      return Ok(updated);
    }

    /** `deleteComment`: the comment and its direct replies; deeper replies stay. */
    method Delete(id: Id) returns (out: Outcome<()>)
      requires Valid()
      modifies this
      ensures Valid()
      ensures out.NotFound? <==> !IdTaken(old(comments), id)
      ensures out.NotFound? || out.Ok?
      ensures out.NotFound? ==> comments == old(comments)
      ensures out.Ok? ==> forall c :: c in old(comments) ==>
                (c in comments <==> c.id != id && c.parentComment != Some(id))
      ensures out.Ok? ==> forall c :: c in comments ==> c in old(comments)
      ensures out.Ok? ==> |comments| == |old(comments)| - 1 - Count(old(comments), IsReplyTo(id))
    {
      var found := FirstIndex(comments, HasId(id));
      if found.None? {
        return NotFound;
      }
      DeleteCount(comments, id, found.value);
      FilterDistinct(comments, IdOf, SurvivesDelete(id));
      comments := Filter(comments, SurvivesDelete(id));
      return Ok(());
    }

    /** `toggleCommentLike`: `like` adds one, `unlike` takes one off a positive count, anything else keeps it. */
    method ToggleLike(id: Id, action: string) returns (out: Outcome<nat>)
      requires Valid()
      modifies this
      ensures Valid()
      ensures out.NotFound? <==> !IdTaken(old(comments), id)
      ensures out.NotFound? || out.Ok?
      ensures out.NotFound? ==> comments == old(comments)
      ensures out.Ok? ==> |comments| == |old(comments)| && forall k :: 0 <= k < |comments| ==>
                if old(comments)[k].id == id then
                  && comments[k] == old(comments)[k].(likes := comments[k].likes)
                  && comments[k].likes == out.value
                  && out.value == (if action == "like" then old(comments)[k].likes + 1
                                   else if action == "unlike" && old(comments)[k].likes > 0 then old(comments)[k].likes - 1
                                   else old(comments)[k].likes)
                else comments[k] == old(comments)[k]
    {
      var found := FirstIndex(comments, HasId(id));
      if found.None? {
        return NotFound;
      }
      var i := found.value;
      var likes := comments[i].likes;
      if action == "like" {
        likes := likes + 1;
      } else if action == "unlike" && likes > 0 {
        likes := likes - 1;
      }
      comments := comments[i := comments[i].(likes := likes)];
      return Ok(likes);
    }

    /**
     * `replyToComment`: no e-mail format check and no rate limit on this path; the
     * schema's e-mail pattern still applies at `save()`. The reply takes the
     * parent's post and its id is appended to the parent's replies.
     */
    method Reply(parentId: Id, req: ReplyRequest, now: int, newId: Id, lib: Libraries)
      returns (out: Outcome<Comment>)
      requires Valid()
      modifies this
      ensures Valid()
      ensures ReplyMissingField(req) ==> out == BadRequest
      ensures !ReplyMissingField(req) && !IdTaken(old(comments), parentId) ==> out == NotFound
      ensures out.BadRequest? || out.NotFound? || out.ServerError? || out.Ok?
      ensures !ReplyMissingField(req) && FirstIndex(old(comments), HasId(parentId)).Some? ==>
                (out.Ok? <==>
                   && !IdTaken(old(comments), newId)
                   && SchemaValid(BuildComment(lib, old(comments)[FirstIndex(old(comments), HasId(parentId)).value].blogId,
                                               req.name, req.email, req.website, req.content, Some(parentId), newId, now),
                                  lib.emailPattern))
      ensures !out.Ok? ==> comments == old(comments)
      ensures out.Ok? ==> IdTaken(old(comments), parentId) && !IdTaken(old(comments), newId)
      ensures out.Ok? ==>
                var p := FirstIndex(old(comments), HasId(parentId)).value;
                && out.value == BuildComment(lib, old(comments)[p].blogId, req.name, req.email, req.website,
                                             req.content, Some(parentId), newId, now)
                && SchemaValid(out.value, lib.emailPattern)
                && comments == old(comments)[p := old(comments)[p].(replies := old(comments)[p].replies + [newId])]
                               + [out.value]
    {
      if ReplyMissingField(req) {
        return BadRequest;
      }
      LookupIff(comments, parentId);
      var found := FirstIndex(comments, HasId(parentId));
      if found.None? {
        return NotFound;
      }
      var p := found.value;
      var parent := comments[p];
      var reply := BuildComment(lib, parent.blogId, req.name, req.email, req.website, req.content,
                                Some(parentId), newId, now);
      LookupIff(comments, newId);
      if FirstIndex(comments, HasId(newId)).Some? || !SchemaValid(reply, lib.emailPattern) {
        return ServerError;
      }
      BuildCommentFacts(lib, parent.blogId, req.name, req.email, req.website, req.content, Some(parentId), newId, now);
      ReplyWellFormed(comments, p, reply);
      var updated := comments[p := parent.(replies := parent.replies + [newId])];
      comments := updated + [reply];
      return Ok(reply);
    }

    /**
     * `getCommentStats`: each figure is the number of stored documents the
     * matching status tab or spam filter would list; the rejected ones make up
     * the rest of the total.
     */
    function Stats(): (r: CommentStats)
      reads this
      ensures r.total == |comments|
      ensures r.approved == |Filter(comments, WithStatus(Approved))|
      ensures r.pending == |Filter(comments, WithStatus(Pending))|
      ensures r.spam == |Filter(comments, Flagged())| && r.spam <= r.total
      ensures r.approved + r.pending + Count(comments, WithStatus(Rejected)) == r.total
    {
      StatusPartition(comments);
      CommentStats(|comments|, Count(comments, WithStatus(Approved)), Count(comments, WithStatus(Pending)),
                   Count(comments, Flagged()))
    }
  }

  /**
   * With no recent comment from an address, its first, second and third submissions
   * within the window pass the limit check and the fourth does not: the handler
   * counts the earlier comments before inserting.
   */
  lemma {:induction false} FourthSubmissionRefused(s: seq<Comment>, a: Comment, b: Comment, c: Comment, now: int)
    requires RecentCount(s, a.email, now) == 0
    requires a.email == b.email == c.email && a.createdAt == b.createdAt == c.createdAt == now
    ensures RecentCount(s, a.email, now) < RateLimitCount
    ensures RecentCount(s + [a], a.email, now) < RateLimitCount
    ensures RecentCount(s + [a] + [b], a.email, now) < RateLimitCount
    ensures RecentCount(s + [a] + [b] + [c], a.email, now) >= RateLimitCount
  {
    RecentCountAppend(s, a, a.email, now);
    RecentCountAppend(s + [a], b, a.email, now);
    RecentCountAppend(s + [a] + [b], c, a.email, now);
  }
}
