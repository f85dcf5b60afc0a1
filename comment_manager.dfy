/**
 * The comment moderation screen of the admin panel: the five-button pager,
 * the client-side status/search filter used on its fallback path, the status
 * counters, and the list rebuilds that follow a status change or a delete.
 */
module CommentManager {
  import opened Strings
  import opened Seqs

  /** A comment as the screen holds it. */
  datatype ClientComment = ClientComment(id: string, name: string, email: string, content: string, status: string)

  // ---------------------------------------------------------------- pager

  const PagerButtons := 5

  /** The page number shown on button `index`. */
  function PageNumber(index: nat, currentPage: int, totalPages: nat): int {
    if totalPages <= PagerButtons then index + 1
    else if currentPage <= 3 then index + 1
    else if currentPage >= totalPages - 2 then totalPages - 4 + index
    else currentPage - 2 + index
  }

  /**
   * The numbered buttons: `min(5, totalPages)` of them, consecutive and all
   * naming an existing page, whatever the current page is.
   */
  function PagerWindow(currentPage: int, totalPages: nat): (r: seq<int>)
    ensures |r| == if totalPages < PagerButtons then totalPages else PagerButtons
    ensures forall k :: 0 <= k < |r| - 1 ==> r[k + 1] == r[k] + 1
    ensures forall k :: 0 <= k < |r| ==> 1 <= r[k] <= totalPages
  {
    var n := if totalPages < PagerButtons then totalPages else PagerButtons;
    seq(n, index requires 0 <= index < n => PageNumber(index, currentPage, totalPages))
  }

  /** On a real page the window shows that page, and with few pages it shows all of them. */
  lemma PagerWindowShowsCurrent(currentPage: int, totalPages: nat)
    requires 1 <= currentPage <= totalPages
    ensures currentPage in PagerWindow(currentPage, totalPages)
    ensures totalPages <= PagerButtons ==>
              PagerWindow(currentPage, totalPages) == seq(totalPages, k requires 0 <= k < totalPages => k + 1)
  {
    var r := PagerWindow(currentPage, totalPages);
    var k: nat :=
      if totalPages <= PagerButtons || currentPage <= 3 then currentPage - 1
      else if currentPage >= totalPages - 2 then currentPage - totalPages + 4
      else 2;
    assert r[k] == currentPage;
  }

  // ---------------------------------------------------------------- filter used when the server is unreachable

  function StatusIs(status: string): ClientComment -> bool {
    (c: ClientComment) => c.status == status
  }

  /** The search term occurs, ignoring ASCII case, in the name, the content or the email. */
  function SearchHit(term: string): ClientComment -> bool {
    (c: ClientComment) =>
      || Contains(Lower(c.name), Lower(term))
      || Contains(Lower(c.content), Lower(term))
      || Contains(Lower(c.email), Lower(term))
  }

  /** The status filter, then the search filter when a term is given. */
  function MockFilter(cs: seq<ClientComment>, filter: string, term: string): seq<ClientComment> {
    var byStatus := if filter != "all" then Filter(cs, StatusIs(filter)) else cs;
    if term != "" then Filter(byStatus, SearchHit(term)) else byStatus
  }

  predicate Kept(filter: string, term: string, c: ClientComment) {
    (filter == "all" || c.status == filter) && SearchHit(term)(c)
  }

  /** A comment survives the filter exactly when its status fits and the term occurs in it; "" occurs everywhere. */
  lemma MockFilterIff(cs: seq<ClientComment>, filter: string, term: string, c: ClientComment)
    ensures c in MockFilter(cs, filter, term) <==> c in cs && Kept(filter, term, c)
  {
    if term == "" {
      assert Lower(term) == "";
      EmptyContained(Lower(c.name));
    }
    var byStatus := if filter != "all" then Filter(cs, StatusIs(filter)) else cs;
    if c in byStatus {
      var k :| 0 <= k < |byStatus| && byStatus[k] == c;
    }
    if c in cs && (filter == "all" || c.status == filter) {
      var k :| 0 <= k < |cs| && cs[k] == c;
      assert c in byStatus;
      var j :| 0 <= j < |byStatus| && byStatus[j] == c;
    }
    var r := MockFilter(cs, filter, term);
    if c in r {
      var k :| 0 <= k < |r| && r[k] == c;
    }
  }

  datatype MockListing = MockListing(comments: seq<ClientComment>, totalComments: nat, totalPages: nat)

  /** What the fallback path shows: the filtered comments, their number and `ceil(n / 10)` pages of ten. */
  function MockListingOf(cs: seq<ClientComment>, filter: string, term: string): (r: MockListing)
    ensures r.comments == MockFilter(cs, filter, term) && r.totalComments == |r.comments|
    ensures r.totalPages * 10 >= r.totalComments
    ensures r.totalPages > 0 ==> (r.totalPages - 1) * 10 < r.totalComments
    ensures r.totalPages == 0 <==> r.comments == []
  {
    var shown := MockFilter(cs, filter, term);
    MockListing(shown, |shown|, CeilDiv(|shown|, 10))
  }

  // ---------------------------------------------------------------- counters

  datatype ClientStats = ClientStats(total: nat, approved: nat, pending: nat, rejected: nat)

  function ApprovedOrPending(): ClientComment -> bool {
    (c: ClientComment) => c.status == "approved" || c.status == "pending"
  }

  function AnyKnownStatus(): ClientComment -> bool {
    (c: ClientComment) => c.status == "approved" || c.status == "pending" || c.status == "rejected"
  }

  /**
   * The counters computed from the list on screen: each status count is what
   * the matching status tab would list, together they never exceed the list,
   * and the total is the server's figure unless that is 0.
   */
  function StatsFromComments(comments: seq<ClientComment>, totalComments: nat): (r: ClientStats)
    ensures r.approved == |MockFilter(comments, "approved", "")|
    ensures r.pending == |MockFilter(comments, "pending", "")|
    ensures r.rejected == |MockFilter(comments, "rejected", "")|
    ensures r.approved + r.pending + r.rejected <= |comments|
    ensures r.total == (if totalComments != 0 then totalComments else |comments|)
  {
    var approved := Count(comments, StatusIs("approved"));
    var pending := Count(comments, StatusIs("pending"));
    var rejected := Count(comments, StatusIs("rejected"));
    CountDisjointUnion(comments, StatusIs("approved"), StatusIs("pending"), ApprovedOrPending());
    CountDisjointUnion(comments, ApprovedOrPending(), StatusIs("rejected"), AnyKnownStatus());
    assert Count(comments, AnyKnownStatus()) <= |comments|;
    ClientStats(if totalComments != 0 then totalComments else |comments|, approved, pending, rejected)
  }

  // ---------------------------------------------------------------- local updates

  /** The list after a successful status change: only the comments with that id take the new status. */
  function LocalStatusChange(cs: seq<ClientComment>, id: string, newStatus: string): (r: seq<ClientComment>)
    ensures |r| == |cs|
    ensures forall k :: 0 <= k < |cs| ==>
              && r[k].id == cs[k].id && r[k].name == cs[k].name
              && r[k].email == cs[k].email && r[k].content == cs[k].content
              && r[k].status == (if cs[k].id == id then newStatus else cs[k].status)
    ensures forall k :: 0 <= k < |cs| && cs[k].id != id ==> r[k] == cs[k]
  {
    seq(|cs|, k requires 0 <= k < |cs| => if cs[k].id == id then cs[k].(status := newStatus) else cs[k])
  }

  lemma StatusChangeIdempotent(cs: seq<ClientComment>, id: string, newStatus: string)
    ensures LocalStatusChange(LocalStatusChange(cs, id, newStatus), id, newStatus) == LocalStatusChange(cs, id, newStatus)
  {
  }

  /** After the change every comment with that id is listed under the new status. */
  lemma StatusChangeListed(cs: seq<ClientComment>, id: string, newStatus: string, k: nat)
    requires k < |cs| && cs[k].id == id
    ensures LocalStatusChange(cs, id, newStatus)[k] in MockFilter(LocalStatusChange(cs, id, newStatus), newStatus, "")
  {
    var r := LocalStatusChange(cs, id, newStatus);
    MockFilterIff(r, newStatus, "", r[k]);
  }

  function NotId(id: string): ClientComment -> bool {
    (c: ClientComment) => c.id != id
  }

  function HasId(id: string): ClientComment -> bool {
    (c: ClientComment) => c.id == id
  }

  /** The list after a successful delete: the comments with that id are gone and nothing else is. */
  function LocalDelete(cs: seq<ClientComment>, id: string): (r: seq<ClientComment>)
    ensures forall k :: 0 <= k < |r| ==> r[k] in cs && r[k].id != id
    ensures forall k :: 0 <= k < |cs| && cs[k].id != id ==> cs[k] in r
    ensures |r| == |cs| - Count(cs, HasId(id))
  {
    FilterSplit(cs, HasId(id), NotId(id));
    Filter(cs, NotId(id))
  }

  /** Deleting keeps the order of what is left: it works piece by piece. */
  lemma DeleteKeepsOrder(a: seq<ClientComment>, b: seq<ClientComment>, id: string)
    ensures LocalDelete(a + b, id) == LocalDelete(a, id) + LocalDelete(b, id)
  {
    FilterConcat(a, b, NotId(id));
  }

  /** Deleting an id nobody has leaves the list as it was. */
  lemma DeleteAbsent(cs: seq<ClientComment>, id: string)
    requires forall k :: 0 <= k < |cs| ==> cs[k].id != id
    ensures LocalDelete(cs, id) == cs
  {
    FilterAll(cs, NotId(id));
  }
}
