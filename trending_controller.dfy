/**
 * The trending-post handlers: the public list of active slots, the admin list,
 * and create/update/delete guarded by the "position already occupied" check.
 */
module TrendingController {
  import opened Wrappers
  import opened Strings
  import opened Seqs
  import opened Http
  import opened TrendingModel

  /** A create request; "" stands for a falsy `blogRef`. */
  datatype CreateRequest = CreateRequest(title: string, author: string, position: int, blogRef: string)

  /** `blogRef || null`: an empty reference is stored as no reference. */
  function BlogRefOrNull(blogRef: string): (r: Option<Id>)
    ensures r.None? <==> blogRef == []
    ensures r.Some? ==> r.value == blogRef
  {
    if blogRef == [] then None else Some(blogRef)
  }

  /**
   * An update request. A falsy `title`, `author` or `position` is written "" or 0;
   * `blogRef` and `isActive` are `None` when the body leaves them undefined.
   */
  datatype UpdateRequest = UpdateRequest(
    title: string, author: string, position: int, blogRef: Option<Option<Id>>, isActive: Option<bool>)

  /** An item of the public list: `number` is the slot. */
  datatype TrendingEntry = TrendingEntry(id: Id, number: int, title: string, author: string,
                                         blogRef: Option<Id>, createdAt: int)

  /** An item of the admin list, which also shows inactive documents. */
  datatype AdminEntry = AdminEntry(id: Id, number: int, title: string, author: string, blogRef: Option<Id>,
                                   isActive: bool, addedBy: Id, createdAt: int)

  function HasId(id: Id): TrendingPost -> bool { (p: TrendingPost) => p.id == id }

  function NotId(id: Id): TrendingPost -> bool { (p: TrendingPost) => p.id != id }

  predicate IdTaken(s: seq<TrendingPost>, id: Id) {
    exists k :: 0 <= k < |s| && s[k].id == id
  }

  lemma LookupIff(s: seq<TrendingPost>, id: Id)
    ensures FirstIndex(s, HasId(id)).Some? <==> IdTaken(s, id)
  {
    if IdTaken(s, id) {
      var k :| 0 <= k < |s| && s[k].id == id;
      assert HasId(id)(s[k]);
    }
  }

  /** `findOne({ position, isActive: true, _id: { $ne: except } })` finds a document. */
  predicate ActiveAt(s: seq<TrendingPost>, position: int, except: Option<Id>) {
    exists k :: 0 <= k < |s| && s[k].isActive && s[k].position == position && Some(s[k].id) != except
  }

  /** Writing `doc` at index `i` would duplicate another document's `(position, isActive)` key. */
  predicate IndexClash(s: seq<TrendingPost>, i: nat, doc: TrendingPost) {
    exists j :: 0 <= j < |s| && j != i && s[j].position == doc.position && s[j].isActive == doc.isActive
  }

  /** The `Object.assign` merge of an update, with the schema's `trim` setters. */
  function Merge(p: TrendingPost, req: UpdateRequest): (r: TrendingPost)
    ensures r.id == p.id && r.addedBy == p.addedBy && r.createdAt == p.createdAt
    ensures r.title == Trim(if req.title == [] then p.title else req.title)
    ensures r.author == Trim(if req.author == [] then p.author else req.author)
    ensures r.position == if req.position == 0 then p.position else req.position
    ensures r.blogRef == if req.blogRef.None? then p.blogRef else req.blogRef.value
    ensures r.isActive == if req.isActive.None? then p.isActive else req.isActive.value
  {
    p.(title := Trim(if req.title == [] then p.title else req.title),
       author := Trim(if req.author == [] then p.author else req.author),
       position := if req.position == 0 then p.position else req.position,
       blogRef := if req.blogRef.None? then p.blogRef else req.blogRef.value,
       isActive := if req.isActive.None? then p.isActive else req.isActive.value)
  }

  /** An update that sends nothing leaves a stored document as it is. */
  lemma EmptyUpdateKeeps(p: TrendingPost)
    requires FieldsValid(p)
    ensures Merge(p, UpdateRequest([], [], 0, None, None)) == p
  {
    var r := Merge(p, UpdateRequest([], [], 0, None, None));
    TrimmedFixed(p.title);
    TrimmedFixed(p.author);
    assert r.title == p.title && r.author == p.author;
    assert r.position == p.position && r.blogRef == p.blogRef && r.isActive == p.isActive;
  }

  // ---------------------------------------------------------------- lists

  function ByPosition(): (TrendingPost, TrendingPost) -> bool {
    (a: TrendingPost, b: TrendingPost) => a.position <= b.position
  }

  lemma ByPositionIsPreorder()
    ensures TotalPreorder(ByPosition())
  {
  }

  /** `find({ isActive: true }).sort({ position: 1 })`. */
  function ActiveByPosition(s: seq<TrendingPost>): (r: seq<TrendingPost>)
    ensures multiset(r) == multiset(Filter(s, Active()))
    ensures SortedBy(r, ByPosition())
  {
    ByPositionIsPreorder();
    SortBySorted(Filter(s, Active()), ByPosition());
    SortBy(Filter(s, Active()), ByPosition())
  }

  function PublicEntry(p: TrendingPost): TrendingEntry {
    TrendingEntry(p.id, p.position, p.title, p.author, p.blogRef, p.createdAt)
  }

  /** `getTrendingPosts`. */
  function PublicList(s: seq<TrendingPost>): (r: seq<TrendingEntry>)
    ensures |r| == Count(s, Active())
    ensures forall k :: 0 <= k < |r| ==> r[k] == PublicEntry(ActiveByPosition(s)[k])
  {
    var ordered := ActiveByPosition(s);
    assert |ordered| == |multiset(ordered)|;
    seq(|ordered|, k requires 0 <= k < |ordered| => PublicEntry(ordered[k]))
  }

  lemma SortedMember(s: seq<TrendingPost>, x: TrendingPost)
    requires x in ActiveByPosition(s)
    ensures x in s && x.isActive
  {
    assert x in multiset(ActiveByPosition(s));
    assert x in Filter(s, Active());
    var k :| 0 <= k < |Filter(s, Active())| && Filter(s, Active())[k] == x;
  }

  lemma ActiveListed(s: seq<TrendingPost>, k: nat)
    requires k < |s| && s[k].isActive
    ensures s[k] in ActiveByPosition(s)
  {
    assert s[k] in Filter(s, Active());
    assert s[k] in multiset(ActiveByPosition(s));
  }

  /** Every active document is on the public list under its own slot number. */
  lemma PublicListComplete(s: seq<TrendingPost>)
    ensures forall k :: 0 <= k < |s| && s[k].isActive ==> PublicEntry(s[k]) in PublicList(s)
  {
    var ordered := ActiveByPosition(s);
    var r := PublicList(s);
    forall k | 0 <= k < |s| && s[k].isActive ensures PublicEntry(s[k]) in r {
      ActiveListed(s, k);
      var i :| 0 <= i < |ordered| && ordered[i] == s[k];
      assert r[i] == PublicEntry(s[k]);
    }
  }

  /** `e` is the public form of an active document of `s`, numbered by its position. */
  predicate FromActiveSlot(s: seq<TrendingPost>, e: TrendingEntry) {
    exists j :: 0 <= j < |s| && s[j].isActive && e == PublicEntry(s[j]) && e.number == s[j].position
  }

  /** Only active documents are on the public list, and `number` is the document's position. */
  lemma PublicListSound(s: seq<TrendingPost>)
    ensures forall k :: 0 <= k < |PublicList(s)| ==> FromActiveSlot(s, PublicList(s)[k])
  {
    forall k | 0 <= k < |PublicList(s)|
      ensures FromActiveSlot(s, PublicList(s)[k])
    {
      PublicEntrySound(s, k);
    }
  }

  lemma PublicEntrySound(s: seq<TrendingPost>, k: nat)
    requires k < |PublicList(s)|
    ensures FromActiveSlot(s, PublicList(s)[k])
  {
    var ordered := ActiveByPosition(s);
    assert |ordered| == |multiset(ordered)|;
    SortedMember(s, ordered[k]);
    var j :| 0 <= j < |s| && s[j] == ordered[k];
    assert PublicList(s)[k] == PublicEntry(s[j]);
  }

  /** In a valid collection the public list's numbers strictly increase, and there are at most ten. */
  lemma PublicListAscending(s: seq<TrendingPost>)
    requires TableValid(s)
    ensures forall i, j :: 0 <= i < j < |PublicList(s)| ==> PublicList(s)[i].number < PublicList(s)[j].number
    ensures |PublicList(s)| <= MaxPosition
  {
    var ordered := ActiveByPosition(s);
    var r := PublicList(s);
    assert |ordered| == |multiset(ordered)|;
    forall i, j | 0 <= i < j < |r| ensures r[i].number < r[j].number {
      assert ByPosition()(ordered[i], ordered[j]);
      DistinctActiveEntries(s, ordered, i, j);
    }
    TableBounded(s);
  }

  /** Two places of the active list hold different documents. */
  lemma DistinctActiveEntries(s: seq<TrendingPost>, ordered: seq<TrendingPost>, i: nat, j: nat)
    requires TableValid(s) && ordered == ActiveByPosition(s) && i < j < |ordered|
    ensures ordered[i].position != ordered[j].position
  {
    var f := Filter(s, Active());
    FlagPositionsDistinct(s, true);
    HoldsTwice(f, ordered, i, j);
  }

  /** A rearrangement of a sequence with distinct positions has distinct positions. */
  lemma HoldsTwice(f: seq<TrendingPost>, ordered: seq<TrendingPost>, i: nat, j: nat)
    requires PositionsDistinct(f) && multiset(ordered) == multiset(f) && i < j < |ordered|
    ensures ordered[i].position != ordered[j].position
  {
    if ordered[i].position == ordered[j].position {
      assert ordered[i] in multiset(f) && ordered[j] in multiset(f);
      var a :| 0 <= a < |f| && f[a] == ordered[i];
      var b :| 0 <= b < |f| && f[b] == ordered[j];
      // equal positions force the same place in `f`, hence the same document twice
      assert a == b;
      assert multiset(ordered)[ordered[i]] >= 2 by {
        var m := multiset(ordered[..j]);
        assert ordered[i] in ordered[..j];
        assert ordered == ordered[..j] + [ordered[j]] + ordered[j + 1..];
      }
      SingleOccurrence(f, a);
    }
  }

  /** In a sequence with distinct positions each document occurs once. */
  lemma {:induction false} SingleOccurrence(f: seq<TrendingPost>, a: nat)
    requires PositionsDistinct(f) && a < |f|
    ensures multiset(f)[f[a]] == 1
  {
    if a == 0 {
      forall k | 0 <= k < |f[1..]| ensures f[1..][k] != f[0] {
        assert f[1..][k] == f[k + 1];
      }
      assert f == [f[0]] + f[1..];
      assert f[0] !in f[1..];
    } else {
      SingleOccurrence(f[1..], a - 1);
      assert f == [f[0]] + f[1..];
      assert f[0] != f[a];
    }
  }

  function AdminEntryOf(p: TrendingPost): AdminEntry {
    AdminEntry(p.id, p.position, p.title, p.author, p.blogRef, p.isActive, p.addedBy, p.createdAt)
  }

  /** `find({}).sort({ position: 1 })`: every document, active or not. */
  function AllByPosition(s: seq<TrendingPost>): (r: seq<TrendingPost>)
    ensures multiset(r) == multiset(s)
    ensures SortedBy(r, ByPosition())
  {
    ByPositionIsPreorder();
    SortBySorted(s, ByPosition());
    SortBy(s, ByPosition())
  }

  /** `getAllTrendingPostsAdmin`: the whole collection by ascending position. */
  function AdminList(s: seq<TrendingPost>): (r: seq<AdminEntry>)
    ensures |r| == |s|
    ensures forall k :: 0 <= k < |r| ==> r[k] == AdminEntryOf(AllByPosition(s)[k])
    ensures forall i, j :: 0 <= i < j < |r| ==> r[i].number <= r[j].number
  {
    var ordered := AllByPosition(s);
    assert |ordered| == |multiset(ordered)|;
    assert forall i, j :: 0 <= i < j < |ordered| ==> ByPosition()(ordered[i], ordered[j]);
    seq(|ordered|, k requires 0 <= k < |ordered| => AdminEntryOf(ordered[k]))
  }

  // ---------------------------------------------------------------- the collection

  class TrendingTable {
    var posts: seq<TrendingPost>

    ghost predicate Valid()
      reads this
    {
      TableValid(posts)
    }

    constructor ()
      ensures Valid() && posts == []
    {
      posts := [];
    }

    /**
     * `createTrendingPost`: refused with 400 when an active document holds the
     * slot; the body's `isActive` is ignored, so the document starts active.
     */
    method Create(req: CreateRequest, newId: Id, user: Id, now: int) returns (out: Outcome<TrendingEntry>)
      requires Valid()
      modifies this
      ensures Valid()
      ensures ActiveAt(old(posts), req.position, None) ==> out == BadRequest
      ensures out.BadRequest? || out.ServerError? || out.Ok?
      ensures out.Ok? <==>
                && !ActiveAt(old(posts), req.position, None) && !IdTaken(old(posts), newId)
                && FieldsValid(NewPost(newId, req.title, req.author, req.position,
                                       BlogRefOrNull(req.blogRef), user, now))
      ensures out.Ok? ==>
                var doc := NewPost(newId, req.title, req.author, req.position,
                                   BlogRefOrNull(req.blogRef), user, now);
                posts == old(posts) + [doc] && out.value == PublicEntry(doc)
      ensures out.Ok? ==>
                && out.value.id == newId && out.value.number == req.position
                && out.value.title == Trim(req.title) && out.value.author == Trim(req.author)
                && out.value.blogRef == BlogRefOrNull(req.blogRef) && out.value.createdAt == now
      ensures !out.Ok? ==> posts == old(posts)
    {
      var taken := FirstIndex(posts, (p: TrendingPost) => p.isActive && p.position == req.position);
      if taken.Some? {
        return BadRequest;
      }
      assert !ActiveAt(posts, req.position, None) by {
        forall k | 0 <= k < |posts| ensures !(posts[k].isActive && posts[k].position == req.position) {
          assert !(((p: TrendingPost) => p.isActive && p.position == req.position)(posts[k]));
        }
      }
      var doc := NewPost(newId, req.title, req.author, req.position,
                         BlogRefOrNull(req.blogRef), user, now);
      LookupIff(posts, newId);
      if FirstIndex(posts, HasId(newId)).Some? || !FieldsValid(doc) {
        return ServerError;
      }
      AppendValid(posts, doc);
      posts := posts + [doc];
      return Ok(PublicEntry(doc));
    }

    /**
     * `updateTrendingPost`: the occupied-slot check runs only when a new, different
     * position is sent; the merged document must then pass the validators and the
     * unique index when saved.
     */
    method Update(id: Id, req: UpdateRequest) returns (out: Outcome<TrendingEntry>)
      requires Valid()
      modifies this
      ensures Valid()
      ensures !IdTaken(old(posts), id) ==> out == NotFound
      ensures out.NotFound? <==> !IdTaken(old(posts), id)
      ensures out.NotFound? || out.BadRequest? || out.ServerError? || out.Ok?
      ensures IdTaken(old(posts), id) ==>
                var i := FirstIndex(old(posts), HasId(id)).value;
                var checked := req.position != 0 && req.position != old(posts)[i].position;
                var doc := Merge(old(posts)[i], req);
                && (checked && ActiveAt(old(posts), req.position, Some(id)) ==> out == BadRequest)
                && (out.Ok? <==> !(checked && ActiveAt(old(posts), req.position, Some(id)))
                                 && FieldsValid(doc) && !IndexClash(old(posts), i, doc))
                && (out.Ok? ==> posts == old(posts)[i := doc] && out.value == PublicEntry(doc))
      ensures !out.Ok? ==> posts == old(posts)
    {
      LookupIff(posts, id);
      var found := FirstIndex(posts, HasId(id));
      if found.None? {
        return NotFound;
      }
      var i := found.value;
      var current := posts[i];
      if req.position != 0 && req.position != current.position {
        var other := FirstIndex(posts, (p: TrendingPost) => p.isActive && p.position == req.position && p.id != id);
        if other.Some? {
          return BadRequest;
        }
        assert !ActiveAt(posts, req.position, Some(id)) by {
          forall k | 0 <= k < |posts|
            ensures !(posts[k].isActive && posts[k].position == req.position && Some(posts[k].id) != Some(id)) {
            assert !(((p: TrendingPost) => p.isActive && p.position == req.position && p.id != id)(posts[k]));
          }
        }
      }
      var doc := Merge(current, req);
      var clash := FirstIndex(posts, (p: TrendingPost) => p.id != id && p.position == doc.position && p.isActive == doc.isActive);
      ClashIff(posts, i, id, doc);
      if !FieldsValid(doc) || clash.Some? {
        return ServerError;
      }
      ReplaceValid(posts, i, doc);
      posts := posts[i := doc];
      return Ok(PublicEntry(doc));
    }

    /** `deleteTrendingPost`: exactly the document with that id goes. */
    method Delete(id: Id) returns (out: Outcome<()>)
      requires Valid()
      modifies this
      ensures Valid()
      ensures out.NotFound? <==> !IdTaken(old(posts), id)
      ensures out.NotFound? || out.Ok?
      ensures out.NotFound? ==> posts == old(posts)
      ensures out.Ok? ==>
                var i := FirstIndex(old(posts), HasId(id)).value;
                posts == old(posts)[..i] + old(posts)[i + 1..]
    {
      LookupIff(posts, id);
      var found := FirstIndex(posts, HasId(id));
      if found.None? {
        return NotFound;
      }
      var i := found.value;
      RemoveValid(posts, i);
      posts := posts[..i] + posts[i + 1..];
      return Ok(());
    }
  }

  // ---------------------------------------------------------------- invariant preservation

  lemma AppendValid(s: seq<TrendingPost>, doc: TrendingPost)
    requires TableValid(s) && !ActiveAt(s, doc.position, None) && doc.isActive
    requires !IdTaken(s, doc.id) && FieldsValid(doc)
    ensures TableValid(s + [doc])
  {
    var t := s + [doc];
    forall i, j | 0 <= i < j < |t| ensures IdOf(t[i]) != IdOf(t[j]) {
      if j == |s| {
        assert t[i] == s[i];
      }
    }
    forall i, j | 0 <= i < j < |t| ensures t[i].position != t[j].position || t[i].isActive != t[j].isActive {
      if j == |s| {
        assert t[i] == s[i];
      }
    }
  }

  /** The lookup for a clashing key finds a document exactly when the write would clash. */
  lemma ClashIff(s: seq<TrendingPost>, i: nat, id: Id, doc: TrendingPost)
    requires Distinct(s, IdOf) && i < |s| && s[i].id == id
    ensures FirstIndex(s, (p: TrendingPost) => p.id != id && p.position == doc.position && p.isActive == doc.isActive).Some?
            <==> IndexClash(s, i, doc)
  {
    var q := (p: TrendingPost) => p.id != id && p.position == doc.position && p.isActive == doc.isActive;
    if IndexClash(s, i, doc) {
      var j :| 0 <= j < |s| && j != i && s[j].position == doc.position && s[j].isActive == doc.isActive;
      assert IdOf(s[j]) != IdOf(s[i]) by {
        if j < i {
          assert IdOf(s[j]) != IdOf(s[i]);
        }
      }
      assert q(s[j]);
    }
    if FirstIndex(s, q).Some? {
      var j := FirstIndex(s, q).value;
      assert j != i;
    }
  }

  lemma ReplaceValid(s: seq<TrendingPost>, i: nat, doc: TrendingPost)
    requires TableValid(s) && i < |s| && doc.id == s[i].id && FieldsValid(doc) && !IndexClash(s, i, doc)
    ensures TableValid(s[i := doc])
  {
    var t := s[i := doc];
    forall a, b | 0 <= a < b < |t| ensures IdOf(t[a]) != IdOf(t[b]) {
      assert IdOf(t[a]) == IdOf(s[a]) && IdOf(t[b]) == IdOf(s[b]);
    }
    forall a, b | 0 <= a < b < |t| ensures t[a].position != t[b].position || t[a].isActive != t[b].isActive {
      if a == i {
        assert !(s[b].position == doc.position && s[b].isActive == doc.isActive);
      } else if b == i {
        assert !(s[a].position == doc.position && s[a].isActive == doc.isActive);
      }
    }
  }

  lemma RemoveValid(s: seq<TrendingPost>, i: nat)
    requires TableValid(s) && i < |s|
    ensures TableValid(s[..i] + s[i + 1..])
  {
    var t := s[..i] + s[i + 1..];
    assert forall k :: 0 <= k < |t| ==> t[k] == s[if k < i then k else k + 1];
  }
}
