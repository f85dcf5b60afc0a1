/** The trending-post document: ten numbered slots on the home page. */
module TrendingModel {
  import opened Wrappers
  import opened Strings
  import opened Seqs

  type Id = string

  const MinPosition: int := 1
  const MaxPosition: int := 10

  datatype TrendingPost = TrendingPost(
    id: Id, title: string, author: string, position: int, blogRef: Option<Id>,
    isActive: bool, addedBy: Id, createdAt: int)

  /** A new document as `create` builds it: setters applied, `blogRef` and `isActive` at their defaults unless given. */
  function NewPost(id: Id, title: string, author: string, position: int, blogRef: Option<Id>,
                   addedBy: Id, now: int): (p: TrendingPost)
    ensures p.id == id && p.position == position && p.blogRef == blogRef
    ensures p.addedBy == addedBy && p.createdAt == now
    ensures p.isActive
    ensures p.title == Trim(title) && p.author == Trim(author)
    ensures IsTrimmed(p.title) && IsTrimmed(p.author)
  {
    TrimTrimmed(title);
    TrimTrimmed(author);
    TrendingPost(id, Trim(title), Trim(author), position, blogRef, true, addedBy, now)
  }

  /** The per-document validators: required trimmed strings and the position range. */
  predicate FieldsValid(p: TrendingPost) {
    && p.title != [] && IsTrimmed(p.title)
    && p.author != [] && IsTrimmed(p.author)
    && MinPosition <= p.position <= MaxPosition
    && p.addedBy != []
  }

  /** The unique index on `(position, isActive)`. */
  predicate IndexUnique(s: seq<TrendingPost>) {
    forall i, j :: 0 <= i < j < |s| ==> s[i].position != s[j].position || s[i].isActive != s[j].isActive
  }

  function IdOf(p: TrendingPost): Id { p.id }

  /** What every stored collection satisfies: documents pass their validators, ids and index keys are unique. */
  predicate TableValid(s: seq<TrendingPost>) {
    && Distinct(s, IdOf)
    && IndexUnique(s)
    && forall k :: 0 <= k < |s| ==> FieldsValid(s[k])
  }

  // ---------------------------------------------------------------- counting slots

  function RangeSet(lo: int, hi: int): (r: set<int>)
    ensures forall x :: x in r <==> lo <= x < hi
    ensures |r| == if hi <= lo then 0 else hi - lo
    decreases hi - lo
  {
    if hi <= lo then {} else
      var rest := RangeSet(lo + 1, hi);
      assert lo !in rest;
      {lo} + rest
  }

  /** The set of positions the documents occupy. */
  function Positions(s: seq<TrendingPost>): set<int> {
    if s == [] then {} else {s[0].position} + Positions(s[1..])
  }

  lemma {:induction false} PositionsBounded(s: seq<TrendingPost>, lo: int, hi: int)
    requires forall k :: 0 <= k < |s| ==> lo <= s[k].position < hi
    ensures forall x :: x in Positions(s) ==> lo <= x < hi
  {
    if s != [] {
      PositionsBounded(s[1..], lo, hi);
    }
  }

  lemma {:induction false} PositionAbsent(s: seq<TrendingPost>, x: int)
    requires forall k :: 0 <= k < |s| ==> s[k].position != x
    ensures x !in Positions(s)
  {
    if s != [] {
      PositionAbsent(s[1..], x);
    }
  }

  function Active(): TrendingPost -> bool { (p: TrendingPost) => p.isActive }

  function Inactive(): TrendingPost -> bool { (p: TrendingPost) => !p.isActive }

  predicate PositionsDistinct(s: seq<TrendingPost>) {
    forall i, j :: 0 <= i < j < |s| ==> s[i].position != s[j].position
  }

  lemma {:induction false} DistinctPositionsCard(s: seq<TrendingPost>)
    requires PositionsDistinct(s)
    ensures |Positions(s)| == |s|
  {
    if s != [] {
      DistinctPositionsCard(s[1..]);
      forall k | 0 <= k < |s[1..]| ensures s[1..][k].position != s[0].position {
        assert s[1..][k] == s[k + 1];
      }
      PositionAbsent(s[1..], s[0].position);
    }
  }

  /** Documents with distinct positions in 1..10 number at most ten. */
  lemma SlotPigeonhole(s: seq<TrendingPost>)
    requires PositionsDistinct(s)
    requires forall k :: 0 <= k < |s| ==> MinPosition <= s[k].position <= MaxPosition
    ensures |s| <= MaxPosition - MinPosition + 1
  {
    DistinctPositionsCard(s);
    var slots := RangeSet(MinPosition, MaxPosition + 1);
    PositionsBounded(s, MinPosition, MaxPosition + 1);
    assert Positions(s) <= slots;
    SubsetCard(Positions(s), slots);
  }

  lemma SubsetCard(a: set<int>, b: set<int>)
    requires a <= b
    ensures |a| <= |b|
  {
    assert b == a + (b - a);
  }

  /** In a valid collection the documents that share an activity flag have distinct positions. */
  lemma {:induction false} FlagPositionsDistinct(s: seq<TrendingPost>, active: bool)
    requires IndexUnique(s)
    ensures PositionsDistinct(Filter(s, if active then Active() else Inactive()))
  {
    var p := if active then Active() else Inactive();
    if s != [] {
      IndexUniqueTail(s);
      FlagPositionsDistinct(s[1..], active);
      if p(s[0]) {
        FlagHeadApart(s, active);
        ConsDistinct(s[0], Filter(s[1..], p));
      }
    }
  }

  lemma IndexUniqueTail(s: seq<TrendingPost>)
    requires s != [] && IndexUnique(s)
    ensures IndexUnique(s[1..])
  {
    forall i, j | 0 <= i < j < |s| - 1
      ensures s[1..][i].position != s[1..][j].position || s[1..][i].isActive != s[1..][j].isActive
    {
      assert s[1..][i] == s[i + 1] && s[1..][j] == s[j + 1];
    }
  }

  /** A later document with the head's flag sits at another position. */
  lemma FlagHeadApart(s: seq<TrendingPost>, active: bool)
    requires s != [] && IndexUnique(s)
    requires s[0].isActive == active
    ensures var rest := Filter(s[1..], if active then Active() else Inactive());
      forall k :: 0 <= k < |rest| ==> s[0].position != rest[k].position
  {
    var p := if active then Active() else Inactive();
    var rest := Filter(s[1..], p);
    forall k | 0 <= k < |rest| ensures s[0].position != rest[k].position {
      var j :| 0 <= j < |s[1..]| && s[1..][j] == rest[k];
      assert s[j + 1] == rest[k];
    }
  }

  lemma ConsDistinct(x: TrendingPost, rest: seq<TrendingPost>)
    requires PositionsDistinct(rest)
    requires forall k :: 0 <= k < |rest| ==> x.position != rest[k].position
    ensures PositionsDistinct([x] + rest)
  {
    var s := [x] + rest;
    forall i, j | 0 <= i < j < |s| ensures s[i].position != s[j].position {
      assert s[j] == rest[j - 1];
      if i > 0 {
        assert s[i] == rest[i - 1];
      }
    }
  }

  /**
   * At most ten documents are active and at most ten are inactive, so the
   * collection never holds more than twenty.
   */
  lemma TableBounded(s: seq<TrendingPost>)
    requires TableValid(s)
    ensures Count(s, Active()) <= 10
    ensures Count(s, Inactive()) <= 10
    ensures |s| <= 20
  {
    FlagPositionsDistinct(s, true);
    FlagPositionsDistinct(s, false);
    SlotPigeonhole(Filter(s, Active()));
    SlotPigeonhole(Filter(s, Inactive()));
    FilterSplit(s, Active(), Inactive());
  }
}
