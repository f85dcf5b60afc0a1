/**
 * The blog-post document: field rules, the image URL validator, and the
 * pre-save hook that picks a unique slug and computes the read time.
 */
module BlogModel {
  import opened Wrappers
  import opened Strings

  type Id = string

  const TitleMaxLength: nat := 200
  const ExcerptMaxLength: nat := 300
  const WordsPerMinute: nat := 200
  const DefaultExcerptLength: nat := 150

  /** The category enum, in declaration order. */
  const Categories: seq<string> := [
    "Technology", "Web Development", "Mobile Development", "AI & Machine Learning",
    "Data Science", "Cybersecurity", "DevOps", "Tutorial", "News", "Review",
    "Opinion", "Lifestyle", "Business", "Other"]

  const Draft: string := "draft"
  const Published: string := "published"

  datatype Blog = Blog(
    id: Id, slug: string, title: string, content: string, excerpt: string, author: string,
    category: string, status: Option<string>, featuredImage: string, tags: seq<string>,
    views: nat, readTime: string, createdBy: Id)

  predicate IsPublished(b: Blog) {
    b.status == Some(Published)
  }

  /** The status enum; a status that was never set passes, as `enum` lets `undefined` through. */
  predicate StatusValid(st: Option<string>) {
    st.None? || st.value == Draft || st.value == Published
  }

  // ---------------------------------------------------------------- image URL validator

  /** Length of the `https?://` prefix, matched without regard to case; 0 when there is none. */
  function SchemeLength(v: string): (n: nat)
    ensures n == 0 || n == 7 || n == 8
    ensures n > 0 ==> n <= |v|
  {
    if |v| >= 8 && Lower(v[..8]) == "https://" then 8
    else if |v| >= 7 && Lower(v[..7]) == "http://" then 7
    else 0
  }

  predicate ImageExtension(e: string) {
    var l := Lower(e);
    l == "jpg" || l == "jpeg" || l == "png" || l == "gif" || l == "webp"
  }

  predicate NoLineTerminator(s: string) {
    forall i :: 0 <= i < |s| ==> !IsLineTerminator(s[i])
  }

  /** `(\?.*)?$`: nothing, or a `?` and the rest of a single line. */
  predicate QueryTail(t: string) {
    t == [] || (t[0] == '?' && NoLineTerminator(t[1..]))
  }

  /** One way the pattern can match: `.+` spans `[L, p)`, the dot is at `p`, the extension spans `(p, q)`. */
  predicate ImageAt(v: string, p: nat, q: nat) {
    var l := SchemeLength(v);
    && l > 0 && l < p < q <= |v|
    && NoLineTerminator(v[l..p])
    && v[p] == '.'
    && ImageExtension(v[p + 1..q])
    && QueryTail(v[q..])
  }

  /** `/^https?:\/\/.+\.(jpg|jpeg|png|gif|webp)(\?.*)?$/i`. */
  predicate ImageUrl(v: string) {
    exists p: nat, q: nat | p < q <= |v| :: ImageAt(v, p, q)
  }

  /** The validator of `featuredImage`: empty, or an image URL. */
  predicate FeaturedImageValid(v: string) {
    v == [] || ImageUrl(v)
  }

  /** An extension ending where the pattern ends: three or four characters after the dot. */
  predicate ExtensionEndsAt(v: string, p: nat) {
    || (p + 4 <= |v| && ImageExtension(v[p + 1..p + 4]) && QueryTail(v[p + 4..]))
    || (p + 5 <= |v| && ImageExtension(v[p + 1..p + 5]) && QueryTail(v[p + 5..]))
  }

  /** The matcher as a scan over the dot position, extending `.+` one character at a time. */
  function ImageScan(v: string, p: nat): bool
    requires SchemeLength(v) < p <= |v|
    decreases |v| - p
  {
    if p < |v| && v[p] == '.' && ExtensionEndsAt(v, p) then true
    else if p < |v| && !IsLineTerminator(v[p]) then ImageScan(v, p + 1)
    else false
  }

  function ImageUrlMatches(v: string): bool {
    var l := SchemeLength(v);
    l > 0 && l < |v| && !IsLineTerminator(v[l]) && ImageScan(v, l + 1)
  }

  lemma ExtensionLength(e: string)
    requires ImageExtension(e)
    ensures |e| == 3 || |e| == 4
  {
    assert |Lower(e)| == |e|;
  }

  lemma ExtensionEndsAtIff(v: string, p: nat)
    requires p < |v|
    ensures ExtensionEndsAt(v, p) <==> exists q: nat :: p < q <= |v| && ImageExtension(v[p + 1..q]) && QueryTail(v[q..])
  {
    if exists q: nat :: p < q <= |v| && ImageExtension(v[p + 1..q]) && QueryTail(v[q..]) {
      var q: nat :| p < q <= |v| && ImageExtension(v[p + 1..q]) && QueryTail(v[q..]);
      ExtensionLength(v[p + 1..q]);
    }
  }

  /** No match has its dot at `p` when the scan does not stop there. */
  lemma NoMatchAt(v: string, p: nat)
    requires p < |v|
    requires !(v[p] == '.' && ExtensionEndsAt(v, p))
    ensures forall q: nat :: !ImageAt(v, p, q)
  {
    ExtensionEndsAtIff(v, p);
  }

  /** Past the end or past a line terminator, `.+` cannot reach a dot. */
  lemma NoMatchFrom(v: string, p: nat)
    requires SchemeLength(v) < p <= |v|
    requires p == |v| || IsLineTerminator(v[p])
    ensures forall p': nat, q: nat :: p <= p' ==> !ImageAt(v, p', q)
  {
    var l := SchemeLength(v);
    forall p': nat, q: nat | p <= p'
      ensures !ImageAt(v, p', q)
    {
      if p < p' <= |v| {
        assert v[l..p'][p - l] == v[p];
      }
    }
  }

  lemma {:induction false} ImageScanCorrect(v: string, p: nat)
    requires SchemeLength(v) > 0 && SchemeLength(v) < p <= |v|
    requires NoLineTerminator(v[SchemeLength(v)..p])
    ensures ImageScan(v, p) <==> exists p': nat, q: nat :: p <= p' && ImageAt(v, p', q)
    decreases |v| - p
  {
    var l := SchemeLength(v);
    if p < |v| && v[p] == '.' && ExtensionEndsAt(v, p) {
      ExtensionEndsAtIff(v, p);
      var q: nat :| p < q <= |v| && ImageExtension(v[p + 1..q]) && QueryTail(v[q..]);
      assert ImageAt(v, p, q);
    } else if p < |v| && !IsLineTerminator(v[p]) {
      assert v[l..p + 1] == v[l..p] + [v[p]];
      ImageScanCorrect(v, p + 1);
      NoMatchAt(v, p);
    } else {
      NoMatchFrom(v, p);
    }
  }

  /** The scanning matcher accepts exactly the strings the pattern describes. */
  lemma ImageUrlMatchesCorrect(v: string)
    ensures ImageUrlMatches(v) <==> ImageUrl(v)
  {
    var l := SchemeLength(v);
    if l > 0 && l < |v| && !IsLineTerminator(v[l]) {
      assert v[l..l + 1] == [v[l]];
      ImageScanCorrect(v, l + 1);
      if ImageUrl(v) {
        var p: nat, q: nat :| p < q <= |v| && ImageAt(v, p, q);
        assert SchemeLength(v) < p;
      }
    } else if l > 0 && l < |v| {
      forall p: nat | l < p <= |v| ensures !NoLineTerminator(v[l..p]) {
        assert v[l..p][0] == v[l];
      }
    }
  }

  // ---------------------------------------------------------------- read time and excerpt

  /** `Math.ceil(content.split(/\s+/).length / 200)`. */
  function ReadMinutes(content: string): (m: nat)
    ensures m >= 1
    ensures m * WordsPerMinute >= WordCount(content) && (m - 1) * WordsPerMinute < WordCount(content)
  {
    CeilDiv(WordCount(content), WordsPerMinute)
  }

  /** `${minutes} min read`. */
  function ReadTimeLabel(content: string): string {
    DecimalString(ReadMinutes(content)) + " min read"
  }

  /** The label gives the minute count back. */
  lemma ReadTimeLabelParses(content: string)
    ensures var l := ReadTimeLabel(content); var d := DecimalString(ReadMinutes(content));
      l[..|d|] == d && l[|d|..] == " min read" && ParseDecimal(d) == ReadMinutes(content) >= 1
  {
    DecimalRoundTrip(ReadMinutes(content));
  }

  /** `content.substring(0, 150) + '...'`, used when no excerpt is sent. */
  function DefaultExcerpt(content: string): (r: string)
    ensures 3 <= |r| <= DefaultExcerptLength + 3 <= ExcerptMaxLength
    ensures r[..|r| - 3] <= content && r[|r| - 3..] == "..."
    ensures r[..|r| - 3] == content[..if |content| <= DefaultExcerptLength then |content| else DefaultExcerptLength]
  {
    Take(content, DefaultExcerptLength) + "..."
  }

  // ---------------------------------------------------------------- slug

  /** The candidates the hook tries in turn: `raw`, then `raw-1`, `raw-2`, ... */
  function SlugCandidate(raw: string, k: nat): string {
    if k == 0 then raw else raw + "-" + DecimalString(k)
  }

  lemma CandidateInjective(raw: string, j: nat, k: nat)
    requires SlugCandidate(raw, j) == SlugCandidate(raw, k)
    ensures j == k
  {
    if j != 0 && k != 0 {
      var cj := SlugCandidate(raw, j);
      assert cj[|raw| + 1..] == DecimalString(j);
      assert SlugCandidate(raw, k)[|raw| + 1..] == DecimalString(k);
      DecimalInjective(j, k);
    }
  }

  /** The first `n` candidates. */
  function Tried(raw: string, n: nat): set<string> {
    set j | 0 <= j < n :: SlugCandidate(raw, j)
  }

  lemma {:induction false} TriedCard(raw: string, n: nat)
    ensures |Tried(raw, n)| == n
  {
    if n > 0 {
      TriedCard(raw, n - 1);
      assert Tried(raw, n) == Tried(raw, n - 1) + {SlugCandidate(raw, n - 1)};
      if SlugCandidate(raw, n - 1) in Tried(raw, n - 1) {
        var j :| 0 <= j < n - 1 && SlugCandidate(raw, j) == SlugCandidate(raw, n - 1);
        CandidateInjective(raw, j, n - 1);
      }
    }
  }

  /** If the first `n` candidates are all taken, at least `n` slugs are taken. */
  lemma TakenBound(raw: string, n: nat, taken: set<string>)
    requires forall j :: 0 <= j < n ==> SlugCandidate(raw, j) in taken
    ensures n <= |taken|
  {
    var t := Tried(raw, n);
    TriedCard(raw, n);
    assert t <= taken;
    assert taken == t + (taken - t);
  }

  /** The slug the hook settles on: the first candidate that is not taken. */
  predicate FirstFreeCandidate(raw: string, taken: set<string>, slug: string, k: nat) {
    && slug == SlugCandidate(raw, k) && slug !in taken
    && forall j :: 0 <= j < k ==> SlugCandidate(raw, j) in taken
  }

  /** Only one candidate is the first free one. */
  lemma FirstFreeUnique(raw: string, taken: set<string>, s1: string, k1: nat, s2: string, k2: nat)
    requires FirstFreeCandidate(raw, taken, s1, k1) && FirstFreeCandidate(raw, taken, s2, k2)
    ensures k1 == k2 && s1 == s2
  {
  }

  /**
   * The pre-save loop `while (exists({ slug })) slug = rawSlug-count++`. It stops
   * after at most `|taken|` rounds, since every round rules out one taken slug.
   */
  method UniqueSlug(raw: string, taken: set<string>) returns (slug: string, ghost k: nat)
    ensures FirstFreeCandidate(raw, taken, slug, k)
    ensures slug !in taken
    ensures raw !in taken ==> slug == raw
    ensures k <= |taken|
  {
    slug := raw;
    var count: nat := 1;
    while slug in taken
      invariant count >= 1
      invariant slug == SlugCandidate(raw, count - 1)
      invariant forall j :: 0 <= j < count - 1 ==> SlugCandidate(raw, j) in taken
      invariant count - 1 <= |taken|
      decreases |taken| - (count - 1)
    {
      TakenBound(raw, count, taken);
      slug := raw + "-" + DecimalString(count);
      count := count + 1;
    }
    k := count - 1;
  }

  // ---------------------------------------------------------------- document validation

  /** What `save()` checks of a post. */
  predicate FieldsValid(b: Blog) {
    && b.title != [] && |b.title| <= TitleMaxLength
    && b.content != []
    && |b.excerpt| <= ExcerptMaxLength
    && b.author != []
    && b.category in Categories
    && StatusValid(b.status)
    && FeaturedImageValid(b.featuredImage)
  }

  /** The `trim` setter on every tag: each tag loses its surrounding white space and nothing else. */
  function TrimAll(tags: seq<string>): (r: seq<string>)
    ensures |r| == |tags|
    ensures forall k :: 0 <= k < |r| ==> IsTrimmed(r[k])
    ensures forall k :: 0 <= k < |r| ==> r[k] == Trim(tags[k])
  {
    forall k | 0 <= k < |tags| ensures IsTrimmed(Trim(tags[k])) {
      TrimTrimmed(tags[k]);
    }
    seq(|tags|, k requires 0 <= k < |tags| => Trim(tags[k]))
  }

  /** Saving an already saved post again leaves its tags as they are. */
  lemma TrimAllIdempotent(tags: seq<string>)
    ensures TrimAll(TrimAll(tags)) == TrimAll(tags)
  {
    var t := TrimAll(tags);
    forall k | 0 <= k < |t| ensures Trim(t[k]) == t[k] {
      TrimmedFixed(t[k]);
    }
  }
}
