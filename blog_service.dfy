/** The simulated client blog service: record construction and its own excerpt and read-time helpers. */
module BlogService {
  import opened Wrappers
  import opened Strings
  import BlogModel
  import ApiService

  /**
   * A simulated record: the sent fields spread in, then the service's own keys.
   * `createdAt` and `views` are set only by `createBlog`; an update leaves them out.
   */
  datatype SimBlog = SimBlog(
    data: ApiService.BlogData, id: int, createdAt: Option<string>, updatedAt: string, views: Option<nat>, readTime: string)

  /**
   * `${Math.ceil(content.length / 200)} min read`: characters, not words. The
   * label is a number `m` followed by " min read", where `m` is the fewest
   * 200-character minutes that cover the content.
   */
  function CharReadTime(content: string): (r: string)
    ensures |r| > 9 && r[|r| - 9..] == " min read"
    ensures forall i :: 0 <= i < |r| - 9 ==> IsDigit(r[i])
    ensures var m := ParseDecimal(r[..|r| - 9]);
      m * 200 >= |content| && (m == 0 || (m - 1) * 200 < |content|)
  {
    var m := CeilDiv(|content|, 200);
    var d := DecimalString(m);
    DecimalRoundTrip(m);
    var r := d + " min read";
    assert r[..|r| - 9] == d;
    r
  }

  /** The estimate counts characters: empty content reads "0 min read", any other at least one minute. */
  lemma CharReadTimeMinutes(content: string)
    ensures var d := DecimalString(CeilDiv(|content|, 200));
      CharReadTime(content)[..|d|] == d && ParseDecimal(d) == CeilDiv(|content|, 200)
    ensures content == [] <==> CeilDiv(|content|, 200) == 0
  {
    DecimalRoundTrip(CeilDiv(|content|, 200));
  }

  /** `createBlog`: `id` is the clock in milliseconds and `today` the date part of the ISO time. */
  function CreateBlog(data: ApiService.BlogData, nowMs: int, today: string): (r: SimBlog)
    ensures r.data == data && r.id == nowMs
    ensures r.createdAt == Some(today) && r.updatedAt == today
    ensures r.views == Some(0) && r.readTime == CharReadTime(data.content)
  {
    SimBlog(data, nowMs, Some(today), today, Some(0), CharReadTime(data.content))
  }

  /** `updateBlog`: the sent fields under the given id, with a fresh date and read time. */
  function UpdateBlog(id: int, data: ApiService.BlogData, today: string): (r: SimBlog)
    ensures r.data == data && r.id == id && r.updatedAt == today
    ensures r.createdAt.None? && r.views.None? && r.readTime == CharReadTime(data.content)
  {
    SimBlog(data, id, None, today, None, CharReadTime(data.content))
  }

  /** Updating a created record keeps its fields and recomputes the same read time. */
  lemma UpdateAfterCreate(data: ApiService.BlogData, nowMs: int, today: string, later: string)
    ensures var c := CreateBlog(data, nowMs, today);
      var u := UpdateBlog(c.id, c.data, later);
      u.data == c.data && u.id == c.id && u.readTime == c.readTime
  {
  }

  /** `generateExcerpt(content, maxLength = 150)`: short content unchanged, long content cut, trimmed and marked. */
  function GenerateExcerpt(content: string, maxLength: nat): (r: string)
    ensures |content| <= maxLength ==> r == content
    ensures |r| <= maxLength + 3
    ensures |content| > maxLength ==> |r| >= 3 && r[|r| - 3..] == "..." && IsTrimmed(r[..|r| - 3])
  {
    if |content| <= maxLength then content else
      var cut := Trim(content[..maxLength]);
      TrimTrimmed(content[..maxLength]);
      var r := cut + "...";
      assert r[..|r| - 3] == cut;
      r
  }

  /** Before the `...` of a cut excerpt stands the trimmed head of the content. */
  lemma ExcerptHead(content: string, maxLength: nat)
    requires |content| > maxLength
    ensures var r := GenerateExcerpt(content, maxLength);
      r[..|r| - 3] == Trim(content[..maxLength])
  {
    var u := Trim(content[..maxLength]);
    var r := GenerateExcerpt(content, maxLength);
    assert r == u + "...";
  }

  /** What precedes the `...` is a stretch of the first `maxLength` characters. */
  lemma ExcerptFromPrefix(content: string, maxLength: nat)
    requires |content| > maxLength
    ensures var r := GenerateExcerpt(content, maxLength);
      exists i, j :: 0 <= i <= j <= maxLength && r[..|r| - 3] == content[i..j]
  {
    ExcerptHead(content, maxLength);
    TrimOfPrefix(content, maxLength);
  }

  /** `calculateReadTime`: minutes at 200 words each, with no shortcut for empty content; the server's label. */
  function CalculateReadTime(content: string): (r: string)
    ensures r == BlogModel.ReadTimeLabel(content)
  {
    DecimalString(CeilDiv(WordCount(content), 200)) + " min read"
  }
}
