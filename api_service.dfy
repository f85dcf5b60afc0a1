/** The pure helpers of the client's API service (categories, excerpt and read time) and the blog payload it sends. */
module ApiService {
  import opened Strings
  import BlogModel

  /** The blog fields the admin screen sends to `createBlog` and `updateBlog`. */
  datatype BlogData = BlogData(
    title: string, content: string, excerpt: string, author: string, category: string,
    status: string, featuredImage: string, tags: seq<string>)

  /** `getCategories`, written out as the client lists them. */
  function GetCategories(): (r: seq<string>)
    ensures |r| == 14
  {
    ["Technology", "Web Development", "Mobile Development", "AI & Machine Learning",
     "Data Science", "Cybersecurity", "DevOps", "Tutorial", "News", "Review",
     "Opinion", "Lifestyle", "Business", "Other"]
  }

  /** The client offers exactly the categories the server accepts, in the same order. */
  lemma CategoriesMatchServer()
    ensures GetCategories() == BlogModel.Categories
  {
  }

  // ---------------------------------------------------------------- tag stripping

  /** The index of the first `c` in `t`. */
  function IndexOf(t: string, c: char): (i: nat)
    requires c in t
    ensures i < |t| && t[i] == c && c !in t[..i]
  {
    if t[0] == c then 0 else
      assert c in t[1..];
      var j := IndexOf(t[1..], c);
      assert t[..j + 1] == [t[0]] + t[1..][..j];
      j + 1
  }

  /**
   * `s.replace(/<[^>]*>/g, '')`: from left to right, a `<` that has a `>` after it
   * is dropped together with everything up to and including the first such `>`;
   * a `<` with no `>` after it stays.
   */
  function StripTags(s: string): (r: string)
    ensures |r| <= |s|
    decreases |s|
  {
    if s == [] then []
    else if s[0] == '<' && '>' in s[1..] then StripTags(s[1..][IndexOf(s[1..], '>') + 1..])
    else [s[0]] + StripTags(s[1..])
  }

  /** No `<` is followed, anywhere later, by a `>`. */
  predicate TagFree(r: string) {
    forall i, j :: 0 <= i < j < |r| && r[i] == '<' ==> r[j] != '>'
  }

  lemma {:induction false} StripTagsChars(s: string, c: char)
    requires c in StripTags(s)
    ensures c in s
    decreases |s|
  {
    if s[0] == '<' && '>' in s[1..] {
      var rest := s[1..][IndexOf(s[1..], '>') + 1..];
      StripTagsChars(rest, c);
      var k :| 0 <= k < |rest| && rest[k] == c;
      assert s[k + IndexOf(s[1..], '>') + 2] == c;
    } else if c != s[0] {
      StripTagsChars(s[1..], c);
    }
  }

  /** Every `<...>` span is gone after stripping. */
  lemma {:induction false} StripTagsTagFree(s: string)
    ensures TagFree(StripTags(s))
    decreases |s|
  {
    if s == [] {
    } else if s[0] == '<' && '>' in s[1..] {
      StripTagsTagFree(s[1..][IndexOf(s[1..], '>') + 1..]);
    } else {
      StripTagsTagFree(s[1..]);
      var rest := StripTags(s[1..]);
      var r := StripTags(s);
      if s[0] == '<' {
        forall j | 0 <= j < |rest| ensures rest[j] != '>' {
          if rest[j] == '>' {
            StripTagsChars(s[1..], '>');
          }
        }
      }
      forall i, j | 0 <= i < j < |r| && r[i] == '<' ensures r[j] != '>' {
        assert r[j] == rest[j - 1];
        if i > 0 {
          assert r[i] == rest[i - 1];
        }
      }
    }
  }

  /** Text without a `<` comes through unchanged. */
  lemma {:induction false} StripTagsNoAngle(s: string)
    requires '<' !in s
    ensures StripTags(s) == s
    decreases |s|
  {
    if s != [] {
      assert '<' !in s[1..];
      StripTagsNoAngle(s[1..]);
    }
  }

  // ---------------------------------------------------------------- excerpt and read time

  const ExcerptLength: nat := 150

  /** `generateExcerpt`: strip tags, then cut at 150 characters and mark the cut with `...`. */
  function GenerateExcerpt(content: string): (r: string)
    ensures content == [] ==> r == []
    ensures |r| <= ExcerptLength + 3
    ensures TagFree(r[..if |r| > ExcerptLength then ExcerptLength else |r|])
    ensures |StripTags(content)| <= ExcerptLength ==> r == StripTags(content)
    ensures |StripTags(content)| > ExcerptLength ==>
              |r| == ExcerptLength + 3 && r[..ExcerptLength] <= StripTags(content) && r[ExcerptLength..] == "..."
  {
    if content == [] then [] else
      var plain := StripTags(content);
      StripTagsTagFree(content);
      if |plain| > ExcerptLength then
        var r := plain[..ExcerptLength] + "...";
        assert r[..ExcerptLength] == plain[..ExcerptLength];
        r
      else plain
  }

  /** `calculateReadTime`: "1 min read" for empty content, else minutes at 200 words each. */
  function CalculateReadTime(content: string): string {
    if content == [] then "1 min read"
    else DecimalString(CeilDiv(WordCount(content), BlogModel.WordsPerMinute)) + " min read"
  }

  /**
   * The client's estimate is the one the server stores: the empty-content
   * shortcut gives what the split would give anyway, since "" splits into one piece.
   */
  lemma ReadTimeMatchesServer(content: string)
    ensures CalculateReadTime(content) == BlogModel.ReadTimeLabel(content)
  {
    if content == [] {
      assert SplitOnSpace(content) == [""];
      assert CeilDiv(1, 200) == 1;
      assert DecimalString(1) == "1";
    }
  }
}
