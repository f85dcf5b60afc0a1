/** The comment schema: its fields, defaults, setters and validators. */
module CommentModel {
  import opened Wrappers
  import opened Strings

  type Id = string

  datatype CommentStatus = Pending | Approved | Rejected

  function StatusName(st: CommentStatus): string {
    match st
    case Pending => "pending"
    case Approved => "approved"
    case Rejected => "rejected"
  }

  /** The status enum check: only the three listed names are accepted. */
  function ParseStatus(s: string): (r: Option<CommentStatus>)
    ensures r.Some? <==> s == "pending" || s == "approved" || s == "rejected"
    ensures r.Some? ==> StatusName(r.value) == s
  {
    if s == "pending" then Some(Pending)
    else if s == "approved" then Some(Approved)
    else if s == "rejected" then Some(Rejected)
    else None
  }

  lemma StatusRoundTrip(st: CommentStatus)
    ensures ParseStatus(StatusName(st)) == Some(st)
  {
  }

  const DefaultStatus: CommentStatus := Approved
  const NameMaxLength: nat := 100
  const ContentMaxLength: nat := 1000

  /**
   * A stored comment. The request's IP address and user agent are recorded by the
   * source but are not part of this model; `likes` is a natural number, so any
   * decrement must be shown to stay at or above zero.
   */
  datatype Comment = Comment(
    id: Id,
    blogId: Id,
    name: string,
    email: string,
    website: string,
    content: string,
    status: CommentStatus,
    isSpam: bool,
    likes: nat,
    replies: seq<Id>,
    parentComment: Option<Id>,
    createdAt: int)

  /** A new document before its setters run: the schema defaults for everything not given. */
  function NewComment(id: Id, blogId: Id, name: string, email: string, website: string,
                      content: string, createdAt: int): (c: Comment)
    ensures c.status == DefaultStatus && !c.isSpam && c.likes == 0
    ensures c.replies == [] && c.parentComment == None
  {
    Comment(id, blogId, name, email, website, content, DefaultStatus, false, 0, [], None, createdAt)
  }

  /** The schema's setters: `trim` on name, website and content; `trim` then `lowercase` on email. */
  function ApplySetters(c: Comment): Comment {
    c.(name := Trim(c.name), email := Lower(Trim(c.email)), website := Trim(c.website),
       content := Trim(c.content))
  }

  // ---------------------------------------------------------------- website validator

  /** A character of the class `[a-zA-Z0-9.-]`. */
  predicate HostChar(c: char) {
    IsAsciiLetter(c) || IsDigit(c) || c == '.' || c == '-'
  }

  /** `/^https?:\/\/.+/` and `/^www\..+/`: the prefix followed by one character a `.` matches. */
  predicate SchemeLike(v: string) {
    || (StartsWith(v, "http://") && |v| > 7 && !IsLineTerminator(v[7]))
    || (StartsWith(v, "https://") && |v| > 8 && !IsLineTerminator(v[8]))
    || (StartsWith(v, "www.") && |v| > 4 && !IsLineTerminator(v[4]))
  }

  /** `/^[a-zA-Z0-9.-]+\.[a-zA-Z]{2,}/` read declaratively: some split point the pattern can match. */
  predicate DomainAt(v: string, k: nat) {
    && 1 <= k && k + 3 <= |v|
    && (forall j :: 0 <= j < k ==> HostChar(v[j]))
    && v[k] == '.' && IsAsciiLetter(v[k + 1]) && IsAsciiLetter(v[k + 2])
  }

  /** The same pattern as a backtracking matcher runs it: extend the host part one character at a time. */
  function DomainScan(v: string, i: nat): bool
    requires 1 <= i <= |v|
    decreases |v| - i
  {
    if i + 3 <= |v| && v[i] == '.' && IsAsciiLetter(v[i + 1]) && IsAsciiLetter(v[i + 2]) then true
    else if i < |v| && HostChar(v[i]) then DomainScan(v, i + 1)
    else false
  }

  predicate DomainLike(v: string) {
    |v| >= 1 && HostChar(v[0]) && DomainScan(v, 1)
  }

  lemma {:induction false} DomainScanCorrect(v: string, i: nat)
    requires 1 <= i <= |v|
    requires forall j :: 0 <= j < i ==> HostChar(v[j])
    ensures DomainScan(v, i) <==> exists k: nat :: i <= k && DomainAt(v, k)
    decreases |v| - i
  {
    if i + 3 <= |v| && v[i] == '.' && IsAsciiLetter(v[i + 1]) && IsAsciiLetter(v[i + 2]) {
      assert DomainAt(v, i);
    } else if i < |v| && HostChar(v[i]) {
      DomainScanCorrect(v, i + 1);
      if DomainScan(v, i) {
        var k: nat :| i + 1 <= k && DomainAt(v, k);
        assert i <= k;
      }
    } else {
      forall k: nat | i <= k
        ensures !DomainAt(v, k)
      {
        if k > i && i < |v| {
          assert !HostChar(v[i]);
        }
      }
    }
  }

  lemma DomainLikeCorrect(v: string)
    ensures DomainLike(v) <==> exists k: nat :: DomainAt(v, k)
  {
    if |v| >= 1 && HostChar(v[0]) {
      DomainScanCorrect(v, 1);
    }
  }

  /** The website validator: empty, or one of the three URL shapes (each a prefix match). */
  predicate WebsiteValid(v: string) {
    v == [] || SchemeLike(v) || DomainLike(v)
  }

  lemma WebsiteValidCharacterization(v: string)
    ensures WebsiteValid(v) <==> v == [] || SchemeLike(v) || exists k: nat :: DomainAt(v, k)
  {
    DomainLikeCorrect(v);
  }

  /**
   * What `save()` checks: every required string present (a blank string fails
   * `required`), the length bounds, the e-mail pattern and the website validator.
   * The e-mail regular expression is a parameter.
   */
  predicate SchemaValid(c: Comment, emailPattern: string -> bool) {
    && c.blogId != []
    && c.name != [] && |c.name| <= NameMaxLength
    && c.email != [] && emailPattern(c.email)
    && WebsiteValid(c.website)
    && c.content != [] && |c.content| <= ContentMaxLength
  }
}
