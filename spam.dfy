/**
 * The comment spam heuristic of the comment controller: keyword list, link density,
 * share of capital letters and runs of one repeated character.
 */
module SpamFilter {
  import opened Strings
  import Seqs

  const SpamKeywords: seq<string> :=
    ["viagra", "casino", "lottery", "winner", "click here", "free money", "buy now"]

  /** The lower-cased content includes one of the keywords. */
  predicate HasSpamKeyword(content: string) {
    exists k | k in SpamKeywords :: Contains(Lower(content), k)
  }

  // ---------------------------------------------------------------- links

  /** A match of `https?://` starts at the front of `s`. */
  predicate LinkAtFront(s: string) {
    StartsWith(s, "http://") || StartsWith(s, "https://")
  }

  /** Number of positions at which a link scheme starts. */
  function LinkStarts(s: string): nat {
    if s == [] then 0 else (if LinkAtFront(s) then 1 else 0) + LinkStarts(s[1..])
  }

  /**
   * `(content.match(/https?:\/\//g) || []).length`: a left-to-right scan that counts a
   * match and resumes after it, trying the longer alternative `https://` first.
   */
  function LinkCount(s: string): nat {
    if s == [] then 0
    else if StartsWith(s, "https://") then 1 + LinkCount(s[8..])
    else if StartsWith(s, "http://") then 1 + LinkCount(s[7..])
    else LinkCount(s[1..])
  }

  lemma SkipNonH(s: string)
    requires s != [] && s[0] != 'h'
    ensures LinkStarts(s) == LinkStarts(s[1..])
  {
  }

  /** Inside a match no other match can start, as no character after the leading `h` is an `h`. */
  lemma {:induction false} SkipInsideMatch(s: string, len: nat)
    requires 1 <= len <= |s|
    requires forall k :: 1 <= k < len ==> s[k] != 'h'
    ensures LinkStarts(s[1..]) == LinkStarts(s[len..])
    decreases len
  {
    if len > 1 {
      SkipInsideMatch(s, len - 1);
      var t := s[len - 1..];
      SkipNonH(t);
      assert t[1..] == s[len..];
    }
  }

  /** The scan sees every link: the matches never overlap. */
  lemma {:induction false} LinkCountIsLinkStarts(s: string)
    ensures LinkCount(s) == LinkStarts(s)
    decreases |s|
  {
    if s == [] {
    } else if StartsWith(s, "https://") {
      assert s[..8] == "https://";
      SkipInsideMatch(s, 8);
      LinkCountIsLinkStarts(s[8..]);
    } else if StartsWith(s, "http://") {
      assert s[..7] == "http://";
      SkipInsideMatch(s, 7);
      LinkCountIsLinkStarts(s[7..]);
    } else {
      LinkCountIsLinkStarts(s[1..]);
    }
  }

  // ---------------------------------------------------------------- capitals

  function UpperCount(s: string): nat {
    Seqs.Count(s, IsAsciiUpper)
  }

  /**
   * `content.match(/[A-Z]/g) && matches.length / content.length > 0.5`, in integers.
   * The divisor is the whole length, not the number of letters; with no capital
   * the comparison is false as well, which covers the `null` match.
   */
  predicate HasExcessiveCaps(s: string) {
    2 * UpperCount(s) > |s|
  }

  // ---------------------------------------------------------------- repeated characters

  predicate Uniform(s: string, lo: int, hi: int, c: char)
    requires 0 <= lo <= hi <= |s|
  {
    forall k :: lo <= k < hi ==> s[k] == c
  }

  /** `(.)\1{4,}` matches at `w`: five equal characters that are not line terminators. */
  predicate RepeatAt(s: string, w: nat) {
    w + 5 <= |s| && !IsLineTerminator(s[w]) && Uniform(s, w, w + 5, s[w])
  }

  predicate NoRepeatBefore(s: string, bound: int) {
    forall w: nat :: w + 5 <= bound ==> !RepeatAt(s, w)
  }

  /**
   * One pass over `s`: `run` is the length of the maximal block of equal characters
   * ending at index `i - 1`; the scan stops when such a block reaches five.
   */
  function RepeatScan(s: string, i: nat, run: nat): bool
    requires 1 <= run <= i <= |s|
    decreases |s| - i
  {
    if run >= 5 && !IsLineTerminator(s[i - 1]) then true
    else if i == |s| then false
    else RepeatScan(s, i + 1, if s[i] == s[i - 1] then run + 1 else 1)
  }

  /** `/(.)\1{4,}/.test(content)`. */
  function HasRepeatedChars(s: string): bool {
    s != [] && RepeatScan(s, 1, 1)
  }

  /** A window that holds two different neighbours is not uniform. */
  lemma AcrossBlockStart(s: string, w: nat, start: nat)
    requires w < start < w + 5 <= |s|
    requires s[start - 1] != s[start]
    ensures !RepeatAt(s, w)
  {
    assert s[start - 1] != s[w] || s[start] != s[w];
  }

  lemma {:induction false} RepeatScanCorrect(s: string, i: nat, run: nat)
    requires 1 <= run <= i <= |s|
    requires Uniform(s, i - run, i, s[i - 1])
    requires i - run == 0 || s[i - run - 1] != s[i - 1]
    requires NoRepeatBefore(s, i - run)
    ensures RepeatScan(s, i, run) <==> exists w: nat :: RepeatAt(s, w)
    decreases |s| - i
  {
    var start := i - run;
    if run >= 5 && !IsLineTerminator(s[i - 1]) {
      assert RepeatAt(s, i - 5);
    } else {
      // a window inside the current block fails for lack of length or for a line terminator;
      // a window across the block's start holds two different characters
      forall w: nat | w + 5 <= i
        ensures !RepeatAt(s, w)
      {
        if w + 5 > start && w < start {
          AcrossBlockStart(s, w, start);
        }
      }
      if i < |s| {
        var run' := if s[i] == s[i - 1] then run + 1 else 1;
        RepeatScanCorrect(s, i + 1, run');
      }
    }
  }

  lemma RepeatedCharsCorrect(s: string)
    ensures HasRepeatedChars(s) <==> exists w: nat :: RepeatAt(s, w)
  {
    if s != [] {
      RepeatScanCorrect(s, 1, 1);
    }
  }

  // ---------------------------------------------------------------- the classifier

  /**
   * `isSpamComment(content, email, name)`; the e-mail address and the name are
   * passed by the controller but never consulted, so they are not parameters here.
   */
  function IsSpamComment(content: string): bool {
    || HasSpamKeyword(content)
    || LinkCount(content) > 3
    || HasExcessiveCaps(content)
    || HasRepeatedChars(content)
  }

  /** The classifier in terms of the declarative readings of its four tests. */
  lemma IsSpamCharacterization(content: string)
    ensures IsSpamComment(content) <==>
      || (exists k | k in SpamKeywords :: Contains(Lower(content), k))
      || LinkStarts(content) > 3
      || 2 * Seqs.Count(content, IsAsciiUpper) > |content|
      || (exists w: nat :: RepeatAt(content, w))
  {
    LinkCountIsLinkStarts(content);
    RepeatedCharsCorrect(content);
  }
}
