/** The push parser's resumable string search (htmlParseLookupString) and its search for the
    end of a comment (htmlParseLookupCommentEnd), against a one-shot search and the comment
    parser. */
module CommentLookahead {
  import opened Bytes
  import opened HtmlBytes
  import opened TagGrammar
  import opened TagParser
  import opened TagBytes

  predicate OccursAt(s: seq<byte>, str: seq<byte>, k: nat) {
    k + |str| <= |s| && s[k..k + |str|] == str
  }

  /** The first occurrence from i on. */
  ghost predicate FirstOcc(s: seq<byte>, str: seq<byte>, i: nat, k: nat) {
    i <= k && OccursAt(s, str, k) && forall j :: i <= j < k ==> !OccursAt(s, str, j)
  }

  /** strstr, from byte i on: the search ends at the first zero byte. */
  method StrStr(s: seq<byte>, str: seq<byte>, i: nat) returns (term: Option<nat>)
    requires i <= |s| && str != [] && NUL !in str
    ensures term.Some? ==> FirstOcc(s, str, i, term.value)
    ensures term.None? ==> NUL in s[i..] || forall j :: i <= j ==> !OccursAt(s, str, j)
  {
    var k := i;
    while k + |str| <= |s| && s[k] != NUL
      invariant i <= k <= |s| && forall j :: i <= j < k ==> !OccursAt(s, str, j)
    {
      if s[k..k + |str|] == str {
        return Some(k);
      }
      k := k + 1;
    }
    term := None;
    if k + |str| <= |s| {
      assert s[i..][k - i] == NUL;
    }
  }

  /** Byte k starts `-->` or, behind the opening, `--!>`. */
  predicate MarkAt(s: seq<byte>, k: nat) {
    && k + 2 < |s| && s[k] == DASH && s[k + 1] == DASH
    && (s[k + 2] == GT || (k >= 4 && k + 3 < |s| && s[k + 2] == BANG && s[k + 3] == GT))
  }

  /** Byte k starts no end of a comment, whatever follows the data. */
  predicate NotMark(s: seq<byte>, k: nat) {
    || (k < |s| && s[k] != DASH)
    || (k + 1 < |s| && s[k + 1] != DASH)
    || (k + 2 < |s| && s[k + 2] != GT && (s[k + 2] != BANG || k < 4))
    || (k + 3 < |s| && s[k + 2] == BANG && s[k + 3] != GT)
  }

  ghost predicate FirstMark(s: seq<byte>, k: nat) {
    k >= 2 && MarkAt(s, k) && forall j :: 2 <= j < k ==> !MarkAt(s, j)
  }

  function MarkEnd(s: seq<byte>, k: nat): nat
    requires MarkAt(s, k)
  {
    if s[k + 2] == GT then k + 3 else k + 4
  }

  /** Fields of the parser context. */
  class StringLookahead {
    var checkIndex: nat

    constructor ()
      ensures checkIndex == 0
    {
      checkIndex := 0;
    }

    /** htmlParseLookupString on the bytes from input->cur to input->end. */
    method LookupString(buf: seq<byte>, startDelta: nat, str: seq<byte>, extraLen: nat) returns (ret: int)
      requires str != [] && NUL !in str && startDelta <= |buf| && checkIndex <= |buf|
      modifies this
      ensures var from := if old(checkIndex) == 0 then startDelta else old(checkIndex);
              && (ret >= 0 ==> FirstOcc(buf, str, from, ret) && ret + extraLen < |buf| && checkIndex == 0)
              && (ret < 0 ==> from <= checkIndex <= |buf| && ret == -1)
              && (ret < 0 ==> checkIndex == from || checkIndex + |str| + extraLen <= |buf| + 1)
              && (ret < 0 && NUL !in buf ==>
                    forall j :: from <= j && j + |str| + extraLen <= |buf| ==> !OccursAt(buf, str, j))
    {
      var cur := if checkIndex == 0 then startDelta else checkIndex;
      var term := StrStr(buf, str, cur);
      if term.Some? && |buf| - term.value >= extraLen + 1 {
        checkIndex := 0;
        return term.value;
      }
      var rescan := |str| + extraLen - 1;
      checkIndex := if |buf| - cur <= rescan then cur else |buf| - rescan;
      ret := -1;
    }

    /** What a fresh comment, or the calls before this one on prefixes of `buf`, leave behind. */
    ghost predicate Resumes(buf: seq<byte>)
      reads this
    {
      checkIndex == 0 || (2 <= checkIndex <= |buf| &&
                          (NUL !in buf ==> forall k :: 2 <= k < checkIndex ==> NotMark(buf, k)))
    }

    /** htmlParseLookupCommentEnd: an end of the comment, and the first one if no zero byte
        stopped the search. */
    method LookupCommentEnd(buf: seq<byte>) returns (mark: int)
      requires |buf| >= 4 && Resumes(buf)
      modifies this
      ensures mark >= 0 ==> mark >= 2 && MarkAt(buf, mark) && checkIndex == 0
      ensures mark >= 0 && NUL !in buf ==> FirstMark(buf, mark)
      ensures mark < 0 ==> Resumes(buf) && checkIndex > 0
      ensures mark < 0 && NUL !in buf ==> forall k :: k >= 2 ==> !MarkAt(buf, k)
    {
      while true
        invariant checkIndex <= |buf| && Resumes(buf)
        decreases |buf| - (if checkIndex == 0 then 0 else checkIndex)
      {
        ghost var from := if checkIndex == 0 then 2 else checkIndex;
        assert NUL !in buf ==> forall k :: 2 <= k < from ==> NotMark(buf, k);
        mark := LookupString(buf, 2, [DASH, DASH], 0);
        if mark < 0 {
          if NUL !in buf {
            NoDashes(buf, from, checkIndex);
          }
          return;
        }
        NoneBefore(buf, from, mark);
        assert NUL !in buf ==> forall k :: 2 <= k < mark ==> NotMark(buf, k);
        var c, d := At(buf, mark + 2), At(buf, mark + 3);
        if c == GT || (mark >= 4 && c == BANG && d == GT) {
          checkIndex := 0;
          if NUL !in buf {
            NotMarks(buf, [], mark);
          }
          return;
        }
        var offset := if c == BANG then 3 else 2;
        if mark + offset >= |buf| {
          checkIndex := mark;
          if NUL !in buf {
            NothingYet(buf, mark);
          }
          return -1;
        }
        checkIndex := mark + 1;
      }
    }
  }

  /** NXT(i): the buffer is zero-terminated. */
  function At(s: seq<byte>, i: nat): byte {
    if i < |s| then s[i] else NUL
  }

  lemma DashesAt(s: seq<byte>, k: nat)
    ensures OccursAt(s, [DASH, DASH], k) <==> k + 1 < |s| && s[k] == DASH && s[k + 1] == DASH
  {
  }

  lemma NoneBefore(s: seq<byte>, from: nat, mark: nat)
    requires 2 <= from && FirstOcc(s, [DASH, DASH], from, mark)
    ensures forall k :: from <= k < mark ==> NotMark(s, k)
    ensures mark + 1 < |s| && s[mark] == DASH && s[mark + 1] == DASH
  {
    DashesAt(s, mark);
    forall k | from <= k < mark
      ensures NotMark(s, k)
    {
      DashesAt(s, k);
    }
  }

  lemma NoDashes(s: seq<byte>, from: nat, to: nat)
    requires 2 <= from <= to && (to == from || to + 2 <= |s| + 1) && forall k :: 2 <= k < from ==> NotMark(s, k)
    requires forall j :: from <= j && j + 2 <= |s| ==> !OccursAt(s, [DASH, DASH], j)
    ensures forall k :: 2 <= k < to ==> NotMark(s, k)
    ensures forall k :: k >= 2 ==> !MarkAt(s, k)
  {
    forall k | k >= 2
      ensures !MarkAt(s, k) && (k < to ==> NotMark(s, k))
    {
      DashesAt(s, k);
      assert k < from ==> NotMark(s, k);
    }
  }

  /** What is refuted stays refuted when data is appended. */
  lemma NotMarks(s: seq<byte>, more: seq<byte>, to: nat)
    requires forall k :: 2 <= k < to ==> NotMark(s, k)
    ensures forall k :: 2 <= k < to ==> NotMark(s + more, k) && !MarkAt(s + more, k) && !MarkAt(s, k)
  {
    forall k | 2 <= k < to
      ensures NotMark(s + more, k) && !MarkAt(s + more, k) && !MarkAt(s, k)
    {
      assert NotMark(s, k);
    }
  }

  lemma NothingYet(s: seq<byte>, mark: nat)
    requires mark >= 2 && mark + 1 < |s| && forall k :: 2 <= k < mark ==> NotMark(s, k)
    requires mark + (if At(s, mark + 2) == BANG then 3 else 2) >= |s|
    ensures forall k :: k >= 2 ==> !MarkAt(s, k)
  {
    forall k | k >= 2
      ensures !MarkAt(s, k)
    {
      assert k < mark ==> NotMark(s, k);
    }
  }

  /** Where the lookahead finds the end of a comment, the comment parser stops, the openings
      `<!-->` and `<!--->` and the ending `--!>` included. */
  lemma {:induction false} CommentsAgree(s: seq<byte>, k: nat)
    requires |s| >= 4 && s[2] == DASH && s[3] == DASH && FirstMark(s, k)
    ensures CommentStop(s) == MarkEnd(s, k)
  {
    assert !MarkAt(s, 2) || k == 2;
    assert !MarkAt(s, 3) || k <= 3;
    if k >= 4 {
      DataStopsAtMark(s, 4, k);
    }
  }

  lemma {:induction false} DataStopsAtMark(s: seq<byte>, i: nat, k: nat)
    requires 4 <= i <= k && MarkAt(s, k) && forall j :: i <= j < k ==> !MarkAt(s, j)
    ensures DataEnd(s, i, MaskDash, true) == MarkEnd(s, k)
    decreases k - i
  {
    if i < k {
      assert !MarkAt(s, i);
      DataStopsAtMark(s, i + 1, k);
    }
  }

  /** The push parser on a comment: wait for an end or the end of the input, then parse.
      However the input is cut, the comment has the end and the text that one parse of all of it
      gives: a zero byte can only delay the lookahead. */
  method PushComment(first: seq<byte>, chunks: seq<seq<byte>>, find: Matcher) returns (end: nat, comment: seq<byte>)
    requires |first| >= 4 && first[2] == DASH && first[3] == DASH && MatcherOk(find)
    ensures var all := first + Flatten(chunks); end == CommentStop(all) && comment == CommentText(find, all)
  {
    var l := new StringLookahead();
    var buf, k := first, 0;
    assert chunks[0..] == chunks;
    ghost var all := first + Flatten(chunks);
    var mark := l.LookupCommentEnd(buf);
    while mark < 0 && k < |chunks|
      invariant k <= |chunks| && |buf| >= 4 && buf[2] == DASH && buf[3] == DASH && all == buf + Flatten(chunks[k..])
      invariant mark >= 0 ==> mark >= 2 && MarkAt(buf, mark)
      invariant mark < 0 ==> l.Resumes(buf)
      decreases |chunks| - k
    {
      assert buf + Flatten(chunks[k..]) == (buf + chunks[k]) + Flatten(chunks[k + 1..]);
      if l.checkIndex > 0 && NUL !in buf + chunks[k] {
        NulFree(buf, chunks[k]);
        NotMarks(buf, chunks[k], l.checkIndex);
      }
      buf := buf + chunks[k];
      k := k + 1;
      mark := l.LookupCommentEnd(buf);
    }
    var input := new TagInput(buf, find);
    input.cur := 4;
    comment := input.ParseComment();
    end := input.cur;
    if mark >= 0 {
      ghost var m := LeastMark(buf, mark);
      CommentsAgree(buf, m);
      MarkStays(buf, Flatten(chunks[k..]), m);
      CommentsAgree(all, m);
      CommentStays(find, buf, Flatten(chunks[k..]), m);
    } else {
      assert all == buf;
    }
  }

  /** What is behind the end of a comment does not change its text. */
  lemma CommentStays(find: Matcher, s: seq<byte>, more: seq<byte>, m: nat)
    requires MatcherOk(find) && |s| >= 4 && s[2] == DASH && s[3] == DASH && FirstMark(s, m)
    ensures CommentText(find, s + more) == CommentText(find, s)
  {
    hide DataText;
    assert forall k :: 0 <= k < |s| ==> (s + more)[k] == s[k];
    assert !MarkAt(s, 2) || m == 2;
    assert !MarkAt(s, 3) || m <= 3;
    if m >= 4 {
      MarkEndsData(s, more, m);
      DataStays(find, s, more, 4, MaskDash, true, false, m);
    }
  }

  /** A comment in plain ASCII: its text is what stands between `<!--` and the first `-->` or `--!>`. */
  lemma PlainCommentText(find: Matcher, s: seq<byte>, m: nat)
    requires MatcherOk(find) && |s| > 4 && m >= 4 && s[2] == DASH && s[3] == DASH && FirstMark(s, m)
    requires forall k :: 4 <= k < m ==> 0 < s[k] < 0x80 && s[k] != 0x0D
    ensures CommentText(find, s) == s[4..m]
  {
    hide DataText;
    assert !MarkAt(s, 2) && (m == 4 || !MarkAt(s, 3));
    MarkEndsData(s, [], m);
    PlainComment(find, s, [], 4, m);
  }

  lemma MarkEndsData(s: seq<byte>, more: seq<byte>, m: nat)
    requires m >= 4 && FirstMark(s, m)
    ensures EndsAt(s, more, 4, MaskDash, true, m)
  {
    forall k | 4 <= k < m
      ensures TermSkip(s, k, MaskDash, true) < 0
    {
      assert !MarkAt(s, k);
    }
  }

  lemma {:induction false} LeastMark(s: seq<byte>, k: nat) returns (m: nat)
    requires k >= 2 && MarkAt(s, k)
    ensures m <= k && FirstMark(s, m)
  {
    if exists j :: 2 <= j < k && MarkAt(s, j) {
      var j :| 2 <= j < k && MarkAt(s, j);
      m := LeastMark(s, j);
    } else {
      m := k;
    }
  }

  /** The resumable search of a string, fed in any chunks of zero-free input, finds the first
      occurrence that one search of everything finds. */
  method PushFind(first: seq<byte>, chunks: seq<seq<byte>>, startDelta: nat, str: seq<byte>) returns (ret: int)
    requires startDelta <= |first| && str != [] && NUL !in str && NUL !in first + Flatten(chunks)
    ensures ret >= 0 ==> FirstOcc(first + Flatten(chunks), str, startDelta, ret)
    ensures ret < 0 ==> forall j :: j >= startDelta ==> !OccursAt(first + Flatten(chunks), str, j)
  {
    var l := new StringLookahead();
    var buf, k := first, 0;
    assert chunks[0..] == chunks;
    ghost var all := first + Flatten(chunks);
    NulFree(first, Flatten(chunks));
    ret := l.LookupString(buf, startDelta, str, 0);
    while ret < 0 && k < |chunks|
      invariant k <= |chunks| && startDelta <= |buf| && NUL !in buf && all == buf + Flatten(chunks[k..])
      invariant ret >= 0 ==> FirstOcc(buf, str, startDelta, ret)
      invariant ret < 0 ==> l.checkIndex <= |buf| && (l.checkIndex == 0 || startDelta <= l.checkIndex)
      invariant ret < 0 ==> l.checkIndex + |str| <= |buf| + 1 || l.checkIndex == 0 || l.checkIndex == startDelta
      invariant ret < 0 ==> forall j :: startDelta <= j && j + |str| <= |buf| ==> !OccursAt(buf, str, j)
      decreases |chunks| - k
    {
      assert buf + Flatten(chunks[k..]) == (buf + chunks[k]) + Flatten(chunks[k + 1..]);
      NulFree(buf + chunks[k], Flatten(chunks[k + 1..]));
      ghost var from := if l.checkIndex == 0 then startDelta else l.checkIndex;
      NoneBeforeIndex(buf, chunks[k], str, startDelta, from);
      buf := buf + chunks[k];
      k := k + 1;
      ret := l.LookupString(buf, startDelta, str, 0);
    }
    if ret >= 0 {
      OccursStays(buf, Flatten(chunks[k..]), str, startDelta, ret);
    } else {
      assert all == buf;
    }
  }

  /** Data appended later makes no occurrence before the rescan index. */
  lemma NoneBeforeIndex(s: seq<byte>, more: seq<byte>, str: seq<byte>, i: nat, from: nat)
    requires i <= from <= |s| && (from == i || from + |str| <= |s| + 1)
    requires forall j :: i <= j && j + |str| <= |s| ==> !OccursAt(s, str, j)
    ensures forall j :: i <= j < from ==> !OccursAt(s + more, str, j)
  {
    forall j | i <= j < from
      ensures !OccursAt(s + more, str, j)
    {
      assert (s + more)[j..j + |str|] == s[j..j + |str|];
      assert !OccursAt(s, str, j);
    }
  }

  lemma OccursStays(s: seq<byte>, more: seq<byte>, str: seq<byte>, i: nat, k: nat)
    requires FirstOcc(s, str, i, k)
    ensures FirstOcc(s + more, str, i, k)
  {
    assert (s + more)[k..k + |str|] == s[k..k + |str|];
    forall j | i <= j < k
      ensures !OccursAt(s + more, str, j)
    {
      assert (s + more)[j..j + |str|] == s[j..j + |str|];
      assert !OccursAt(s, str, j);
    }
  }

  lemma NulFree(a: seq<byte>, b: seq<byte>)
    requires NUL !in a + b
    ensures NUL !in a
  {
    assert forall i :: 0 <= i < |a| ==> a[i] == (a + b)[i];
  }

  lemma MarkStays(s: seq<byte>, more: seq<byte>, k: nat)
    requires FirstMark(s, k)
    ensures FirstMark(s + more, k) && MarkEnd(s + more, k) == MarkEnd(s, k)
  {
    forall j | 2 <= j < k
      ensures !MarkAt(s + more, j)
    {
      assert !MarkAt(s, j);
    }
  }
}
