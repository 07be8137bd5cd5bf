/** The reply parser of `queryScores`: `preg_match('/=([0-9a-fA-F]+)/', ...)`
    followed by `hexdec` of the captured group. The regular expression finds
    the leftmost `=` that is immediately followed by a hexadecimal digit,
    and its greedy `+` takes the longest run of digits after it. */
module ScoreMatch {
  import opened Options
  import opened Hex

  /** A match of the pattern can start at index `k`. */
  predicate MatchStartsAt(s: string, k: int) {
    0 <= k && k + 1 < |s| && s[k] == '=' && IsHexDigit(s[k + 1])
  }

  /** Where the greedy run of hexadecimal digits starting at `j` ends. */
  function RunEnd(s: string, j: nat): (e: nat)
    requires j <= |s|
    ensures j <= e <= |s|
    ensures forall k :: j <= k < e ==> IsHexDigit(s[k])
    ensures e == |s| || !IsHexDigit(s[e])
    decreases |s| - j
  {
    if j < |s| && IsHexDigit(s[j]) then RunEnd(s, j + 1) else j
  }

  /** A match: the `=` is at `at`, the captured digits are `s[at + 1..end]`. */
  datatype Match = Match(at: nat, end: nat)

  /** The leftmost match that starts at or after `i`. */
  function MatchFrom(s: string, i: nat): (m: Option<Match>)
    requires i <= |s|
    ensures m.None? <==> forall k :: i <= k < |s| ==> !MatchStartsAt(s, k)
    ensures m.Some? ==> i <= m.value.at && MatchStartsAt(s, m.value.at)
    ensures m.Some? ==> forall k :: i <= k < m.value.at ==> !MatchStartsAt(s, k)
    ensures m.Some? ==> m.value.end == RunEnd(s, m.value.at + 1)
    decreases |s| - i
  {
    if i + 1 >= |s| then None
    else if MatchStartsAt(s, i) then Some(Match(i, RunEnd(s, i + 1)))
    else MatchFrom(s, i + 1)
  }

  /** The text of capture group 1, if the pattern matches at all: a
      non-empty run of hexadecimal digits that directly follows the leftmost
      qualifying `=` and is not followed by another digit. */
  function Capture(s: string): (r: Option<string>)
    ensures r.None? <==> forall k :: 0 <= k < |s| ==> !MatchStartsAt(s, k)
    ensures r.Some? ==> |r.value| > 0 && forall k :: 0 <= k < |r.value| ==> IsHexDigit(r.value[k])
    ensures r.Some? ==> exists k ::
      && MatchStartsAt(s, k)
      && (forall j :: 0 <= j < k ==> !MatchStartsAt(s, j))
      && r.value == s[k + 1..RunEnd(s, k + 1)]
  {
    match MatchFrom(s, 0)
    case None => None
    case Some(m) => Some(s[m.at + 1..m.end])
  }

  /** The score a device reply carries, or None when it has no match (PHP's
      `isset($matches[1])` failing). */
  function ParseScore(reply: string): (r: Option<nat>)
    ensures r.None? <==> forall k :: 0 <= k < |reply| ==> !MatchStartsAt(reply, k)
    ensures r.Some? ==> exists k ::
      && MatchStartsAt(reply, k)
      && (forall j :: 0 <= j < k ==> !MatchStartsAt(reply, j))
      && r.value == HexDec(reply[k + 1..RunEnd(reply, k + 1)])
  {
    match Capture(reply)
    case None => None
    case Some(digits) => Some(HexDec(digits))
  }

  /** After an `=`-free prefix, `=` and a run of hexadecimal digits that no
      further digit follows, the captured group is exactly that run. */
  lemma CaptureAfterEquals(pre: string, h: string, post: string)
    requires forall k :: 0 <= k < |pre| ==> pre[k] != '='
    requires |h| > 0 && forall k :: 0 <= k < |h| ==> IsHexDigit(h[k])
    requires post == [] || !IsHexDigit(post[0])
    ensures Capture(pre + "=" + h + post) == Some(h)
  {
    var s := pre + "=" + h + post;
    var j := |pre| + 1;
    assert forall k :: 0 <= k < |pre| ==> s[k] == pre[k];
    assert s[|pre|] == '=';
    assert forall k :: 0 <= k < |h| ==> s[j + k] == h[k];
    assert MatchStartsAt(s, |pre|);
    var m := MatchFrom(s, 0);
    assert m.value.at == |pre|;
    var e := RunEnd(s, j);
    assert |post| > 0 ==> s[j + |h|] == post[0];
    assert e == j + |h|;
    assert s[j..e] == h;
  }

  /** Such a reply's score is the value of its digit run, whatever the case
      of the digits and however many leading zeros they carry. */
  lemma ParseHexRun(pre: string, h: string, post: string)
    requires forall k :: 0 <= k < |pre| ==> pre[k] != '='
    requires |h| > 0 && forall k :: 0 <= k < |h| ==> IsHexDigit(h[k])
    requires post == [] || !IsHexDigit(post[0])
    ensures ParseScore(pre + "=" + h + post) == Some(HexDec(h))
  {
    CaptureAfterEquals(pre, h, post);
  }

  /** A reply that carries `= <hex of n>` with no earlier `=` and no digit
      straight after the number parses back to `n`. */
  lemma ParseRoundTrip(pre: string, n: nat, post: string)
    requires forall k :: 0 <= k < |pre| ==> pre[k] != '='
    requires post == [] || !IsHexDigit(post[0])
    ensures ParseScore(pre + "=" + ToHex(n) + post) == Some(n)
  {
    ParseHexRun(pre, ToHex(n), post);
    HexRoundTrip(n);
  }

  /** A zero-padded reply: the leading zeros add nothing. */
  lemma ParseZeroPadded()
    ensures ParseScore("=00001388") == Some(5000)
  {
    var h := "00001388";
    assert "=00001388" == "" + "=" + h + "";
    ParseHexRun("", h, "");
    HexDecZeroPadded();
  }

  /** An upper-case reply reads like its lower-case spelling. */
  lemma ParseUpperCase()
    ensures ParseScore("=FF") == Some(255)
  {
    assert "=FF" == "" + "=" + "FF" + "";
    ParseHexRun("", "FF", "");
  }
}
