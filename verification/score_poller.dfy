/** `queryScores`: asks each player slot for its score register, gives up
    on the first reply without a hexadecimal value, stops after the first
    zero score and reports the largest score collected. The device replies
    are given: slot `i` (counted from 1) answers `replies[i - 1]`, and a slot
    past the end of the sequence answers "", which is what a timed-out
    `queryData` returns. */
module ScorePoller {
  import opened Options
  import opened PhpString
  import opened PhpNumber
  import opened ScoreMatch

  /** The command that reads player `slot`'s score register. */
  function Command(slot: nat): (c: string)
    ensures !IsPhpEmpty(c) && IsTrimmed(c) && '\n' !in c
  {
    var c := "zc mod 0x5c073564 " + Decimal(slot);
    assert c[0] == 'z';
    assert IsDigitChar(c[|c| - 1]);
    c
  }

  function ReplyFor(replies: seq<string>, slot: int): string {
    if 1 <= slot <= |replies| then replies[slot - 1] else ""
  }

  /** What slot `slot`'s reply says: its score, or None when it does not
      parse. */
  function SlotScore(replies: seq<string>, slot: int): Option<nat> {
    ParseScore(ReplyFor(replies, slot))
  }

  /** PHP's `max` over a non-empty list: an element that no element exceeds. */
  function MaxOf(scores: seq<nat>): (m: nat)
    requires |scores| > 0
    ensures m in scores
    ensures forall k :: 0 <= k < |scores| ==> scores[k] <= m
  {
    if |scores| == 1 then scores[0]
    else
      var rest := MaxOf(scores[1..]);
      assert forall k :: 1 <= k < |scores| ==> scores[k] == scores[1..][k - 1];
      if scores[0] >= rest then scores[0] else rest
  }

  /** The outcome of one poll: `maxPlayers < 1` is fatal (the script logs
      and exits); otherwise the sample (None for PHP's `false`) and how many
      slots were queried. */
  datatype Poll = MaxPlayersFatal | Polled(sample: Option<nat>, queried: nat)

  /** The loop of `queryScores` over what each slot's reply parses to. */
  method CollectScores(maxPlayers: int, slotScore: int -> Option<nat>) returns (r: Poll)
    ensures r.MaxPlayersFatal? <==> maxPlayers < 1
    ensures r.Polled? ==> 1 <= r.queried <= maxPlayers
    // every slot before the last one queried parsed to a non-zero score
    ensures r.Polled? ==> forall i :: 1 <= i < r.queried ==> slotScore(i).Some? && slotScore(i).value > 0
    // no sample exactly when the last slot queried did not parse
    ensures r.Polled? ==> (r.sample.None? <==> slotScore(r.queried).None?)
    // querying stops early only on a zero score
    ensures r.Polled? && r.sample.Some? ==> r.queried == maxPlayers || slotScore(r.queried) == Some(0)
    // the sample is the largest score collected
    ensures r.Polled? && r.sample.Some? ==>
      forall i :: 1 <= i <= r.queried ==> slotScore(i).Some? && slotScore(i).value <= r.sample.value
    ensures r.Polled? && r.sample.Some? ==>
      exists i :: 1 <= i <= r.queried && slotScore(i) == Some(r.sample.value)
  {
    if maxPlayers < 1 {
      return MaxPlayersFatal;
    }
    var scores: seq<nat> := [];
    var i := 1;
    var stopped := false;
    while i <= maxPlayers && !stopped
      invariant 1 <= i <= maxPlayers + 1
      invariant !stopped ==> |scores| == i - 1
      invariant stopped ==> i <= maxPlayers && |scores| == i && scores[i - 1] == 0 && slotScore(i) == Some(0)
      invariant forall j :: 1 <= j < i ==> slotScore(j) == Some(scores[j - 1]) && scores[j - 1] > 0
      decreases maxPlayers + 1 - i, !stopped
    {
      var score := slotScore(i);
      if score.None? {
        return Polled(None, i);
      }
      var before := scores;
      scores := scores + [score.value];
      forall j | 1 <= j < i
        ensures slotScore(j) == Some(scores[j - 1]) && scores[j - 1] > 0
      {
        assert scores[j - 1] == before[j - 1];
      }
      if score.value == 0 {
        // PHP breaks out of the loop here, whichever slot it is
        stopped := true;
      } else {
        assert slotScore(i) == Some(scores[i - 1]);
        i := i + 1;
      }
    }
    // the loop ran at least once, so PHP's `count($scores) == 0` case cannot arise
    assert |scores| > 0;
    var m := MaxOf(scores);
    var k :| 0 <= k < |scores| && scores[k] == m;
    assert slotScore(k + 1) == Some(scores[k]);
    r := Polled(Some(m), |scores|);
  }

  /** `queryScores($maxPlayers)` against the given replies. */
  method QueryScores(maxPlayers: int, replies: seq<string>) returns (r: Poll)
    ensures r.MaxPlayersFatal? <==> maxPlayers < 1
    ensures r.Polled? ==> 1 <= r.queried <= maxPlayers
    ensures r.Polled? ==> forall i :: 1 <= i < r.queried ==> SlotScore(replies, i).Some? && SlotScore(replies, i).value > 0
    ensures r.Polled? ==> (r.sample.None? <==> SlotScore(replies, r.queried).None?)
    ensures r.Polled? && r.sample.Some? ==> r.queried == maxPlayers || SlotScore(replies, r.queried) == Some(0)
    ensures r.Polled? && r.sample.Some? ==>
      forall i :: 1 <= i <= r.queried ==> SlotScore(replies, i).Some? && SlotScore(replies, i).value <= r.sample.value
    ensures r.Polled? && r.sample.Some? ==>
      exists i :: 1 <= i <= r.queried && SlotScore(replies, i) == Some(r.sample.value)
  {
    var slotScore := i => SlotScore(replies, i);
    assert forall i :: slotScore(i) == SlotScore(replies, i);
    r := CollectScores(maxPlayers, slotScore);
  }

  /** Three players whose second slot reads zero: the third is never asked
      and the first slot's score is the sample. */
  method StopsAfterZeroScore() returns (r: Poll)
    ensures r == Polled(Some(5000), 2)
  {
    var slotScore := i => if i == 1 then Some(5000) else if i == 2 then Some(0) else Some(65535);
    r := CollectScores(3, slotScore);
    assert slotScore(1) == Some(5000) && slotScore(2) == Some(0);
  }
}
