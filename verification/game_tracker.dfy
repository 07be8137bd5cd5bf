/** The body of the script's main loop: given the poll's sample (None for
    `false`) and the current time, decide whether the game in progress is
    over, and if so what is reported and whether a new high score is set.
    Time is a parameter; the script reads it from `time()`. */
module GameTracker {
  import opened Options
  import opened PhpNumber

  /** Seconds without a score change after which a game counts as over. */
  const StagnationSeconds := 120

  /** The entries of `config.json` the loop reads when a game ends. */
  datatype Config = Config(machineName: string, minimumScore: int)

  /** The loop's variables. `lastScoreChange == 0` means the stagnation
      timer is not running. */
  datatype Tracker = Tracker(prevScore: nat, lastScoreChange: int, lowScoreFound: bool, prevHighScore: nat)

  /** With no game in progress the timer is off and no low reading is
      pending. */
  predicate Idle(t: Tracker) {
    t.prevScore == 0 && t.lastScoreChange == 0 && !t.lowScoreFound
  }

  predicate Inv(t: Tracker) {
    t.prevScore == 0 ==> Idle(t)
  }

  /** The loop's initial state, given the stored high score (0 when
      `scores.json` is missing or holds an empty value). */
  function Start(storedHighScore: nat): (t: Tracker)
    ensures Idle(t) && Inv(t)
    ensures t.prevHighScore == storedHighScore
  {
    Tracker(0, 0, false, storedHighScore)
  }

  /** What a finished game leads to: a tweet with the status line when the
      score beats the configured minimum, otherwise only a log line. */
  datatype Report = Tweet(status: string) | ScoreLog(line: string)

  datatype Event = Event(finalScore: nat, isNewHigh: bool, report: Report)

  datatype StepResult = StepResult(next: Tracker, event: Option<Event>)

  /** The status text of a finished game. */
  function Status(score: nat, isNewHigh: bool, machineName: string): string {
    (if isNewHigh then "HIGH " else "") + "Score of " + NumberFormat(score) + " posted to " + machineName
  }

  /** The status line carries the "HIGH " prefix exactly for a new high score. */
  lemma StatusMarksHighScore(score: nat, isNewHigh: bool, machineName: string)
    ensures |Status(score, isNewHigh, machineName)| >= 5
    ensures Status(score, isNewHigh, machineName)[..5] == "HIGH " <==> isNewHigh
  {
    var s := Status(score, isNewHigh, machineName);
    if !isNewHigh {
      assert s[0] == 'S';
    } else {
      assert s[..5] == "HIGH ";
    }
  }

  /** One pass of the main loop. */
  function Step(t: Tracker, sample: Option<nat>, now: int, cfg: Config): (r: StepResult)
    // no reading: nothing changes and nothing is reported
    ensures sample.None? ==> r == StepResult(t, None)
    // a first lower reading is only noted
    ensures sample.Some? && sample.value < t.prevScore && !t.lowScoreFound ==>
      r.event.None? && r.next == t.(lowScoreFound := true, lastScoreChange := now)
    // a second lower reading ends the game with the score held before it
    ensures sample.Some? && sample.value < t.prevScore && t.lowScoreFound ==>
      r.event.Some? && r.event.value.finalScore == t.prevScore
    // a game ending on a reading that is not lower is a stagnation timeout:
    // the timer was running, it ran out, and the reading did not change
    ensures r.event.Some? && sample.Some? && sample.value >= t.prevScore ==>
      t.lastScoreChange > 0 && now - t.lastScoreChange > StagnationSeconds &&
      (t.prevScore > 0 ==> sample.value == t.prevScore)
    // a reading no lower than the tracked score that ends nothing is adopted
    // and clears a pending low reading
    ensures sample.Some? && sample.value >= t.prevScore && r.event.None? ==>
      r.next.prevScore == sample.value && !r.next.lowScoreFound && r.next.prevHighScore == t.prevHighScore
    // any change of reading during a game that ends nothing restarts the timer
    ensures sample.Some? && t.prevScore > 0 && sample.value != t.prevScore && r.event.None? ==>
      r.next.lastScoreChange == now
    // the tracked score changes only by adopting a reading no lower than it, or by a reset
    ensures r.event.None? ==> r.next.prevScore >= t.prevScore && r.next.prevHighScore == t.prevHighScore
    ensures r.event.None? && r.next.prevScore != t.prevScore ==> sample == Some(r.next.prevScore)
    // the timer moves only on a changed reading while a game is in progress
    ensures r.event.None? && r.next.lastScoreChange != t.lastScoreChange ==>
      t.prevScore > 0 && sample.Some? && sample.value != t.prevScore && r.next.lastScoreChange == now
    // a finished game resets the loop, and the high score becomes the larger of the two
    ensures r.event.Some? ==>
      var e := r.event.value;
      && e.finalScore == t.prevScore
      && (e.isNewHigh <==> e.finalScore > t.prevHighScore)
      && r.next == Tracker(0, 0, false, if e.isNewHigh then e.finalScore else t.prevHighScore)
    // it is tweeted exactly when it beats the minimum, else only logged
    ensures r.event.Some? ==>
      var e := r.event.value;
      && (e.report.Tweet? <==> e.finalScore > cfg.minimumScore)
      && (e.report.Tweet? ==> e.report.status == Status(e.finalScore, e.isNewHigh, cfg.machineName))
      && (e.report.ScoreLog? ==> e.report.line == "Score: " + NumberFormat(e.finalScore))
  {
    if sample.None? then StepResult(t, None)
    else
      var newScore := sample.value;
      var lastChange := if newScore != t.prevScore && t.prevScore > 0 then now else t.lastScoreChange;
      if newScore < t.prevScore && !t.lowScoreFound then
        StepResult(t.(lastScoreChange := lastChange, lowScoreFound := true), None)
      else if newScore < t.prevScore || (lastChange > 0 && now - lastChange > StagnationSeconds) then
        var score := t.prevScore;
        var isNewHigh := score > t.prevHighScore;
        var report :=
          if score > cfg.minimumScore then Tweet(Status(score, isNewHigh, cfg.machineName))
          else ScoreLog("Score: " + NumberFormat(score));
        var high := if isNewHigh then score else t.prevHighScore;
        StepResult(Tracker(0, 0, false, high), Some(Event(score, isNewHigh, report)))
      else
        StepResult(t.(prevScore := newScore, lastScoreChange := lastChange, lowScoreFound := false), None)
  }

  /** The loop keeps its invariant, so every finished game has a positive
      score and an idle loop never reports one. */
  lemma StepKeepsInvariant(t: Tracker, sample: Option<nat>, now: int, cfg: Config)
    requires Inv(t)
    ensures Inv(Step(t, sample, now, cfg).next)
    ensures Step(t, sample, now, cfg).event.Some? ==> Step(t, sample, now, cfg).event.value.finalScore > 0
    ensures t.prevScore == 0 ==> Step(t, sample, now, cfg).event.None?
  {
  }

  /** When a game ends, from a state the loop can reach: either a confirmed
      drop, or an unchanged reading after more than 120 seconds on a running
      timer. */
  lemma GameOverExactly(t: Tracker, sample: Option<nat>, now: int, cfg: Config)
    requires Inv(t)
    ensures Step(t, sample, now, cfg).event.Some? <==>
      && sample.Some?
      && t.prevScore > 0
      && ((sample.value < t.prevScore && t.lowScoreFound)
          || (sample.value == t.prevScore && t.lastScoreChange > 0 && now - t.lastScoreChange > StagnationSeconds))
  {
  }

  /** A single lower reading followed, within the stagnation window, by a
      reading back at or above the tracked score reports nothing and the
      later reading is adopted. */
  lemma GlitchIgnored(t: Tracker, low: nat, t1: int, back: nat, t2: int, cfg: Config)
    requires Inv(t) && !t.lowScoreFound
    requires low < t.prevScore <= back
    requires t2 - t1 <= StagnationSeconds
    ensures Step(t, Some(low), t1, cfg).event.None?
    ensures var s := Step(t, Some(low), t1, cfg).next;
      && Step(s, Some(back), t2, cfg).event.None?
      && Step(s, Some(back), t2, cfg).next.prevScore == back
      && !Step(s, Some(back), t2, cfg).next.lowScoreFound
  {
  }

  /** Two lower readings in a row end the game with the score held before
      them; the lower reading is not kept. */
  lemma ConfirmedDropEndsGame(t: Tracker, low1: nat, t1: int, low2: nat, t2: int, cfg: Config)
    requires Inv(t) && !t.lowScoreFound
    requires low1 < t.prevScore && low2 < t.prevScore
    ensures Step(t, Some(low1), t1, cfg).event.None?
    ensures var s := Step(t, Some(low1), t1, cfg).next;
      && Step(s, Some(low2), t2, cfg).event.Some?
      && Step(s, Some(low2), t2, cfg).event.value.finalScore == t.prevScore
      && Step(s, Some(low2), t2, cfg).next.prevScore == 0
  {
  }

  /** One poll result and the time it was taken. */
  datatype Input = Input(sample: Option<nat>, now: int)

  /** The loop's state after a sequence of polls, and the games it reported. */
  datatype Trace = Trace(final: Tracker, events: seq<Event>)

  function Run(t: Tracker, inputs: seq<Input>, cfg: Config): Trace
    decreases |inputs|
  {
    if inputs == [] then Trace(t, [])
    else
      var s := Step(t, inputs[0].sample, inputs[0].now, cfg);
      var rest := Run(s.next, inputs[1..], cfg);
      Trace(rest.final, (if s.event.Some? then [s.event.value] else []) + rest.events)
  }

  /** Over any run from a reachable state, the invariant holds at the end
      and every reported game has a positive score. */
  lemma {:induction false} RunKeepsInvariant(t: Tracker, inputs: seq<Input>, cfg: Config)
    requires Inv(t)
    ensures Inv(Run(t, inputs, cfg).final)
    ensures forall k :: 0 <= k < |Run(t, inputs, cfg).events| ==> Run(t, inputs, cfg).events[k].finalScore > 0
    decreases |inputs|
  {
    if inputs != [] {
      var s := Step(t, inputs[0].sample, inputs[0].now, cfg);
      StepKeepsInvariant(t, inputs[0].sample, inputs[0].now, cfg);
      RunKeepsInvariant(s.next, inputs[1..], cfg);
      var head: seq<Event> := if s.event.Some? then [s.event.value] else [];
      var rest := Run(s.next, inputs[1..], cfg).events;
      assert Run(t, inputs, cfg).events == head + rest;
      forall k | 0 <= k < |head + rest|
        ensures (head + rest)[k].finalScore > 0
      {
        if k >= |head| { assert (head + rest)[k] == rest[k - |head|]; }
      }
    }
  }

  /** The high score never goes down, is at least every reported score, and
      is either where it started or a score reported as a new high. */
  lemma {:induction false} RunHighScore(t: Tracker, inputs: seq<Input>, cfg: Config)
    ensures var r := Run(t, inputs, cfg);
      && r.final.prevHighScore >= t.prevHighScore
      && (forall k :: 0 <= k < |r.events| ==> r.events[k].finalScore <= r.final.prevHighScore)
      && (r.final.prevHighScore == t.prevHighScore ||
          exists k :: 0 <= k < |r.events| && r.events[k].isNewHigh && r.events[k].finalScore == r.final.prevHighScore)
    decreases |inputs|
  {
    if inputs != [] {
      var s := Step(t, inputs[0].sample, inputs[0].now, cfg);
      RunHighScore(s.next, inputs[1..], cfg);
      var head: seq<Event> := if s.event.Some? then [s.event.value] else [];
      var tail := Run(s.next, inputs[1..], cfg);
      var r := Run(t, inputs, cfg);
      assert r.final == tail.final;
      assert r.events == head + tail.events;
      forall k | 0 <= k < |r.events|
        ensures r.events[k].finalScore <= r.final.prevHighScore
      {
        if k >= |head| { assert r.events[k] == tail.events[k - |head|]; }
      }
      if r.final.prevHighScore != t.prevHighScore {
        if tail.final.prevHighScore == s.next.prevHighScore {
          assert r.events[0] == s.event.value;
        } else {
          var k :| 0 <= k < |tail.events| && tail.events[k].isNewHigh && tail.events[k].finalScore == tail.final.prevHighScore;
          assert r.events[k + |head|] == tail.events[k];
        }
      }
    }
  }

  /** While the timer is off, readings equal to the tracked score (or no
      readings at all) never end the game, however much time passes: the
      timer starts only when the score changes during a game. */
  lemma {:induction false} UnchangedScoreNeverTimesOut(t: Tracker, inputs: seq<Input>, cfg: Config)
    requires t.lastScoreChange == 0 && !t.lowScoreFound
    requires forall k :: 0 <= k < |inputs| ==> inputs[k].sample.None? || inputs[k].sample == Some(t.prevScore)
    ensures Run(t, inputs, cfg) == Trace(t, [])
    decreases |inputs|
  {
    if inputs != [] {
      var s := Step(t, inputs[0].sample, inputs[0].now, cfg);
      assert s == StepResult(t, None);
      assert forall k :: 0 <= k < |inputs[1..]| ==> inputs[1..][k] == inputs[k + 1];
      UnchangedScoreNeverTimesOut(t, inputs[1..], cfg);
    }
  }

  /** From idle, three readings of 100 with the last one 130 seconds after
      the first report nothing. */
  lemma SteadyScoreFromIdle(high: nat, t0: int, cfg: Config)
    ensures var first := Step(Start(high), Some(100), t0, cfg);
      && first.event.None?
      && Run(first.next, [Input(Some(100), t0 + 65), Input(Some(100), t0 + 130)], cfg).events == []
  {
    var first := Step(Start(high), Some(100), t0, cfg);
    UnchangedScoreNeverTimesOut(first.next, [Input(Some(100), t0 + 65), Input(Some(100), t0 + 130)], cfg);
  }

  /** Once a game's score has risen at time `c`, an unchanged reading at
      `now` ends the game with that score exactly when more than 120 seconds
      have passed since `c`. */
  lemma StagnationEndsGame(t: Tracker, v: nat, c: int, now: int, cfg: Config)
    requires t.prevScore > 0 && v > t.prevScore && c > 0
    ensures var s := Step(t, Some(v), c, cfg);
      && s.event.None?
      && s.next.prevScore == v
      && (Step(s.next, Some(v), now, cfg).event.Some? <==> now - c > StagnationSeconds)
      && (Step(s.next, Some(v), now, cfg).event.Some? ==> Step(s.next, Some(v), now, cfg).event.value.finalScore == v)
  {
  }

  /** A game held at its score, with readings equal to it or missing, is
      not ended while the 120 seconds since the last change have not run
      out, and the loop's state does not move. */
  lemma {:induction false} HeldScoreWithinWindow(t: Tracker, inputs: seq<Input>, cfg: Config)
    requires t.prevScore > 0 && t.lastScoreChange > 0 && !t.lowScoreFound
    requires forall k :: 0 <= k < |inputs| ==> inputs[k].sample.None? || inputs[k].sample == Some(t.prevScore)
    requires forall k :: 0 <= k < |inputs| ==> inputs[k].now - t.lastScoreChange <= StagnationSeconds
    ensures Run(t, inputs, cfg) == Trace(t, [])
    decreases |inputs|
  {
    if inputs != [] {
      assert Step(t, inputs[0].sample, inputs[0].now, cfg) == StepResult(t, None);
      assert forall k :: 0 <= k < |inputs[1..]| ==> inputs[1..][k] == inputs[k + 1];
      HeldScoreWithinWindow(t, inputs[1..], cfg);
    }
  }

  /** However many unchanged readings come in between, the game ends on the
      first unchanged reading more than 120 seconds after the last change,
      and on no earlier one. */
  lemma StagnationAfterHeldScore(t: Tracker, inputs: seq<Input>, now: int, cfg: Config)
    requires t.prevScore > 0 && t.lastScoreChange > 0 && !t.lowScoreFound
    requires forall k :: 0 <= k < |inputs| ==> inputs[k].sample.None? || inputs[k].sample == Some(t.prevScore)
    requires forall k :: 0 <= k < |inputs| ==> inputs[k].now - t.lastScoreChange <= StagnationSeconds
    ensures var held := Run(t, inputs, cfg);
      && held.events == []
      && (Step(held.final, Some(t.prevScore), now, cfg).event.Some? <==> now - t.lastScoreChange > StagnationSeconds)
      && (Step(held.final, Some(t.prevScore), now, cfg).event.Some? ==>
            Step(held.final, Some(t.prevScore), now, cfg).event.value.finalScore == t.prevScore)
  {
    HeldScoreWithinWindow(t, inputs, cfg);
    GameOverExactly(t, Some(t.prevScore), now, cfg);
  }

  /** A finished game whose score the machine keeps showing is reported
      twice: after a stagnation end the shown score is adopted again from
      idle, and two lower readings when the next game starts end that
      "game" with the same score. */
  lemma StagnantScoreReportedTwice(v: nat, low: nat, c: int, t1: int, t2: int, t3: int, t4: int, high: nat, cfg: Config)
    requires low < v && c > 0 && t1 - c > StagnationSeconds
    ensures var events := Run(Tracker(v, c, false, high),
      [Input(Some(v), t1), Input(Some(v), t2), Input(Some(low), t3), Input(Some(low), t4)], cfg).events;
      && |events| == 2
      && events[0].finalScore == v && events[1].finalScore == v
      && !events[1].isNewHigh
  {
    var s0 := Tracker(v, c, false, high);
    var h := if v > high then v else high;
    assert Step(s0, Some(v), t1, cfg).next == Tracker(0, 0, false, h);
    var s1 := Tracker(v, 0, false, h);
    assert Step(Tracker(0, 0, false, h), Some(v), t2, cfg) == StepResult(s1, None);
    var s2 := Tracker(v, t3, true, h);
    assert Step(s1, Some(low), t3, cfg) == StepResult(s2, None);
    var e2 := Step(s2, Some(low), t4, cfg).event.value;
    assert e2.finalScore == v && !e2.isNewHigh;
    var i1, i2, i3, i4 := Input(Some(v), t1), Input(Some(v), t2), Input(Some(low), t3), Input(Some(low), t4);
    assert [i1, i2, i3, i4][1..] == [i2, i3, i4];
    assert [i2, i3, i4][1..] == [i3, i4];
    assert [i3, i4][1..] == [i4];
    assert Run(s2, [i4], cfg).events == [e2];
    assert Run(s1, [i3, i4], cfg).events == [e2];
    assert Run(Tracker(0, 0, false, h), [i2, i3, i4], cfg).events == [e2];
    assert Run(s0, [i1, i2, i3, i4], cfg).events == [Step(s0, Some(v), t1, cfg).event.value, e2];
  }

  /** A game held at 200 followed by two readings of 150: the first is only
      noted, the second ends the game at 200 and the loop goes idle. */
  lemma DropFrom200(high: nat, now1: int, now2: int, cfg: Config)
    ensures var s := Step(Tracker(200, 0, false, high), Some(150), now1, cfg);
      && s.event.None? && s.next.lowScoreFound && s.next.prevScore == 200
      && Step(s.next, Some(150), now2, cfg).event.Some?
      && Step(s.next, Some(150), now2, cfg).event.value.finalScore == 200
      && Idle(Step(s.next, Some(150), now2, cfg).next)
  {
  }
}
