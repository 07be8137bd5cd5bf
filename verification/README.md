# pin-tweet: game-completion tracking and score polling, in Dafny

`pintweet.php` polls a pinball machine's score registers over a serial line,
decides when a game has ended and tweets (or logs) the final score. This
project models the three pieces of pure logic in it:

- **GameTracker**: the body of the main loop (`pintweet.php:168-213`) as a
  pure step function `Step(state, sample, now, config)`. The state is the
  loop's four variables (`prevScore`, `lastScoreChange`, `lowScoreFound`,
  `prevHighScore`). The sample is the poll result, with `None` for PHP's
  `false`. `now` stands for `time()`. The step applies the one-reading glitch
  guard and the two completion triggers: a confirmed drop, or more than 120
  seconds since the last change. A finished game yields an `Event` with its
  score, the new-high flag and the report: a tweet with the status line, or a
  log line only. `Run` folds `Step` over a sequence of polls. The scores in
  the status and log lines are written by `PhpNumber.NumberFormat`.
- **ScorePoller / ScoreMatch / Hex**: `queryScores` (`pintweet.php:90-121`).
  Each player slot's reply is parsed with `=([0-9a-fA-F]+)` and decoded with
  `hexdec`. The poll gives up on the first reply without a match and stops
  after the first zero score. It returns the maximum of the scores collected.
  The device replies are given as a sequence of strings, one per slot. The
  register command is built with `PhpNumber.Decimal`, PHP's int-to-string
  conversion.
- **SerialLink / PhpString**: the line and echo logic of `queryData`
  (`pintweet.php:9-49`). The input is the characters that arrive before the
  deadline, so running out of input stands for the ten-second timeout. A line
  runs up to and including the first line feed and is then `trim`med. A reply
  equal to the command is an echo, and one more line is read without a
  command, so an echo is skipped at most once.

All files are verified together: `dafny verify *.dfy`.

## Model

| member | source | states |
|---|---|---|
| `GameTracker.Start` | pintweet.php:168-171 | The loop starts idle: no score tracked, timer off, no low reading pending, high score as stored. |
| `GameTracker.Step` | pintweet.php:173-213 | No reading changes nothing and reports nothing. A first lower reading only sets the pending flag and restarts the timer. A second lower reading ends the game with the score held before the drop. An end on a reading that is not lower needs a running timer with more than 120 s elapsed and an unchanged score. A reading no lower than the tracked score that ends nothing is adopted, and the pending flag is cleared. Without an event, the tracked score only rises, and only to the sample. A changed reading during a game that ends nothing restarts the timer at the current time, and the timer starts on nothing else. An end resets the loop, sets the new-high flag exactly when the score beats the high score, and tweets exactly when it beats `minimumScore`. |
| `GameTracker.StatusMarksHighScore` | pintweet.php:191-193 | The status line starts with "HIGH " if and only if the game set a new high score. |
| `GameTracker.StepKeepsInvariant` | pintweet.php:168-212 | The invariant "no tracked score implies timer off and no pending low reading" is kept. So every finished game has a positive score, and an idle loop never reports one. |
| `GameTracker.GameOverExactly` | pintweet.php:177-190 | From a reachable state, a game ends if and only if a game is in progress and either a second lower reading arrives or an unchanged reading comes more than 120 s after a running timer started. |
| `GameTracker.GlitchIgnored` | pintweet.php:181-187 | A single lower reading followed within 120 s by a reading at or above the tracked score reports nothing, and the later reading is adopted. |
| `GameTracker.ConfirmedDropEndsGame` | pintweet.php:183-209 | Two lower readings in a row end the game with the score from before the drop, and the lower reading is not kept. |
| `GameTracker.RunKeepsInvariant` | pintweet.php:173-213 | Over any sequence of polls from a reachable state, the invariant holds at the end and every reported game has a positive score. |
| `GameTracker.RunHighScore` | pintweet.php:192-196 | Over any sequence of polls, the high score never decreases and is at least every reported score. It is either the starting high score or the score of a game reported as a new high. |
| `GameTracker.UnchangedScoreNeverTimesOut` | pintweet.php:177-190 | While the timer is off, readings equal to the tracked score (or no readings) never end the game, however much time passes. |
| `GameTracker.SteadyScoreFromIdle` | pintweet.php:177-190 | From idle, readings 100, 100, 100 with the last 130 s after the first report nothing. |
| `GameTracker.StagnationEndsGame` | pintweet.php:177-190 | During a game, a rise to `v` at time `c` is adopted. A following reading of `v` at `now` ends the game with score `v` if and only if more than 120 s have passed since `c`. |
| `GameTracker.HeldScoreWithinWindow` | pintweet.php:177-190 | During a game with a running timer, readings equal to the tracked score or missing, each within 120 s of the last change, report nothing and leave the loop's state as it was. |
| `GameTracker.StagnationAfterHeldScore` | pintweet.php:177-190 | After any number of such readings, the next unchanged reading ends the game with the tracked score if and only if more than 120 s have passed since the last change. |
| `GameTracker.StagnantScoreReportedTwice` | pintweet.php:177-212 | If the machine keeps showing a score after a stagnation end, that score is adopted again from idle. Two lower readings then report it a second time, and not as a new high. |
| `GameTracker.DropFrom200` | pintweet.php:183-209 | At 200, a reading of 150 is only noted. A second 150 ends the game at 200 and leaves the loop idle. |
| `ScorePoller.CollectScores` | pintweet.php:94-120 | Fatal exactly when `maxPlayers < 1`. Otherwise every slot before the last one queried has a non-zero score. There is no sample exactly when the last slot queried did not parse. Querying stops early only on a zero score. The sample is one of the scores collected and no score collected exceeds it. |
| `ScorePoller.QueryScores` | pintweet.php:90-121 | The same guarantees as `CollectScores`, stated on the device's reply strings through the reply parser. |
| `ScorePoller.MaxOf` | pintweet.php:120 | `max` of a non-empty list is an element of it that no element exceeds. |
| `ScorePoller.StopsAfterZeroScore` | pintweet.php:110-113 | With three players and a zero score in slot 2, only two slots are queried and slot 1's 5000 is the sample. |
| `ScorePoller.Command` | pintweet.php:102 | The register command is non-empty for PHP, trimmed and free of line feeds, so echo suppression applies to it. |
| `ScoreMatch.RunEnd` | pintweet.php:104 | The greedy `+` takes the longest run of hex digits: all digits up to the end or to the first non-digit. |
| `ScoreMatch.MatchFrom` | pintweet.php:104-105 | It finds the leftmost `=` directly followed by a hex digit, or reports that none exists. |
| `ScoreMatch.Capture` | pintweet.php:104-106 | Capture group 1 exists exactly when some `=` is followed by a hex digit. When it exists, it is a non-empty run of hex digits. It follows the leftmost such `=` and is the whole run of digits there. |
| `ScoreMatch.ParseScore` | pintweet.php:104-109 | A reply yields no score exactly when it has no `=` followed by a hex digit. Otherwise the score is the `hexdec` value of the whole digit run after the leftmost such `=`. |
| `ScoreMatch.CaptureAfterEquals` | pintweet.php:104-106 | After an `=`-free prefix, `=` and a digit run that no further digit follows, the captured group is exactly that run. |
| `ScoreMatch.ParseHexRun` | pintweet.php:104-109 | Such a reply's score is the value of its digit run, whatever the case of the digits and however many leading zeros they have. |
| `ScoreMatch.ParseZeroPadded` | pintweet.php:104-109 | The reply `=00001388` gives 5000. |
| `ScoreMatch.ParseUpperCase` | pintweet.php:104-109 | The reply `=FF` gives 255. |
| `ScoreMatch.ParseRoundTrip` | pintweet.php:104-109 | A reply with `=` and the hex digits of `n`, with no `=` before it and no hex digit after it, parses back to `n`. |
| `Hex.HexDec` | pintweet.php:109 | The value of a string fits in as many hex places as the string has hex digits. |
| `Hex.HexDecSkipsNonDigits` | pintweet.php:109 | `hexdec` skips non-hex characters: its value is that of the string's hex digits alone, in order. |
| `Hex.HexDecZeroPadded` | pintweet.php:109 | `00001388` reads as 0x1388: leading zeros add nothing. |
| `Hex.HexDigitCaseAgrees` | pintweet.php:109 | An upper-case hex digit has the value of its lower-case spelling. |
| `Hex.ToHex` | pintweet.php:109 | Writing a number in hex gives a non-empty string of hex digits without leading zeros. |
| `Hex.HexRoundTrip` | pintweet.php:109 | `hexdec` reads back what `ToHex` writes. |
| `SerialLink.ReadLine` | pintweet.php:24-34 | A line is the input up to and including the first line feed. The rest is left unread. A line feed can only be the line's last character, and it is there exactly when the input has one. |
| `SerialLink.ReadLineTimeout` | pintweet.php:24-34 | When no line feed arrives before the deadline, everything read so far is the line and nothing is left. |
| `SerialLink.ReadLineOfLine` | pintweet.php:24-34 | Reading a line the device terminated returns exactly that line and leaves what follows. |
| `SerialLink.QueryData` | pintweet.php:9-41 | The command goes out with a line feed exactly when PHP does not consider it empty. The response never contains a line feed. At most two lines are read, and a second is read exactly when the first, trimmed, echoes the command. A response equal to the command is only ever the line after an echo. |
| `SerialLink.QueryPlainReply` | pintweet.php:24-37 | Without an echo, the response is the trimmed reply line. |
| `SerialLink.QueryEchoedReply` | pintweet.php:37-41 | When the device echoes the command first, the response is the trimmed line after the echo. |
| `SerialLink.EchoSkippedOnce` | pintweet.php:37-41 | When the command is echoed twice, the second echo is returned: suppression happens once. |
| `PhpString.TrimLeft` | pintweet.php:35 | Only trim characters are dropped from the front, and the result does not start with one. |
| `PhpString.TrimRight` | pintweet.php:35 | Only trim characters are dropped from the back, and the result does not end with one. |
| `PhpString.Trim` | pintweet.php:35 | The result neither starts nor ends with a trim character and is no longer than the input. |
| `PhpString.TrimUnique` | pintweet.php:35 | For any trimmed core surrounded by trim characters, `trim` returns exactly that core. |
| `PhpString.TrimDecompose` | pintweet.php:35 | Every string is its trimmed form with trim characters on either side. |
| `PhpString.TrimIgnoresTrailing` | pintweet.php:35 | Appending trim characters, such as the line feed, does not change what `trim` returns. |
| `PhpString.TrimKeepsTrimmed` | pintweet.php:35 | A string with nothing to trim comes back unchanged. |
| `PhpString.TrimIdempotent` | pintweet.php:35 | Trimming twice is the same as trimming once. |
| `PhpString.TrimDropsFinalNewline` | pintweet.php:34-35 | If a line feed can only be the last character, the trimmed line has none. |
| `PhpNumber.Decimal` | pintweet.php:102 | The slot number in the command is written as decimal digits without leading zeros. |
| `PhpNumber.DecimalRoundTrip` | pintweet.php:102 | Reading the written slot number back gives the number. |
| `PhpNumber.NumberFormat` | pintweet.php:191 | `number_format` gives a non-empty string of digits and commas that starts with a digit. |
| `PhpNumber.NumberFormatValue` | pintweet.php:191 | Dropping the thousands separators from `number_format` leaves the decimal digits of the score. |

## Left out

- `initSerial` (`pintweet.php:51-75`): the `stty` call, opening the device and the firmware check. The check compares a regex match with `floatval`, which is floating point, and the match may be missing.
- Device I/O in `queryData`: blocking-mode switches, `fputs`, character-by-character `fgetc` polling, the wall-clock deadline, the one-second pause before re-reading, and the drain loop (`pintweet.php:44-46`). The input is the characters that arrive before the deadline. The drained backlog is not modelled. Each exchange starts from its own input.
- `sleep` and `time()`: the pacing delays are dropped, and time is the parameter `now`. The glitch branch's `continue` also skips the five-second pause. That only affects timing.
- `postTweet`, `logIt`, `shutdown` and the signal handlers: network I/O, file I/O, signals and process exit. A fatal `logIt` appears only as `ScorePoller.Poll.MaxPlayersFatal`. The ` #PinScore` suffix that `postTweet` appends is not modelled.
- Reading `config.json` and reading or writing `scores.json`: JSON and file I/O. The stored high score is a parameter of `Start`. The write happens exactly when an event has `isNewHigh` set. Configuration values are taken to be integers and strings.
- The driver loop's wiring of `queryScores`'s sample into the step is not a member of its own. `Run` takes the samples directly.
- `Hex.HexDec`: does not model `hexdec` turning values beyond `PHP_INT_MAX` into floats. Scores are unbounded naturals.
- `SerialLink.QueryData`: compares response and command as strings. PHP's loose `==` compares two numeric strings as numbers. The register commands are not numeric, so this never matters for them.
- A `null` message is modelled as "". `empty()` treats both it and "0" as empty.

Where the code and its comments or intuition part ways, the model follows the code:

- The comment at `pintweet.php:111` speaks of player 2's zero score. The loop breaks on a zero score in any slot, including slot 1.
- A game whose score never changes after its first reading is never ended by the 120-second rule. `lastScoreChange` is set only when the score changes while a game is in progress, so the first reading after idle does not start the timer (`GameTracker.SteadyScoreFromIdle`). Readings 100, 100, 100 from idle report nothing, even 130 s apart. The timer only moves on a changed reading during a game (`GameTracker.Step`, `GameTracker.StagnationEndsGame`, `GameTracker.StagnationAfterHeldScore`).
- A game ended by the 120-second rule can be reported twice. This depends on the machine: it happens when the machine keeps showing the finished score. From idle, the next reading adopts that score again without starting the timer. When the next game starts, two lower readings end this "game" and report the same score once more (`GameTracker.StagnantScoreReportedTwice`).
