/** The line and echo logic of `queryData`. The device's output is the
    sequence of characters that arrives before the read deadline; running
    out of it stands for the ten-second timeout. */
module SerialLink {
  import opened PhpString

  /** A line read off the input and what is left after it. */
  datatype Split = Split(line: string, rest: string)

  /** Characters accumulated one at a time up to and including the first
      line feed, or everything available if none arrives in time. */
  function ReadLine(input: string): (r: Split)
    ensures r.line + r.rest == input
    ensures forall k :: 0 <= k < |r.line| - 1 ==> r.line[k] != '\n'
    ensures '\n' in input <==> |r.line| > 0 && r.line[|r.line| - 1] == '\n'
  {
    if input == [] then Split([], [])
    else if input[0] == '\n' then Split(['\n'], input[1..])
    else
      var t := ReadLine(input[1..]);
      assert input == [input[0]] + input[1..];
      assert '\n' in input <==> '\n' in input[1..];
      assert |t.line| > 0 ==> ([input[0]] + t.line)[|t.line|] == t.line[|t.line| - 1];
      Split([input[0]] + t.line, t.rest)
  }

  /** On a timeout every character read so far is kept as the line. */
  lemma {:induction false} ReadLineTimeout(input: string)
    ensures '\n' !in input ==> ReadLine(input) == Split(input, [])
  {
    if input != [] && '\n' !in input {
      assert input[0] != '\n' && '\n' !in input[1..];
      ReadLineTimeout(input[1..]);
      assert [input[0]] + input[1..] == input;
    }
  }

  /** Reading a line the device terminated gives back exactly that line. */
  lemma {:induction false} ReadLineOfLine(l: string, rest: string)
    requires '\n' !in l
    ensures ReadLine(l + "\n" + rest) == Split(l + "\n", rest)
  {
    var s := l + "\n" + rest;
    if l != [] {
      assert s[0] == l[0] && l[0] != '\n';
      assert s[1..] == l[1..] + "\n" + rest;
      assert '\n' !in l[1..];
      ReadLineOfLine(l[1..], rest);
      var t := ReadLine(s[1..]);
      assert ReadLine(s) == Split([s[0]] + t.line, t.rest);
      assert [l[0]] + (l[1..] + "\n") == l + "\n";
    } else {
      assert s == ['\n'] + rest;
    }
  }

  /** One exchange: what was written to the device, the trimmed response,
      and how many lines were read to get it. */
  datatype Reply = Reply(sent: string, response: string, linesRead: nat)

  /** `queryData($message)`. A message PHP does not consider empty is
      written with a line feed; a response equal to it is an echo and one
      more line is read, by a call with no message, so an echo is skipped at
      most once. */
  function QueryData(message: string, input: string): (r: Reply)
    ensures r.sent == if IsPhpEmpty(message) then "" else message + "\n"
    ensures '\n' !in r.response
    ensures r.linesRead == 1 || r.linesRead == 2
    ensures r.linesRead == 2 <==> !IsPhpEmpty(message) && Trim(ReadLine(input).line) == message
    ensures r.linesRead == 1 ==> r.response == Trim(ReadLine(input).line)
    ensures r.linesRead == 2 ==> r.response == Trim(ReadLine(ReadLine(input).rest).line)
    ensures !IsPhpEmpty(message) && r.response == message ==> r.linesRead == 2
    decreases if IsPhpEmpty(message) then 0 else 1
  {
    var first := ReadLine(input);
    var response := Trim(first.line);
    TrimDropsFinalNewline(first.line);
    if !IsPhpEmpty(message) && response == message then
      var again := QueryData("", first.rest);
      Reply(message + "\n", again.response, 2)
    else
      Reply(if IsPhpEmpty(message) then "" else message + "\n", response, 1)
  }

  /** A device that does not echo: the reply line, trimmed, is the response. */
  lemma QueryPlainReply(message: string, l: string, rest: string)
    requires '\n' !in l
    requires IsPhpEmpty(message) || Trim(l) != message
    ensures QueryData(message, l + "\n" + rest).response == Trim(l)
    ensures QueryData(message, l + "\n" + rest).linesRead == 1
  {
    ReadLineOfLine(l, rest);
    TrimIgnoresTrailing(l, "\n");
  }

  /** A device that echoes the command first: the line after the echo,
      trimmed, is the response, whatever it holds. */
  lemma QueryEchoedReply(message: string, l: string, rest: string)
    requires !IsPhpEmpty(message) && IsTrimmed(message) && '\n' !in message
    requires '\n' !in l
    ensures QueryData(message, message + "\n" + l + "\n" + rest).response == Trim(l)
    ensures QueryData(message, message + "\n" + l + "\n" + rest).linesRead == 2
  {
    var input := message + "\n" + l + "\n" + rest;
    assert input == message + "\n" + (l + "\n" + rest);
    ReadLineOfLine(message, l + "\n" + rest);
    TrimIgnoresTrailing(message, "\n");
    TrimKeepsTrimmed(message);
    ReadLineOfLine(l, rest);
    TrimIgnoresTrailing(l, "\n");
  }

  /** The echo check applies only once: even when the line after the echo
      repeats the command again, that second line is the response. */
  lemma EchoSkippedOnce(message: string, rest: string)
    requires !IsPhpEmpty(message) && IsTrimmed(message) && '\n' !in message
    ensures QueryData(message, message + "\n" + message + "\n" + rest).response == message
  {
    QueryEchoedReply(message, message, rest);
    TrimKeepsTrimmed(message);
  }
}
