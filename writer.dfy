/**
 * The send loop of `src/twitch/message/writer.rs` (`send_message`): each line
 * typed on standard input is trimmed; blank lines are skipped, and every
 * other line is sent to the channel as a PRIVMSG. Standard input is a given
 * sequence of read results whose end is end of input.
 */
module Writer {
  import opened Wrappers
  import opened RustStr
  import opened Connection
  import MessageInterface

  /** One read from standard input: a line, or a read error. */
  datatype StdinLine = Line(text: string) | ReadError

  /** The frame that posts `text` to `channel`. */
  function PrivmsgLine(channel: string, text: string): string
  {
    "PRIVMSG #" + channel + " :" + text
  }

  /** The messages typed: the trimmed non-blank lines, up to the first read error. */
  function Typed(input: seq<StdinLine>): seq<string>
    decreases |input|
  {
    if input == [] || input[0].ReadError? then []
    else
      var t := Trim(input[0].text);
      (if t == [] then [] else [t]) + Typed(input[1..])
  }

  /** The frames for the given messages, in order. */
  function Frames(channel: string, texts: seq<string>): (r: seq<string>)
    ensures |r| == |texts|
    decreases |texts|
  {
    if texts == [] then [] else [PrivmsgLine(channel, texts[0])] + Frames(channel, texts[1..])
  }

  /** What the loop sends and the send outcomes it leaves unused. */
  datatype WriterRun = WriterRun(sent: seq<string>, outcomes: seq<bool>)

  /** The loop, step by step: skip blank lines, stop at a read error or a failed send. */
  function RunWriter(input: seq<StdinLine>, channel: string, outcomes: seq<bool>): WriterRun
    decreases |input|
  {
    if input == [] || input[0].ReadError? then WriterRun([], outcomes)
    else
      var t := Trim(input[0].text);
      if t == [] then RunWriter(input[1..], channel, outcomes)
      else if !SendSucceeds(outcomes) then WriterRun([], AfterSend(outcomes))
      else
        var rest := RunWriter(input[1..], channel, AfterSend(outcomes));
        WriterRun([PrivmsgLine(channel, t)] + rest.sent, rest.outcomes)
  }

  /** `send_message`: the while-let loop over standard input. */
  method SendMessage(write: Sink, channel: string, input: seq<StdinLine>)
    modifies write
    ensures var run := RunWriter(input, channel, old(write.outcomes));
      write.log == old(write.log) + run.sent && write.outcomes == run.outcomes
  {
    ghost var run := RunWriter(input, channel, write.outcomes);
    assert input[0..] == input;
    var i := 0;
    while i < |input|
      invariant 0 <= i <= |input|
      invariant write.log + RunWriter(input[i..], channel, write.outcomes).sent == old(write.log) + run.sent
      invariant RunWriter(input[i..], channel, write.outcomes).outcomes == run.outcomes
      decreases |input| - i
    {
      RunWriterFrom(input, i, channel, write.outcomes);
      if input[i].ReadError? {
        return;
      }
      var trimmed := Trim(input[i].text);
      if trimmed == [] {
        i := i + 1;
        continue;
      }
      var ok := write.Send(PrivmsgLine(channel, trimmed));
      if !ok {
        return;
      }
      i := i + 1;
    }
    assert input[i..] == [];
  }

  /** One step of the loop, read at position `i`. */
  lemma RunWriterFrom(input: seq<StdinLine>, i: nat, channel: string, outcomes: seq<bool>)
    requires i < |input|
    ensures var run := RunWriter(input[i..], channel, outcomes);
      if input[i].ReadError? then run == WriterRun([], outcomes)
      else
        var t := Trim(input[i].text);
        if t == [] then run == RunWriter(input[i + 1..], channel, outcomes)
        else if !SendSucceeds(outcomes) then run == WriterRun([], AfterSend(outcomes))
        else
          var rest := RunWriter(input[i + 1..], channel, AfterSend(outcomes));
          run == WriterRun([PrivmsgLine(channel, t)] + rest.sent, rest.outcomes)
  {
    assert input[i..][0] == input[i] && input[i..][1..] == input[i + 1..];
  }

  /**
   * The frames sent are the frames of the typed messages, up to the first
   * failed send; the sends attempted consume their outcomes.
   */
  lemma {:induction false} RunWriterSends(input: seq<StdinLine>, channel: string, outcomes: seq<bool>)
    ensures var typed := Typed(input);
      RunWriter(input, channel, outcomes)
      == WriterRun(Frames(channel, typed)[..Accepted(outcomes, |typed|)], AfterSends(outcomes, Attempts(outcomes, |typed|)))
    decreases |input|
  {
    if input != [] && !input[0].ReadError? {
      var t := Trim(input[0].text);
      if t == [] {
        assert Typed(input) == Typed(input[1..]);
        RunWriterSends(input[1..], channel, outcomes);
      } else {
        assert Typed(input) == [t] + Typed(input[1..]);
        if SendSucceeds(outcomes) {
          RunWriterSends(input[1..], channel, AfterSend(outcomes));
          SentStep(input, channel, outcomes);
        }
      }
    }
  }

  /** The step of `RunWriterSends` for a typed line whose send succeeds. */
  lemma SentStep(input: seq<StdinLine>, channel: string, outcomes: seq<bool>)
    requires input != [] && !input[0].ReadError? && Trim(input[0].text) != [] && SendSucceeds(outcomes)
    requires var typed, rest := Typed(input[1..]), AfterSend(outcomes);
      RunWriter(input[1..], channel, rest)
      == WriterRun(Frames(channel, typed)[..Accepted(rest, |typed|)], AfterSends(rest, Attempts(rest, |typed|)))
    ensures var typed := Typed(input);
      RunWriter(input, channel, outcomes)
      == WriterRun(Frames(channel, typed)[..Accepted(outcomes, |typed|)], AfterSends(outcomes, Attempts(outcomes, |typed|)))
  {
    var t := Trim(input[0].text);
    var typed, rest := Typed(input[1..]), AfterSend(outcomes);
    assert Typed(input) == [t] + typed;
    FramesCons(channel, t, typed);
    SendsAfterSuccess(outcomes, |typed|);
    ConsPrefix(PrivmsgLine(channel, t), Frames(channel, typed), Accepted(rest, |typed|));
  }

  /** The frames of a message followed by more messages. */
  lemma FramesCons(channel: string, t: string, texts: seq<string>)
    ensures Frames(channel, [t] + texts) == [PrivmsgLine(channel, t)] + Frames(channel, texts)
  {
    assert ([t] + texts)[1..] == texts;
  }

  /** A prefix of a sequence with one more element in front. */
  lemma ConsPrefix(x: string, s: seq<string>, k: nat)
    requires k <= |s|
    ensures ([x] + s)[..k + 1] == [x] + s[..k]
  {
  }

  /** Every message sent is trimmed and not blank. */
  lemma {:induction false} TypedTrimmed(input: seq<StdinLine>)
    ensures forall i :: 0 <= i < |Typed(input)| ==> Typed(input)[i] != [] && Trim(Typed(input)[i]) == Typed(input)[i]
    decreases |input|
  {
    if input != [] && !input[0].ReadError? {
      TypedTrimmed(input[1..]);
      var t := Trim(input[0].text);
      if t != [] {
        TrimIdempotent(input[0].text);
        var typed := Typed(input);
        assert typed == [t] + Typed(input[1..]);
        forall i | 0 <= i < |typed| ensures typed[i] != [] && Trim(typed[i]) == typed[i] {
          if i > 0 {
            assert typed[i] == Typed(input[1..])[i - 1];
          }
        }
      }
    }
  }

  /** A line that trims to nothing is never sent: input without it sends the same. */
  lemma {:induction false} BlankLineSkipped(pre: seq<StdinLine>, text: string, post: seq<StdinLine>)
    requires Trim(text) == []
    ensures Typed(pre + [Line(text)] + post) == Typed(pre + post)
    decreases |pre|
  {
    if pre == [] {
      assert (pre + [Line(text)] + post)[1..] == post;
      assert pre + post == post;
    } else {
      assert (pre + [Line(text)] + post)[1..] == pre[1..] + [Line(text)] + post;
      assert (pre + post)[1..] == pre[1..] + post;
      BlankLineSkipped(pre[1..], text, post);
    }
  }

  /** Nothing after a read error is ever read. */
  lemma {:induction false} ReadErrorEnds(pre: seq<StdinLine>, post: seq<StdinLine>)
    ensures Typed(pre + [ReadError] + post) == Typed(pre)
    decreases |pre|
  {
    if pre == [] {
      assert (pre + [ReadError] + post)[0] == ReadError;
    } else {
      assert (pre + [ReadError] + post)[1..] == pre[1..] + [ReadError] + post;
      ReadErrorEnds(pre[1..], post);
    }
  }

  /**
   * The message decoder reads a frame from this loop back as an untagged
   * PRIVMSG with no sender that carries the typed text whole.
   */
  lemma PrivmsgRoundTrip(channel: string, text: string)
    requires ' ' !in channel
    ensures MessageInterface.Decode(PrivmsgLine(channel, text))
         == MessageInterface.TwitchMessage(map[], "PRIVMSG", None, Some(text))
  {
    var line := PrivmsgLine(channel, text);
    var paramText := MessageInterface.ParamText(["#" + channel], text);
    PrivmsgLineShape(channel, text);
    assert MessageInterface.SplitPrefix(line) == (None, line);
    MessageInterface.CommandThenSpace("PRIVMSG", paramText);
    MessageInterface.ParamsRoundTrip(["#" + channel], text);
    MessageInterface.DecodeStages(line, None, line, "PRIVMSG", Some(paramText));
  }

  /** A frame from this loop is the PRIVMSG command followed by its parameter text. */
  lemma PrivmsgLineShape(channel: string, text: string)
    ensures PrivmsgLine(channel, text) == "PRIVMSG" + " " + MessageInterface.ParamText(["#" + channel], text)
  {
    assert MessageInterface.ParamText(["#" + channel], text) == ("#" + channel) + " " + (":" + text);
    assert "PRIVMSG #" == "PRIVMSG" + " " + "#";
    assert " :" == " " + ":";
  }
}
