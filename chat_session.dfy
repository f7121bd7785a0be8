/**
 * The client's main loop in `src/main.rs`: after the handshake, every frame
 * is read as in the reader loop, and a text frame that mentions `!hello`
 * is answered in the channel once its lines are shown. A failed reply
 * aborts the program (`expect`).
 */
module ChatSession {
  import opened RustStr
  import opened Badges
  import opened Reader
  import opened Connection
  import Writer
  import MessageInterface
  import Wrappers

  /** What the loop does, in order: show a chat line, or send a reply. */
  datatype Event = Display(shown: Shown) | Reply(line: string)

  /** The fixed reply to `!hello`. */
  function HelloReply(channel: string): string
  {
    Writer.PrivmsgLine(channel, "test!")
  }

  /** A text frame whose raw text mentions `!hello` anywhere, prefix and tags included. */
  predicate WantsHello(f: Frame)
  {
    f.Text? && Contains(f.text, "!hello")
  }

  /** The display events for some records, in order. */
  function Displays(shown: seq<Shown>): (r: seq<Event>)
    ensures |r| == |shown|
    decreases |shown|
  {
    if shown == [] then [] else [Display(shown[0])] + Displays(shown[1..])
  }

  /** The records shown by some events, in order. */
  function ShownOf(events: seq<Event>): seq<Shown>
    decreases |events|
  {
    if events == [] then []
    else (if events[0].Display? then [events[0].shown] else []) + ShownOf(events[1..])
  }

  /** The replies sent by some events, in order. */
  function Replies(events: seq<Event>): seq<string>
    decreases |events|
  {
    if events == [] then []
    else (if events[0].Reply? then [events[0].line] else []) + Replies(events[1..])
  }

  /** The events of the loop, whether it aborted, and the send outcomes left unused. */
  datatype SessionRun = SessionRun(events: seq<Event>, panicked: bool, outcomes: seq<bool>)

  /** `events` come before what `run` does. */
  function Prepend(events: seq<Event>, run: SessionRun): SessionRun
  {
    run.(events := events + run.events)
  }

  /**
   * One frame of the loop: its lines are shown, then the reply is sent if
   * the frame asks for one; a failed reply aborts the loop.
   */
  function FrameStep(f: Frame, catalog: seq<TwitchBadge>, channel: string, outcomes: seq<bool>): SessionRun
  {
    var shown := Displays(FrameShown(f, catalog));
    if !WantsHello(f) then SessionRun(shown, false, outcomes)
    else if !SendSucceeds(outcomes) then SessionRun(shown, true, AfterSend(outcomes))
    else SessionRun(shown + [Reply(HelloReply(channel))], false, AfterSend(outcomes))
  }

  /** What `main` does with each frame that does not stop its loop. */
  function SessionStep(catalog: seq<TwitchBadge>, channel: string): (Frame, seq<bool>) -> SessionRun
  {
    (f, outcomes) => FrameStep(f, catalog, channel, outcomes)
  }

  /**
   * The main loop, frame by frame, until a stop frame or a step that aborts,
   * given what one frame does. `main` is the instance with `SessionStep`.
   */
  function RunSession(frames: seq<Frame>, step: (Frame, seq<bool>) -> SessionRun, outcomes: seq<bool>): SessionRun
    decreases |frames|
  {
    if frames == [] || Stops(frames[0]) then SessionRun([], false, outcomes)
    else
      var now := step(frames[0], outcomes);
      if now.panicked then now
      else Prepend(now.events, RunSession(frames[1..], step, now.outcomes))
  }

  /** One step of the loop, read at position `i`. */
  lemma RunSessionFrom(frames: seq<Frame>, i: nat, step: (Frame, seq<bool>) -> SessionRun, outcomes: seq<bool>)
    requires i < |frames| && !Stops(frames[i])
    ensures var now := step(frames[i], outcomes);
      RunSession(frames[i..], step, outcomes)
      == if now.panicked then now
         else Prepend(now.events, RunSession(frames[i + 1..], step, now.outcomes))
  {
    assert frames[i..][0] == frames[i] && frames[i..][1..] == frames[i + 1..];
  }

  /** The `while let` loop of `main`, after the handshake. */
  method RunLoop(conn: TwitchConnection, frames: seq<Frame>, catalog: seq<TwitchBadge>) returns (events: seq<Event>, ok: bool)
    modifies conn.write
    ensures var run := RunSession(frames, SessionStep(catalog, conn.channel), old(conn.write.outcomes));
      events == run.events && ok == !run.panicked && conn.write.outcomes == run.outcomes
      && conn.write.log == old(conn.write.log) + Replies(run.events)
  {
    var write, channel := conn.write, conn.channel;
    ghost var step := SessionStep(catalog, channel);
    ghost var run := RunSession(frames, step, write.outcomes);
    assert frames[0..] == frames;
    events := [];
    ok := true;
    var i := 0;
    while i < |frames| && !Stops(frames[i])
      invariant 0 <= i <= |frames|
      invariant conn.write == write && conn.channel == channel
      invariant StillToRun(run, events, RunSession(frames[i..], step, write.outcomes))
      invariant write.log == old(write.log) + Replies(events)
      decreases |frames| - i
    {
      LoopStep(frames, i, step, write.outcomes, events, run);
      ghost var log := write.log;
      var more, panicked := HandleFrame(write, channel, frames[i], catalog);
      LogStep(old(write.log), log, events, more);
      events := events + more;
      if panicked {
        ok := false;
        return;
      }
      i := i + 1;
    }
    if i < |frames| {
      assert frames[i..][0] == frames[i];
    } else {
      assert frames[i..] == [];
    }
  }

  /** The log after more events. */
  lemma LogStep(log0: seq<string>, log: seq<string>, events: seq<Event>, more: seq<Event>)
    requires log == log0 + Replies(events)
    ensures log + Replies(more) == log0 + Replies(events + more)
  {
    RepliesAppend(events, more);
  }

  /** After `events`, what is left of `run` is `rest`. */
  ghost predicate StillToRun(run: SessionRun, events: seq<Event>, rest: SessionRun)
  {
    events + rest.events == run.events && rest.panicked == run.panicked && rest.outcomes == run.outcomes
  }

  /** The loop invariant across one frame, or the exit when its step aborts. */
  lemma LoopStep(frames: seq<Frame>, i: nat, step: (Frame, seq<bool>) -> SessionRun, outcomes: seq<bool>,
                 events: seq<Event>, run: SessionRun)
    requires i < |frames| && !Stops(frames[i])
    requires StillToRun(run, events, RunSession(frames[i..], step, outcomes))
    ensures var now := step(frames[i], outcomes);
      if now.panicked then StillToRun(run, events + now.events, SessionRun([], true, now.outcomes))
      else StillToRun(run, events + now.events, RunSession(frames[i + 1..], step, now.outcomes))
  {
    RunSessionFrom(frames, i, step, outcomes);
  }

  /** One pass of the loop body: show the frame's lines, then answer `!hello`. */
  method HandleFrame(write: Sink, channel: string, f: Frame, catalog: seq<TwitchBadge>) returns (events: seq<Event>, panicked: bool)
    modifies write
    ensures var step := FrameStep(f, catalog, channel, old(write.outcomes));
      events == step.events && panicked == step.panicked && write.outcomes == step.outcomes
      && write.log == old(write.log) + Replies(events)
  {
    ghost var step := FrameStep(f, catalog, channel, write.outcomes);
    var shown := ShowFrame(f, catalog);
    events := Displays(shown);
    DisplaysShowOnly(shown);
    panicked := false;
    if WantsHello(f) {
      var reply := HelloReply(channel);
      var sent := write.Send(reply);
      if !sent {
        panicked := true;
      } else {
        RepliesAppend(events, [Reply(reply)]);
        assert Replies([Reply(reply)]) == [reply];
        events := events + [Reply(reply)];
      }
    }
    assert events == step.events;
  }

  /**
   * `main` from the handshake on: the loop runs only when all four
   * handshake lines were sent; its replies follow them in the log.
   */
  method Run(conn: TwitchConnection, frames: seq<Frame>, catalog: seq<TwitchBadge>) returns (events: seq<Event>, ok: bool)
    modifies conn.write
    ensures var o := old(conn.write.outcomes);
      var lines := HandshakeLines(conn.oauthToken, conn.nickname, conn.channel);
      if Accepted(o, 4) < 4 then
        events == [] && !ok && conn.write.log == old(conn.write.log) + lines[..Accepted(o, 4)]
        && conn.write.outcomes == AfterSends(o, Attempts(o, 4))
      else
        var run := RunSession(frames, SessionStep(catalog, conn.channel), AfterSends(o, 4));
        events == run.events && ok == !run.panicked && conn.write.outcomes == run.outcomes
        && conn.write.log == old(conn.write.log) + lines + Replies(run.events)
  {
    ghost var o := conn.write.outcomes;
    AcceptedOutcomes(o, 4);
    ok := ConnectToTwitch(conn);
    if !ok {
      events := [];
      return;
    }
    assert HandshakeLines(conn.oauthToken, conn.nickname, conn.channel)[..4]
        == HandshakeLines(conn.oauthToken, conn.nickname, conn.channel);
    events, ok := RunLoop(conn, frames, catalog);
  }

  /** Replies distribute over concatenation. */
  lemma {:induction false} RepliesAppend(a: seq<Event>, b: seq<Event>)
    ensures Replies(a + b) == Replies(a) + Replies(b)
    decreases |a|
  {
    if a == [] {
      assert a + b == b;
    } else {
      assert (a + b)[0] == a[0] && (a + b)[1..] == a[1..] + b;
      RepliesAppend(a[1..], b);
    }
  }

  /** Shown records distribute over concatenation. */
  lemma {:induction false} ShownOfAppend(a: seq<Event>, b: seq<Event>)
    ensures ShownOf(a + b) == ShownOf(a) + ShownOf(b)
    decreases |a|
  {
    if a == [] {
      assert a + b == b;
    } else {
      assert (a + b)[0] == a[0] && (a + b)[1..] == a[1..] + b;
      ShownOfAppend(a[1..], b);
    }
  }

  /** Display events show their records and send nothing. */
  lemma {:induction false} DisplaysShowOnly(shown: seq<Shown>)
    ensures ShownOf(Displays(shown)) == shown && Replies(Displays(shown)) == []
    decreases |shown|
  {
    if shown != [] {
      DisplaysShowOnly(shown[1..]);
      assert Displays(shown)[1..] == Displays(shown[1..]);
    }
  }

  /** What one frame shows and sends. */
  lemma FrameStepEvents(f: Frame, catalog: seq<TwitchBadge>, channel: string, outcomes: seq<bool>)
    ensures var step := FrameStep(f, catalog, channel, outcomes);
      ShownOf(step.events) == FrameShown(f, catalog)
      && Replies(step.events) == (if WantsHello(f) && !step.panicked then [HelloReply(channel)] else [])
      && (step.panicked <==> WantsHello(f) && !SendSucceeds(outcomes))
  {
    var shown := Displays(FrameShown(f, catalog));
    DisplaysShowOnly(FrameShown(f, catalog));
    var reply := [Reply(HelloReply(channel))];
    assert ShownOf(reply) == [] && Replies(reply) == [HelloReply(channel)] by {
      assert reply[1..] == [];
    }
    ShownOfAppend(shown, reply);
    RepliesAppend(shown, reply);
  }

  /**
   * The lines the loop shows are the reader's, in the same order: all of
   * them unless a reply failed, and a prefix of them in any case.
   */
  lemma SessionShowsReader(frames: seq<Frame>, catalog: seq<TwitchBadge>, channel: string, outcomes: seq<bool>)
    ensures var run := RunSession(frames, SessionStep(catalog, channel), outcomes);
      ShownOf(run.events) <= ReaderSpec(frames, FramePrinter(catalog))
      && (!run.panicked ==> ShownOf(run.events) == ReaderSpec(frames, FramePrinter(catalog)))
  {
    var step, show := SessionStep(catalog, channel), FramePrinter(catalog);
    forall f, o ensures ShownOf(step(f, o).events) == show(f) {
      FrameStepEvents(f, catalog, channel, o);
    }
    StepsShowReader(frames, step, show, outcomes);
  }

  /** A loop whose every step shows what the reader prints for its frame shows what the reader prints. */
  lemma {:induction false} StepsShowReader(frames: seq<Frame>, step: (Frame, seq<bool>) -> SessionRun,
                                           show: Frame -> seq<Shown>, outcomes: seq<bool>)
    requires forall f, o :: ShownOf(step(f, o).events) == show(f)
    ensures var run := RunSession(frames, step, outcomes);
      ShownOf(run.events) <= ReaderSpec(frames, show)
      && (!run.panicked ==> ShownOf(run.events) == ReaderSpec(frames, show))
    decreases |frames|
  {
    if frames != [] && !Stops(frames[0]) {
      var now := step(frames[0], outcomes);
      if !now.panicked {
        var rest := RunSession(frames[1..], step, now.outcomes);
        StepsShowReader(frames[1..], step, show, now.outcomes);
        ShownOfAppend(now.events, rest.events);
      }
    }
  }

  /** The number of frames, before the loop stops, that ask for a reply. */
  function HelloCount(frames: seq<Frame>): nat
    decreases |frames|
  {
    if frames == [] || Stops(frames[0]) then 0
    else (if WantsHello(frames[0]) then 1 else 0) + HelloCount(frames[1..])
  }

  /**
   * Every reply is the fixed `test!` message to the channel, and unless a
   * reply failed there is exactly one per frame that asks for it.
   */
  lemma SessionReplies(frames: seq<Frame>, catalog: seq<TwitchBadge>, channel: string, outcomes: seq<bool>)
    ensures var run := RunSession(frames, SessionStep(catalog, channel), outcomes);
      (forall i :: 0 <= i < |Replies(run.events)| ==> Replies(run.events)[i] == HelloReply(channel))
      && (!run.panicked ==> |Replies(run.events)| == HelloCount(frames))
  {
    var step := SessionStep(catalog, channel);
    forall f, o ensures Replies(step(f, o).events) == if WantsHello(f) && !step(f, o).panicked then [HelloReply(channel)] else [] {
      FrameStepEvents(f, catalog, channel, o);
    }
    StepsReply(frames, step, HelloReply(channel), outcomes);
  }

  /**
   * A loop whose every step sends `reply` exactly when its frame asks for
   * it and the step does not abort sends only `reply`, once per such frame.
   */
  lemma {:induction false} StepsReply(frames: seq<Frame>, step: (Frame, seq<bool>) -> SessionRun, reply: string, outcomes: seq<bool>)
    requires forall f, o :: Replies(step(f, o).events) == if WantsHello(f) && !step(f, o).panicked then [reply] else []
    ensures var run := RunSession(frames, step, outcomes);
      (forall i :: 0 <= i < |Replies(run.events)| ==> Replies(run.events)[i] == reply)
      && (!run.panicked ==> |Replies(run.events)| == HelloCount(frames))
    decreases |frames|
  {
    if frames != [] && !Stops(frames[0]) {
      var now := step(frames[0], outcomes);
      if !now.panicked {
        var rest := RunSession(frames[1..], step, now.outcomes);
        StepsReply(frames[1..], step, reply, now.outcomes);
        RepliesAppend(now.events, rest.events);
        var mine, theirs := Replies(now.events), Replies(rest.events);
        forall i | 0 <= i < |mine + theirs| ensures (mine + theirs)[i] == reply {
          if i >= |mine| {
            assert (mine + theirs)[i] == theirs[i - |mine|];
          }
        }
      }
    }
  }

  /** The reply reads back, through the message decoder, as a chat line saying `test!`. */
  lemma HelloReplyDecodes(channel: string)
    requires ' ' !in channel
    ensures MessageInterface.Decode(HelloReply(channel))
         == MessageInterface.TwitchMessage(map[], "PRIVMSG", Wrappers.None, Wrappers.Some("test!"))
  {
    Writer.PrivmsgRoundTrip(channel, "test!");
  }
}
