/**
 * The write half of the WebSocket connection and the login handshake of
 * `src/twitch/connection.rs` (the same handshake is repeated in
 * `src/main.rs`). The sink records every frame it accepted in a ghost log;
 * whether each send succeeds is read from a sequence of outcomes given up
 * front, in place of the network.
 */
module Connection {
  import opened Wrappers
  import MessageInterface

  /** Whether the next send succeeds: sends past the end of the outcomes succeed. */
  predicate SendSucceeds(outcomes: seq<bool>)
  {
    outcomes == [] || outcomes[0]
  }

  /** The outcomes left for later sends once one send has been made. */
  function AfterSend(outcomes: seq<bool>): seq<bool>
  {
    if outcomes == [] then [] else outcomes[1..]
  }

  /** The outcomes left once `k` sends have been made. */
  function AfterSends(outcomes: seq<bool>, k: nat): seq<bool>
    decreases k
  {
    if k == 0 then outcomes else AfterSends(AfterSend(outcomes), k - 1)
  }

  /** Of `n` sends made in a row, stopping at the first failure, how many succeed. */
  function Accepted(outcomes: seq<bool>, n: nat): (k: nat)
    ensures k <= n
    decreases n
  {
    if n == 0 || !SendSucceeds(outcomes) then 0 else 1 + Accepted(AfterSend(outcomes), n - 1)
  }

  /** Of `n` sends made in a row, stopping at the first failure, how many are attempted. */
  function Attempts(outcomes: seq<bool>, n: nat): nat
    decreases n
  {
    if n == 0 then 0
    else if !SendSucceeds(outcomes) then 1
    else 1 + Attempts(AfterSend(outcomes), n - 1)
  }

  /**
   * The sends that succeed are exactly those before the first `false`
   * outcome; every send is attempted up to and including the failing one.
   */
  lemma {:induction false} AcceptedOutcomes(outcomes: seq<bool>, n: nat)
    ensures forall i :: 0 <= i < Accepted(outcomes, n) && i < |outcomes| ==> outcomes[i]
    ensures Accepted(outcomes, n) < n ==> Accepted(outcomes, n) < |outcomes| && !outcomes[Accepted(outcomes, n)]
    ensures Attempts(outcomes, n) == if Accepted(outcomes, n) < n then Accepted(outcomes, n) + 1 else n
    decreases n
  {
    if n != 0 && SendSucceeds(outcomes) {
      var rest := AfterSend(outcomes);
      AcceptedOutcomes(rest, n - 1);
      if outcomes != [] {
        forall i | 0 <= i < Accepted(outcomes, n) && i < |outcomes| ensures outcomes[i] {
          if i > 0 {
            assert outcomes[i] == rest[i - 1];
          }
        }
      }
    }
  }

  /** After a send that succeeds, `n + 1` sends in a row are that send and `n` more. */
  lemma SendsAfterSuccess(outcomes: seq<bool>, n: nat)
    requires SendSucceeds(outcomes)
    ensures Accepted(outcomes, n + 1) == Accepted(AfterSend(outcomes), n) + 1
    ensures AfterSends(outcomes, Attempts(outcomes, n + 1)) == AfterSends(AfterSend(outcomes), Attempts(AfterSend(outcomes), n))
  {
  }

  /** The write half of the socket: a ghost log of the frames it accepted. */
  class Sink {
    ghost var log: seq<string>
    var outcomes: seq<bool>

    constructor (outcomes: seq<bool>)
      ensures log == [] && this.outcomes == outcomes
    {
      log := [];
      this.outcomes := outcomes;
    }

    /** Sends one text frame; a frame whose send fails is not logged. */
    method Send(frame: string) returns (ok: bool)
      modifies this
      ensures ok == SendSucceeds(old(outcomes))
      ensures outcomes == AfterSend(old(outcomes))
      ensures log == old(log) + if ok then [frame] else []
    {
      ok := outcomes == [] || outcomes[0];
      if outcomes != [] {
        outcomes := outcomes[1..];
      }
      if ok {
        log := log + [frame];
      }
    }
  }

  /** The account settings the connection is made from. */
  datatype Settings = Settings(nickname: string, token: string, url: string)

  /** The channel every connection joins. */
  const DefaultChannel := "pleaseendmyloniness"

  /** An open connection: its write half and the login it will use. */
  class TwitchConnection {
    var write: Sink
    var oauthToken: string
    var nickname: string
    var channel: string

    /** `create_twitch_connection`, once the socket is open and split. */
    constructor (settings: Settings, write: Sink)
      ensures this.write == write
      ensures oauthToken == settings.token && nickname == settings.nickname
      ensures channel == DefaultChannel
    {
      this.write := write;
      oauthToken := settings.token;
      nickname := settings.nickname;
      channel := DefaultChannel;
    }
  }

  /** The capability request, `CAP REQ :twitch.tv/tags twitch.tv/commands`, asking for message tags and Twitch commands. */
  const CapRequest := CommandLine("CAP", "REQ :twitch.tv/tags twitch.tv/commands")

  /** A command line `COMMAND argument`. */
  function CommandLine(command: string, argument: string): string
  {
    command + " " + argument
  }

  /** The four handshake lines, in the order they are sent. */
  function HandshakeLines(token: string, nickname: string, channel: string): seq<string>
  {
    [CapRequest, CommandLine("PASS", token), CommandLine("NICK", nickname), CommandLine("JOIN", "#" + channel)]
  }

  /**
   * `connect_to_twitch`: the four handshake lines are sent in order; the
   * first failed send aborts (`expect`), and nothing after it is sent.
   */
  method ConnectToTwitch(conn: TwitchConnection) returns (ok: bool)
    modifies conn.write
    ensures var accepted := Accepted(old(conn.write.outcomes), 4);
      conn.write.log == old(conn.write.log) + HandshakeLines(conn.oauthToken, conn.nickname, conn.channel)[..accepted]
      && (ok <==> accepted == 4)
    ensures conn.write.outcomes == AfterSends(old(conn.write.outcomes), Attempts(old(conn.write.outcomes), 4))
  {
    ghost var o := conn.write.outcomes;
    ghost var lines := HandshakeLines(conn.oauthToken, conn.nickname, conn.channel);
    ok := conn.write.Send(CapRequest);
    if !ok {
      return;
    }
    ok := conn.write.Send(CommandLine("PASS", conn.oauthToken));
    if !ok {
      assert lines[..1] == [CapRequest];
      return;
    }
    ok := conn.write.Send(CommandLine("NICK", conn.nickname));
    if !ok {
      assert lines[..2] == [CapRequest, CommandLine("PASS", conn.oauthToken)];
      return;
    }
    ok := conn.write.Send(CommandLine("JOIN", "#" + conn.channel));
    assert lines[..3] == [CapRequest, CommandLine("PASS", conn.oauthToken), CommandLine("NICK", conn.nickname)];
    assert lines[..4] == lines;
  }

  /** `line` decodes to `command`, with no tags and no sender. */
  predicate DecodesTo(line: string, command: string)
  {
    var m := MessageInterface.Decode(line);
    m.command == command && m.tags == map[] && m.username.None?
  }

  /** The commands of the four handshake lines, in order. */
  const HandshakeCommands := ["CAP", "PASS", "NICK", "JOIN"]

  /**
   * Each handshake line reads back, under the message decoder, as the
   * command it stands for, with no tags and no sender.
   */
  lemma HandshakeCommand(token: string, nickname: string, channel: string, i: nat)
    requires i < 4
    ensures DecodesTo(HandshakeLines(token, nickname, channel)[i], HandshakeCommands[i])
  {
    if i == 0 {
      CapRequestCommand();
    } else if i == 1 {
      LineCommand("PASS", token);
    } else if i == 2 {
      LineCommand("NICK", nickname);
    } else {
      LineCommand("JOIN", "#" + channel);
    }
  }

  /** The capability request is a `CAP` command. */
  lemma CapRequestCommand()
    ensures DecodesTo(CapRequest, "CAP")
  {
    LineCommand("CAP", "REQ :twitch.tv/tags twitch.tv/commands");
  }

  /** An untagged, unprefixed line `command args` decodes to that command. */
  lemma LineCommand(command: string, args: string)
    requires command != [] && ' ' !in command && command[0] != '@' && command[0] != ':'
    ensures DecodesTo(CommandLine(command, args), command)
  {
    var line := command + " " + args;
    assert line[0] == command[0];
    assert MessageInterface.SplitPrefix(line) == (None, line);
    MessageInterface.CommandThenSpace(command, args);
  }
}
