/**
 * The cursor-style parser of `src/message_interface.rs` and the accessors on
 * its result. Unlike the strict parser it never fails: tags are optional, an
 * entry without `=` is dropped, the prefix is optional, and whatever is left
 * before the first space is the command (possibly empty).
 */
module MessageInterface {
  import opened Wrappers
  import opened RustStr

  /** The decoded line, with the fields the source keeps. */
  datatype TwitchMessage = TwitchMessage(
    tags: map<string, string>,
    command: string,
    username: Option<string>,
    message: Option<string>)

  /** Adds one `key=value` entry to the tags; an entry without `=` adds nothing. */
  function AddTag(tags: map<string, string>, entry: string): map<string, string>
  {
    match Find(entry, '=')
    case None => tags
    case Some(i) => tags[entry[..i] := entry[i + 1..]]
  }

  /** The tags built from the `;`-separated entries, in order: a later key overwrites. */
  function TagsOf(entries: seq<string>): map<string, string>
    decreases |entries|
  {
    if entries == [] then map[]
    else AddTag(TagsOf(entries[..|entries| - 1]), entries[|entries| - 1])
  }

  /** Only entries holding `=` contribute a key, and the key is what precedes the first `=`. */
  lemma {:induction false} TagsOfKeys(entries: seq<string>, k: string)
    ensures k in TagsOf(entries) <==>
      exists i :: 0 <= i < |entries| && '=' in entries[i] && Before(entries[i], '=') == k
    decreases |entries|
  {
    if entries != [] {
      var n := |entries| - 1;
      var init := entries[..n];
      TagsOfKeys(init, k);
      assert forall i :: 0 <= i < n ==> init[i] == entries[i];
      if k in TagsOf(entries) && k !in TagsOf(init) {
        assert '=' in entries[n] && Before(entries[n], '=') == k;
      }
      if k !in TagsOf(entries) {
        assert forall i :: 0 <= i < |entries| && '=' in entries[i] ==> Before(entries[i], '=') != k by {
          forall i | 0 <= i < |entries| && '=' in entries[i] ensures Before(entries[i], '=') != k {
            if i < n { assert init[i] == entries[i]; }
          }
        }
      }
    }
  }

  /** The value of a key is what follows the first `=` of the last entry naming it. */
  lemma {:induction false} TagsOfLastWins(entries: seq<string>, i: nat)
    requires i < |entries| && '=' in entries[i]
    requires forall j :: i < j < |entries| && '=' in entries[j] ==>
      Before(entries[j], '=') != Before(entries[i], '=')
    ensures var k := Before(entries[i], '=');
      k in TagsOf(entries) && entries[i] == k + "=" + TagsOf(entries)[k]
    decreases |entries|
  {
    var n := |entries| - 1;
    var init := entries[..n];
    var k := Before(entries[i], '=');
    if i < n {
      assert init[i] == entries[i];
      assert forall j :: i < j < n ==> init[j] == entries[j];
      TagsOfLastWins(init, i);
      assert '=' in entries[n] ==> Before(entries[n], '=') != k;
    } else {
      var e := entries[i];
      assert e == e[..|k|] + "=" + e[|k| + 1..];
    }
  }

  /** The tag segment: read only when the line starts with `@` and holds a space. */
  function SplitTags(raw: string): (map<string, string>, string)
  {
    if raw != [] && raw[0] == '@' then
      match Find(raw, ' ')
      case None => (map[], raw)
      case Some(p) => (TagsOf(Split(raw[1..p], ';')), raw[p + 1..])
    else (map[], raw)
  }

  /**
   * Without a leading `@` or without a space nothing is read as tags;
   * otherwise what is left is what follows the first space.
   */
  lemma SplitTagsSpec(raw: string)
    ensures !(raw != [] && raw[0] == '@') || ' ' !in raw ==> SplitTags(raw) == (map[], raw)
    ensures raw != [] && raw[0] == '@' && ' ' in raw ==>
      exists p :: 0 < p < |raw| && raw[p] == ' ' && ' ' !in raw[..p] && SplitTags(raw).1 == raw[p + 1..]
  {
    if raw != [] && raw[0] == '@' && ' ' in raw {
      var p := Find(raw, ' ').value;
      assert raw[p] == ' ' && ' ' !in raw[..p];
    }
  }

  /** The prefix: taken, without its `:`, only when the rest starts with `:` and holds a space. */
  function SplitPrefix(rest: string): (Option<string>, string)
  {
    if rest != [] && rest[0] == ':' then
      match Find(rest, ' ')
      case None => (None, rest)
      case Some(p) => (Some(rest[1..p]), rest[p + 1..])
    else (None, rest)
  }

  /**
   * A prefix is taken exactly when the rest starts with `:` and holds a
   * space; it is the text between them, and the line is `:`, the prefix, a
   * space and what is left. Otherwise the rest is left as it is.
   */
  lemma SplitPrefixSpec(rest: string)
    ensures var (prefix, after) := SplitPrefix(rest);
      (prefix.Some? <==> rest != [] && rest[0] == ':' && ' ' in rest)
      && (prefix.Some? ==> rest == [':'] + prefix.value + [' '] + after && ' ' !in prefix.value)
      && (prefix.None? ==> after == rest)
  {
    if rest != [] && rest[0] == ':' && ' ' in rest {
      var p := Find(rest, ' ').value;
      assert rest == [':'] + rest[1..p] + [' '] + rest[p + 1..];
    }
  }

  /** `splitn(2, ' ')`: the command up to the first space, and the rest after it if any. */
  function SplitCommand(rest: string): (string, Option<string>)
  {
    match Find(rest, ' ')
    case None => (rest, None)
    case Some(p) => (rest[..p], Some(rest[p + 1..]))
  }

  /**
   * The command holds no space; without a space it is the whole rest,
   * otherwise the rest is the command, a space, then the parameter text.
   */
  lemma SplitCommandSpec(rest: string)
    ensures var (command, paramText) := SplitCommand(rest);
      ' ' !in command
      && (paramText.None? ==> command == rest)
      && (paramText.Some? ==> rest == command + " " + paramText.value)
  {
    match Find(rest, ' ')
    case None =>
    case Some(p) => assert rest == rest[..p] + " " + rest[p + 1..];
  }

  /**
   * The parameters: single-space-separated tokens up to the first token that
   * starts with `:`, which becomes the last parameter whole, without its `:`.
   */
  function Params(current: string): seq<string>
    decreases |current|
  {
    if current == [] then []
    else if current[0] == ':' then [current[1..]]
    else match Find(current, ' ')
      case Some(p) => [current[..p]] + Params(current[p + 1..])
      case None => [current]
  }

  /**
   * Every parameter but the last is a plain token: no space in it and no
   * leading `:`. Only an empty rest gives no parameters.
   */
  lemma {:induction false} ParamsShape(current: string)
    ensures var r := Params(current);
      forall i :: 0 <= i < |r| - 1 ==> ' ' !in r[i] && (r[i] == [] || r[i][0] != ':')
    ensures current == [] <==> Params(current) == []
    decreases |current|
  {
    if current != [] && current[0] != ':' {
      match Find(current, ' ')
      case Some(p) =>
        var rest := Params(current[p + 1..]);
        ParamsShape(current[p + 1..]);
        assert Params(current) == [current[..p]] + rest;
      case None =>
    }
  }

  /** The parameters of the rest of the line after the command. */
  function ParamsOf(paramText: Option<string>): seq<string>
  {
    match paramText
    case None => []
    case Some(t) => Params(t)
  }

  /** The user name: the part of the prefix before its first `!`. */
  function Username(prefix: Option<string>): (r: Option<string>)
    ensures r.Some? <==> prefix.Some?
    ensures r.Some? ==> '!' !in r.value && r.value <= prefix.value
    ensures r.Some? && '!' in prefix.value ==> |r.value| < |prefix.value| && prefix.value[|r.value|] == '!'
    ensures r.Some? && '!' !in prefix.value ==> r.value == prefix.value
  {
    match prefix
    case None => None
    case Some(p) => Some(Before(p, '!'))
  }

  /** The chat text: the second parameter of a PRIVMSG with at least two. */
  function ChatText(command: string, params: seq<string>): (r: Option<string>)
    ensures r.Some? <==> command == "PRIVMSG" && |params| >= 2
    ensures r.Some? ==> r.value == params[1]
  {
    if command == "PRIVMSG" && |params| >= 2 then Some(params[1]) else None
  }

  /** What `TwitchMessage::parse` computes, stage by stage. */
  function Decode(raw: string): TwitchMessage
  {
    var (tags, afterTags) := SplitTags(raw);
    var (prefix, afterPrefix) := SplitPrefix(afterTags);
    var (command, paramText) := SplitCommand(afterPrefix);
    TwitchMessage(tags, command, Username(prefix), ChatText(command, ParamsOf(paramText)))
  }

  /** `TwitchMessage::parse`: always returns a message, the one `Decode` describes. */
  method Parse(raw: string) returns (r: Option<TwitchMessage>)
    ensures r == Some(Decode(raw))
  {
    var tags, remaining := ReadTags(raw);

    ghost var afterTags := remaining;
    var prefix: Option<string> := None;
    if remaining != [] && remaining[0] == ':' {
      var space := Find(remaining, ' ');
      if space.Some? {
        prefix := Some(remaining[1..space.value]);
        remaining := remaining[space.value + 1..];
      }
    }
    assert (prefix, remaining) == SplitPrefix(afterTags);

    var command: string;
    var params: seq<string> := [];
    var space := Find(remaining, ' ');
    if space.None? {
      command := remaining;
    } else {
      command := remaining[..space.value];
      params := ReadParams(remaining[space.value + 1..]);
    }

    var username := match prefix
      case None => None
      case Some(p) => Some(Before(p, '!'));
    var message := if command == "PRIVMSG" && |params| >= 2 then Some(params[1]) else None;
    r := Some(TwitchMessage(tags, command, username, message));
  }

  /** The tag stage of `parse`: entries are read only behind a leading `@` and before a space. */
  method ReadTags(raw: string) returns (tags: map<string, string>, remaining: string)
    ensures (tags, remaining) == SplitTags(raw)
  {
    tags := map[];
    remaining := raw;
    if remaining != [] && remaining[0] == '@' {
      var space := Find(remaining, ' ');
      if space.Some? {
        tags := ReadEntries(Split(remaining[1..space.value], ';'));
        remaining := remaining[space.value + 1..];
      }
    }
  }

  /** The loop over the `;`-separated entries that fills the tag map. */
  method ReadEntries(entries: seq<string>) returns (tags: map<string, string>)
    ensures tags == TagsOf(entries)
  {
    tags := map[];
    for i := 0 to |entries|
      invariant tags == TagsOf(entries[..i])
    {
      assert entries[..i + 1][..i] == entries[..i];
      var eq := Find(entries[i], '=');
      if eq.Some? {
        tags := tags[entries[i][..eq.value] := entries[i][eq.value + 1..]];
      }
    }
    assert entries[..|entries|] == entries;
  }

  /** The parameter stage of `parse`: a cursor walks the text token by token. */
  method ReadParams(paramText: string) returns (params: seq<string>)
    ensures params == Params(paramText)
  {
    params := [];
    var current := paramText;
    ghost var all := Params(paramText);
    while current != []
      invariant params + Params(current) == all
      decreases |current|
    {
      var token, rest, last := NextParam(current);
      Regroup(params, [token], Params(rest));
      params := params + [token];
      if last {
        break;
      }
      current := rest;
    }
    assert current == [] ==> Params(current) == [];
  }

  /**
   * Concatenation regrouped. A sequence fact, not program behaviour: stated
   * apart so the proof of `ReadParams` stays small.
   */
  lemma Regroup(a: seq<string>, b: seq<string>, c: seq<string>)
    ensures a + (b + c) == (a + b) + c
  {
  }

  /**
   * One pass of the cursor loop: a `:` token is the last parameter whole;
   * otherwise the token runs to the next space, or to the end if none.
   */
  method NextParam(current: string) returns (token: string, rest: string, last: bool)
    requires current != []
    ensures last ==> Params(current) == [token]
    ensures !last ==> |rest| < |current| && Params(current) == [token] + Params(rest)
  {
    ParamsLast(current);
    rest := [];
    if current[0] == ':' {
      token, last := current[1..], true;
      return;
    }
    var next := Find(current, ' ');
    if next.Some? {
      ParamsStep(current, next.value);
      token, rest, last := current[..next.value], current[next.value + 1..], false;
    } else {
      token, last := current, true;
    }
  }

  /** A trailing parameter, or a last token without a space after it, ends the parameters. */
  lemma ParamsLast(current: string)
    requires current != []
    ensures current[0] == ':' ==> Params(current) == [current[1..]]
    ensures current[0] != ':' && Find(current, ' ').None? ==> Params(current) == [current]
  {
    assert Params(current)
        == if current[0] == ':' then [current[1..]]
           else match Find(current, ' ') case Some(q) => [current[..q]] + Params(current[q + 1..]) case None => [current];
  }

  /** A plain token before a space is the next parameter. */
  lemma ParamsStep(current: string, p: nat)
    requires current != [] && current[0] != ':' && Find(current, ' ') == Some(p)
    ensures p < |current| && Params(current) == [current[..p]] + Params(current[p + 1..])
  {
    assert Params(current)
        == match Find(current, ' ') case Some(q) => [current[..q]] + Params(current[q + 1..]) case None => [current];
  }

  /** `display_name`: the `display-name` tag when present, else the user name. */
  function DisplayName(m: TwitchMessage): (r: Option<string>)
    ensures r.Some? <==> "display-name" in m.tags || m.username.Some?
    ensures "display-name" in m.tags ==> r == Some(m.tags["display-name"])
    ensures "display-name" !in m.tags ==> r == m.username
  {
    if "display-name" in m.tags then Some(m.tags["display-name"]) else m.username
  }

  /** `is_mod`: the `mod` tag is exactly "1". */
  function IsMod(m: TwitchMessage): bool
  {
    "mod" in m.tags && m.tags["mod"] == "1"
  }

  /** `is_subscriber`: the `subscriber` tag is exactly "1". */
  function IsSubscriber(m: TwitchMessage): bool
  {
    "subscriber" in m.tags && m.tags["subscriber"] == "1"
  }

  /** `is_vip`: a `vip` tag is present, whatever its value. */
  function IsVip(m: TwitchMessage): bool
  {
    "vip" in m.tags
  }

  /**
   * The flags read tag values differently: `mod` and `subscriber` hold only
   * for the value "1" and fail without the tag, `vip` holds for any value at
   * all and fails only without the tag.
   */
  lemma FlagsOfTagValue(m: TwitchMessage, v: string)
    ensures IsMod(m.(tags := m.tags["mod" := v])) <==> v == "1"
    ensures IsSubscriber(m.(tags := m.tags["subscriber" := v])) <==> v == "1"
    ensures IsVip(m.(tags := m.tags["vip" := v]))
    ensures !IsVip(m.(tags := m.tags - {"vip"}))
    ensures !IsMod(m.(tags := m.tags - {"mod"})) && !IsSubscriber(m.(tags := m.tags - {"subscriber"}))
  {
  }

  /** The badge labels `format_display` puts before the name, always in this order. */
  function BadgeLabels(m: TwitchMessage): string
  {
    (if IsMod(m) then "[MOD] " else "")
    + (if IsVip(m) then "[VIP] " else "")
    + (if IsSubscriber(m) then "[SUB] " else "")
  }

  /** `format_display`: labels, then `name: message`, for a PRIVMSG with both. */
  method FormatDisplay(m: TwitchMessage) returns (r: Option<string>)
    ensures r.Some? <==> m.command == "PRIVMSG" && DisplayName(m).Some? && m.message.Some?
    ensures r.Some? ==> r.value == BadgeLabels(m) + DisplayName(m).value + ": " + m.message.value
  {
    if m.command != "PRIVMSG" {
      return None;
    }
    var name := DisplayName(m);
    if name.None? {
      name := m.username;
    }
    if name.None? || m.message.None? {
      return None;
    }
    var labels := "";
    if IsMod(m) {
      labels := labels + "[MOD] ";
    }
    if IsVip(m) {
      labels := labels + "[VIP] ";
    }
    if IsSubscriber(m) {
      labels := labels + "[SUB] ";
    }
    r := Some(labels + name.value + ": " + m.message.value);
  }

  /** The parameter text for plain tokens `middle` and a final trailing parameter. */
  function ParamText(middle: seq<string>, trailing: string): string
    decreases |middle|
  {
    if middle == [] then ":" + trailing else middle[0] + " " + ParamText(middle[1..], trailing)
  }

  /**
   * The trailing-parameter rule, read backwards: plain tokens and a trailing
   * text written out are read back as the same parameters, spaces and all.
   */
  lemma {:induction false} ParamsRoundTrip(middle: seq<string>, trailing: string)
    requires forall i :: 0 <= i < |middle| ==> ' ' !in middle[i] && (middle[i] == [] || middle[i][0] != ':')
    ensures Params(ParamText(middle, trailing)) == middle + [trailing]
    decreases |middle|
  {
    if middle == [] {
      ParamsLast(":" + trailing);
      assert (":" + trailing)[1..] == trailing;
    } else {
      assert forall i :: 0 <= i < |middle[1..]| ==> middle[1..][i] == middle[i + 1];
      ParamsRoundTrip(middle[1..], trailing);
      ParamTextStep(middle, trailing);
      assert [middle[0]] + (middle[1..] + [trailing]) == middle + [trailing];
    }
  }

  /** The first plain token of a parameter text is its first parameter. */
  lemma ParamTextStep(middle: seq<string>, trailing: string)
    requires middle != [] && ' ' !in middle[0] && (middle[0] == [] || middle[0][0] != ':')
    ensures Params(ParamText(middle, trailing)) == [middle[0]] + Params(ParamText(middle[1..], trailing))
  {
    var rest := ParamText(middle[1..], trailing);
    assert ParamText(middle, trailing) == middle[0] + " " + rest;
    PlainTokenThenSpace(middle[0], rest);
  }

  /** A plain token and a space in front of the rest add that token in front of its parameters. */
  lemma PlainTokenThenSpace(token: string, rest: string)
    requires ' ' !in token && (token == [] || token[0] != ':')
    ensures Params(token + " " + rest) == [token] + Params(rest)
  {
    var s := token + " " + rest;
    assert s == token + [' '] + rest;
    assert s[0] != ':' by {
      if token == [] { assert s[0] == ' '; } else { assert s[0] == token[0]; }
    }
    FindAfter(token, ' ', rest);
    assert s[..|token|] == token && s[|token| + 1..] == rest;
    ParamsStep(s, |token|);
  }

  /** A line that starts with `@` but holds no space has no tags and is all command. */
  lemma DecodeTagsWithoutSpace(raw: string)
    requires raw != [] && raw[0] == '@' && ' ' !in raw
    ensures Decode(raw) == TwitchMessage(map[], raw, None, None)
  {
    SplitTagsSpec(raw);
  }

  /** A line without a leading `@` has no tags. */
  lemma DecodeUntagged(raw: string)
    requires raw == [] || raw[0] != '@'
    ensures Decode(raw).tags == map[]
  {
  }

  /** A user name is reported exactly when a prefix was taken after the tags. */
  lemma DecodeUsername(raw: string)
    ensures var rest := SplitTags(raw).1;
      Decode(raw).username.Some? <==> rest != [] && rest[0] == ':' && ' ' in rest
    ensures Decode(raw).username.Some? ==> '!' !in Decode(raw).username.value
  {
    SplitPrefixSpec(SplitTags(raw).1);
  }

  /** A tag segment closed by a space is read, and the rest is decoded as if untagged. */
  lemma DecodeTagged(tagText: string, line: string)
    requires ' ' !in tagText
    requires line == [] || line[0] != '@'
    ensures Decode("@" + tagText + " " + line) == Decode(line).(tags := TagsOf(Split(tagText, ';')))
  {
    var raw := "@" + tagText + " " + line;
    TagSegment(tagText, line);
    DecodeAfterTags(raw, TagsOf(Split(tagText, ';')), line);
  }

  /** The tag segment of `@tagText line` is read from `tagText`, and `line` is left. */
  lemma TagSegment(tagText: string, line: string)
    requires ' ' !in tagText
    ensures SplitTags("@" + tagText + " " + line) == (TagsOf(Split(tagText, ';')), line)
  {
    var raw := "@" + tagText + " " + line;
    FindAfter("@" + tagText, ' ', line);
    assert raw == "@" + tagText + [' '] + line;
    assert raw[1..|tagText| + 1] == tagText;
    assert raw[|tagText| + 2..] == line;
  }

  /** Once the tags are read, the rest is decoded as an untagged line. */
  lemma DecodeAfterTags(raw: string, tags: map<string, string>, rest: string)
    requires SplitTags(raw) == (tags, rest) && (rest == [] || rest[0] != '@')
    ensures Decode(raw) == Decode(rest).(tags := tags)
  {
    assert SplitTags(rest) == (map[], rest);
  }

  /** A prefixed chat line: the line shape the server relays for a chat post. */
  function PrefixedChatLine(prefix: string, channel: string, text: string): string
  {
    ":" + prefix + " " + ("PRIVMSG" + " " + ParamText([channel], text))
  }

  /** A prefixed chat line decodes to its sender's name and its full text. */
  lemma DecodeChatLine(prefix: string, channel: string, text: string)
    requires ' ' !in prefix && ' ' !in channel && (channel == [] || channel[0] != ':')
    ensures Decode(PrefixedChatLine(prefix, channel, text))
         == TwitchMessage(map[], "PRIVMSG", Some(Before(prefix, '!')), Some(text))
  {
    var line := PrefixedChatLine(prefix, channel, text);
    var paramText := ParamText([channel], text);
    var afterPrefix := "PRIVMSG" + " " + paramText;
    assert line == ":" + prefix + " " + afterPrefix;
    PrefixThenSpace(prefix, afterPrefix);
    CommandThenSpace("PRIVMSG", paramText);
    ParamsRoundTrip([channel], text);
    assert ChatText("PRIVMSG", ParamsOf(Some(paramText))) == Some(text);
    DecodeStages(line, Some(prefix), afterPrefix, "PRIVMSG", Some(paramText));
  }

  /** `:prefix rest` yields the prefix and the rest. */
  lemma PrefixThenSpace(prefix: string, rest: string)
    requires ' ' !in prefix
    ensures SplitPrefix(":" + prefix + " " + rest) == (Some(prefix), rest)
  {
    var head := ":" + prefix;
    var line := head + " " + rest;
    assert ' ' !in head by {
      assert forall i :: 0 < i < |head| ==> head[i] == prefix[i - 1];
    }
    assert line == head + [' '] + rest;
    FindAfter(head, ' ', rest);
    assert line[0] == ':' && line[1..|head|] == prefix && line[|head| + 1..] == rest;
    assert SplitPrefix(line) == (Some(line[1..|head|]), line[|head| + 1..]);
  }

  /** `command rest` yields the command and the rest. */
  lemma CommandThenSpace(command: string, rest: string)
    requires ' ' !in command
    ensures SplitCommand(command + " " + rest) == (command, Some(rest))
  {
    var line := command + " " + rest;
    assert line == command + [' '] + rest;
    FindAfter(command, ' ', rest);
    assert line[..|command|] == command && line[|command| + 1..] == rest;
    assert SplitCommand(line) == (line[..|command|], Some(line[|command| + 1..]));
  }

  /** `Decode` of an untagged line, given the outcome of its prefix and command stages. */
  lemma DecodeStages(raw: string, prefix: Option<string>, afterPrefix: string,
                     command: string, paramText: Option<string>)
    requires raw == [] || raw[0] != '@'
    requires SplitPrefix(raw) == (prefix, afterPrefix)
    requires SplitCommand(afterPrefix) == (command, paramText)
    ensures Decode(raw) == TwitchMessage(map[], command, Username(prefix), ChatText(command, ParamsOf(paramText)))
  {
  }

  /**
   * End to end: a prefixed, untagged chat line is displayed as the sender's
   * name, a colon and the full text, with no labels.
   */
  lemma DisplayChatLine(prefix: string, channel: string, text: string)
    requires ' ' !in prefix && ' ' !in channel && (channel == [] || channel[0] != ':')
    ensures var m := Decode(PrefixedChatLine(prefix, channel, text));
      m.command == "PRIVMSG" && BadgeLabels(m) == "" && DisplayName(m) == Some(Before(prefix, '!'))
      && m.message == Some(text)
  {
    DecodeChatLine(prefix, channel, text);
  }
}
