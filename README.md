# twitch_web_socket: the chat protocol core, in Dafny

This project models the text handling of a Twitch chat client that speaks
IRC over a WebSocket. It covers the following parts:

- **Two line parsers.**
  - The strict parser of `src/parser.rs` (`parse_twitch_message`, `user_badges`) accepts only tagged `PRIVMSG` lines. It keeps every tag entry and takes the chat text after the last `" :"`.
  - The cursor parser of `src/message_interface.rs` (`TwitchMessage::parse` and its accessors) never fails. It reads optional tags, an optional prefix, a command and parameters, with the trailing-parameter rule.
- **Badge resolution**, as `read_chat` and `main` do it. It takes the first catalog entry with the badge's name, skips unknown names, and replaces `{SIZE}` in the URL with `3`.
- **The receive loop** `read_chat` (`src/twitch/message/reader.rs`), over an abstract sequence of frames.
- **The send loop** `send_message` (`src/twitch/message/writer.rs`), over an abstract sequence of standard-input reads.
- **The handshake** `connect_to_twitch` (`src/twitch/connection.rs`, repeated in `src/main.rs`), and the fields `create_twitch_connection` sets.
- **The main loop of `src/main.rs`.** It is the receive loop plus the `!hello` auto-reply.

The two parsers are modelled separately, as written, in modules `Parser`
and `MessageInterface`. `RustStr` holds the Rust `str` operations the code
uses (`trim`, `find`, `rfind`, `contains`, `split`, `split_whitespace`,
`lines`, `replace`, `trim_start_matches`), each after the documented
behaviour of the standard library. `Badges` holds the catalog lookup.

The imperative code is modelled in imperative Dafny:

- `Parse` in `MessageInterface` fills its tag map in a loop and walks a parameter cursor in another.
- `ReadChat` in `Reader` has nested loops over frames, lines and badges.
- `SendMessage` in `Writer` loops over input lines.
- `RunLoop` in `ChatSession` loops over frames.

Each method is proved against a specification function, such as `Decode`, `ReaderSpec`, `RunWriter` or `RunSession`. Lemmas then prove what the source promises about those functions.

**The write half of the socket** is a `Sink` class. It has:

- a ghost `log` of the frames it accepted;
- a sequence of send outcomes, given up front, in place of the network. Sends past its end succeed.

**Failed sends.** A failed send with `expect` aborts the program. The model represents this as a loop that stops, reporting `ok == false` (or `panicked`).

**The frame loops are generic in the per-frame step.**

- `ReaderSpec(frames, show)` and `RunSession(frames, step, outcomes)` take what one frame prints, or does, as a function value.
- The program's own loops are the instances `ReaderSpec(frames, FramePrinter(catalog))` and `RunSession(frames, SessionStep(catalog, channel), outcomes)`.

**How `TwitchMessage::parse` handles unusual input:**

- `TwitchMessage::parse` does not fail when an `@` line has no space after its tags. The whole line then becomes the command, and there are no tags.
- `TwitchMessage::parse` does not fail when the command is missing. The command may be empty.
- `TwitchMessage::parse` drops a tag entry without `=`, whereas `parse_twitch_message` keeps it with an empty value.
- `TwitchMessage::parse` does not trim the line. Only `parse_twitch_message` does.

## Model

| member | source | states |
|---|---|---|
| RustStr.IsWhitespace | src/parser.rs:13-19 | `char::is_whitespace`: the Unicode White_Space characters (tab to carriage return, space, U+0085, U+00A0, U+1680, U+2000 to U+200A, U+2028, U+2029, U+202F, U+205F, U+3000), on which every `trim` and `split_whitespace` call rests |
| RustStr.TrimStart | src/parser.rs:13 | `trim_start`: drops leading whitespace one character at a time; `TrimStartSpec` states what it leaves |
| RustStr.TrimEnd | src/parser.rs:13 | `trim_end`: drops trailing whitespace one character at a time; `TrimEndSpec` states what it leaves |
| RustStr.Trim | src/parser.rs:13 | `trim` is `trim_end` after `trim_start`; `TrimSpec` states what it leaves |
| RustStr.TrimStartSpec | src/parser.rs:13 | `trim_start` removes exactly a leading run of whitespace: the result is a suffix, everything removed is whitespace, and the result does not start with whitespace |
| RustStr.TrimEndSpec | src/parser.rs:13 | `trim_end` removes exactly a trailing run of whitespace: the result is a prefix, everything removed is whitespace, and the result does not end with whitespace |
| RustStr.TrimSpec | src/parser.rs:13 | `trim` leaves a substring of the input whose two ends are not whitespace, with only whitespace before and after it |
| RustStr.TrimOfTrimmed | src/twitch/message/writer.rs:16 | a string whose ends are not whitespace is its own trim |
| RustStr.TrimIdempotent | src/twitch/message/writer.rs:16 | trimming twice is trimming once |
| RustStr.TrimEmptyIffBlank | src/twitch/message/writer.rs:16-17 | a line trims to empty if and only if every character is whitespace |
| RustStr.Find | src/message_interface.rs:21 | `find` is None exactly when the character is absent; otherwise it is the index of its first occurrence |
| RustStr.Before | src/message_interface.rs:75-77 | the first piece of `split(c)`: a prefix free of `c`, all of the input when `c` is absent, otherwise followed by `c` in the input |
| RustStr.Contains | src/main.rs:75 | `contains` holds exactly when the pattern occurs at some index |
| RustStr.RFind | src/parser.rs:44 | `rfind` is None when the pattern occurs nowhere; otherwise it returns an occurrence with no later one |
| RustStr.Split | src/parser.rs:24 | `split` yields at least one piece and no piece holds the separator |
| RustStr.JoinSplit | src/parser.rs:24 | splitting and joining with the separator gives back the input |
| RustStr.SplitJoin | src/parser.rs:62 | joining separator-free pieces and splitting again gives back the pieces |
| RustStr.SplitWhitespace | src/parser.rs:19 | `split_whitespace` yields only non-empty, whitespace-free tokens |
| RustStr.SplitWhitespaceBlank | src/parser.rs:19-21 | `split_whitespace` yields no token exactly when the input is all whitespace |
| RustStr.SplitWhitespaceLeading | src/parser.rs:19-21 | a leading whitespace character of any kind does not change the tokens; with `SplitWhitespaceToken` and the empty input this fixes the tokens of every string |
| RustStr.SplitWhitespaceToken | src/parser.rs:19-21 | a whitespace-free token followed by whitespace or the end is the first token, and the rest is tokenised on its own |
| RustStr.Lines | src/twitch/message/reader.rs:21 | `lines`: splits at each `\n`, drops one `\r` before it, and yields no empty final line; `LinesSpec` and `LinesTerminated` state its properties |
| RustStr.LinesSpec | src/twitch/message/reader.rs:21 | no line from `lines` holds `\n`, and there are no more lines than characters |
| RustStr.LinesTerminated | src/twitch/message/reader.rs:21 | lines free of `\n`, not ending in `\r`, each written with a final `\n`, are read back by `lines` as the same lines |
| RustStr.TrimStartMatches | src/parser.rs:23 | `trim_start_matches(c)` for one character: drops leading copies of `c`; `TrimStartMatchesSpec` states what it leaves |
| RustStr.Replace | src/twitch/message/reader.rs:51 | `replace(from, to)`: scans left to right and replaces each non-overlapping occurrence of `from`; `SizedUrlReplaces` and `NoPlaceholderLeft` state its effect on badge URLs |
| RustStr.TrimStartMatchesSpec | src/parser.rs:23 | `trim_start_matches(c)` removes a leading run of `c` and nothing else, and the result does not start with `c` |
| Parser.TagKey | src/parser.rs:26-27 | the key of a tag entry: the text before its first `=`, or the whole entry |
| Parser.TagValue | src/parser.rs:26-27 | the value of a tag entry: the text after its first `=`, or "" when there is none |
| Parser.TagEntryParts | src/parser.rs:25-28 | `splitn(2, '=')`: the key holds no `=`; an entry with `=` is key, `=`, value; an entry without `=` is all key, with value "" |
| Parser.TagMap | src/parser.rs:22-29 | the tag map `collect` builds from the entries, later entries overwriting earlier ones; `TagMapHasKeys`, `TagMapKeysFrom` and `TagMapLastWins` state its contents |
| Parser.TagMapHasKeys | src/parser.rs:22-29 | every tag entry contributes its key to the map |
| Parser.TagMapKeysFrom | src/parser.rs:22-29 | every key of the map comes from some entry |
| Parser.TagMapLastWins | src/parser.rs:22-29 | a key maps to the value of the last entry that carries it |
| Parser.TrailingText | src/parser.rs:44-48 | the chat text never contains `" :"` |
| Parser.TrailingTextSpec | src/parser.rs:44-48 | without `" :"` the chat text is ""; otherwise it is everything after the last `" :"` |
| Parser.TrailingTextAfter | src/parser.rs:44-48 | text after a `" :"` that holds no `" :"` itself is taken whole |
| Parser.ParseTwitchMessage | src/parser.rs:12-57 | a parsed message has command `PRIVMSG`, its trimmed line starts with `@`, and its text holds no `" :"` |
| Parser.ParseAccepts | src/parser.rs:13-40 | a line is accepted if and only if, trimmed, it starts with `@` and has at least four tokens, the third being `PRIVMSG`; the channel is the fourth token with its `#`, and the text follows the last `" :"`; a raw line parses exactly as its trimmed form does |
| Parser.ParseChatLine | src/parser.rs:12-57 | a well-formed tagged chat line parses back into its tag map, prefix without `:`, `PRIVMSG`, `#channel` and text |
| Parser.ParseOfFields | src/parser.rs:12-56 | for any raw line whose trimmed form starts with `@` and has `PRIVMSG` as third token, the parse returns the tag map of the first token with `@` stripped, the second token with `:` stripped, `PRIVMSG`, the fourth token and the text after the last `" :"` |
| Parser.BadgeNames | src/parser.rs:62-64 | the names of the `,`-entries of a `badges` tag that hold a `/`, in order; the lemmas below state its contents |
| Parser.BadgeNamesSpec | src/parser.rs:62-64 | there are no more badge names than entries; each name is a `/`-free prefix of some entry |
| Parser.BadgeNamesAppend | src/parser.rs:62-64 | entries are handled one by one, in order: the names of two runs of entries are those of each, concatenated |
| Parser.BadgeNamesOne | src/parser.rs:63 | one entry yields its part before the first `/` if it holds a `/`, and nothing otherwise |
| Parser.EntryWithoutSlashDropped | src/parser.rs:63 | an entry without `/` is dropped: removing it changes nothing |
| Parser.UserBadges | src/parser.rs:59-65 | `user_badges`: the badge names of the `badges` tag split at `,`, an absent tag read as ""; `UserBadgesSpec` and `UserBadgesOfTag` state its contents |
| Parser.UserBadgesSpec | src/parser.rs:59-65 | `user_badges`: no `badges` tag gives no names; otherwise there are at most as many names as `,`-entries, and no name holds `,` or `/` |
| Parser.UserBadgesOfTag | src/parser.rs:59-65 | a `badges` tag written as `name/version` entries yields exactly the names, in order |
| Parser.BadgeNamesOfEntries | src/parser.rs:63 | each `name/version` entry yields the part before its first `/` |
| Parser.EmptyBadgeTag | src/parser.rs:60-63 | an empty `badges` tag gives no names, like a missing one |
| MessageInterface.AddTag | src/message_interface.rs:24-28 | one pass of the tag loop: an entry with `=` sets the text before its first `=` to the text after it, overwriting; an entry without `=` changes nothing; `TagsOfKeys` and `TagsOfLastWins` state the loop's result |
| MessageInterface.TagsOf | src/message_interface.rs:23-29 | the tag map the entry loop fills: entries without `=` are skipped, later entries overwrite earlier ones; `TagsOfKeys` and `TagsOfLastWins` state its contents |
| MessageInterface.TagsOfKeys | src/message_interface.rs:23-29 | a key is present if and only if some entry holding `=` has it before its first `=`; entries without `=` are dropped |
| MessageInterface.TagsOfLastWins | src/message_interface.rs:23-29 | a key's value is what follows the first `=` of the last entry naming it |
| MessageInterface.SplitTags | src/message_interface.rs:20-32 | the tag stage: for an `@` line with a space, the tags before the first space and the rest after it; otherwise no tags and the whole line |
| MessageInterface.SplitTagsSpec | src/message_interface.rs:20-32 | tags are read only for a line starting with `@` that holds a space; the rest is what follows the first space, otherwise the whole line |
| MessageInterface.SplitPrefix | src/message_interface.rs:35-45 | the prefix stage: for a `:` rest with a space, the text between them and the rest after the space; otherwise no prefix |
| MessageInterface.SplitPrefixSpec | src/message_interface.rs:35-45 | a prefix is taken if and only if the rest starts with `:` and holds a space; it is the space-free text between them |
| MessageInterface.SplitCommand | src/message_interface.rs:48-53 | the command stage: the text up to the first space, and the parameter text after it if there is a space |
| MessageInterface.SplitCommandSpec | src/message_interface.rs:48-53 | `splitn(2, ' ')`: the command holds no space; it is the whole rest when there is no space, otherwise the rest is command, space, parameter text |
| MessageInterface.Params | src/message_interface.rs:56-71 | the parameter cursor: a `:` token takes the rest whole; otherwise a token runs to the next space, or to the end; `ParamsShape` and `ParamsRoundTrip` state its result |
| MessageInterface.ParamsShape | src/message_interface.rs:56-71 | every parameter but the last is space-free and does not start with `:`; there are no parameters only for empty text |
| MessageInterface.ParamsRoundTrip | src/message_interface.rs:56-71 | plain tokens followed by a `:` trailing text, spaces and all, are read back as those tokens then the text |
| MessageInterface.ReadParams | src/message_interface.rs:54-72 | the cursor loop pushes exactly the parameters of the text |
| MessageInterface.NextParam | src/message_interface.rs:61-70 | one pass: a `:` token is the last parameter whole; otherwise the token runs to the next space, or to the end, and the cursor shrinks |
| MessageInterface.ParamsLast | src/message_interface.rs:61-69 | a `:` token, or a token with no space after it, ends the parameters |
| MessageInterface.ParamsStep | src/message_interface.rs:64-66 | a plain token before a space is the next parameter, and reading resumes after the space |
| MessageInterface.Username | src/message_interface.rs:75-77 | the user name is present exactly when a prefix is; it holds no `!`, and is the whole prefix when the prefix has no `!`, otherwise the part right before its first `!` |
| MessageInterface.ChatText | src/message_interface.rs:80-87 | the message is present if and only if the command is `PRIVMSG` with at least two parameters, and it is the second one |
| MessageInterface.Decode | src/message_interface.rs:15-98 | `parse` as a function: the tag, prefix, command and parameter stages in turn, then the user name and the chat text; the lemmas below state what it returns |
| MessageInterface.Parse | src/message_interface.rs:15-98 | `parse` always returns a message, the one the stage-by-stage decoding describes |
| MessageInterface.ReadTags | src/message_interface.rs:16-32 | the tag stage returns the tags and the rest of the line that the gated split describes |
| MessageInterface.ReadEntries | src/message_interface.rs:23-29 | the entry loop fills the map that the entries describe |
| MessageInterface.DecodeTagsWithoutSpace | src/message_interface.rs:20-53 | an `@` line with no space has no tags and no prefix, and the whole line is its command |
| MessageInterface.DecodeUntagged | src/message_interface.rs:20 | a line not starting with `@` has no tags |
| MessageInterface.DecodeUsername | src/message_interface.rs:35-45 | a user name is reported exactly when a prefix was taken after the tags, and it holds no `!` |
| MessageInterface.DecodeTagged | src/message_interface.rs:20-32 | a space-free tag segment is read, and the rest decodes as if untagged |
| MessageInterface.DecodeChatLine | src/message_interface.rs:80-87 | `:prefix PRIVMSG #c :text` decodes to the sender's name and the full text |
| MessageInterface.DecodeStages | src/message_interface.rs:35-97 | an untagged line decodes to the command, user name and message that its prefix and command stages give |
| MessageInterface.PrefixThenSpace | src/message_interface.rs:35-39 | `:prefix rest` yields the prefix and the rest |
| MessageInterface.CommandThenSpace | src/message_interface.rs:48-53 | `command rest` yields the command and the rest |
| MessageInterface.DisplayName | src/message_interface.rs:100-105 | the `display-name` tag when present, otherwise the user name |
| MessageInterface.IsMod | src/message_interface.rs:111-113 | `is_mod`: the `mod` tag is present and is "1"; `FlagsOfTagValue` states both directions |
| MessageInterface.IsSubscriber | src/message_interface.rs:115-120 | `is_subscriber`: the `subscriber` tag is present and is "1"; `FlagsOfTagValue` states both directions |
| MessageInterface.IsVip | src/message_interface.rs:122-124 | `is_vip`: the `vip` tag is present, whatever its value; `FlagsOfTagValue` states both directions |
| MessageInterface.FlagsOfTagValue | src/message_interface.rs:111-124 | `mod` and `subscriber` hold for the value "1", fail for any other value, and fail when the tag is absent; `vip` holds for any value and fails only when absent |
| MessageInterface.BadgeLabels | src/message_interface.rs:138-147 | the labels `[MOD] `, `[VIP] `, `[SUB] `, each present exactly when its flag holds, in that order; `FormatDisplay` puts them before the name |
| MessageInterface.FormatDisplay | src/message_interface.rs:133-153 | the display exists if and only if the command is `PRIVMSG` with a name and a message; it is the labels, then `name: message` |
| MessageInterface.DisplayChatLine | src/message_interface.rs:133-153 | an untagged chat line is displayed with no labels, as the sender's name and the full text |
| Badges.FindBadge | src/twitch/message/reader.rs:48-49 | the lookup finds nothing exactly when no entry has the name; otherwise it finds a catalog entry with that name |
| Badges.FindBadgeFirst | src/twitch/message/reader.rs:49 | of entries with the same name, the first is found |
| Badges.ResolveBadges | src/twitch/message/reader.rs:45-54 | there are never more URLs than badge names |
| Badges.ResolveAppend | src/twitch/message/reader.rs:47-54 | badges are resolved one by one, in order: resolution distributes over concatenation |
| Badges.SkipsUnknown | src/twitch/message/reader.rs:48-53 | a name with no catalog entry is skipped silently |
| Badges.ResolveSplit | src/twitch/message/reader.rs:47-54 | resolution around one name is that of its three parts |
| Badges.ResolveKnown | src/twitch/message/reader.rs:47-54 | when every name has an entry there is one URL per name, in order, from the first matching entry |
| Badges.SizedUrl | src/twitch/message/reader.rs:51 | a badge URL with every `{SIZE}` replaced by `3`; the lemmas below state its effect |
| Badges.SizedUrlReplaces | src/twitch/message/reader.rs:51 | the first `{SIZE}` of a URL becomes `3`, the text before it is kept, and replacing goes on after it |
| Badges.NoPlaceholderLeft | src/twitch/message/reader.rs:51 | no `{SIZE}` is left in a resolved URL |
| Badges.SizedUrlUnchanged | src/twitch/message/reader.rs:51 | a URL without `{SIZE}` is used unchanged |
| Reader.TagOr | src/twitch/message/reader.rs:31-39 | `get(key).unwrap_or(default)`: the tag's value when present, otherwise the default (`Guest` for the name, `#555555` for the colour) |
| Reader.ShowLine | src/twitch/message/reader.rs:22-54 | the record one line prints: nothing if the strict parser rejects it, otherwise name, colour, text and badge URLs; `ShowChatLine` states it for a chat line |
| Reader.LinesShown | src/twitch/message/reader.rs:21-60 | the records of the lines of a frame, in order, rejected lines skipped; `LinesShownAppend` and `RejectedLineSilent` state its properties |
| Reader.FrameShown | src/twitch/message/reader.rs:20-70 | a text frame prints the records of its lines; any other frame prints nothing |
| Reader.ReaderSpec | src/twitch/message/reader.rs:17-72 | the frame fold: each frame's records in turn, until a close frame or a receive error; the lemmas below state its properties |
| Reader.ReadChat | src/twitch/message/reader.rs:13-73 | the frame loop prints exactly what the frame fold describes |
| Reader.ShowFrame | src/twitch/message/reader.rs:19-71 | one frame prints the records of its lines if it is text, and nothing otherwise |
| Reader.ShowLines | src/twitch/message/reader.rs:21-60 | the line loop prints the records of the lines, in order |
| Reader.ShowOne | src/twitch/message/reader.rs:22-58 | one line prints its name, colour, text and badge URLs, or nothing if it does not parse |
| Reader.BadgeUrls | src/twitch/message/reader.rs:45-54 | the badge loop prints the resolved URLs |
| Reader.ReaderSpecFrom | src/twitch/message/reader.rs:17-72 | a frame that does not stop the loop prints its own records, then the loop goes on with the next frame |
| Reader.StopFrameEnds | src/twitch/message/reader.rs:62-69 | a close frame or a receive error ends the loop: nothing after it is printed |
| Reader.OtherFrameIgnored | src/twitch/message/reader.rs:70 | any other frame is ignored |
| Reader.ReaderAppend | src/twitch/message/reader.rs:17-72 | frames before any stop are handled in order and independently |
| Reader.LinesShownAppend | src/twitch/message/reader.rs:21-60 | lines are handled in order and independently |
| Reader.RejectedLineSilent | src/twitch/message/reader.rs:22 | a line the parser rejects prints nothing |
| Reader.ShowChatLine | src/twitch/message/reader.rs:30-54 | a chat line is shown with its display name (default `Guest`), its colour (default `#555555`), its text and its resolved badge URLs |
| Connection.Accepted | src/twitch/connection.rs:50-71 | of `n` sends in a row, no more than `n` succeed |
| Connection.AcceptedOutcomes | src/twitch/connection.rs:50-71 | the sends that succeed are those before the first failure; each send is attempted up to and including the failing one |
| Connection.Sink.Send | src/twitch/connection.rs:50-55 | a send consumes one outcome and logs its frame only if it succeeds |
| Connection.TwitchConnection.constructor | src/twitch/connection.rs:33-45 | token and nickname are copied from the settings; the channel is always `pleaseendmyloniness` |
| Connection.HandshakeLines | src/main.rs:140-157 | the four handshake lines: `CAP REQ :twitch.tv/tags twitch.tv/commands`, `PASS token`, `NICK nickname`, `JOIN #channel` |
| Connection.ConnectToTwitch | src/main.rs:136-163 | `connect_to_twitch` (the same sequence as src/twitch/connection.rs:48-75): the sink logs CAP REQ, PASS token, NICK nickname and JOIN #channel, in order, up to the first failed send; it succeeds only when all four are sent |
| Connection.HandshakeCommand | src/twitch/connection.rs:50-71 | the four handshake lines are well-formed IRC commands: they read back, under the message decoder, as CAP, PASS, NICK and JOIN, with no tags and no sender |
| Connection.CapRequestCommand | src/twitch/connection.rs:52 | the capability request is a `CAP` command |
| Writer.PrivmsgLine | src/twitch/message/writer.rs:22-24 | the frame sent for a message: `PRIVMSG #channel :text`; `PrivmsgRoundTrip` states that it decodes back |
| Writer.Typed | src/twitch/message/writer.rs:15-19 | the trimmed non-blank lines read before the first read error, in order; `TypedTrimmed` and `BlankLineSkipped` state its properties |
| Writer.RunWriter | src/twitch/message/writer.rs:15-30 | the send loop as a fold: each typed message sent in turn, stopping at the first failed send; `RunWriterSends` states what it sends |
| Writer.SendMessage | src/twitch/message/writer.rs:6-31 | the loop sends exactly what the step-by-step description of the loop sends |
| Writer.RunWriterSends | src/twitch/message/writer.rs:15-29 | the frames sent are `PRIVMSG #channel :text` for the trimmed non-blank lines, in order, up to and excluding the first failed send |
| Writer.TypedTrimmed | src/twitch/message/writer.rs:16-19 | every message sent is trimmed and not blank |
| Writer.BlankLineSkipped | src/twitch/message/writer.rs:16-19 | a line that trims to nothing is never sent |
| Writer.ReadErrorEnds | src/twitch/message/writer.rs:15 | nothing after a read error is read |
| Writer.PrivmsgRoundTrip | src/twitch/message/writer.rs:22-24 | a sent frame decodes back, under the message decoder, as a `PRIVMSG` carrying the typed text whole |
| ChatSession.HelloReply | src/main.rs:78 | the auto-reply `PRIVMSG #channel :test!`; `HelloReplyDecodes` states that it decodes back |
| ChatSession.WantsHello | src/main.rs:75 | a frame asks for the auto-reply when it is text containing `!hello` |
| ChatSession.FrameStep | src/main.rs:33-83 | one frame of the main loop: the reader's records, then the reply if the frame asks for it, aborting if that send fails; `FrameStepEvents` states it |
| ChatSession.RunSession | src/main.rs:30-94 | the main loop as a fold: each frame's step in turn, until a close frame, a receive error or an abort; the lemmas below state its properties |
| ChatSession.RunLoop | src/main.rs:30-94 | the main loop's events, abort flag, remaining outcomes and log of replies are those of the session fold |
| ChatSession.HandleFrame | src/main.rs:33-83 | one frame shows its lines, then sends the reply if the frame asks for it; a failed reply aborts |
| ChatSession.Run | src/main.rs:28-94 | the loop runs only if all four handshake lines were sent; its replies follow them in the log |
| ChatSession.RunSessionFrom | src/main.rs:30-94 | a frame that does not stop the loop runs its step, then the loop goes on unless the step aborted |
| ChatSession.FrameStepEvents | src/main.rs:33-83 | a frame shows exactly what the reader shows for it and sends the reply exactly when its text contains `!hello` and the send succeeds; it aborts exactly when that send fails |
| ChatSession.SessionShowsReader | src/main.rs:30-94 | the main loop shows what the reader loop shows: a prefix of it, and all of it unless a reply failed |
| ChatSession.StepsShowReader | src/main.rs:30-94 | a loop whose every step shows what the reader prints for its frame shows a prefix of the reader's output, and all of it unless it aborted |
| ChatSession.SessionReplies | src/main.rs:75-82 | every reply is `PRIVMSG #channel :test!`, and unless one failed there is exactly one per frame containing `!hello` |
| ChatSession.StepsReply | src/main.rs:75-82 | a loop whose every step replies exactly when its frame asks sends only that reply, once per asking frame unless it aborted |
| ChatSession.HelloReplyDecodes | src/main.rs:78 | the reply decodes, under the message decoder, as a `PRIVMSG` saying `test!` |

## Left out

- I/O is not modelled. Frames and standard-input lines are abstract sequences. A send's success is a given sequence of outcomes.
- Only the chat-line output is represented: the `Shown` records stand for the name, text and badge-URL lines printed for each parsed line, and the `Event` sequence for those plus the replies sent. Status and error messages are not modelled. These include "Connection closed", the `eprintln!` of a receive error, "Joined #…", "Listening for messages...", "Connecting…", "Connected!", the stdin prompt and the writer's send-failure message. A close frame or a receive error only ends the loop. Colouring (`colored`) is not modelled beyond the colour value carried in a record.
- Wall-clock timestamps (`chrono::Local::now`) are not modelled.
- Async execution, WebSocket connect and split, and process exit are not modelled. A failed `expect` becomes a loop that stops with `ok == false`.
- Loading credentials (`load_acc`, `load_twitch_acc_settings`) is not modelled. The connection constructor takes a `Settings` value and a sink instead.
- Token validation and the Python badge scraper are not part of this model.
- Loading the badge catalog (`read_user_from_file`) is not modelled. The catalog is a given sequence of name and URL pairs.
- Concurrent reading and writing is not modelled. The receive and send loops are separate sequential loops.
- The `message_parser` module that `read_chat` imports is not part of this model. The receive loop uses the strict parser of `src/parser.rs` in its place.
- The channel parameter that `TwitchMessage::parse` computes and discards (`_channel`) is not modelled.
- The `parts.is_empty()` branch of `TwitchMessage::parse` is not modelled: it can never be taken, so `Parse` never returns None.
- Connection.Sink.Send: a failed send does not log its frame.
- RustStr.LinesSpec: it states only that no line holds `\n` and bounds the count. The dropping of a `\r` before `\n`, and the keeping of a final bare `\r`, are fixed by the definition of `Lines`. No lemma states them.
- MessageInterface.IsMod, IsSubscriber and IsVip have no contract of their own. `FlagsOfTagValue` states each in both directions, the absent tag included.
- The `!hello` check matches the raw frame text, prefix and tags included, as the source does. It is not restricted to chat text.
