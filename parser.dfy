/**
 * The strict line parser of `src/parser.rs`: it accepts only tagged PRIVMSG
 * lines, keeps every tag entry (an entry without `=` gets an empty value),
 * and takes the chat text after the LAST `" :"` of the line. Also the
 * extraction of badge names from the `badges` tag.
 */
module Parser {
  import opened Wrappers
  import opened RustStr

  /** One decoded chat line; the prefix and channel are kept as found. */
  datatype TwitchMessage = TwitchMessage(
    tags: map<string, string>,
    prefix: string,
    command: string,
    channel: string,
    message: string)

  /** The key of a tag entry: everything before its first `=`. */
  function TagKey(entry: string): string
  {
    Before(entry, '=')
  }

  /** The value of a tag entry: everything after its first `=`, or "" without one. */
  function TagValue(entry: string): string
  {
    match Find(entry, '=')
    case None => ""
    case Some(i) => entry[i + 1..]
  }

  /**
   * An entry with `=` is its key, `=`, then its value; the key holds no `=`;
   * an entry without `=` is all key, with an empty value.
   */
  lemma TagEntryParts(entry: string)
    ensures '=' !in TagKey(entry) && TagKey(entry) <= entry
    ensures '=' in entry ==> entry == TagKey(entry) + "=" + TagValue(entry)
    ensures '=' !in entry ==> TagKey(entry) == entry && TagValue(entry) == ""
  {
    match Find(entry, '=')
    case None =>
    case Some(i) =>
      assert entry == entry[..i] + "=" + entry[i + 1..];
  }

  /** The tag map built from the `;`-separated entries, in order: a later key overwrites. */
  function TagMap(entries: seq<string>): map<string, string>
    decreases |entries|
  {
    if entries == [] then map[]
    else
      var last := entries[|entries| - 1];
      TagMap(entries[..|entries| - 1])[TagKey(last) := TagValue(last)]
  }

  /** Every entry contributes its key. */
  lemma {:induction false} TagMapHasKeys(entries: seq<string>)
    ensures forall i :: 0 <= i < |entries| ==> TagKey(entries[i]) in TagMap(entries)
    decreases |entries|
  {
    if entries != [] {
      var n := |entries| - 1;
      var init := entries[..n];
      TagMapHasKeys(init);
      assert TagMap(entries) == TagMap(init)[TagKey(entries[n]) := TagValue(entries[n])];
      forall i | 0 <= i < n ensures TagKey(entries[i]) in TagMap(entries) {
        assert init[i] == entries[i];
      }
    }
  }

  /** Only entries contribute keys. */
  lemma {:induction false} TagMapKeysFrom(entries: seq<string>)
    ensures forall k :: k in TagMap(entries) ==> exists i :: 0 <= i < |entries| && TagKey(entries[i]) == k
    decreases |entries|
  {
    if entries != [] {
      var n := |entries| - 1;
      var init := entries[..n];
      TagMapKeysFrom(init);
      forall k | k in TagMap(entries)
        ensures exists i :: 0 <= i < |entries| && TagKey(entries[i]) == k
      {
        if k != TagKey(entries[n]) {
          assert k in TagMap(init);
          var i :| 0 <= i < n && TagKey(init[i]) == k;
          assert init[i] == entries[i];
        }
      }
    }
  }

  /** A key maps to the value of the last entry that carries it. */
  lemma {:induction false} TagMapLastWins(entries: seq<string>, i: nat)
    requires i < |entries|
    requires forall j :: i < j < |entries| ==> TagKey(entries[j]) != TagKey(entries[i])
    ensures TagKey(entries[i]) in TagMap(entries)
    ensures TagMap(entries)[TagKey(entries[i])] == TagValue(entries[i])
    decreases |entries|
  {
    var n := |entries| - 1;
    var init, last := entries[..n], entries[n];
    var k := TagKey(entries[i]);
    var m := TagMap(init)[TagKey(last) := TagValue(last)];
    assert TagMap(entries) == m;
    if i < n {
      assert TagKey(last) != k;
      assert init[i] == entries[i];
      assert forall j :: i < j < n ==> init[j] == entries[j];
      TagMapLastWins(init, i);
      assert k in TagMap(init) && m[k] == TagMap(init)[k];
    } else {
      assert m[k] == TagValue(entries[i]);
    }
  }

  /** The chat text: what follows the last `" :"` of the line, or "" without one. */
  function TrailingText(line: string): (text: string)
    ensures !Contains(text, " :")
  {
    match RFind(line, " :")
    case None => ""
    case Some(p) =>
      var text := line[p + 2..];
      assert !Contains(text, " :") by {
        if Contains(text, " :") {
          var j: nat :| OccursAt(text, " :", j);
          OccursInSuffix(line, p + 2, " :", j);
        }
      }
      text
  }

  /**
   * Without a `" :"` the chat text is empty; otherwise it is everything after
   * the last `" :"` of the line.
   */
  lemma TrailingTextSpec(line: string)
    ensures (forall j: nat :: !OccursAt(line, " :", j)) ==> TrailingText(line) == ""
    ensures (exists j: nat :: OccursAt(line, " :", j)) ==>
      exists p: nat :: OccursAt(line, " :", p) && TrailingText(line) == line[p + 2..]
        && forall j: nat :: p < j ==> !OccursAt(line, " :", j)
  {
    match RFind(line, " :")
    case None =>
    case Some(p) =>
      assert OccursAt(line, " :", p) && TrailingText(line) == line[p + 2..];
  }

  /** An occurrence in a suffix is an occurrence in the whole string. */
  lemma OccursInSuffix(s: string, k: nat, pat: string, j: nat)
    requires k <= |s| && OccursAt(s[k..], pat, j)
    ensures OccursAt(s, pat, k + j)
  {
    assert s[k + j..k + j + |pat|] == s[k..][j..j + |pat|];
  }

  /** Text after a final `" :"` is taken whole when it holds no `" :"` itself. */
  lemma TrailingTextAfter(line: string, p: nat, text: string)
    requires OccursAt(line, " :", p) && line[p + 2..] == text
    requires !Contains(text, " :")
    ensures TrailingText(line) == text
  {
    assert line[p + 1] == line[p..p + 2][1] == ':';
    forall j: nat | p < j ensures !OccursAt(line, " :", j) {
      if j == p + 1 {
        assert j + 2 > |line| || line[j..j + 2][0] == ':';
      } else if j + 2 <= |line| {
        var k: nat := j - p - 2;
        assert line[j..j + 2] == text[k..k + 2];
        assert !OccursAt(text, " :", k);
      }
    }
  }

  /** `parse_twitch_message`. */
  function ParseTwitchMessage(raw: string): (r: Option<TwitchMessage>)
    ensures r.Some? ==> r.value.command == "PRIVMSG"
    ensures r.Some? ==> Trim(raw) != [] && Trim(raw)[0] == '@'
    ensures r.Some? ==> !Contains(r.value.message, " :")
  {
    var line := Trim(raw);
    if !(line != [] && line[0] == '@') then None
    else
      var parts := SplitWhitespace(line);
      if |parts| < 2 then None
      else
        var tags := TagMap(Split(TrimStartMatches(parts[0], '@'), ';'));
        var prefix := TrimStartMatches(parts[1], ':');
        if |parts| < 3 || parts[2] != "PRIVMSG" then None
        else if |parts| < 4 then None
        else Some(TwitchMessage(tags, prefix, parts[2], parts[3], TrailingText(line)))
  }

  /**
   * A line is accepted exactly when, once trimmed, it starts with `@` and has
   * at least four tokens, the third being `PRIVMSG`; the channel is the
   * fourth token as found and the text is what follows the last `" :"`.
   * Surrounding whitespace never changes the result.
   */
  lemma ParseAccepts(raw: string)
    ensures var line := Trim(raw); var parts := SplitWhitespace(line);
      ParseTwitchMessage(raw).Some? <==> line != [] && line[0] == '@' && |parts| >= 4 && parts[2] == "PRIVMSG"
    ensures var line := Trim(raw); var parts := SplitWhitespace(line);
      ParseTwitchMessage(raw).Some? ==>
        ParseTwitchMessage(raw).value.channel == parts[3] && ParseTwitchMessage(raw).value.message == TrailingText(line)
    ensures ParseTwitchMessage(raw) == ParseTwitchMessage(Trim(raw))
  {
    TrimIdempotent(raw);
  }

  /** The line shape the server sends for a chat post, with its pieces. */
  function TaggedChatLine(tagText: string, prefix: string, channel: string, text: string): string
  {
    ("@" + tagText) + " " + ((":" + prefix) + " " + ("PRIVMSG" + " " + (("#" + channel) + " " + (":" + text))))
  }

  /**
   * A well-formed tagged chat line parses back into its pieces, provided the
   * chat text itself holds no `" :"` and does not end in whitespace.
   */
  lemma ParseChatLine(tagText: string, prefix: string, channel: string, text: string)
    requires NoWhitespace(tagText) && (tagText == [] || tagText[0] != '@')
    requires NoWhitespace(prefix) && (prefix == [] || prefix[0] != ':')
    requires NoWhitespace(channel)
    requires !Contains(text, " :") && (text == [] || !IsWhitespace(text[|text| - 1]))
    ensures ParseTwitchMessage(TaggedChatLine(tagText, prefix, channel, text))
         == Some(TwitchMessage(TagMap(Split(tagText, ';')), prefix, "PRIVMSG", "#" + channel, text))
  {
    var line := TaggedChatLine(tagText, prefix, channel, text);
    ChatLineTrimmed(tagText, prefix, channel, text);
    ChatLineParts(tagText, prefix, channel, text);
    ChatLineText(tagText, prefix, channel, text);
    ParseOfFields(line, "@" + tagText, ":" + prefix, "#" + channel, text);
    TrimStartMatchesOne('@', tagText);
    TrimStartMatchesOne(':', prefix);
  }

  /**
   * What the parser returns for any raw line, once its trimmed form's first
   * four tokens and trailing text are known.
   */
  lemma ParseOfFields(raw: string, t0: string, t1: string, t3: string, text: string)
    requires Trim(raw) != [] && Trim(raw)[0] == '@'
    requires var parts := SplitWhitespace(Trim(raw)); |parts| >= 4 && parts[..4] == [t0, t1, "PRIVMSG", t3]
    requires TrailingText(Trim(raw)) == text
    ensures ParseTwitchMessage(raw)
         == Some(TwitchMessage(TagMap(Split(TrimStartMatches(t0, '@'), ';')), TrimStartMatches(t1, ':'), "PRIVMSG", t3, text))
  {
    var parts := SplitWhitespace(Trim(raw));
    assert parts[0] == t0 && parts[1] == t1 && parts[2] == "PRIVMSG" && parts[3] == t3;
  }

  lemma ChatLineTrimmed(tagText: string, prefix: string, channel: string, text: string)
    requires text == [] || !IsWhitespace(text[|text| - 1])
    ensures Trim(TaggedChatLine(tagText, prefix, channel, text)) == TaggedChatLine(tagText, prefix, channel, text)
  {
    var line := TaggedChatLine(tagText, prefix, channel, text);
    assert line[0] == '@';
    assert text != [] ==> line[|line| - 1] == text[|text| - 1];
    assert text == [] ==> line[|line| - 1] == ':';
    TrimOfTrimmed(line);
  }

  lemma ChatLineParts(tagText: string, prefix: string, channel: string, text: string)
    requires NoWhitespace(tagText) && NoWhitespace(prefix) && NoWhitespace(channel)
    ensures var parts := SplitWhitespace(TaggedChatLine(tagText, prefix, channel, text));
      |parts| >= 4 && parts[..4] == ["@" + tagText, ":" + prefix, "PRIVMSG", "#" + channel]
  {
    var t0, t1, t3 := "@" + tagText, ":" + prefix, "#" + channel;
    assert NoWhitespace(t0) by { assert forall i :: 0 < i < |t0| ==> t0[i] == tagText[i - 1]; }
    assert NoWhitespace(t1) by { assert forall i :: 0 < i < |t1| ==> t1[i] == prefix[i - 1]; }
    assert NoWhitespace(t3) by { assert forall i :: 0 < i < |t3| ==> t3[i] == channel[i - 1]; }
    ChatLineTokens(t0, t1, "PRIVMSG", t3, ":" + text);
  }

  lemma ChatLineText(tagText: string, prefix: string, channel: string, text: string)
    requires !Contains(text, " :")
    ensures TrailingText(TaggedChatLine(tagText, prefix, channel, text)) == text
  {
    var line := TaggedChatLine(tagText, prefix, channel, text);
    var p := |line| - |text| - 2;
    assert line[p..p + 2] == " :" && line[p + 2..] == text;
    TrailingTextAfter(line, p, text);
  }

  /** The first four tokens of a chat line are its four leading fields. */
  lemma ChatLineTokens(t0: string, t1: string, t2: string, t3: string, rest: string)
    requires t0 != [] && NoWhitespace(t0) && t1 != [] && NoWhitespace(t1)
    requires t2 != [] && NoWhitespace(t2) && t3 != [] && NoWhitespace(t3)
    ensures var parts := SplitWhitespace(t0 + " " + (t1 + " " + (t2 + " " + (t3 + " " + rest))));
      |parts| >= 4 && parts[..4] == [t0, t1, t2, t3]
  {
    var r := t2 + " " + (t3 + " " + rest);
    var p := SplitWhitespace(rest);
    TwoTokens(t2, t3, rest);
    TwoTokens(t0, t1, r);
    assert [t0, t1] + ([t2, t3] + p) == [t0, t1, t2, t3] + p;
  }

  /** Two tokens, each followed by a space, are the first two tokens. */
  lemma TwoTokens(a: string, b: string, rest: string)
    requires a != [] && NoWhitespace(a) && b != [] && NoWhitespace(b)
    ensures SplitWhitespace(a + " " + (b + " " + rest)) == [a, b] + SplitWhitespace(rest)
  {
    TokenThenSpace(b, rest);
    TokenThenSpace(a, b + " " + rest);
  }

  /** A token followed by a space is the first token; the space is skipped. */
  lemma TokenThenSpace(a: string, rest: string)
    requires a != [] && NoWhitespace(a)
    ensures SplitWhitespace(a + " " + rest) == [a] + SplitWhitespace(rest)
  {
    assert a + " " + rest == a + ([' '] + rest);
    SplitWhitespaceToken(a, [' '] + rest);
    SplitWhitespaceLeading(' ', rest);
  }

  /** The badge names in order: the part before `/` of each entry that has one. */
  function BadgeNames(entries: seq<string>): seq<string>
    decreases |entries|
  {
    if entries == [] then []
    else
      var first := match Find(entries[0], '/')
        case Some(p) => [entries[0][..p]]
        case None => [];
      first + BadgeNames(entries[1..])
  }

  /** There are no more names than entries; each name is a `/`-free prefix of an entry. */
  lemma {:induction false} BadgeNamesSpec(entries: seq<string>)
    ensures |BadgeNames(entries)| <= |entries|
    ensures forall i :: 0 <= i < |BadgeNames(entries)| ==>
      '/' !in BadgeNames(entries)[i] && exists j :: 0 <= j < |entries| && BadgeNames(entries)[i] <= entries[j]
    decreases |entries|
  {
    if entries != [] {
      BadgeNamesSpec(entries[1..]);
      var first := match Find(entries[0], '/')
        case Some(p) => [entries[0][..p]]
        case None => [];
      var rest := BadgeNames(entries[1..]);
      var names := BadgeNames(entries);
      assert names == first + rest;
      forall i | 0 <= i < |names|
        ensures '/' !in names[i] && exists j :: 0 <= j < |entries| && names[i] <= entries[j]
      {
        if i < |first| {
          assert names[i] <= entries[0];
        } else {
          assert names[i] == rest[i - |first|];
          var j :| 0 <= j < |entries[1..]| && rest[i - |first|] <= entries[1..][j];
          assert names[i] <= entries[j + 1];
        }
      }
    }
  }

  /** Entries are read one by one, in order: the names of two runs of entries concatenate. */
  lemma {:induction false} BadgeNamesAppend(a: seq<string>, b: seq<string>)
    ensures BadgeNames(a + b) == BadgeNames(a) + BadgeNames(b)
    decreases |a|
  {
    if a == [] {
      assert a + b == b;
    } else {
      assert (a + b)[0] == a[0] && (a + b)[1..] == a[1..] + b;
      BadgeNamesAppend(a[1..], b);
    }
  }

  /** One entry yields the part before its first `/`, or nothing when it has no `/`. */
  lemma BadgeNamesOne(entry: string)
    ensures BadgeNames([entry]) == if '/' in entry then [Before(entry, '/')] else []
  {
    assert [entry][1..] == [];
  }

  /** An entry without `/` is dropped: the names are those of the other entries. */
  lemma EntryWithoutSlashDropped(pre: seq<string>, entry: string, post: seq<string>)
    requires '/' !in entry
    ensures BadgeNames(pre + [entry] + post) == BadgeNames(pre + post)
  {
    BadgeNamesAppend(pre + [entry], post);
    BadgeNamesAppend(pre, [entry]);
    BadgeNamesAppend(pre, post);
    BadgeNamesOne(entry);
  }

  /** `user_badges`: the badge names listed in the `badges` tag. */
  function UserBadges(tags: map<string, string>): seq<string>
  {
    BadgeNames(Split(if "badges" in tags then tags["badges"] else "", ','))
  }

  /**
   * Without a `badges` tag there are no badges; otherwise there are at most
   * as many names as comma-separated entries, and no name holds `,` or `/`.
   */
  lemma UserBadgesSpec(tags: map<string, string>)
    ensures "badges" !in tags ==> UserBadges(tags) == []
    ensures "badges" in tags ==> |UserBadges(tags)| <= |Split(tags["badges"], ',')|
    ensures forall i :: 0 <= i < |UserBadges(tags)| ==> ',' !in UserBadges(tags)[i] && '/' !in UserBadges(tags)[i]
  {
    var entries := Split(if "badges" in tags then tags["badges"] else "", ',');
    var names := BadgeNames(entries);
    BadgeNamesSpec(entries);
    forall i | 0 <= i < |names| ensures ',' !in names[i] {
      var j :| 0 <= j < |entries| && names[i] <= entries[j];
      assert ',' !in entries[j];
    }
  }

  /** The `badges` tag value for the given names and versions. */
  function BadgeTag(names: seq<string>, versions: seq<string>): string
    requires |names| == |versions| >= 1
  {
    Join(seq(|names|, i requires 0 <= i < |names| => names[i] + "/" + versions[i]), ',')
  }

  /** Badge names written as `name/version` entries are read back in order. */
  lemma UserBadgesOfTag(tags: map<string, string>, names: seq<string>, versions: seq<string>)
    requires |names| == |versions| >= 1
    requires forall i :: 0 <= i < |names| ==> ',' !in names[i] && '/' !in names[i]
    requires forall i :: 0 <= i < |versions| ==> ',' !in versions[i]
    requires "badges" in tags && tags["badges"] == BadgeTag(names, versions)
    ensures UserBadges(tags) == names
  {
    var entries := seq(|names|, i requires 0 <= i < |names| => names[i] + "/" + versions[i]);
    SplitJoin(entries, ',');
    BadgeNamesOfEntries(names, versions, entries);
  }

  lemma {:induction false} BadgeNamesOfEntries(names: seq<string>, versions: seq<string>, entries: seq<string>)
    requires |names| == |versions| == |entries|
    requires forall i :: 0 <= i < |names| ==> '/' !in names[i] && entries[i] == names[i] + "/" + versions[i]
    ensures BadgeNames(entries) == names
    decreases |names|
  {
    if names != [] {
      FindAfter(names[0], '/', versions[0]);
      assert entries[0] == names[0] + ['/'] + versions[0];
      assert entries[0][..|names[0]|] == names[0];
      BadgeNamesOfEntries(names[1..], versions[1..], entries[1..]);
    }
  }

  /** An empty `badges` tag yields no names, just like a missing one. */
  lemma EmptyBadgeTag(tags: map<string, string>)
    requires "badges" in tags && tags["badges"] == ""
    ensures UserBadges(tags) == []
  {
    assert Split("", ',') == [""];
    assert Find("", '/') == None && [""][1..] == [];
  }
}
