/**
 * The receive loop of `src/twitch/message/reader.rs` (`read_chat`), over an
 * abstract sequence of frames in place of the WebSocket read half. What the
 * loop prints for each chat line is collected as a `Shown` record.
 */
module Reader {
  import opened Wrappers
  import opened RustStr
  import Parser
  import opened Badges

  /** One item the read half yields: a text frame, a close frame, any other frame, or an error. */
  datatype Frame = Text(text: string) | Close | Other | RecvError

  /** What is printed for one chat line: the name in its colour, the text, then the badge URLs. */
  datatype Shown = Shown(name: string, color: string, text: string, badgeUrls: seq<string>)

  const DefaultName := "Guest"
  const DefaultColor := "#555555"

  /** The tag's value, or the default when the tag is absent. */
  function TagOr(tags: map<string, string>, key: string, default: string): string
  {
    if key in tags then tags[key] else default
  }

  /** A frame that ends the loop. */
  predicate Stops(f: Frame)
  {
    f.Close? || f.RecvError?
  }

  /** The record for one line, or nothing when the strict parser rejects it. */
  function ShowLine(line: string, catalog: seq<TwitchBadge>): Option<Shown>
  {
    match Parser.ParseTwitchMessage(line)
    case None => None
    case Some(msg) =>
      Some(Shown(
        TagOr(msg.tags, "display-name", DefaultName),
        TagOr(msg.tags, "color", DefaultColor),
        msg.message,
        ResolveBadges(Parser.UserBadges(msg.tags), catalog)))
  }

  /** The record of one line, as a sequence of at most one element. */
  function LineShown(line: string, catalog: seq<TwitchBadge>): seq<Shown>
  {
    match ShowLine(line, catalog)
    case None => []
    case Some(s) => [s]
  }

  /** The records for a run of lines, in order. */
  function LinesShown(lines: seq<string>, catalog: seq<TwitchBadge>): (r: seq<Shown>)
    ensures |r| <= |lines|
    decreases |lines|
  {
    if lines == [] then []
    else LineShown(lines[0], catalog) + LinesShown(lines[1..], catalog)
  }

  /** What one frame that does not stop the loop prints: the records of its lines, if it is text. */
  function FrameShown(f: Frame, catalog: seq<TwitchBadge>): seq<Shown>
  {
    if f.Text? then LinesShown(Lines(f.text), catalog) else []
  }

  /** What `read_chat` prints for each frame that does not stop its loop. */
  function FramePrinter(catalog: seq<TwitchBadge>): Frame -> seq<Shown>
  {
    f => FrameShown(f, catalog)
  }

  /**
   * What the frame loop prints over the whole frame sequence, given what it
   * prints for one frame: frames in order, up to the first close or error.
   * `read_chat` is the instance `ReaderSpec(frames, FramePrinter(catalog))`.
   */
  function ReaderSpec(frames: seq<Frame>, show: Frame -> seq<Shown>): seq<Shown>
    decreases |frames|
  {
    if frames == [] || Stops(frames[0]) then []
    else show(frames[0]) + ReaderSpec(frames[1..], show)
  }

  /** `read_chat`: the while-let loop over frames, with its loops over lines and badges. */
  method ReadChat(frames: seq<Frame>, catalog: seq<TwitchBadge>) returns (shown: seq<Shown>)
    ensures shown == ReaderSpec(frames, FramePrinter(catalog))
  {
    ghost var show := FramePrinter(catalog);
    shown := [];
    assert frames[0..] == frames;
    var i := 0;
    while i < |frames| && !Stops(frames[i])
      invariant 0 <= i <= |frames|
      invariant shown + ReaderSpec(frames[i..], show) == ReaderSpec(frames, show)
      decreases |frames| - i
    {
      var more := ShowFrame(frames[i], catalog);
      ReadStep(frames, i, show, shown, more);
      shown := shown + more;
      i := i + 1;
    }
    ReadDone(frames, i, show);
  }

  /** The loop invariant of `ReadChat` across one frame. */
  lemma ReadStep(frames: seq<Frame>, i: nat, show: Frame -> seq<Shown>, shown: seq<Shown>, more: seq<Shown>)
    requires i < |frames| && !Stops(frames[i]) && more == show(frames[i])
    requires shown + ReaderSpec(frames[i..], show) == ReaderSpec(frames, show)
    ensures (shown + more) + ReaderSpec(frames[i + 1..], show) == ReaderSpec(frames, show)
  {
    ReaderSpecFrom(frames, i, show);
  }

  /** Nothing is printed from a stop frame or the end of the frames on. */
  lemma ReadDone(frames: seq<Frame>, i: nat, show: Frame -> seq<Shown>)
    requires i <= |frames| && (i == |frames| || Stops(frames[i]))
    ensures ReaderSpec(frames[i..], show) == []
  {
    if i < |frames| {
      assert frames[i..][0] == frames[i];
    } else {
      assert frames[i..] == [];
    }
  }

  /** What the frames from `i` on print, when frame `i` does not stop the loop. */
  lemma ReaderSpecFrom(frames: seq<Frame>, i: nat, show: Frame -> seq<Shown>)
    requires i < |frames| && !Stops(frames[i])
    ensures ReaderSpec(frames[i..], show) == show(frames[i]) + ReaderSpec(frames[i + 1..], show)
  {
    assert frames[i..][0] == frames[i] && frames[i..][1..] == frames[i + 1..];
  }

  /** The body of the frame loop for a frame that does not stop it. */
  method ShowFrame(f: Frame, catalog: seq<TwitchBadge>) returns (more: seq<Shown>)
    ensures more == FrameShown(f, catalog)
  {
    more := [];
    if f.Text? {
      more := ShowLines(Lines(f.text), catalog);
    }
  }

  /** The `for line in text.lines()` loop of `read_chat`. */
  method ShowLines(lines: seq<string>, catalog: seq<TwitchBadge>) returns (shown: seq<Shown>)
    ensures shown == LinesShown(lines, catalog)
  {
    shown := [];
    assert lines[0..] == lines;
    for j := 0 to |lines|
      invariant shown + LinesShown(lines[j..], catalog) == LinesShown(lines, catalog)
    {
      LinesShownFrom(lines, j, catalog);
      var more := ShowOne(lines[j], catalog);
      shown := shown + more;
    }
    assert lines[|lines|..] == [];
  }

  /** The records of the lines from `j` on: the record of line `j`, then those after it. */
  lemma LinesShownFrom(lines: seq<string>, j: nat, catalog: seq<TwitchBadge>)
    requires j < |lines|
    ensures LinesShown(lines[j..], catalog) == LineShown(lines[j], catalog) + LinesShown(lines[j + 1..], catalog)
  {
    assert lines[j..][0] == lines[j] && lines[j..][1..] == lines[j + 1..];
  }

  /** The body of the line loop: parse, then print the name, the text and the badge URLs. */
  method ShowOne(line: string, catalog: seq<TwitchBadge>) returns (more: seq<Shown>)
    ensures more == LineShown(line, catalog)
  {
    more := [];
    var msg := Parser.ParseTwitchMessage(line);
    if msg.Some? {
      var tags := msg.value.tags;
      var urls := BadgeUrls(Parser.UserBadges(tags), catalog);
      var name := if "display-name" in tags then tags["display-name"] else DefaultName;
      var color := if "color" in tags then tags["color"] else DefaultColor;
      more := [Shown(name, color, msg.value.message, urls)];
    }
  }

  /** The loop over the user's badges: each one found in the catalog prints its sized URL. */
  method BadgeUrls(names: seq<string>, catalog: seq<TwitchBadge>) returns (urls: seq<string>)
    ensures urls == ResolveBadges(names, catalog)
  {
    urls := [];
    for k := 0 to |names|
      invariant urls == ResolveBadges(names[..k], catalog)
    {
      assert names[..k + 1][..k] == names[..k];
      var badge := FindBadge(catalog, names[k]);
      if badge.Some? {
        urls := urls + [SizedUrl(badge.value.url)];
      }
    }
    assert names[..|names|] == names;
  }

  /** A close frame or an error ends the loop: nothing after it is ever shown. */
  lemma {:induction false} StopFrameEnds(pre: seq<Frame>, f: Frame, post: seq<Frame>, show: Frame -> seq<Shown>)
    requires Stops(f)
    ensures ReaderSpec(pre + [f] + post, show) == ReaderSpec(pre, show)
    decreases |pre|
  {
    if pre == [] {
      assert (pre + [f] + post)[0] == f;
    } else {
      assert (pre + [f] + post)[1..] == pre[1..] + [f] + post;
      StopFrameEnds(pre[1..], f, post, show);
    }
  }

  /** A frame that is neither text, close nor error is ignored. */
  lemma {:induction false} OtherFrameIgnored(pre: seq<Frame>, post: seq<Frame>, catalog: seq<TwitchBadge>)
    ensures ReaderSpec(pre + [Other] + post, FramePrinter(catalog)) == ReaderSpec(pre + post, FramePrinter(catalog))
    decreases |pre|
  {
    if pre == [] {
      assert (pre + [Other] + post)[1..] == post;
      assert pre + post == post;
    } else {
      assert (pre + [Other] + post)[1..] == pre[1..] + [Other] + post;
      assert (pre + post)[1..] == pre[1..] + post;
      OtherFrameIgnored(pre[1..], post, catalog);
    }
  }

  /** Frames before any close or error are shown in order, followed by what comes after them. */
  lemma {:induction false} ReaderAppend(pre: seq<Frame>, post: seq<Frame>, show: Frame -> seq<Shown>)
    requires forall i :: 0 <= i < |pre| ==> !Stops(pre[i])
    ensures ReaderSpec(pre + post, show) == ReaderSpec(pre, show) + ReaderSpec(post, show)
    decreases |pre|
  {
    if pre == [] {
      assert pre + post == post;
    } else {
      assert forall i :: 0 <= i < |pre[1..]| ==> pre[1..][i] == pre[i + 1];
      ReaderAppend(pre[1..], post, show);
      ReaderCons(pre, post, show);
    }
  }

  /** The step of `ReaderAppend`: a first frame that does not stop the loop. */
  lemma ReaderCons(pre: seq<Frame>, post: seq<Frame>, show: Frame -> seq<Shown>)
    requires pre != [] && !Stops(pre[0])
    requires ReaderSpec(pre[1..] + post, show) == ReaderSpec(pre[1..], show) + ReaderSpec(post, show)
    ensures ReaderSpec(pre + post, show) == ReaderSpec(pre, show) + ReaderSpec(post, show)
  {
    ReaderUnfold(pre + post, show);
    ReaderUnfold(pre, show);
    TailOfAppend(pre, post);
    Associate(show(pre[0]), ReaderSpec(pre[1..], show), ReaderSpec(post, show));
  }

  /** What a sequence of frames prints, when its first frame does not stop the loop. */
  lemma ReaderUnfold(frames: seq<Frame>, show: Frame -> seq<Shown>)
    requires frames != [] && !Stops(frames[0])
    ensures ReaderSpec(frames, show) == show(frames[0]) + ReaderSpec(frames[1..], show)
  {
  }

  /**
   * Dropping the head of a concatenation. A sequence fact, not program
   * behaviour: stated apart so the frame-loop proofs stay small.
   */
  lemma TailOfAppend(a: seq<Frame>, b: seq<Frame>)
    requires a != []
    ensures (a + b)[0] == a[0] && (a + b)[1..] == a[1..] + b
  {
  }

  /**
   * Concatenation of records is associative. A sequence fact, not program
   * behaviour: stated apart so the frame-loop proofs stay small.
   */
  lemma Associate(a: seq<Shown>, b: seq<Shown>, c: seq<Shown>)
    ensures a + (b + c) == (a + b) + c
  {
  }

  /** Lines are handled one by one and independently: the records of two runs concatenate. */
  lemma {:induction false} LinesShownAppend(a: seq<string>, b: seq<string>, catalog: seq<TwitchBadge>)
    ensures LinesShown(a + b, catalog) == LinesShown(a, catalog) + LinesShown(b, catalog)
    decreases |a|
  {
    if a == [] {
      assert a + b == b;
    } else {
      assert (a + b)[0] == a[0] && (a + b)[1..] == a[1..] + b;
      LinesShownAppend(a[1..], b, catalog);
    }
  }

  /** A line the strict parser rejects contributes nothing. */
  lemma RejectedLineSilent(pre: seq<string>, line: string, post: seq<string>, catalog: seq<TwitchBadge>)
    requires Parser.ParseTwitchMessage(line).None?
    ensures LinesShown(pre + [line] + post, catalog) == LinesShown(pre + post, catalog)
  {
    assert LinesShown([line], catalog) == [] by {
      assert [line][..0] == [];
    }
    LinesShownSplit(pre, line, post, catalog);
    LinesShownAppend(pre, post, catalog);
  }

  /** The records of a run around one line are those of its three parts. */
  lemma LinesShownSplit(pre: seq<string>, line: string, post: seq<string>, catalog: seq<TwitchBadge>)
    ensures LinesShown(pre + [line] + post, catalog)
         == LinesShown(pre, catalog) + LinesShown([line], catalog) + LinesShown(post, catalog)
  {
    LinesShownAppend(pre + [line], post, catalog);
    LinesShownAppend(pre, [line], catalog);
  }

  /**
   * A well-formed tagged chat line is shown with its display name and colour
   * (or the defaults), its full text and the URLs of its catalogued badges.
   */
  lemma ShowChatLine(tagText: string, prefix: string, channel: string, text: string, catalog: seq<TwitchBadge>)
    requires NoWhitespace(tagText) && (tagText == [] || tagText[0] != '@')
    requires NoWhitespace(prefix) && (prefix == [] || prefix[0] != ':')
    requires NoWhitespace(channel)
    requires !Contains(text, " :") && (text == [] || !IsWhitespace(text[|text| - 1]))
    ensures var tags := Parser.TagMap(Split(tagText, ';'));
      ShowLine(Parser.TaggedChatLine(tagText, prefix, channel, text), catalog)
      == Some(Shown(TagOr(tags, "display-name", DefaultName), TagOr(tags, "color", DefaultColor), text,
                    ResolveBadges(Parser.UserBadges(tags), catalog)))
  {
    Parser.ParseChatLine(tagText, prefix, channel, text);
  }
}
