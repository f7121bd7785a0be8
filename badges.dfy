/**
 * Badge resolution as `read_chat` and `main` do it: each badge name is looked
 * up in the catalog (the first entry with that name wins), names without an
 * entry are skipped, and the `{SIZE}` placeholder of the URL becomes "3".
 */
module Badges {
  import opened Wrappers
  import opened RustStr

  /** One catalog entry: a badge name and its URL template. */
  datatype TwitchBadge = TwitchBadge(name: string, url: string)

  const Placeholder := "{SIZE}"
  const RequestedSize := "3"

  /** `twitch_badges.iter().find(|tb| &tb.name == name)`: the first entry with that name. */
  function FindBadge(catalog: seq<TwitchBadge>, name: string): (r: Option<TwitchBadge>)
    ensures r.None? <==> forall i :: 0 <= i < |catalog| ==> catalog[i].name != name
    ensures r.Some? ==> r.value in catalog && r.value.name == name
    decreases |catalog|
  {
    if catalog == [] then None
    else if catalog[0].name == name then Some(catalog[0])
    else
      assert forall i :: 0 < i < |catalog| ==> catalog[i] == catalog[1..][i - 1];
      FindBadge(catalog[1..], name)
  }

  /** Of several entries with the same name, the first one is found. */
  lemma {:induction false} FindBadgeFirst(catalog: seq<TwitchBadge>, i: nat)
    requires i < |catalog|
    requires forall j :: 0 <= j < i ==> catalog[j].name != catalog[i].name
    ensures FindBadge(catalog, catalog[i].name) == Some(catalog[i])
    decreases i
  {
    if i > 0 {
      assert catalog[0].name != catalog[i].name;
      assert forall j :: 0 <= j < i - 1 ==> catalog[1..][j] == catalog[j + 1];
      FindBadgeFirst(catalog[1..], i - 1);
    }
  }

  /** `url.replace("{SIZE}", "3")`. */
  function SizedUrl(url: string): string
  {
    Replace(url, Placeholder, RequestedSize)
  }

  /** The URLs of the badges that have a catalog entry, in badge order. */
  function ResolveBadges(names: seq<string>, catalog: seq<TwitchBadge>): (urls: seq<string>)
    ensures |urls| <= |names|
    decreases |names|
  {
    if names == [] then []
    else
      var n := |names| - 1;
      ResolveBadges(names[..n], catalog)
      + match FindBadge(catalog, names[n])
        case None => []
        case Some(b) => [SizedUrl(b.url)]
  }

  /** Resolution works badge by badge: it distributes over concatenation. */
  lemma {:induction false} ResolveAppend(a: seq<string>, b: seq<string>, catalog: seq<TwitchBadge>)
    ensures ResolveBadges(a + b, catalog) == ResolveBadges(a, catalog) + ResolveBadges(b, catalog)
    decreases |b|
  {
    if b != [] {
      var n := |b| - 1;
      assert (a + b)[..|a + b| - 1] == a + b[..n];
      ResolveAppend(a, b[..n], catalog);
    } else {
      assert a + b == a;
    }
  }

  /** A badge name missing from the catalog is skipped silently. */
  lemma SkipsUnknown(pre: seq<string>, name: string, post: seq<string>, catalog: seq<TwitchBadge>)
    requires forall i :: 0 <= i < |catalog| ==> catalog[i].name != name
    ensures ResolveBadges(pre + [name] + post, catalog) == ResolveBadges(pre + post, catalog)
  {
    assert ResolveBadges([name], catalog) == [] by {
      assert FindBadge(catalog, name).None?;
      assert [name][..0] == [];
    }
    ResolveSplit(pre, name, post, catalog);
    ResolveAppend(pre, post, catalog);
  }

  /** Resolution of a sequence around one name is the resolution of its three parts. */
  lemma ResolveSplit(pre: seq<string>, name: string, post: seq<string>, catalog: seq<TwitchBadge>)
    ensures ResolveBadges(pre + [name] + post, catalog)
         == ResolveBadges(pre, catalog) + ResolveBadges([name], catalog) + ResolveBadges(post, catalog)
  {
    ResolveAppend(pre + [name], post, catalog);
    ResolveAppend(pre, [name], catalog);
  }

  /**
   * When every name has an entry, there is one URL per name, in order, each
   * taken from the first entry with that name.
   */
  lemma {:induction false} ResolveKnown(names: seq<string>, catalog: seq<TwitchBadge>)
    requires forall name :: name in names ==> FindBadge(catalog, name).Some?
    ensures |ResolveBadges(names, catalog)| == |names|
    ensures forall i :: 0 <= i < |names| ==>
      ResolveBadges(names, catalog)[i] == SizedUrl(FindBadge(catalog, names[i]).value.url)
    decreases |names|
  {
    if names != [] {
      var n := |names| - 1;
      var init := names[..n];
      assert forall name :: name in init ==> name in names;
      ResolveKnown(init, catalog);
      ResolveLast(names, catalog);
      KnownElements(names, catalog);
    }
  }

  /** The inductive step of `ResolveKnown`: one URL per name once the last one is added. */
  lemma KnownElements(names: seq<string>, catalog: seq<TwitchBadge>)
    requires names != [] && forall name :: name in names ==> FindBadge(catalog, name).Some?
    requires var init := names[..|names| - 1];
      |ResolveBadges(init, catalog)| == |init|
      && forall i :: 0 <= i < |init| ==>
        ResolveBadges(init, catalog)[i] == SizedUrl(FindBadge(catalog, init[i]).value.url)
    requires ResolveBadges(names, catalog)
          == ResolveBadges(names[..|names| - 1], catalog) + [SizedUrl(FindBadge(catalog, names[|names| - 1]).value.url)]
    ensures |ResolveBadges(names, catalog)| == |names|
    ensures forall i :: 0 <= i < |names| ==>
      ResolveBadges(names, catalog)[i] == SizedUrl(FindBadge(catalog, names[i]).value.url)
  {
    var n := |names| - 1;
    var init := names[..n];
    var urls := ResolveBadges(init, catalog);
    var r := ResolveBadges(names, catalog);
    forall i | 0 <= i < |names|
      ensures r[i] == SizedUrl(FindBadge(catalog, names[i]).value.url)
    {
      if i < n {
        assert r[i] == urls[i] && init[i] == names[i];
      }
    }
  }

  /** The last badge contributes its URL, if it has an entry, after the others. */
  lemma ResolveLast(names: seq<string>, catalog: seq<TwitchBadge>)
    requires names != [] && FindBadge(catalog, names[|names| - 1]).Some?
    ensures ResolveBadges(names, catalog)
         == ResolveBadges(names[..|names| - 1], catalog) + [SizedUrl(FindBadge(catalog, names[|names| - 1]).value.url)]
  {
  }

  /** A replacement never starts a `{SIZE}` match, so a prefix free of "3" comes from the input. */
  lemma {:induction false} ReplacedPrefix(s: string, p: string)
    ensures '3' !in p && p <= SizedUrl(s) ==> p <= s
    decreases |p|
  {
    if p != [] && |s| >= |Placeholder| {
      if s[..|Placeholder|] == Placeholder {
        assert SizedUrl(s)[0] == '3';
      } else {
        assert SizedUrl(s) == [s[0]] + SizedUrl(s[1..]);
        ReplacedPrefix(s[1..], p[1..]);
      }
    }
  }

  /** No `{SIZE}` placeholder is left in a resolved URL. */
  lemma {:induction false} NoPlaceholderLeft(url: string)
    ensures !Contains(SizedUrl(url), Placeholder)
    decreases |url|
  {
    var r := SizedUrl(url);
    if |url| < |Placeholder| {
      assert forall j: nat :: !OccursAt(r, Placeholder, j);
    } else if url[..|Placeholder|] == Placeholder {
      NoPlaceholderLeft(url[|Placeholder|..]);
      assert r == "3" + SizedUrl(url[|Placeholder|..]);
      assert r[0] == '3';
      FreeAfterHead(r);
    } else {
      NoPlaceholderLeft(url[1..]);
      assert r == [url[0]] + SizedUrl(url[1..]);
      NoPlaceholderAtFront(url);
      FreeAfterHead(r);
    }
  }

  /** A string free of the placeholder after its first character and not starting one is free of it. */
  lemma FreeAfterHead(r: string)
    requires r != [] && !Contains(r[1..], Placeholder) && !OccursAt(r, Placeholder, 0)
    ensures !Contains(r, Placeholder)
  {
    forall j: nat ensures !OccursAt(r, Placeholder, j) {
      if 0 < j && j + |Placeholder| <= |r| {
        SliceOfTail(r, j, j + |Placeholder|);
        assert !OccursAt(r[1..], Placeholder, j - 1);
      }
    }
  }

  /** A URL not starting with the placeholder does not yield one at its front. */
  lemma NoPlaceholderAtFront(url: string)
    requires |url| >= |Placeholder| && url[..|Placeholder|] != Placeholder
    ensures !OccursAt(SizedUrl(url), Placeholder, 0)
  {
    var r := SizedUrl(url);
    var rest := SizedUrl(url[1..]);
    assert r == [url[0]] + rest;
    if |r| >= |Placeholder| && r[1..|Placeholder|] == Placeholder[1..] {
      var tail := Placeholder[1..];
      assert rest[..|tail|] == tail;
      ReplacedPrefix(url[1..], tail);
      assert url[..|Placeholder|] == [url[0]] + url[1..][..|tail|];
    }
  }

  /** A URL without the placeholder is used unchanged. */
  lemma {:induction false} SizedUrlUnchanged(url: string)
    requires !Contains(url, Placeholder)
    ensures SizedUrl(url) == url
    decreases |url|
  {
    if |url| >= |Placeholder| {
      assert !OccursAt(url, Placeholder, 0);
      assert !Contains(url[1..], Placeholder) by {
        forall j: nat ensures !OccursAt(url[1..], Placeholder, j) {
          if j + 1 + |Placeholder| <= |url| {
            SliceOfTail(url, j + 1, j + 1 + |Placeholder|);
            assert !OccursAt(url, Placeholder, j + 1);
          }
        }
      }
      SizedUrlUnchanged(url[1..]);
    }
  }

  /**
   * The first `{SIZE}` of a URL becomes "3", and replacing goes on after it:
   * the text before it, when free of the placeholder, is kept as it is.
   */
  lemma {:induction false} SizedUrlReplaces(a: string, b: string)
    requires !Contains(a, Placeholder)
    ensures SizedUrl(a + Placeholder + b) == a + RequestedSize + SizedUrl(b)
    decreases |a|
  {
    var s := a + Placeholder + b;
    if a == [] {
      assert s == Placeholder + b && s[..|Placeholder|] == Placeholder && s[|Placeholder|..] == b;
    } else {
      assert s[..|Placeholder|] != Placeholder by {
        if |a| >= |Placeholder| {
          assert !OccursAt(a, Placeholder, 0);
          assert a[..|Placeholder|] == s[..|Placeholder|];
        } else {
          // the placeholder's own '{' lands where "{SIZE}" has no brace
          assert s[..|Placeholder|][|a|] == '{' != Placeholder[|a|];
        }
      }
      assert !Contains(a[1..], Placeholder) by {
        forall j: nat ensures !OccursAt(a[1..], Placeholder, j) {
          if j + 1 + |Placeholder| <= |a| {
            SliceOfTail(a, j + 1, j + 1 + |Placeholder|);
            assert !OccursAt(a, Placeholder, j + 1);
          }
        }
      }
      assert s[1..] == a[1..] + Placeholder + b;
      SizedUrlReplaces(a[1..], b);
    }
  }

  /** A slice of `s[1..]` is the slice of `s` one position further on. */
  lemma SliceOfTail(s: string, a: nat, b: nat)
    requires 1 <= a <= b <= |s|
    ensures s[1..][a - 1..b - 1] == s[a..b]
  {
    assert forall k :: a <= k < b ==> s[1..][k - 1] == s[k];
  }
}
