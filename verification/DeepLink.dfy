/** `parse_viscos_url`: the `viscos://` deep-link parser. */
module DeepLink {
  import opened Common
  import opened Text

  datatype Action =
    | OpenChannel(guildId: Option<nat>, channelId: nat)
    | OpenInvite(code: string)
    | OpenPlugin(id: string)
    | Unknown(url: string)

  const SCHEME := "viscos://"
  const SLASH := OneOf({'/'})

  function NonEmpty(pieces: seq<string>): seq<string> {
    if pieces == [] then []
    else if pieces[0] == [] then NonEmpty(pieces[1..])
    else [pieces[0]] + NonEmpty(pieces[1..])
  }

  /** The path segments of a URL after its scheme. */
  function Segments(path: string): seq<string> { NonEmpty(Split(path, SLASH)) }

  /** The decision on the segments; `url` is only kept for unknown links. */
  function Decide(url: string, parts: seq<string>): Option<Action> {
    if parts != [] && parts[0] == "channel" then
      if |parts| == 1 then None
      else if |parts| == 2 then
        (match ParseUnsigned(parts[1], U64_MAX)
         case Some(c) => Some(OpenChannel(None, c))
         case None => None)
      else if |parts| == 3 then
        (match (ParseUnsigned(parts[1], U64_MAX), ParseUnsigned(parts[2], U64_MAX))
         case (Some(g), Some(c)) => Some(OpenChannel(Some(g), c))
         case _ => None)
      else Some(Unknown(url))
    else if |parts| == 2 && parts[0] == "invite" then Some(OpenInvite(parts[1]))
    else if |parts| == 2 && parts[0] == "plugin" then Some(OpenPlugin(parts[1]))
    else if url == "viscos://" || url == "viscos:" then None
    else Some(Unknown(url))
  }

  function Parse(url: string): Option<Action> {
    if SCHEME <= url then Decide(url, Segments(url[|SCHEME|..])) else None
  }

  // ----------------------------------------------------------- printed links

  /** The actions that have a link. */
  predicate Linkable(a: Action) {
    match a
    case OpenChannel(g, c) => c <= U64_MAX && (g.Some? ==> g.value <= U64_MAX)
    case OpenInvite(code) => code != [] && Clean(code, SLASH)
    case OpenPlugin(id) => id != [] && Clean(id, SLASH)
    case Unknown(_) => false
  }

  function LinkSegments(a: Action): seq<string>
    requires !a.Unknown?
  {
    match a
    case OpenChannel(None, c) => ["channel", Decimal(c)]
    case OpenChannel(Some(g), c) => ["channel", Decimal(g), Decimal(c)]
    case OpenInvite(code) => ["invite", code]
    case OpenPlugin(id) => ["plugin", id]
  }

  /** Segments joined by runs of slashes: `gaps[i]` extra ones before segment `i`. */
  function Join(parts: seq<string>, gaps: seq<nat>, trailing: nat): string
    requires |gaps| == |parts|
  {
    if parts == [] then Slashes(trailing)
    else Slashes(gaps[0]) + (parts[0] + (if |parts| == 1 then [] else "/") + Join(parts[1..], gaps[1..], trailing))
  }

  function Slashes(n: nat): string { seq(n, _ => '/') }

  function Print(a: Action): string
    requires !a.Unknown?
  {
    SCHEME + Join(LinkSegments(a), seq(|LinkSegments(a)|, _ => 0), 0)
  }

  // ---------------------------------------------------------------- proofs

  ghost predicate Proper(parts: seq<string>) {
    forall k :: 0 <= k < |parts| ==> parts[k] != [] && Clean(parts[k], SLASH)
  }

  lemma SkipSlash(s: string)
    ensures Segments("/" + s) == Segments(s)
  {
    assert "/" + s == [] + ['/'] + s;
    SplitAt([], '/', s, SLASH);
    var pieces := [[]] + Split(s, SLASH);
    assert pieces[1..] == Split(s, SLASH);
  }

  lemma {:induction false} SkipSlashes(n: nat, s: string)
    ensures Segments(Slashes(n) + s) == Segments(s)
  {
    if n == 0 {
      assert Slashes(n) + s == s;
    } else {
      assert Slashes(n) + s == "/" + (Slashes(n - 1) + s);
      SkipSlash(Slashes(n - 1) + s);
      SkipSlashes(n - 1, s);
    }
  }

  lemma TakeSegment(part: string, s: string)
    requires part != [] && Clean(part, SLASH)
    ensures Segments(part + "/" + s) == [part] + Segments(s)
    ensures Segments(part) == [part]
  {
    SplitAt(part, '/', s, SLASH);
    var pieces := [part] + Split(s, SLASH);
    assert pieces[1..] == Split(s, SLASH);
    SplitClean(part, SLASH);
    assert NonEmpty([part]) == [part] + NonEmpty([]);
  }

  lemma NoSegments(n: nat)
    ensures Segments(Slashes(n)) == []
  {
    SkipSlashes(n, []);
    assert Slashes(n) + [] == Slashes(n);
    assert NonEmpty([[]]) == NonEmpty([]);
  }

  /** Splitting undoes joining, however many slashes were put in between. */
  lemma {:induction false} SegmentsOfJoin(parts: seq<string>, gaps: seq<nat>, trailing: nat)
    requires |gaps| == |parts| && Proper(parts)
    ensures Segments(Join(parts, gaps, trailing)) == parts
    decreases |parts|
  {
    if parts == [] {
      NoSegments(trailing);
    } else {
      var rest := Join(parts[1..], gaps[1..], trailing);
      var tail := parts[0] + (if |parts| == 1 then [] else "/") + rest;
      SkipSlashes(gaps[0], tail);
      SegmentsOfJoin(parts[1..], gaps[1..], trailing);
      if |parts| > 1 {
        TakeSegment(parts[0], rest);
      } else {
        LastSegment(parts[0], trailing);
      }
      assert [parts[0]] + parts[1..] == parts;
    }
  }

  lemma LastSegment(part: string, trailing: nat)
    requires part != [] && Clean(part, SLASH)
    ensures Segments(part + [] + Slashes(trailing)) == [part]
  {
    if trailing == 0 {
      assert part + [] + Slashes(trailing) == part;
      TakeSegment(part, []);
    } else {
      assert part + [] + Slashes(trailing) == part + "/" + Slashes(trailing - 1);
      TakeSegment(part, Slashes(trailing - 1));
      NoSegments(trailing - 1);
    }
  }

  lemma LinkSegmentsProper(a: Action)
    requires Linkable(a)
    ensures Proper(LinkSegments(a))
  {
    match a
    case OpenChannel(g, c) =>
      DecimalValue(c);
      DigitsAreClean(Decimal(c), {'/'});
      if g.Some? {
        DecimalValue(g.value);
        DigitsAreClean(Decimal(g.value), {'/'});
      }
    case _ =>
  }

  lemma DecideOnLink(url: string, a: Action)
    requires Linkable(a)
    ensures Decide(url, LinkSegments(a)) == Some(a)
  {
    if a.OpenChannel? {
      ParseDecimal(a.channelId, U64_MAX);
      if a.guildId.Some? {
        ParseDecimal(a.guildId.value, U64_MAX);
      }
    }
  }

  /**
   * The round trip, for every id an `u64` can hold and every slash-free code:
   * a link parses to its action, with any number of extra slashes before,
   * between and after its segments.
   */
  lemma ParsePrinted(a: Action, gaps: seq<nat>, trailing: nat)
    requires Linkable(a) && |gaps| == |LinkSegments(a)|
    ensures Parse(SCHEME + Join(LinkSegments(a), gaps, trailing)) == Some(a)
    ensures Parse(Print(a)) == Some(a)
  {
    var zeros := seq(|LinkSegments(a)|, _ => 0);
    LinkSegmentsProper(a);
    SegmentsOfJoin(LinkSegments(a), gaps, trailing);
    SegmentsOfJoin(LinkSegments(a), zeros, 0);
    var url := SCHEME + Join(LinkSegments(a), gaps, trailing);
    assert url[|SCHEME|..] == Join(LinkSegments(a), gaps, trailing);
    assert Print(a)[|SCHEME|..] == Join(LinkSegments(a), zeros, 0);
    DecideOnLink(url, a);
    DecideOnLink(Print(a), a);
  }

  /** Distinct actions have distinct links. */
  lemma PrintInjective(a: Action, b: Action)
    requires Linkable(a) && Linkable(b) && Print(a) == Print(b)
    ensures a == b
  {
    ParsePrinted(a, seq(|LinkSegments(a)|, _ => 0), 0);
    ParsePrinted(b, seq(|LinkSegments(b)|, _ => 0), 0);
  }

  /**
   * Slash runs never matter: two URLs with the same segments are understood
   * alike, up to the URL text that an unknown link carries and the one empty
   * path that is rejected rather than unknown.
   */
  lemma SlashRunsDoNotMatter(p: string, q: string)
    requires Segments(p) == Segments(q) && Segments(p) != []
    ensures
      var a, b := Parse(SCHEME + p), Parse(SCHEME + q);
      || a == b
      || (a == Some(Unknown(SCHEME + p)) && b == Some(Unknown(SCHEME + q)))
  {
    assert (SCHEME + p)[|SCHEME|..] == p && (SCHEME + q)[|SCHEME|..] == q;
    assert Segments([]) == [] by { NoSegments(0); }
    assert p != [] && q != [];
    assert |SCHEME + p| == |SCHEME| + |p| && |SCHEME + q| == |SCHEME| + |q|;
  }

  lemma {:induction false} SegmentsProper(pieces: seq<string>)
    requires forall k :: 0 <= k < |pieces| ==> Clean(pieces[k], SLASH)
    ensures Proper(NonEmpty(pieces))
  {
    if pieces != [] {
      SegmentsProper(pieces[1..]);
    }
  }

  /** Only linkable actions are ever recognised, so every action can be printed again. */
  lemma RecognisedIsLinkable(url: string)
    ensures Parse(url).Some? && !Parse(url).value.Unknown? ==> Linkable(Parse(url).value)
  {
    if SCHEME <= url {
      SplitPiecesClean(url[|SCHEME|..], SLASH);
      SegmentsProper(Split(url[|SCHEME|..], SLASH));
    }
  }

  /** What the segments of a recognised link mean. */
  ghost predicate Denotes(parts: seq<string>, a: Action) {
    match a
    case OpenChannel(None, c) => |parts| == 2 && parts[0] == "channel" && ParseUnsigned(parts[1], U64_MAX) == Some(c)
    case OpenChannel(Some(g), c) =>
      |parts| == 3 && parts[0] == "channel"
      && ParseUnsigned(parts[1], U64_MAX) == Some(g) && ParseUnsigned(parts[2], U64_MAX) == Some(c)
    case OpenInvite(code) => parts == ["invite", code]
    case OpenPlugin(id) => parts == ["plugin", id]
    case Unknown(_) => false
  }

  /** A channel link without an id, or with one that is not a `u64`. */
  ghost predicate BadChannel(parts: seq<string>) {
    && 1 <= |parts| <= 3 && parts[0] == "channel"
    && (|parts| == 1 || exists k :: 1 <= k < |parts| && ParseUnsigned(parts[k], U64_MAX) == None)
  }

  /**
   * The parser as a whole: what is rejected, what is recognised, and that
   * everything else is unknown. Of the URLs without a segment only the bare
   * scheme is rejected; `viscos:///` is unknown.
   */
  lemma ParseIff(url: string, a: Action)
    ensures
      var parts := if SCHEME <= url then Segments(url[|SCHEME|..]) else [];
      && (Parse(url) == None <==> !(SCHEME <= url) || url == SCHEME || BadChannel(parts))
      && (!a.Unknown? ==> (Parse(url) == Some(a) <==> Denotes(parts, a)))
      && (Parse(url).Some? && Parse(url).value.Unknown? ==> Parse(url) == Some(Unknown(url)))
  {
    if SCHEME <= url {
      NoSegments(0);
      assert url == SCHEME ==> url[|SCHEME|..] == Slashes(0);
      var parts := Segments(url[|SCHEME|..]);
      if |parts| == 2 {
        assert parts == [parts[0], parts[1]];
      }
    }
  }

  /** How splitting sees one more character in front. */
  lemma SegmentsCons(c: char, s: string)
    requires c != '/'
    ensures s == [] || s[0] == '/' ==> Segments([c] + s) == [[c]] + Segments(s)
    ensures s != [] && s[0] != '/' ==>
      Segments(s) != [] && Segments([c] + s) == [[c] + Segments(s)[0]] + Segments(s)[1..]
  {
    assert ([c] + s)[1..] == s;
    var rest := Split(s, SLASH);
    if s == [] || s[0] == '/' {
      assert rest[0] == [] && [c] + rest[0] == [c];
      var pieces := [[c]] + rest[1..];
      assert pieces[1..] == rest[1..];
    } else {
      var pieces := [[c] + rest[0]] + rest[1..];
      assert rest[0] != [] && pieces[1..] == rest[1..];
    }
  }

  lemma JoinFirst(parts: seq<string>, gaps: seq<nat>, trailing: nat)
    requires |gaps| == |parts| && Proper(parts)
    ensures
      var s := Join(parts, gaps, trailing);
      s != [] && s[0] != '/' <==> parts != [] && gaps[0] == 0
  {
    if parts != [] {
      assert parts[0] != [] && parts[0][0] != '/';
    }
  }

  lemma MoreSlashes(n: nat, s: string)
    ensures Slashes(n + 1) + s == "/" + (Slashes(n) + s)
  {
  }

  /** A slash in front is one more extra slash. */
  lemma JoinSlash(parts: seq<string>, gaps: seq<nat>, trailing: nat) returns (g: seq<nat>, t: nat)
    requires |gaps| == |parts|
    ensures |g| == |parts| && Join(parts, g, t) == "/" + Join(parts, gaps, trailing)
  {
    if parts == [] {
      g, t := [], trailing + 1;
    } else {
      g, t := gaps[0 := gaps[0] + 1], trailing;
      assert g[1..] == gaps[1..];
      MoreSlashes(gaps[0], parts[0] + (if |parts| == 1 then [] else "/") + Join(parts[1..], gaps[1..], trailing));
    }
  }

  /** Another character in front makes a new segment, or lengthens the first. */
  lemma JoinNewSegment(c: char, parts: seq<string>, gaps: seq<nat>, trailing: nat) returns (g: seq<nat>, t: nat)
    requires |gaps| == |parts| && (parts != [] ==> gaps[0] > 0)
    ensures |g| == |parts| + 1 && Join([[c]] + parts, g, t) == [c] + Join(parts, gaps, trailing)
  {
    var longer := [[c]] + parts;
    assert longer[1..] == parts;
    if parts == [] {
      g, t := [0], trailing;
      assert g[1..] == [];
    } else {
      var fewer := gaps[0 := gaps[0] - 1];
      g, t := [0] + fewer, trailing;
      assert g[1..] == fewer && fewer[1..] == gaps[1..];
      MoreSlashes(gaps[0] - 1, parts[0] + (if |parts| == 1 then [] else "/") + Join(parts[1..], gaps[1..], trailing));
    }
  }

  lemma JoinLonger(c: char, parts: seq<string>, gaps: seq<nat>, trailing: nat)
    requires |gaps| == |parts| && parts != [] && gaps[0] == 0
    ensures Join([[c] + parts[0]] + parts[1..], gaps, trailing) == [c] + Join(parts, gaps, trailing)
  {
    var longer := [[c] + parts[0]] + parts[1..];
    assert longer[1..] == parts[1..];
  }

  lemma SegmentsAreProper(path: string)
    ensures Proper(Segments(path))
  {
    SplitPiecesClean(path, SLASH);
    SegmentsProper(Split(path, SLASH));
  }

  /** Joining undoes splitting: a path is its segments and some extra slashes, and nothing else. */
  lemma {:induction false} PathIsJoin(path: string) returns (gaps: seq<nat>, trailing: nat)
    ensures |gaps| == |Segments(path)| && path == Join(Segments(path), gaps, trailing)
  {
    if path == [] {
      NoSegments(0);
      gaps, trailing := [], 0;
    } else {
      var c, rest := path[0], path[1..];
      assert path == [c] + rest;
      gaps, trailing := PathIsJoin(rest);
      SegmentsAreProper(rest);
      JoinFirst(Segments(rest), gaps, trailing);
      if c == '/' {
        SkipSlash(rest);
        gaps, trailing := JoinSlash(Segments(rest), gaps, trailing);
      } else {
        SegmentsCons(c, rest);
        if rest == [] || rest[0] == '/' {
          gaps, trailing := JoinNewSegment(c, Segments(rest), gaps, trailing);
        } else {
          JoinLonger(c, Segments(rest), gaps, trailing);
        }
      }
    }
  }

  /** The segments that mean an action, up to the spelling of its numbers. */
  ghost predicate SpelledSegments(parts: seq<string>, a: Action)
    requires !a.Unknown?
  {
    && |parts| == |LinkSegments(a)| && parts[0] == LinkSegments(a)[0]
    && match a
       case OpenChannel(None, c) => Spells(parts[1], c)
       case OpenChannel(Some(g), c) => Spells(parts[1], g) && Spells(parts[2], c)
       case _ => parts[1] == LinkSegments(a)[1]
  }

  /**
   * The exact language of the parser: a URL means an action if and only if it
   * is a printed link of that action, up to extra slashes and to signs and
   * zeros in front of its numbers.
   */
  lemma RecognisedIffPrinted(url: string, a: Action)
    requires Linkable(a)
    ensures Parse(url) == Some(a) <==>
      exists parts, gaps, trailing ::
        Proper(parts) && SpelledSegments(parts, a) && |gaps| == |parts| && url == SCHEME + Join(parts, gaps, trailing)
  {
    ParseIff(url, a);
    if Parse(url) == Some(a) {
      var path := url[|SCHEME|..];
      var gaps, trailing := PathIsJoin(path);
      SegmentsAreProper(path);
      DenotesIffSpelled(Segments(path), a);
      assert url == SCHEME + Join(Segments(path), gaps, trailing);
    }
    forall parts, gaps, trailing |
      Proper(parts) && SpelledSegments(parts, a) && |gaps| == |parts| && url == SCHEME + Join(parts, gaps, trailing)
      ensures Parse(url) == Some(a)
    {
      SegmentsOfJoin(parts, gaps, trailing);
      assert url[|SCHEME|..] == Join(parts, gaps, trailing);
      DenotesIffSpelled(parts, a);
    }
  }

  lemma DenotesIffSpelled(parts: seq<string>, a: Action)
    requires Linkable(a)
    ensures Denotes(parts, a) <==> SpelledSegments(parts, a)
  {
    match a
    case OpenChannel(g, c) =>
      if |parts| >= 2 {
        ParsesIffSpells(parts[|parts| - 1], U64_MAX, c);
        if g.Some? {
          ParsesIffSpells(parts[1], U64_MAX, g.value);
        }
      }
    case OpenInvite(code) =>
      if |parts| == 2 {
        assert parts == [parts[0], parts[1]];
      }
    case OpenPlugin(id) =>
      if |parts| == 2 {
        assert parts == [parts[0], parts[1]];
      }
  }

  /** The `user` links announced by the module documentation are not recognised. */
  lemma UserLinksAreUnknown(id: string)
    requires id != [] && Clean(id, SLASH)
    ensures Parse(SCHEME + "user/" + id) == Some(Unknown(SCHEME + "user/" + id))
  {
    var url := SCHEME + "user/" + id;
    assert url[|SCHEME|..] == "user" + "/" + id;
    TakeSegment("user", id);
    TakeSegment(id, []);
  }
}
