/** The choice between the WebView2 and CEF backends. */
module Backend {
  import opened Common
  import opened Text
  import opened Telemetry

  datatype Kind = WebView2 | Cef

  /** The machine, as far as the choice looks at it. */
  datatype Machine = Machine(rdpSession: bool, windows11: bool)

  /** `telemetry`: the log of the store, if there is one. */
  function SelectDefaultBackend(m: Machine, telemetry: Option<Log>, now: int): Kind {
    if m.rdpSession then WebView2
    else if !m.windows11 then WebView2
    else
      match telemetry
      case None => Cef
      case Some(log) =>
        match RecommendCef(log, now)
        case Required => Cef
        case Optional => WebView2
        case Unknown => Cef
  }

  /** The characters `str::trim` removes: the Unicode `White_Space` property. */
  predicate IsWhitespace(c: char) {
    || '\U{9}' <= c <= '\U{D}' || c == ' ' || c == '\U{85}' || c == '\U{A0}' || c == '\U{1680}'
    || '\U{2000}' <= c <= '\U{200A}' || c == '\U{2028}' || c == '\U{2029}' || c == '\U{202F}'
    || c == '\U{205F}' || c == '\U{3000}'
  }

  function TrimStart(s: string): string {
    if s != [] && IsWhitespace(s[0]) then TrimStart(s[1..]) else s
  }

  function TrimEnd(s: string): string {
    if s != [] && IsWhitespace(s[|s| - 1]) then TrimEnd(s[..|s| - 1]) else s
  }

  function Trim(s: string): string { TrimEnd(TrimStart(s)) }

  /** `parse_backend_value`; an error carries the rejected value. */
  function ParseBackendValue(value: string, m: Machine, telemetry: Option<Log>, now: int): Result<Kind, string> {
    var v := Lower(Trim(value));
    if v == "webview2" then Ok(WebView2)
    else if v == "cef" then Ok(Cef)
    else if v == "auto" then Ok(SelectDefaultBackend(m, telemetry, now))
    else Err(v)
  }

  function ResolveBackend(cli: Option<string>, config: Option<string>, m: Machine, telemetry: Option<Log>, now: int)
    : Result<Kind, string>
  {
    if cli.Some? then ParseBackendValue(cli.value, m, telemetry, now)
    else if config.Some? && Trim(config.value) != [] && Lower(Trim(config.value)) != "auto" then
      ParseBackendValue(config.value, m, telemetry, now)
    else Ok(SelectDefaultBackend(m, telemetry, now))
  }

  ghost predicate AllBlank(s: string) { forall k :: 0 <= k < |s| ==> IsWhitespace(s[k]) }

  /** Trimming cuts blanks off both ends, all of them, and nothing else. */
  lemma TrimIsBare(s: string)
    ensures exists before, after :: s == before + Trim(s) + after && AllBlank(before) && AllBlank(after)
    ensures Trim(s) != [] ==> !IsWhitespace(Trim(s)[0]) && !IsWhitespace(Trim(s)[|Trim(s)| - 1])
    ensures Trim(s) == [] <==> AllBlank(s)
  {
    var before := TrimStartCuts(s);
    var after := TrimEndCuts(TrimStart(s));
    assert s == before + Trim(s) + after;
    if Trim(s) != [] {
      assert TrimStart(s)[0] == Trim(s)[0] == s[|before|];
    } else {
      assert s == before + after;
    }
  }

  lemma {:induction false} TrimStartCuts(s: string) returns (before: string)
    ensures s == before + TrimStart(s) && AllBlank(before)
    ensures TrimStart(s) != [] ==> !IsWhitespace(TrimStart(s)[0])
  {
    before := [];
    if s != [] && IsWhitespace(s[0]) {
      var rest := TrimStartCuts(s[1..]);
      before := [s[0]] + rest;
      assert s == [s[0]] + s[1..];
    }
  }

  lemma {:induction false} TrimEndCuts(s: string) returns (after: string)
    ensures s == TrimEnd(s) + after && AllBlank(after)
    ensures TrimEnd(s) != [] ==> !IsWhitespace(TrimEnd(s)[|TrimEnd(s)| - 1])
  {
    after := [];
    if s != [] && IsWhitespace(s[|s| - 1]) {
      var rest := TrimEndCuts(s[..|s| - 1]);
      after := rest + [s[|s| - 1]];
      assert s == s[..|s| - 1] + [s[|s| - 1]];
    }
  }

  lemma {:induction false} TrimStartDrops(before: string, rest: string)
    requires AllBlank(before) && (rest == [] || !IsWhitespace(rest[0]))
    ensures TrimStart(before + rest) == rest
  {
    if before == [] {
      assert before + rest == rest;
    } else {
      assert (before + rest)[1..] == before[1..] + rest;
      TrimStartDrops(before[1..], rest);
    }
  }

  lemma {:induction false} TrimEndDrops(core: string, after: string)
    requires AllBlank(after) && (core == [] || !IsWhitespace(core[|core| - 1]))
    ensures TrimEnd(core + after) == core
  {
    if after == [] {
      assert core + after == core;
    } else {
      var n := |after| - 1;
      assert (core + after)[..|core + after| - 1] == core + after[..n];
      TrimEndDrops(core, after[..n]);
    }
  }

  /** The text is this word, in any letter case and with blanks around it. */
  ghost predicate Says(value: string, word: string) {
    exists before, name, after :: Padded(value, before, name, after) && Lower(name) == word
  }

  ghost predicate Padded(value: string, before: string, name: string, after: string) {
    value == before + name + after && AllBlank(before) && AllBlank(after)
  }

  lemma TrimPadded(before: string, name: string, after: string)
    requires AllBlank(before) && AllBlank(after) && Lower(name) in {"webview2", "cef", "auto"}
    ensures Trim(before + name + after) == name
  {
    assert forall k :: 0 <= k < |name| ==> LowerChar(name[k]) == Lower(name)[k];
    assert !IsWhitespace(name[0]) && !IsWhitespace(name[|name| - 1]);
    assert before + name + after == before + (name + after);
    TrimStartDrops(before, name + after);
    TrimEndDrops(name, after);
  }

  lemma SaysIffTrimmed(value: string, word: string)
    requires word in {"webview2", "cef", "auto"}
    ensures Says(value, word) <==> Lower(Trim(value)) == word
  {
    if before, name, after :| Padded(value, before, name, after) && Lower(name) == word {
      TrimPadded(before, name, after);
    }
    TrimIsBare(value);
    var before, after :| value == before + Trim(value) + after && AllBlank(before) && AllBlank(after);
    assert Padded(value, before, Trim(value), after);
  }

  /** What is left of a text without the blanks around it. */
  ghost predicate CoreOf(value: string, core: string) {
    && (exists before, after :: Padded(value, before, core, after))
    && (core != [] ==> !IsWhitespace(core[0]) && !IsWhitespace(core[|core| - 1]))
  }

  /** None of the three words. */
  ghost predicate Nonsense(value: string) {
    !Says(value, "webview2") && !Says(value, "cef") && !Says(value, "auto")
  }

  /** What a value means, and that everything else is an error that names its lower-cased core. */
  lemma ParseBackendIff(value: string, m: Machine, telemetry: Option<Log>, now: int)
    ensures
      var r := ParseBackendValue(value, m, telemetry, now);
      && (Says(value, "webview2") ==> r == Ok(WebView2))
      && (Says(value, "cef") ==> r == Ok(Cef))
      && (Says(value, "auto") ==> r == Ok(SelectDefaultBackend(m, telemetry, now)))
      && (r.Err? <==> Nonsense(value))
      && (r.Err? ==> exists core :: CoreOf(value, core) && r.error == Lower(core))
  {
    SaysIffTrimmed(value, "webview2");
    SaysIffTrimmed(value, "cef");
    SaysIffTrimmed(value, "auto");
    TrimIsBare(value);
    var before, after :| value == before + Trim(value) + after && AllBlank(before) && AllBlank(after);
    assert Padded(value, before, Trim(value), after);
    assert CoreOf(value, Trim(value));
  }

  /** The configured value is looked at: nothing is said on the command line, and it is not blank. */
  ghost predicate ConfigCounts(cli: Option<string>, config: Option<string>) {
    cli.None? && config.Some? && !AllBlank(config.value)
  }

  /** An override that is looked at says `word`. */
  ghost predicate Overrides(cli: Option<string>, config: Option<string>, word: string) {
    (cli.Some? && Says(cli.value, word)) || (ConfigCounts(cli, config) && Says(config.value, word))
  }

  /** An override that is looked at is none of the three words. */
  ghost predicate Fails(cli: Option<string>, config: Option<string>) {
    (cli.Some? && Nonsense(cli.value)) || (ConfigCounts(cli, config) && Nonsense(config.value))
  }

  /**
   * The choice fails exactly for a meaningless value on the command line, even
   * a blank one, or for a meaningless configuration that is not blank, if the
   * command line is silent; a backend that is named wins; otherwise the
   * machine decides.
   */
  lemma ResolveIff(cli: Option<string>, config: Option<string>, m: Machine, telemetry: Option<Log>, now: int)
    ensures
      var r := ResolveBackend(cli, config, m, telemetry, now);
      && (r.Err? <==> Fails(cli, config))
      && (Overrides(cli, config, "webview2") ==> r == Ok(WebView2))
      && (Overrides(cli, config, "cef") ==> r == Ok(Cef))
      && (!Fails(cli, config) && !Overrides(cli, config, "webview2") && !Overrides(cli, config, "cef")
          ==> r == Ok(SelectDefaultBackend(m, telemetry, now)))
  {
    if cli.Some? {
      ParseBackendIff(cli.value, m, telemetry, now);
    } else if config.Some? {
      ParseBackendIff(config.value, m, telemetry, now);
      TrimIsBare(config.value);
      SaysIffTrimmed(config.value, "auto");
    }
  }

  function NameOf(kind: Kind): string { if kind == Cef then "cef" else "webview2" }

  /** All machines get the same backend exactly when an override names it. */
  lemma FixedIffNamed(cli: Option<string>, config: Option<string>, kind: Kind)
    ensures (forall m, telemetry, now :: ResolveBackend(cli, config, m, telemetry, now) == Ok(kind))
            <==> Overrides(cli, config, NameOf(kind))
  {
    ResolveIff(cli, config, Machine(false, false), None, 0);
    ResolveIff(cli, config, Machine(false, true), None, 0);
    assert SelectDefaultBackend(Machine(false, false), None, 0) != SelectDefaultBackend(Machine(false, true), None, 0);
    if Overrides(cli, config, NameOf(kind)) {
      forall m, telemetry, now
        ensures ResolveBackend(cli, config, m, telemetry, now) == Ok(kind)
      {
        ResolveIff(cli, config, m, telemetry, now);
      }
    }
  }

  /** Every machine chooses for itself exactly when nothing fails and no override names a backend. */
  lemma AutomaticIffUnnamed(cli: Option<string>, config: Option<string>)
    ensures
      (forall m, telemetry, now :: ResolveBackend(cli, config, m, telemetry, now) == Ok(SelectDefaultBackend(m, telemetry, now)))
      <==> !Fails(cli, config) && forall kind :: !Overrides(cli, config, NameOf(kind))
  {
    ResolveIff(cli, config, Machine(false, false), None, 0);
    ResolveIff(cli, config, Machine(false, true), None, 0);
    assert SelectDefaultBackend(Machine(false, false), None, 0) == WebView2;
    assert SelectDefaultBackend(Machine(false, true), None, 0) == Cef;
    assert NameOf(Cef) == "cef" && NameOf(WebView2) == "webview2";
    if !Fails(cli, config) && forall kind :: !Overrides(cli, config, NameOf(kind)) {
      forall m, telemetry, now
        ensures ResolveBackend(cli, config, m, telemetry, now) == Ok(SelectDefaultBackend(m, telemetry, now))
      {
        ResolveIff(cli, config, m, telemetry, now);
      }
    }
  }

  /** The last seven days have samples, none of which reached the threshold. */
  ghost predicate CleanWeek(log: Log, now: int) {
    && (exists i :: ThisWeek(log.rows, now, i))
    && (forall i :: ThisWeek(log.rows, now, i) ==> log.rows[i].count < 8500)
  }

  /**
   * WebView2 is chosen in a remote session, before Windows 11, and after a
   * clean week of telemetry that can be read; in every other case CEF is.
   */
  lemma WebView2Iff(m: Machine, telemetry: Option<Log>, now: int)
    ensures
      SelectDefaultBackend(m, telemetry, now) == WebView2
      <==> m.rdpSession || !m.windows11 || (telemetry.Some? && telemetry.value.readable && CleanWeek(telemetry.value, now))
  {
    if telemetry.Some? {
      RequiredIffLeakSeen(telemetry.value, now);
    }
  }
}
