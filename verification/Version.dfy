/** Version comparison and release acceptance of the updater. */
module Version {
  import opened Common
  import opened Text

  datatype Ordering = Less | Equal | Greater

  /** The pieces that parse as `u64`; everything else is dropped. */
  function KeepNumbers(pieces: seq<string>): seq<nat> {
    if pieces == [] then []
    else
      match ParseUnsigned(pieces[0], U64_MAX)
      case Some(n) => [n] + KeepNumbers(pieces[1..])
      case None => KeepNumbers(pieces[1..])
  }

  function Components(version: string): seq<nat> { KeepNumbers(Split(version, NonDigit)) }

  /** `Vec::cmp`: compare element by element, a proper prefix comes first. */
  function Compare(a: seq<nat>, b: seq<nat>): Ordering {
    if a == [] then (if b == [] then Equal else Less)
    else if b == [] then Greater
    else if a[0] < b[0] then Less
    else if a[0] > b[0] then Greater
    else Compare(a[1..], b[1..])
  }

  /** `Greater` means that `latest` is newer than `current`. */
  function VersionIsNewer(current: string, latest: string): Ordering {
    Compare(Components(latest), Components(current))
  }

  datatype UpdateChannel = Stable | Beta | Nightly

  function TagPrefix(channel: UpdateChannel): string {
    match channel
    case Stable => "v"
    case Beta => "beta-"
    case Nightly => "nightly-"
  }

  /** `strip_prefix`: a tag of another channel is kept whole. */
  function StripPrefix(channel: UpdateChannel, tag: string): string {
    var prefix := TagPrefix(channel);
    if prefix <= tag then tag[|prefix|..] else tag
  }

  datatype Release = Release(version: string, url: string, sha256: string)

  /** `Updater::check` on what the release source answered. */
  function Check(current: string, fetched: Result<Option<Release>, string>): Result<Option<Release>, string> {
    match fetched
    case Err(e) => Err(e)
    case Ok(None) => Ok(None)
    case Ok(Some(r)) => if VersionIsNewer(current, r.version).Greater? then Ok(Some(r)) else Ok(None)
  }

  // --------------------------------------------------------- order theory

  /** The textbook lexicographic order, without recursion. */
  ghost predicate LexLess(a: seq<nat>, b: seq<nat>) {
    exists k :: DiffersAt(a, b, k)
  }

  ghost predicate DiffersAt(a: seq<nat>, b: seq<nat>, k: nat) {
    k <= |a| && k < |b| && (forall j :: 0 <= j < k ==> a[j] == b[j]) && (k == |a| || a[k] < b[k])
  }

  lemma DiffersLater(a: seq<nat>, b: seq<nat>, k: nat)
    requires a != [] && b != [] && a[0] == b[0]
    ensures DiffersAt(a[1..], b[1..], k) <==> DiffersAt(a, b, k + 1)
  {
    if k <= |a[1..]| && k < |b[1..]| {
      assert forall j :: 0 <= j < k ==> a[1..][j] == a[j + 1] && b[1..][j] == b[j + 1];
      if forall j :: 0 <= j < k ==> a[1..][j] == b[1..][j] {
        forall j | 0 <= j < k + 1
          ensures a[j] == b[j]
        {
          assert j > 0 ==> a[1..][j - 1] == b[1..][j - 1];
        }
      }
    }
  }

  /** The element-wise comparison is the lexicographic order. */
  lemma {:induction false} CompareIsLexicographic(a: seq<nat>, b: seq<nat>)
    ensures Compare(a, b).Less? <==> LexLess(a, b)
    ensures Compare(a, b).Equal? <==> a == b
    ensures Compare(a, b).Greater? <==> Compare(b, a).Less?
  {
    if a == [] || b == [] {
      if a == [] && b != [] {
        assert DiffersAt(a, b, 0);
      }
    } else if a[0] != b[0] {
      assert a[0] < b[0] ==> DiffersAt(a, b, 0);
      forall k: nat | DiffersAt(a, b, k)
        ensures k == 0
      {
        if k > 0 {
          assert false;
        }
      }
    } else {
      CompareIsLexicographic(a[1..], b[1..]);
      assert a == [a[0]] + a[1..] && b == [b[0]] + b[1..];
      forall k: nat
        ensures DiffersAt(a[1..], b[1..], k) <==> DiffersAt(a, b, k + 1)
      {
        DiffersLater(a, b, k);
      }
      if LexLess(a, b) {
        var k: nat :| DiffersAt(a, b, k);
        assert k > 0;
        assert DiffersAt(a[1..], b[1..], k - 1);
      }
      if LexLess(a[1..], b[1..]) {
        var k: nat :| DiffersAt(a[1..], b[1..], k);
        assert DiffersAt(a, b, k + 1);
      }
    }
  }

  lemma {:induction false} CompareTransitive(a: seq<nat>, b: seq<nat>, c: seq<nat>)
    requires Compare(a, b).Greater? && Compare(b, c).Greater?
    ensures Compare(a, c).Greater?
    decreases |a|
  {
    if a != [] && b != [] && c != [] && a[0] == b[0] == c[0] {
      CompareTransitive(a[1..], b[1..], c[1..]);
    }
  }

  lemma {:induction false} CompareIrreflexive(a: seq<nat>)
    ensures Compare(a, a).Equal?
  {
    if a != [] {
      CompareIrreflexive(a[1..]);
    }
  }

  /** "Newer" is antisymmetric and transitive on arbitrary strings. */
  lemma NewerIsStrictOrder(a: string, b: string, c: string)
    ensures VersionIsNewer(a, b).Greater? <==> VersionIsNewer(b, a).Less?
    ensures VersionIsNewer(a, b).Greater? && VersionIsNewer(b, c).Greater? ==> VersionIsNewer(a, c).Greater?
    ensures VersionIsNewer(a, a).Equal?
  {
    var x, y, z := Components(a), Components(b), Components(c);
    CompareIsLexicographic(x, y);
    CompareIsLexicographic(y, x);
    CompareIrreflexive(x);
    if Compare(y, x).Greater? && Compare(z, y).Greater? {
      CompareTransitive(z, y, x);
    }
  }

  // ------------------------------------------------------ dotted versions

  function Dotted(parts: seq<nat>): string
    requires parts != []
  {
    if |parts| == 1 then Decimal(parts[0])
    else Decimal(parts[0]) + ['.'] + Dotted(parts[1..])
  }

  lemma {:induction false} KeepNumbersConcat(p: seq<string>, q: seq<string>)
    ensures KeepNumbers(p + q) == KeepNumbers(p) + KeepNumbers(q)
  {
    if p == [] {
      assert p + q == q;
    } else {
      assert (p + q)[1..] == p[1..] + q;
      KeepNumbersConcat(p[1..], q);
    }
  }

  lemma SplitCons(s: string)
    requires s != []
    ensures
      var rest := Split(s[1..], NonDigit);
      Split(s, NonDigit) == if IsDigit(s[0]) then [[s[0]] + rest[0]] + rest[1..] else [[]] + rest
  {
  }

  lemma ConcatHead(p: seq<string>, q: seq<string>)
    requires p != []
    ensures (p + q)[0] == p[0] && (p + q)[1..] == p[1..] + q
  {
  }

  lemma {:induction false} SplitConcat(s: string, c: char, t: string)
    requires !IsDigit(c)
    ensures Split(s + [c] + t, NonDigit) == Split(s, NonDigit) + Split(t, NonDigit)
  {
    var whole := s + [c] + t;
    SplitCons(whole);
    if s == [] {
      assert whole[1..] == t;
    } else {
      assert whole[1..] == s[1..] + [c] + t;
      SplitConcat(s[1..], c, t);
      SplitCons(s);
      ConcatHead(Split(s[1..], NonDigit), Split(t, NonDigit));
    }
  }

  /** Any non-digit character separates: components concatenate around it. */
  lemma ComponentsConcat(s: string, c: char, t: string)
    requires !IsDigit(c)
    ensures Components(s + [c] + t) == Components(s) + Components(t)
  {
    SplitConcat(s, c, t);
    KeepNumbersConcat(Split(s, NonDigit), Split(t, NonDigit));
  }

  lemma ComponentsOfDecimal(n: nat)
    requires n <= U64_MAX
    ensures Components(Decimal(n)) == [n]
  {
    DecimalValue(n);
    SplitClean(Decimal(n), NonDigit);
    ParseDecimal(n, U64_MAX);
    assert KeepNumbers([Decimal(n)]) == [n] + KeepNumbers([]);
  }

  /** Dotted decimal strings of `u64` components read back exactly. */
  lemma {:induction false} ComponentsOfDotted(parts: seq<nat>)
    requires parts != [] && forall k :: 0 <= k < |parts| ==> parts[k] <= U64_MAX
    ensures Components(Dotted(parts)) == parts
    decreases |parts|
  {
    ComponentsOfDecimal(parts[0]);
    if |parts| > 1 {
      ComponentsOfDotted(parts[1..]);
      ComponentsConcat(Decimal(parts[0]), '.', Dotted(parts[1..]));
    }
    assert parts == [parts[0]] + parts[1..];
  }

  /** On dotted versions, newer means lexicographically greater, and equal means equal. */
  lemma NewerOnDotted(current: seq<nat>, latest: seq<nat>)
    requires current != [] && forall k :: 0 <= k < |current| ==> current[k] <= U64_MAX
    requires latest != [] && forall k :: 0 <= k < |latest| ==> latest[k] <= U64_MAX
    ensures VersionIsNewer(Dotted(current), Dotted(latest)).Greater? <==> LexLess(current, latest)
    ensures VersionIsNewer(Dotted(current), Dotted(latest)).Equal? <==> current == latest
  {
    ComponentsOfDotted(current);
    ComponentsOfDotted(latest);
    CompareIsLexicographic(latest, current);
    CompareIsLexicographic(current, latest);
  }

  lemma {:induction false} PrefixWithoutDigits(prefix: string, rest: string)
    requires forall k :: 0 <= k < |prefix| ==> !IsDigit(prefix[k])
    ensures Components(prefix + rest) == Components(rest)
  {
    if prefix == [] {
      assert prefix + rest == rest;
    } else {
      assert prefix + rest == [] + [prefix[0]] + (prefix[1..] + rest);
      ComponentsConcat([], prefix[0], prefix[1..] + rest);
      PrefixWithoutDigits(prefix[1..], rest);
      assert KeepNumbers([[]]) == KeepNumbers([]);
    }
  }

  /** Stripping the tag prefix, or failing to, never changes what counts as newer. */
  lemma StrippingIsIrrelevant(channel: UpdateChannel, current: string, tag: string)
    ensures VersionIsNewer(current, StripPrefix(channel, tag)) == VersionIsNewer(current, tag)
  {
    var prefix := TagPrefix(channel);
    if prefix <= tag {
      assert tag == prefix + tag[|prefix|..];
      PrefixWithoutDigits(prefix, tag[|prefix|..]);
    }
  }

  /** A tag of the own channel loses exactly its prefix; any other is kept whole. */
  lemma StrippedTag(channel: UpdateChannel, version: string, tag: string)
    ensures StripPrefix(Stable, "v" + version) == version
    ensures StripPrefix(Beta, "beta-" + version) == version
    ensures StripPrefix(Nightly, "nightly-" + version) == version
    ensures !(TagPrefix(channel) <= tag) ==> StripPrefix(channel, tag) == tag
  {
  }

  lemma {:induction false} LongerIsGreater(a: seq<nat>, b: seq<nat>)
    requires b != []
    ensures Compare(a + b, a).Greater?
  {
    if a != [] {
      LongerIsGreater(a[1..], b);
      assert (a + b)[1..] == a[1..] + b;
    } else {
      assert a + b == b;
    }
  }

  /** The digits `s[i..j]` are a whole run and fit a `u64`. */
  ghost predicate NumberAt(s: string, i: int, j: int) {
    && 0 <= i < j <= |s| && AllDigits(s[i..j])
    && (i == 0 || !IsDigit(s[i - 1])) && (j == |s| || !IsDigit(s[j]))
    && DigitsValue(s[i..j]) <= U64_MAX
  }

  ghost predicate HasNumber(s: string) {
    exists i, j :: NumberAt(s, i, j)
  }

  lemma DigitsHaveNumber(s: string)
    requires AllDigits(s)
    ensures HasNumber(s) <==> s != [] && DigitsValue(s) <= U64_MAX
    ensures Components(s) == if HasNumber(s) then [DigitsValue(s)] else []
  {
    SplitClean(s, NonDigit);
    forall i, j | NumberAt(s, i, j)
      ensures s[i..j] == s
    {
      assert i == 0 && j == |s|;
    }
    assert s[..|s|] == s;
    if s != [] {
      ParseDigits(s, U64_MAX);
      assert DigitsValue(s) <= U64_MAX ==> NumberAt(s, 0, |s|);
    }
    assert KeepNumbers([]) == [];
  }

  lemma RunOfDigits(s: string, i: nat, j: nat)
    requires i <= j <= |s| && AllDigits(s[i..j])
    ensures forall k :: i <= k < j ==> IsDigit(s[k])
  {
    assert forall k :: i <= k < j ==> s[k] == s[i..j][k - i];
  }

  lemma NumberOnOneSide(s: string, c: char, t: string, i: int, j: int)
    requires !IsDigit(c) && NumberAt(s + [c] + t, i, j)
    ensures NumberAt(s, i, j) || NumberAt(t, i - |s| - 1, j - |s| - 1)
  {
    var whole, n := s + [c] + t, |s| + 1;
    RunOfDigits(whole, i, j);
    assert whole[|s|] == c;
    if j <= |s| {
      assert whole[i..j] == s[i..j];
    } else {
      assert whole[n..] == t;
      assert whole[i..j] == whole[n..][i - n..j - n];
    }
  }

  lemma NumberKept(s: string, c: char, t: string, i: int, j: int)
    requires !IsDigit(c)
    ensures NumberAt(s, i, j) ==> NumberAt(s + [c] + t, i, j)
    ensures NumberAt(t, i, j) ==> NumberAt(s + [c] + t, |s| + 1 + i, |s| + 1 + j)
  {
    var whole, n := s + [c] + t, |s| + 1;
    if NumberAt(s, i, j) {
      assert whole[i..j] == s[i..j];
    }
    if NumberAt(t, i, j) {
      assert whole[n + i..n + j] == t[i..j];
    }
  }

  /** A number lies on one side of any non-digit. */
  lemma NumberBesides(s: string, c: char, t: string)
    requires !IsDigit(c)
    ensures HasNumber(s + [c] + t) <==> HasNumber(s) || HasNumber(t)
  {
    if i, j :| NumberAt(s + [c] + t, i, j) {
      NumberOnOneSide(s, c, t, i, j);
    }
    if i, j :| NumberAt(s, i, j) {
      NumberKept(s, c, t, i, j);
    }
    if i, j :| NumberAt(t, i, j) {
      NumberKept(s, c, t, i, j);
    }
  }

  /** A version has components exactly when some run of digits in it fits a `u64`. */
  lemma {:induction false} ComponentsIffNumber(s: string)
    ensures Components(s) != [] <==> HasNumber(s)
    decreases |s|
  {
    if AllDigits(s) {
      DigitsHaveNumber(s);
    } else {
      var p := FirstNonDigit(s);
      assert s == s[..p] + [s[p]] + s[p + 1..];
      DigitsHaveNumber(s[..p]);
      ComponentsIffNumber(s[p + 1..]);
      ComponentsConcat(s[..p], s[p], s[p + 1..]);
      NumberBesides(s[..p], s[p], s[p + 1..]);
    }
  }

  lemma {:induction false} FirstNonDigit(s: string) returns (p: nat)
    requires !AllDigits(s)
    ensures p < |s| && AllDigits(s[..p]) && !IsDigit(s[p])
  {
    p := 0;
    if IsDigit(s[0]) {
      var q := FirstNonDigit(s[1..]);
      p := q + 1;
      assert s[..p] == [s[0]] + s[1..][..q];
    }
  }

  lemma {:induction false} DigitsValueBound(s: string, bound: nat)
    requires AllDigits(s) && |s| <= 19 && bound == PowerOfTen(|s|)
    ensures DigitsValue(s) < bound
  {
    if s != [] {
      DigitsValueBound(s[..|s| - 1], PowerOfTen(|s| - 1));
    }
  }

  lemma {:induction false} PowersGrow(m: nat, n: nat)
    requires m <= n
    ensures PowerOfTen(m) <= PowerOfTen(n)
  {
    if m < n {
      PowersGrow(m, n - 1);
    }
  }

  lemma NineteenDigitsFit(s: string)
    requires AllDigits(s) && |s| <= 19
    ensures DigitsValue(s) <= U64_MAX
  {
    DigitsValueBound(s, PowerOfTen(|s|));
    PowersGrow(|s|, 19);
    assert PowerOfTen(10) == 10_000_000_000;
    assert PowerOfTen(19) == 1_000_000_000 * PowerOfTen(10);
  }

  ghost predicate HasDigit(s: string) {
    exists k :: 0 <= k < |s| && IsDigit(s[k])
  }

  lemma DigitBesides(s: string, c: char, t: string)
    requires !IsDigit(c)
    ensures HasDigit(s + [c] + t) <==> HasDigit(s) || HasDigit(t)
  {
    var whole, n := s + [c] + t, |s| + 1;
    assert forall k :: 0 <= k < |s| ==> whole[k] == s[k];
    assert forall k :: 0 <= k < |t| ==> whole[n + k] == t[k];
    assert forall k :: n <= k < |whole| ==> whole[k] == t[k - n];
  }

  /** In a text of at most 19 characters every digit belongs to a number. */
  lemma {:induction false} ShortHasNumber(s: string)
    requires |s| <= 19
    ensures HasNumber(s) <==> HasDigit(s)
    decreases |s|
  {
    if AllDigits(s) {
      DigitsHaveNumber(s);
      NineteenDigitsFit(s);
      assert s != [] ==> IsDigit(s[0]);
    } else {
      var p := FirstNonDigit(s);
      assert s == s[..p] + [s[p]] + s[p + 1..];
      ShortHasNumber(s[..p]);
      ShortHasNumber(s[p + 1..]);
      NumberBesides(s[..p], s[p], s[p + 1..]);
      DigitBesides(s[..p], s[p], s[p + 1..]);
    }
  }

  /**
   * The comparison is not that of Semantic Versioning, whose section 11 puts
   * every pre-release before its release. Here a pre-release counts as newer
   * than its release exactly when its tag has a number, as in `-rc1` or
   * `-beta.2`, and as the same version otherwise, as in `-alpha`; no release
   * ever counts as newer than its pre-release.
   */
  lemma PreReleaseNewerIffNumbered(release: string, tag: string)
    ensures VersionIsNewer(release, release + "-" + tag) == if HasNumber(tag) then Greater else Equal
    ensures VersionIsNewer(release + "-" + tag, release) == if HasNumber(tag) then Less else Equal
  {
    assert release + "-" + tag == release + ['-'] + tag;
    ComponentsConcat(release, '-', tag);
    ComponentsIffNumber(tag);
    var x, y := Components(release), Components(tag);
    CompareIrreflexive(x);
    if y != [] {
      LongerIsGreater(x, y);
    } else {
      assert x + y == x;
    }
    CompareIsLexicographic(x + y, x);
    CompareIsLexicographic(x, x + y);
  }

  /** What to look for: a digit, if the tag has no more than 19 characters. */
  lemma NumberNeedsDigit(tag: string)
    ensures HasNumber(tag) ==> HasDigit(tag)
    ensures |tag| <= 19 && HasDigit(tag) ==> HasNumber(tag)
  {
    if HasNumber(tag) {
      var i, j :| NumberAt(tag, i, j);
      assert tag[i] == tag[i..j][0];
    }
    if |tag| <= 19 {
      ShortHasNumber(tag);
    }
  }

  // ------------------------------------------------------- across installs

  /** `versions[i + 1]` was accepted by `check` while `versions[i]` was installed. */
  ghost predicate InstallChain(versions: seq<string>) {
    forall i :: 0 <= i < |versions| - 1 ==> Accepted(versions[i], versions[i + 1])
  }

  ghost predicate Accepted(current: string, next: string) {
    forall url, sha :: Check(current, Ok(Some(Release(next, url, sha)))) == Ok(Some(Release(next, url, sha)))
  }

  /** What `check` answers: an error of the source as it is, and a release only if it is newer. */
  lemma CheckIff(current: string, fetched: Result<Option<Release>, string>, r: Release, e: string)
    ensures Check(current, fetched) == Err(e) <==> fetched == Err(e)
    ensures Check(current, fetched) == Ok(Some(r))
            <==> fetched == Ok(Some(r)) && LexLess(Components(current), Components(r.version))
    ensures Check(current, fetched) == Ok(None)
            <==> fetched == Ok(None)
                 || (fetched.Ok? && fetched.value.Some?
                     && !LexLess(Components(current), Components(fetched.value.value.version)))
  {
    if fetched.Ok? && fetched.value.Some? {
      CompareIsLexicographic(Components(fetched.value.value.version), Components(current));
      CompareIsLexicographic(Components(current), Components(fetched.value.value.version));
    }
  }

  lemma AcceptedIffNewer(current: string, r: Release)
    ensures Check(current, Ok(Some(r))) == Ok(Some(r)) <==> VersionIsNewer(current, r.version).Greater?
    ensures Check(current, Ok(Some(r))) == Ok(Some(r)) <==> Accepted(current, r.version)
  {
    assert r == Release(r.version, r.url, r.sha256);
  }

  lemma {:induction false} ChainIsNewer(versions: seq<string>, i: nat, j: nat)
    requires InstallChain(versions) && i < j < |versions|
    ensures VersionIsNewer(versions[i], versions[j]).Greater?
    decreases j - i
  {
    var last := versions[j - 1];
    assert Accepted(last, versions[j - 1 + 1]);
    AcceptedIffNewer(last, Release(versions[j], "", ""));
    if i < j - 1 {
      ChainIsNewer(versions, i, j - 1);
      CompareTransitive(Components(versions[j]), Components(last), Components(versions[i]));
    }
  }

  /** Across installs versions only go up, so none is ever installed twice. */
  lemma ChainIncreases(versions: seq<string>, i: nat, j: nat)
    requires InstallChain(versions) && i < j < |versions|
    ensures LexLess(Components(versions[i]), Components(versions[j]))
    ensures versions[i] != versions[j]
  {
    var x, y := Components(versions[i]), Components(versions[j]);
    ChainIsNewer(versions, i, j);
    CompareIsLexicographic(y, x);
    CompareIsLexicographic(x, y);
    CompareIrreflexive(x);
  }
}
