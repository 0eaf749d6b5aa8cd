/** The updater's hex printer and the scanner that finds a digest in release notes. */
module Digest {
  import opened Common
  import opened Text

  type Byte = b: int | 0 <= b < 256

  /** A SHA-256 digest. */
  type Digest256 = d: seq<Byte> | |d| == 32 witness seq(32, _ => 0)

  const DIGEST_CHARS := 64

  predicate IsHexDigit(c: char) { IsDigit(c) || 'a' <= c <= 'f' || 'A' <= c <= 'F' }

  /** Entry `n` of the table of digits. */
  function HexChar(n: nat): char
    requires n < 16
  {
    if n < 10 then '0' + n as char else 'a' + (n - 10) as char
  }

  /** What a hex digit stands for, in either letter case. */
  function HexValue(c: char): (n: nat)
    requires IsHexDigit(c)
    ensures n < 16
  {
    match c
    case '0' => 0 case '1' => 1 case '2' => 2 case '3' => 3 case '4' => 4
    case '5' => 5 case '6' => 6 case '7' => 7 case '8' => 8 case '9' => 9
    case 'a' => 10 case 'b' => 11 case 'c' => 12 case 'd' => 13 case 'e' => 14 case 'f' => 15
    case 'A' => 10 case 'B' => 11 case 'C' => 12 case 'D' => 13 case 'E' => 14 case _ => 15
  }

  /** The scanner looks for the digits of both tables, and no others. */
  lemma HexDigitsAreThese(c: char)
    ensures IsHexDigit(c) <==>
      || c in {'0', '1', '2', '3', '4', '5', '6', '7', '8', '9'}
      || c in {'a', 'b', 'c', 'd', 'e', 'f'} || c in {'A', 'B', 'C', 'D', 'E', 'F'}
  {
  }

  lemma HexCharValue(n: nat)
    requires n < 16
    ensures IsHexDigit(HexChar(n)) && HexValue(HexChar(n)) == n && HexChar(n) == "0123456789abcdef"[n]
  {
  }

  /** Two characters read in base 16 as a byte, and are not upper case. */
  ghost predicate SpellsByte(hi: char, lo: char, b: Byte) {
    && IsHexDigit(hi) && IsHexDigit(lo) && 16 * HexValue(hi) + HexValue(lo) == b
    && !('A' <= hi <= 'F') && !('A' <= lo <= 'F')
  }

  /** Two characters for every byte, in order. */
  ghost predicate Spelled(s: string, bytes: seq<Byte>) {
    |s| == 2 * |bytes| && forall k :: 0 <= k < |bytes| ==> SpellsByte(s[2 * k], s[2 * k + 1], bytes[k])
  }

  lemma SpelledSnoc(s: string, bytes: seq<Byte>, b: Byte)
    requires Spelled(s, bytes)
    ensures Spelled(s + [HexChar(b / 16)] + [HexChar(b % 16)], bytes + [b])
  {
    var t := s + [HexChar(b / 16)] + [HexChar(b % 16)];
    ByteIsSpelled(b);
    forall k | 0 <= k < |bytes| + 1
      ensures SpellsByte(t[2 * k], t[2 * k + 1], (bytes + [b])[k])
    {
      if k < |bytes| {
        assert t[2 * k] == s[2 * k] && t[2 * k + 1] == s[2 * k + 1];
      }
    }
  }

  lemma ByteIsSpelled(b: Byte)
    ensures SpellsByte(HexChar(b / 16), HexChar(b % 16), b)
  {
    HexCharValue(b / 16);
    HexCharValue(b % 16);
  }

  function HexOf(bytes: seq<Byte>): string {
    if bytes == [] then []
    else HexOf(bytes[..|bytes| - 1]) + [HexChar(bytes[|bytes| - 1] / 16), HexChar(bytes[|bytes| - 1] % 16)]
  }

  /** `hex_encode`: high nibble, then low nibble, of every byte. */
  method HexEncode(bytes: seq<Byte>) returns (s: string)
    ensures s == HexOf(bytes)
    ensures |s| == 2 * |bytes|
    ensures Spelled(s, bytes)
  {
    s := [];
    for i := 0 to |bytes|
      invariant s == HexOf(bytes[..i]) && Spelled(s, bytes[..i])
    {
      SpelledSnoc(s, bytes[..i], bytes[i]);
      assert bytes[..i + 1] == bytes[..i] + [bytes[i]];
      s := s + [HexChar(bytes[i] / 16)];
      s := s + [HexChar(bytes[i] % 16)];
      assert bytes[..i + 1][..i] == bytes[..i];
    }
    assert bytes[..|bytes|] == bytes;
  }

  lemma {:induction false} HexOfShape(bytes: seq<Byte>)
    ensures forall k :: 0 <= k < |HexOf(bytes)| ==> IsHexDigit(HexOf(bytes)[k]) && LowerChar(HexOf(bytes)[k]) == HexOf(bytes)[k]
  {
    if bytes != [] {
      HexOfShape(bytes[..|bytes| - 1]);
      HexCharShape(bytes[|bytes| - 1] / 16);
      HexCharShape(bytes[|bytes| - 1] % 16);
    }
  }

  lemma HexCharInjective(a: nat, b: nat)
    requires a < 16 && b < 16 && HexChar(a) == HexChar(b)
    ensures a == b
  {
  }

  lemma NibblesInjective(x: Byte, y: Byte)
    requires HexChar(x / 16) == HexChar(y / 16) && HexChar(x % 16) == HexChar(y % 16)
    ensures x == y
  {
    HexCharInjective(x / 16, y / 16);
    HexCharInjective(x % 16, y % 16);
    assert x == 16 * (x / 16) + x % 16 && y == 16 * (y / 16) + y % 16;
  }

  lemma HexCharShape(n: nat)
    requires n < 16
    ensures IsHexDigit(HexChar(n)) && LowerChar(HexChar(n)) == HexChar(n)
  {
  }

  lemma {:induction false} HexOfLength(bytes: seq<Byte>)
    ensures |HexOf(bytes)| == 2 * |bytes|
  {
    if bytes != [] {
      HexOfLength(bytes[..|bytes| - 1]);
    }
  }

  lemma HexOfLast(bytes: seq<Byte>)
    requires bytes != []
    ensures
      var s, n, last := HexOf(bytes), |HexOf(bytes)|, bytes[|bytes| - 1];
      && n >= 2 && s[..n - 2] == HexOf(bytes[..|bytes| - 1])
      && s[n - 2] == HexChar(last / 16) && s[n - 1] == HexChar(last % 16)
  {
  }

  /** Printing loses nothing: different digests print differently. */
  lemma {:induction false} HexOfInjective(a: seq<Byte>, b: seq<Byte>)
    requires HexOf(a) == HexOf(b)
    ensures a == b
  {
    HexOfLength(a);
    HexOfLength(b);
    if a != [] {
      var x, y := a[|a| - 1], b[|b| - 1];
      HexOfLast(a);
      HexOfLast(b);
      HexOfInjective(a[..|a| - 1], b[..|b| - 1]);
      NibblesInjective(x, y);
      assert a == a[..|a| - 1] + [x] && b == b[..|b| - 1] + [y];
    }
  }

  // --------------------------------------------------------- the scanner

  /** 64 consecutive hex digits starting at `i`. */
  ghost predicate WindowAt(s: string, i: int) {
    0 <= i && i + DIGEST_CHARS <= |s| && forall k :: i <= k < i + DIGEST_CHARS ==> IsHexDigit(s[k])
  }

  /** What the scanner promises: the lower-cased leftmost window, if there is one. */
  ghost predicate IsLeftmostDigest(s: string, r: Option<string>) {
    match r
    case None => forall i :: !WindowAt(s, i)
    case Some(hex) =>
      exists i :: WindowAt(s, i) && (forall j :: 0 <= j < i ==> !WindowAt(s, j)) && hex == Lower(s[i..i + DIGEST_CHARS])
  }

  /**
   * `extract_sha256_from_body`: one pass that collects a run of hex digits and
   * drops it at the first other character.
   */
  method ExtractSha256(body: Option<string>) returns (r: Option<string>)
    ensures body.None? ==> r == None
    ensures body.Some? ==> IsLeftmostDigest(body.value, r)
  {
    if body.None? {
      return None;
    }
    var s := body.value;
    var hex, started := [], false;
    ghost var start := 0;
    for i := 0 to |s|
      invariant started <==> hex != []
      invariant IsRun(s, start, i, hex)
      invariant NoWindowBefore(s, start)
    {
      if IsHexDigit(s[i]) {
        hex := hex + [LowerChar(s[i])];
        started := true;
        LowerSnoc(s, start, i);
        if |hex| == DIGEST_CHARS {
          assert WindowAt(s, start);
          return Some(hex);
        }
      } else {
        SkipPast(s, start, i);
        start := i + 1;
        if started {
          hex := [];
          started := false;
        }
      }
    }
    assert IsLeftmostDigest(s, None) by {
      assert forall j :: WindowAt(s, j) ==> j >= start;
    }
    return None;
  }

  /** `hex` is the lower-cased run of hex digits from `start` up to `i`, too short to be a digest. */
  ghost predicate IsRun(s: string, start: int, i: int, hex: string) {
    && 0 <= start <= i <= |s|
    && i - start < DIGEST_CHARS
    && hex == Lower(s[start..i])
    && forall k :: start <= k < i ==> IsHexDigit(s[k])
  }

  ghost predicate NoWindowBefore(s: string, start: int) {
    forall j :: 0 <= j < start ==> !WindowAt(s, j)
  }

  lemma LowerSnoc(s: string, start: int, i: int)
    requires 0 <= start <= i < |s|
    ensures Lower(s[start..i]) + [LowerChar(s[i])] == Lower(s[start..i + 1])
  {
  }

  /** No window can contain a character that is not a hex digit. */
  lemma SkipPast(s: string, start: int, i: int)
    requires 0 <= start <= i < |s| && i - start < DIGEST_CHARS && !IsHexDigit(s[i])
    requires NoWindowBefore(s, start)
    ensures NoWindowBefore(s, i + 1)
  {
    forall j | 0 <= j < i + 1
      ensures !WindowAt(s, j)
    {
      if j >= start && WindowAt(s, j) {
        assert false;
      }
    }
  }

  /** At most one answer meets the promise. */
  lemma LeftmostDigestUnique(s: string, a: Option<string>, b: Option<string>)
    requires IsLeftmostDigest(s, a) && IsLeftmostDigest(s, b)
    ensures a == b
  {
    if a.Some? && b.Some? {
      var i :| WindowAt(s, i) && (forall j :: 0 <= j < i ==> !WindowAt(s, j)) && a.value == Lower(s[i..i + DIGEST_CHARS]);
      var k :| WindowAt(s, k) && (forall j :: 0 <= j < k ==> !WindowAt(s, j)) && b.value == Lower(s[k..k + DIGEST_CHARS]);
      assert i == k;
    }
  }

  /**
   * The printed digest is the leftmost window of `prefix + digest + suffix`
   * exactly when the prefix holds no window and does not end in a hex digit.
   */
  lemma DigestIsLeftmostIff(prefix: string, d: Digest256, suffix: string)
    ensures
      var s := prefix + HexOf(d) + suffix;
      && WindowAt(s, |prefix|)
      && ((forall j :: 0 <= j < |prefix| ==> !WindowAt(s, j))
          <==> (forall j :: !WindowAt(prefix, j)) && (prefix == [] || !IsHexDigit(prefix[|prefix| - 1])))
  {
    HexOfShape(d);
    HexOfLength(d);
    var s := prefix + HexOf(d) + suffix;
    var n := |prefix|;
    assert forall k :: 0 <= k < n ==> s[k] == prefix[k];
    assert forall k :: n <= k < n + DIGEST_CHARS ==> s[k] == HexOf(d)[k - n];
    forall j | WindowAt(prefix, j)
      ensures WindowAt(s, j) && 0 <= j < n
    {
    }
    if prefix != [] && IsHexDigit(prefix[n - 1]) {
      assert WindowAt(s, n - 1);
    } else {
      forall j | 0 <= j < n && WindowAt(s, j)
        ensures WindowAt(prefix, j)
      {
        if j + DIGEST_CHARS > n {
          assert false;
        }
      }
    }
  }

  /** Print, embed in release notes, scan: the digest comes back. */
  lemma ScanFindsPrinted(prefix: string, d: Digest256, suffix: string, r: Option<string>)
    requires (forall j :: !WindowAt(prefix, j)) && (prefix == [] || !IsHexDigit(prefix[|prefix| - 1]))
    requires IsLeftmostDigest(prefix + HexOf(d) + suffix, r)
    ensures r == Some(HexOf(d))
  {
    var s := prefix + HexOf(d) + suffix;
    var n := |prefix|;
    DigestIsLeftmostIff(prefix, d, suffix);
    HexOfShape(d);
    HexOfLength(d);
    assert s[n..n + DIGEST_CHARS] == HexOf(d);
    LowerOfHex(d);
    assert IsLeftmostDigest(s, Some(HexOf(d)));
    LeftmostDigestUnique(s, r, Some(HexOf(d)));
  }

  lemma LowerOfHex(bytes: seq<Byte>)
    ensures Lower(HexOf(bytes)) == HexOf(bytes)
  {
    HexOfShape(bytes);
  }

  /** Comparing printed digests is comparing digests, in either letter case. */
  lemma PrintedEqualIffEqual(actual: Digest256, expected: Digest256, text: string)
    requires Lower(text) == HexOf(expected)
    ensures HexOf(actual) == Lower(text) <==> actual == expected
  {
    if HexOf(actual) == Lower(text) {
      HexOfInjective(actual, expected);
    }
  }

  /** A text that is not 64 hex digits long matches no digest at all. */
  lemma NonDigestNeverMatches(actual: Digest256, text: string)
    requires |text| != DIGEST_CHARS || exists k :: 0 <= k < |text| && !IsHexDigit(text[k])
    ensures HexOf(actual) != Lower(text)
  {
    HexOfShape(actual);
    HexOfLength(actual);
    var lower := Lower(text);
    assert forall k :: 0 <= k < |text| && IsHexDigit(lower[k]) ==> IsHexDigit(text[k]);
  }
}
