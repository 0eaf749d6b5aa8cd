/**
 * The string primitives the sources take from Rust's standard library:
 * `str::split`, the integer `FromStr` implementations, `to_ascii_lowercase`
 * and decimal `Display`.
 */
module Text {
  import opened Common

  /** The separator patterns used by the callers of `str::split`. */
  datatype Separator = OneOf(chars: set<char>) | NonDigit
  {
    predicate Matches(c: char) {
      match this
      case OneOf(chars) => c in chars
      case NonDigit => !IsDigit(c)
    }
  }

  predicate IsDigit(c: char) { '0' <= c <= '9' }

  predicate Clean(s: string, sep: Separator) {
    forall k :: 0 <= k < |s| ==> !sep.Matches(s[k])
  }

  /** `s.split(sep)`: one more piece than there are separators. */
  function Split(s: string, sep: Separator): (pieces: seq<string>)
    ensures pieces != []
  {
    if s == [] then [[]]
    else
      var rest := Split(s[1..], sep);
      if sep.Matches(s[0]) then [[]] + rest
      else [[s[0]] + rest[0]] + rest[1..]
  }

  /** No piece contains a separator. */
  lemma {:induction false} SplitPiecesClean(s: string, sep: Separator)
    ensures forall k :: 0 <= k < |Split(s, sep)| ==> Clean(Split(s, sep)[k], sep)
  {
    if s != [] {
      SplitPiecesClean(s[1..], sep);
    }
  }

  lemma {:induction false} SplitClean(s: string, sep: Separator)
    requires Clean(s, sep)
    ensures Split(s, sep) == [s]
  {
    if s != [] {
      SplitClean(s[1..], sep);
      assert [s[0]] + s[1..] == s;
    }
  }

  lemma CleanConcat(a: string, b: string, sep: Separator)
    requires Clean(a, sep) && Clean(b, sep)
    ensures Clean(a + b, sep)
  {
  }

  lemma DigitsAreClean(s: string, seps: set<char>)
    requires AllDigits(s) && forall c :: c in seps ==> !IsDigit(c)
    ensures Clean(s, OneOf(seps))
  {
  }

  /** Splitting at the first separator. */
  lemma {:induction false} SplitAt(piece: string, c: char, rest: string, sep: Separator)
    requires Clean(piece, sep) && sep.Matches(c)
    ensures Split(piece + [c] + rest, sep) == [piece] + Split(rest, sep)
  {
    var s := piece + [c] + rest;
    if piece == [] {
      assert s[1..] == rest;
    } else {
      assert s[1..] == piece[1..] + [c] + rest;
      SplitAt(piece[1..], c, rest, sep);
      assert [piece[0]] + piece[1..] == piece;
    }
  }

  /** The first piece ends at the first separator, or with the text. */
  ghost predicate Opens(tail: string, sep: Separator) {
    tail == [] || sep.Matches(tail[0])
  }

  lemma {:induction false} SplitFirst(s: string, sep: Separator) returns (tail: string)
    ensures s == Split(s, sep)[0] + tail && Clean(Split(s, sep)[0], sep) && Opens(tail, sep)
    ensures Split(s, sep)[1..] == if tail == [] then [] else Split(tail[1..], sep)
  {
    if s == [] {
      tail := [];
    } else if sep.Matches(s[0]) {
      tail := s;
    } else {
      tail := SplitFirst(s[1..], sep);
      assert s == [s[0]] + s[1..];
    }
  }

  lemma SplitBy(piece: string, tail: string, sep: Separator)
    requires Clean(piece, sep) && Opens(tail, sep)
    ensures Split(piece + tail, sep) == [piece] + if tail == [] then [] else Split(tail[1..], sep)
  {
    if tail == [] {
      assert piece + tail == piece;
      SplitClean(piece, sep);
    } else {
      assert piece + tail == piece + [tail[0]] + tail[1..];
      SplitAt(piece, tail[0], tail[1..], sep);
    }
  }

  // ---------------------------------------------------------------- numbers

  function DigitValue(c: char): nat
    requires IsDigit(c)
  {
    (c - '0') as nat
  }

  function DigitChar(n: nat): char
    requires n < 10
  {
    '0' + n as char
  }

  lemma DigitTable(n: nat)
    requires n < 10
    ensures DigitChar(n) == "0123456789"[n] && IsDigit(DigitChar(n)) && DigitValue(DigitChar(n)) == n
  {
  }

  lemma DigitsInTable(c: char)
    ensures IsDigit(c) <==> c in "0123456789"
  {
    if IsDigit(c) {
      assert c == "0123456789"[DigitValue(c)];
    }
  }

  predicate AllDigits(s: string) {
    forall k :: 0 <= k < |s| ==> IsDigit(s[k])
  }

  function DigitsValue(s: string): nat
    requires AllDigits(s)
  {
    if s == [] then 0
    else DigitsValue(s[..|s| - 1]) * 10 + DigitValue(s[|s| - 1])
  }

  function PowerOfTen(n: nat): nat {
    if n == 0 then 1 else 10 * PowerOfTen(n - 1)
  }

  /** A digit in front counts as often as the power of ten of its place says. */
  lemma {:induction false} PlaceValue(c: char, s: string)
    requires IsDigit(c) && AllDigits(s)
    ensures DigitsValue([c] + s) == DigitValue(c) * PowerOfTen(|s|) + DigitsValue(s)
  {
    var whole := [c] + s;
    if s == [] {
      assert whole[..0] == [];
    } else {
      var n := |s| - 1;
      assert whole[..|whole| - 1] == [c] + s[..n];
      PlaceValue(c, s[..n]);
      assert DigitValue(c) * PowerOfTen(n + 1) == 10 * (DigitValue(c) * PowerOfTen(n));
    }
  }

  /** `Display` of an unsigned integer. */
  function Decimal(n: nat): string {
    if n < 10 then [DigitChar(n)] else Decimal(n / 10) + [DigitChar(n % 10)]
  }

  /**
   * `str::parse` of an unsigned integer type with the given maximum: one
   * optional `+`, at least one digit, no overflow.
   */
  function ParseUnsigned(s: string, max: nat): Option<nat> {
    var body := if s != [] && s[0] == '+' then s[1..] else s;
    if body == [] || !AllDigits(body) then None
    else
      var v := DigitsValue(body);
      if v <= max then Some(v) else None
  }

  /** `str::parse::<i32>`. */
  function ParseI32(s: string): Option<int> {
    if s != [] && s[0] == '-' then
      var body := s[1..];
      if body == [] || !AllDigits(body) then None
      else
        var v: int := DigitsValue(body);
        if v <= I32_MAX + 1 then Some(-v) else None
    else
      match ParseUnsigned(s, I32_MAX)
      case Some(v) => Some(v)
      case None => None
  }

  lemma {:induction false} DecimalValue(n: nat)
    ensures Decimal(n) != [] && AllDigits(Decimal(n))
    ensures DigitsValue(Decimal(n)) == n
  {
    if n >= 10 {
      DecimalValue(n / 10);
      var s := Decimal(n);
      assert s[..|s| - 1] == Decimal(n / 10);
    } else {
      assert Decimal(n)[..0] == [];
    }
  }

  /** A nonempty run of digits parses to its value, unless that overflows. */
  lemma ParseDigits(s: string, max: nat)
    requires s != [] && AllDigits(s)
    ensures ParseUnsigned(s, max) == if DigitsValue(s) <= max then Some(DigitsValue(s)) else None
  {
    assert IsDigit(s[0]);
  }

  /** Printing an integer and parsing it gives the integer back. */
  lemma ParseDecimal(n: nat, max: nat)
    requires n <= max
    ensures ParseUnsigned(Decimal(n), max) == Some(n)
  {
    DecimalValue(n);
    ParseDigits(Decimal(n), max);
  }

  /** A number as the parser reads it: a sign and zeros in front make no difference. */
  ghost predicate Spells(text: string, n: nat) {
    exists plus: bool, zeros: nat :: text == Spelling(plus, zeros, n)
  }

  function Signed(plus: bool, digits: string): string { if plus then "+" + digits else digits }

  function Spelling(plus: bool, zeros: nat, n: nat): string {
    Signed(plus, Zeros(zeros) + Decimal(n))
  }

  function Zeros(n: nat): string { seq(n, _ => '0') }

  lemma {:induction false} ZerosInFront(zeros: nat, n: nat)
    ensures
      var s := Zeros(zeros) + Decimal(n);
      s != [] && AllDigits(s) && DigitsValue(s) == n
    decreases n
  {
    DecimalValue(n);
    var pad := Zeros(zeros);
    var s := pad + Decimal(n);
    if n >= 10 {
      ZerosInFront(zeros, n / 10);
      assert s[..|s| - 1] == pad + Decimal(n / 10);
    } else {
      assert s[..|s| - 1] == pad;
      ZerosAreZero(zeros);
    }
  }

  lemma {:induction false} ZerosAreZero(zeros: nat)
    ensures AllDigits(Zeros(zeros)) && DigitsValue(Zeros(zeros)) == 0
  {
    if zeros > 0 {
      ZerosAreZero(zeros - 1);
      assert Zeros(zeros)[..zeros - 1] == Zeros(zeros - 1);
    }
  }

  lemma NextDigit(s: string)
    requires s != [] && AllDigits(s)
    ensures
      var init, last := s[..|s| - 1], s[|s| - 1];
      && s == init + [last] && AllDigits(init)
      && DigitsValue(s) / 10 == DigitsValue(init) && last == DigitChar(DigitsValue(s) % 10)
  {
    assert DigitChar(DigitValue(s[|s| - 1])) == s[|s| - 1];
  }

  /** Digits of value `n` are zeros followed by the decimal of `n`. */
  lemma {:induction false} DigitsAreSpelling(s: string) returns (zeros: nat)
    requires s != [] && AllDigits(s)
    ensures s == Zeros(zeros) + Decimal(DigitsValue(s))
  {
    var init, last := s[..|s| - 1], s[|s| - 1];
    NextDigit(s);
    zeros := 0;
    if init != [] {
      zeros := DigitsAreSpelling(init);
      if DigitsValue(init) == 0 {
        assert Zeros(zeros + 1) == Zeros(zeros) + "0" == Zeros(zeros) + Decimal(0);
        zeros := zeros + 1;
      }
    }
  }

  lemma ParseSigned(plus: bool, digits: string, max: nat)
    requires digits != [] && digits[0] != '+'
    ensures ParseUnsigned(Signed(plus, digits), max) == ParseUnsigned(digits, max)
  {
    assert plus ==> Signed(plus, digits)[1..] == digits;
  }

  lemma ParsedIsSpelled(text: string, max: nat, n: nat)
    requires ParseUnsigned(text, max) == Some(n)
    ensures Spells(text, n)
  {
    var plus := text[0] == '+';
    var digits := if plus then text[1..] else text;
    assert digits != [] && AllDigits(digits) && DigitsValue(digits) == n;
    var zeros := DigitsAreSpelling(digits);
    assert text == Signed(plus, digits);
    assert text == Spelling(plus, zeros, n);
  }

  lemma SpelledIsParsed(plus: bool, zeros: nat, n: nat, max: nat)
    requires n <= max
    ensures ParseUnsigned(Spelling(plus, zeros, n), max) == Some(n)
  {
    var digits := Zeros(zeros) + Decimal(n);
    ZerosInFront(zeros, n);
    assert IsDigit(digits[0]);
    ParseDigits(digits, max);
    ParseSigned(plus, digits, max);
  }

  /** A number is read exactly from its spellings, up to the maximum of its type. */
  lemma ParsesIffSpells(text: string, max: nat, n: nat)
    ensures ParseUnsigned(text, max) == Some(n) <==> n <= max && Spells(text, n)
  {
    if ParseUnsigned(text, max) == Some(n) {
      ParsedIsSpelled(text, max, n);
    }
    if plus: bool, zeros: nat :| n <= max && text == Spelling(plus, zeros, n) {
      SpelledIsParsed(plus, zeros, n, max);
    }
  }

  function TwoDigits(n: nat): string
    requires n < 100
  {
    [DigitChar(n / 10), DigitChar(n % 10)]
  }

  function FourDigits(n: nat): string
    requires n < 10000
  {
    TwoDigits(n / 100) + TwoDigits(n % 100)
  }

  lemma TwoDigitsValue(n: nat)
    requires n < 100
    ensures AllDigits(TwoDigits(n)) && DigitsValue(TwoDigits(n)) == n
  {
    var s := TwoDigits(n);
    assert s[..1] == [DigitChar(n / 10)];
    assert s[..1][..0] == [];
    assert DigitsValue(s[..1]) == n / 10;
  }

  lemma FourDigitsValue(n: nat)
    requires n < 10000
    ensures AllDigits(FourDigits(n)) && DigitsValue(FourDigits(n)) == n
  {
    var s := FourDigits(n);
    var hi, lo := n / 100, n % 100;
    TwoDigitsValue(hi);
    assert s[..3] == TwoDigits(hi) + [DigitChar(lo / 10)];
    assert s[..3][..2] == TwoDigits(hi);
    assert DigitsValue(s[..3]) == hi * 10 + lo / 10;
  }

  // ------------------------------------------------------------- characters

  function LowerChar(c: char): (r: char)
    ensures 'A' <= c <= 'Z' ==> 'a' <= r <= 'z' && r - 'a' == c - 'A'
    ensures !('A' <= c <= 'Z') ==> r == c
  {
    if 'A' <= c <= 'Z' then c + ' ' else c
  }

  /** `to_ascii_lowercase`. */
  function Lower(s: string): (r: string)
    ensures |r| == |s|
    ensures forall k :: 0 <= k < |s| ==> r[k] == LowerChar(s[k])
  {
    seq(|s|, k requires 0 <= k < |s| => LowerChar(s[k]))
  }
}
