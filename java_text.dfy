/**
 * The parts of java.lang.String and java.lang.Integer that the LSA sources rely on when
 * they write and read their text formats: `String.split` with a one-character separator
 * class (`" "`, `"\\s"`) and with a run of separators (`"\\s+"`), both with Java's default
 * limit of 0, `Integer.toString` and `Integer.parseInt` / `Integer.valueOf` in radix 10.
 */
module JavaText {
  import opened Results

  /** The class `\s` of java.util.regex without flags. */
  predicate IsWhitespace(c: char) {
    c == ' ' || c == '\t' || c == '\n' || c == '\U{B}' || c == '\U{C}' || c == '\r'
  }

  /** The one-character regular expression `" "`. */
  predicate IsSpace(c: char) {
    c == ' '
  }

  predicate HasSeparator(s: string, isSep: char -> bool) {
    exists i :: 0 <= i < |s| && isSep(s[i])
  }

  predicate Avoids(s: string, isSep: char -> bool) {
    forall i :: 0 <= i < |s| ==> !isSep(s[i])
  }

  /** Position of the leftmost separator. */
  function FirstSeparator(s: string, isSep: char -> bool): (i: nat)
    requires HasSeparator(s, isSep)
    ensures i < |s| && isSep(s[i])
    ensures Avoids(s[..i], isSep)
  {
    if isSep(s[0]) then 0
    else
      assert HasSeparator(s[1..], isSep) by {
        var k :| 0 <= k < |s| && isSep(s[k]);
        assert s[1..][k - 1] == s[k];
      }
      var j := FirstSeparator(s[1..], isSep);
      assert s[..j + 1] == [s[0]] + s[1..][..j];
      j + 1
  }

  /** The substrings around every separator character, before any empty string is dropped. */
  function Pieces(s: string, isSep: char -> bool): (r: seq<string>)
    ensures |r| >= 1
    ensures forall k :: 0 <= k < |r| ==> Avoids(r[k], isSep)
    decreases |s|
  {
    if !HasSeparator(s, isSep) then [s]
    else
      var i := FirstSeparator(s, isSep);
      [s[..i]] + Pieces(s[i + 1..], isSep)
  }

  /** Java's limit-0 rule: trailing empty strings are removed from the result. */
  function DropTrailingEmpty(xs: seq<string>): (r: seq<string>)
    ensures |r| <= |xs| && r == xs[..|r|]
    ensures |r| > 0 ==> r[|r| - 1] != ""
    ensures forall k :: |r| <= k < |xs| ==> xs[k] == ""
  {
    if |xs| > 0 && xs[|xs| - 1] == "" then DropTrailingEmpty(xs[..|xs| - 1]) else xs
  }

  function NonEmpty(xs: seq<string>): (r: seq<string>)
    ensures forall k :: 0 <= k < |r| ==> r[k] != ""
  {
    if xs == [] then []
    else if xs[0] == "" then NonEmpty(xs[1..])
    else [xs[0]] + NonEmpty(xs[1..])
  }

  /** The filter keeps exactly the nonempty members. */
  lemma {:induction false} NonEmptyMembers(xs: seq<string>, w: string)
    ensures w in NonEmpty(xs) <==> w in xs && w != ""
  {
    if xs != [] {
      NonEmptyMembers(xs[1..], w);
      assert xs == [xs[0]] + xs[1..];
    }
  }

  /**
   * `s.split(sep)` for a pattern matching exactly one character: a string without a match
   * is returned whole (even the empty string), otherwise the pieces without the trailing
   * empty ones; a leading empty piece is kept.
   */
  function Split(s: string, isSep: char -> bool): seq<string> {
    if !HasSeparator(s, isSep) then [s] else DropTrailingEmpty(Pieces(s, isSep))
  }

  /**
   * `s.split(sep + "+")`: a maximal run of separators is one match, so the pieces between
   * runs are never empty; an empty leading piece (the string starts with a separator) is kept.
   */
  function SplitRuns(s: string, isSep: char -> bool): seq<string> {
    if !HasSeparator(s, isSep) then [s]
    else
      var p := Pieces(s, isSep);
      DropTrailingEmpty([p[0]] + NonEmpty(p[1..]))
  }

  /** The strings with one separator character between neighbours. */
  function Join(xs: seq<string>, sep: char): string {
    if |xs| == 0 then ""
    else if |xs| == 1 then xs[0]
    else xs[0] + [sep] + Join(xs[1..], sep)
  }

  lemma {:induction false} JoinAppend(xs: seq<string>, x: string, sep: char)
    requires |xs| >= 1
    ensures Join(xs + [x], sep) == Join(xs, sep) + [sep] + x
  {
    if |xs| == 1 {
      assert (xs + [x])[1..] == [x];
    } else {
      assert (xs + [x])[1..] == xs[1..] + [x];
      JoinAppend(xs[1..], x, sep);
    }
  }

  lemma {:induction false} PiecesOfJoin(xs: seq<string>, sep: char, isSep: char -> bool)
    requires |xs| >= 1 && isSep(sep)
    requires forall k :: 0 <= k < |xs| ==> Avoids(xs[k], isSep)
    ensures Pieces(Join(xs, sep), isSep) == xs
  {
    if |xs| == 1 {
      assert !HasSeparator(xs[0], isSep);
    } else {
      var s := Join(xs, sep);
      var n := |xs[0]|;
      assert s == xs[0] + [sep] + Join(xs[1..], sep);
      assert s[n] == sep;
      assert HasSeparator(s, isSep);
      var i := FirstSeparator(s, isSep);
      assert i == n;
      assert s[..n] == xs[0];
      assert s[n + 1..] == Join(xs[1..], sep);
      PiecesOfJoin(xs[1..], sep, isSep);
      assert [xs[0]] + xs[1..] == xs;
    }
  }

  /** Splitting what `Join` wrote gives back the pieces, when none is split further and the last is not empty. */
  lemma SplitOfJoin(xs: seq<string>, sep: char, isSep: char -> bool)
    requires |xs| >= 1 && isSep(sep) && xs[|xs| - 1] != ""
    requires forall k :: 0 <= k < |xs| ==> Avoids(xs[k], isSep)
    ensures Split(Join(xs, sep), isSep) == xs
  {
    PiecesOfJoin(xs, sep, isSep);
    if |xs| == 1 {
      assert !HasSeparator(xs[0], isSep);
    } else {
      var s := Join(xs, sep);
      assert s == xs[0] + [sep] + Join(xs[1..], sep);
      assert s[|xs[0]|] == sep;
    }
  }

  lemma {:induction false} NonEmptyOfNonEmpty(xs: seq<string>)
    requires forall k :: 0 <= k < |xs| ==> xs[k] != ""
    ensures NonEmpty(xs) == xs
  {
    if xs != [] {
      NonEmptyOfNonEmpty(xs[1..]);
    }
  }

  /** Splitting on runs what `Join` wrote gives back the pieces when none is empty. */
  lemma SplitRunsOfJoin(xs: seq<string>, sep: char, isSep: char -> bool)
    requires |xs| >= 1 && isSep(sep)
    requires forall k :: 0 <= k < |xs| ==> xs[k] != "" && Avoids(xs[k], isSep)
    ensures SplitRuns(Join(xs, sep), isSep) == xs
  {
    PiecesOfJoin(xs, sep, isSep);
    if |xs| == 1 {
      assert !HasSeparator(xs[0], isSep);
    } else {
      var s := Join(xs, sep);
      assert s == xs[0] + [sep] + Join(xs[1..], sep);
      assert s[|xs[0]|] == sep;
      NonEmptyOfNonEmpty(xs[1..]);
      assert [xs[0]] + xs[1..] == xs;
    }
  }

  // ---------------------------------------------------------------------------------
  // Integers

  const IntMin: int := -0x8000_0000
  const IntMax: int := 0x7fff_ffff

  /** The range of a Java `int`. */
  predicate IsInt(n: int) {
    IntMin <= n <= IntMax
  }

  predicate IsDigit(c: char) {
    '0' <= c <= '9'
  }

  predicate AllDigits(s: string) {
    forall i :: 0 <= i < |s| ==> IsDigit(s[i])
  }

  function DigitChar(d: nat): (c: char)
    requires d < 10
    ensures IsDigit(c) && c as int - '0' as int == d
  {
    ('0' as int + d) as char
  }

  /** Decimal digits of `n` without leading zeros. */
  function NaturalText(n: nat): (s: string)
    ensures |s| >= 1 && AllDigits(s)
  {
    if n < 10 then [DigitChar(n)] else NaturalText(n / 10) + [DigitChar(n % 10)]
  }

  /** `Integer.toString(n)`. */
  function IntText(n: int): string {
    if n < 0 then "-" + NaturalText(-n) else NaturalText(n)
  }

  /** What `Integer.toString` writes is never empty and holds no whitespace. */
  lemma IntTextIsOneField(n: int)
    ensures |IntText(n)| >= 1 && Avoids(IntText(n), IsWhitespace)
  {
    var s := IntText(n);
    if n < 0 {
      var t := NaturalText(-n);
      assert s == "-" + t;
      forall i | 0 <= i < |s| ensures !IsWhitespace(s[i]) {
        if i > 0 {
          assert s[i] == t[i - 1];
        }
      }
    }
  }

  function DigitsValue(s: string): nat
    requires AllDigits(s)
  {
    if |s| == 0 then 0 else 10 * DigitsValue(s[..|s| - 1]) + (s[|s| - 1] as int - '0' as int)
  }

  /**
   * `Integer.parseInt(s)` (and `Integer.valueOf(s)`): an optional sign, at least one
   * decimal digit, and a value inside the `int` range; anything else is a
   * NumberFormatException, here None.
   */
  function ParseInt(s: string): (r: Option<int>)
    ensures r.Some? ==> IsInt(r.value)
  {
    if |s| == 0 then None
    else
      var digits := if s[0] == '-' || s[0] == '+' then s[1..] else s;
      if |digits| == 0 || !AllDigits(digits) then None
      else
        var v: int := if s[0] == '-' then 0 - DigitsValue(digits) as int else DigitsValue(digits);
        if IsInt(v) then Some(v) else None
  }

  lemma {:induction false} NaturalTextValue(n: nat)
    ensures DigitsValue(NaturalText(n)) == n
  {
    if n >= 10 {
      var s := NaturalText(n);
      assert s[..|s| - 1] == NaturalText(n / 10);
      NaturalTextValue(n / 10);
    }
  }

  /** Reading back what `Integer.toString` wrote gives the same `int`. */
  lemma IntTextRoundTrip(n: int)
    requires IsInt(n)
    ensures ParseInt(IntText(n)) == Some(n)
  {
    var s := IntText(n);
    if n < 0 {
      var t := NaturalText(-n);
      NaturalTextValue(-n);
      assert s == "-" + t && s[0] == '-' && s[1..] == t;
      assert AllDigits(t) && DigitsValue(t) == -n;
    } else {
      NaturalTextValue(n);
      assert s == NaturalText(n) && IsDigit(s[0]);
    }
  }
}
