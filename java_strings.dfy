/**
 * The few `java.lang.String` and `java.lang.Integer` operations the core
 * relies on, stated over `seq<char>`: `split` with a literal separator,
 * `trim`, ASCII `toLowerCase`/`equalsIgnoreCase`, `endsWith`,
 * `Integer.parseInt` and `Integer.toString`.
 */
module JavaStrings {
  import opened Wrappers

  const MinInt: int := -0x8000_0000
  const MaxInt: int := 0x7FFF_FFFF

  /** `sep` occurs in `s` starting at index `i`. */
  predicate MatchAt(s: string, sep: string, i: nat) {
    i + |sep| <= |s| && s[i..i + |sep|] == sep
  }

  /**
   * The pieces between the non-overlapping occurrences of `sep` in `s`,
   * found from the left, keeping empty pieces (so there is always one more
   * piece than there are occurrences).
   */
  function SplitAll(s: string, sep: string): (pieces: seq<string>)
    requires |sep| > 0
    ensures |pieces| >= 1
    decreases |s|
  {
    if |s| < |sep| then [s]
    else if s[..|sep|] == sep then [""] + SplitAll(s[|sep|..], sep)
    else
      var rest := SplitAll(s[1..], sep);
      [[s[0]] + rest[0]] + rest[1..]
  }

  /** `pieces` without its trailing empty strings. */
  function DropTrailingEmpty(pieces: seq<string>): (kept: seq<string>)
  {
    if pieces == [] || pieces[|pieces| - 1] != "" then pieces
    else DropTrailingEmpty(pieces[..|pieces| - 1])
  }

  /** A non-empty piece and everything before it survive the trimming. */
  lemma {:induction false} DropTrailingEmptyKeeps(pieces: seq<string>, j: nat)
    requires j < |pieces| && pieces[j] != ""
    ensures j < |DropTrailingEmpty(pieces)| && DropTrailingEmpty(pieces) <= pieces
    decreases |pieces|
  {
    if pieces[|pieces| - 1] == "" {
      DropTrailingEmptyKeeps(pieces[..|pieces| - 1], j);
    }
  }

  /**
   * `s.split(sep)` for a separator without regular-expression meta
   * characters: no match gives `[s]` (so `"".split(x)` is `[""]`), a match at
   * the start gives a leading empty piece, and trailing empty pieces are
   * removed.
   */
  function Split(s: string, sep: string): seq<string>
    requires |sep| > 0
  {
    if s == "" then [""] else DropTrailingEmpty(SplitAll(s, sep))
  }

  /** Without an occurrence of the separator, splitting yields the whole string. */
  lemma {:induction false} SplitAllNoMatch(s: string, sep: string)
    requires |sep| > 0
    requires forall i: nat :: !MatchAt(s, sep, i)
    ensures SplitAll(s, sep) == [s]
    decreases |s|
  {
    if |s| >= |sep| {
      assert !MatchAt(s, sep, 0);
      forall i: nat ensures !MatchAt(s[1..], sep, i) {
        assert !MatchAt(s, sep, i + 1);
        if i + |sep| <= |s| - 1 {
          assert s[1..][i..i + |sep|] == s[i + 1..i + 1 + |sep|];
        }
      }
      SplitAllNoMatch(s[1..], sep);
      assert [s[0]] + s[1..] == s;
    }
  }

  /** A string none of whose characters starts the separator does not contain it. */
  lemma NoMatchWithoutFirstChar(s: string, sep: string)
    requires |sep| > 0
    requires forall k :: 0 <= k < |s| ==> s[k] != sep[0]
    ensures forall i: nat :: !MatchAt(s, sep, i)
  {
    forall i: nat ensures !MatchAt(s, sep, i) {
      if i + |sep| <= |s| {
        assert s[i..i + |sep|][0] == s[i];
      }
    }
  }

  /**
   * A separator occurrence after a piece free of the separator's first
   * character ends the first piece.
   */
  lemma {:induction false} SplitAllFirst(a: string, sep: string, b: string)
    requires |sep| > 0
    requires forall k :: 0 <= k < |a| ==> a[k] != sep[0]
    ensures SplitAll(a + sep + b, sep) == [a] + SplitAll(b, sep)
    decreases |a|
  {
    var s := a + sep + b;
    if a == [] {
      assert s[..|sep|] == sep && s[|sep|..] == b;
    } else {
      assert s[..|sep|][0] == a[0];
      assert s[1..] == a[1..] + sep + b;
      SplitAllFirst(a[1..], sep, b);
      assert [a[0]] + a[1..] == a;
    }
  }

  /** ASCII lower-casing of one character. */
  function LowerChar(c: char): char {
    if 'A' <= c <= 'Z' then (c as int + 32) as char else c
  }

  /** `s.toLowerCase(Locale.ROOT)`, restricted to ASCII letters. */
  function Lower(s: string): (r: string)
    ensures |r| == |s|
    ensures forall i :: 0 <= i < |s| ==> r[i] == LowerChar(s[i])
  {
    if s == [] then [] else [LowerChar(s[0])] + Lower(s[1..])
  }

  /** Lower-casing works piece by piece. */
  lemma LowerConcat(a: string, b: string)
    ensures Lower(a + b) == Lower(a) + Lower(b)
  {
    var l, r := Lower(a + b), Lower(a) + Lower(b);
    assert |l| == |r|;
    forall i | 0 <= i < |l| ensures l[i] == r[i] {
      if i < |a| {
        assert (a + b)[i] == a[i];
      } else {
        assert (a + b)[i] == b[i - |a|];
      }
    }
  }

  /** Lower-casing twice is lower-casing once. */
  lemma LowerIdempotent(a: string)
    ensures Lower(Lower(a)) == Lower(a)
  {
    var l, r := Lower(Lower(a)), Lower(a);
    assert |l| == |r|;
    forall i | 0 <= i < |l| ensures l[i] == r[i] {
      assert l[i] == LowerChar(LowerChar(a[i]));
    }
  }

  /** `s.endsWith(suffix)`. */
  predicate EndsWith(s: string, suffix: string) {
    |suffix| <= |s| && s[|s| - |suffix|..] == suffix
  }

  /** `a.equalsIgnoreCase(b)`, restricted to ASCII letters. */
  predicate EqualsIgnoreCase(a: string, b: string) {
    |a| == |b| && Lower(a) == Lower(b)
  }

  /** `s` with its leading characters up to U+0020 removed. */
  function TrimStart(s: string): (r: string)
    ensures |r| <= |s| && r == s[|s| - |r|..]
  {
    if s != [] && s[0] <= ' ' then TrimStart(s[1..]) else s
  }

  /** `s` with its trailing characters up to U+0020 removed. */
  function TrimEnd(s: string): (r: string)
    ensures |r| <= |s| && r == s[..|r|]
  {
    if s != [] && s[|s| - 1] <= ' ' then TrimEnd(s[..|s| - 1]) else s
  }

  /** `s.trim()`. */
  function Trim(s: string): string {
    TrimEnd(TrimStart(s))
  }

  /** Every character of `s` is at most U+0020. */
  predicate IsBlank(s: string) {
    forall i :: 0 <= i < |s| ==> s[i] <= ' '
  }

  /** `s.trim().isEmpty()` holds exactly when every character of `s` is at most U+0020. */
  lemma {:induction false} TrimEmptyIffBlank(s: string)
    ensures Trim(s) == "" <==> IsBlank(s)
  {
    TrimStartBlank(s);
    var t := TrimStart(s);
    if t != "" {
      assert t[0] > ' ';
      TrimEndKeepsFirst(t);
    }
  }

  lemma TrimStartBlank(s: string)
    ensures TrimStart(s) == "" <==> IsBlank(s)
    ensures TrimStart(s) != "" ==> TrimStart(s)[0] > ' '
  {
    TrimStartFirst(s);
    TrimStartDropsBlank(s);
    var r := TrimStart(s);
    if r != "" {
      assert s[|s| - |r|] == r[0];
    }
  }

  /** What `TrimStart` keeps starts with a character above U+0020. */
  lemma {:induction false} TrimStartFirst(s: string)
    ensures TrimStart(s) != "" ==> TrimStart(s)[0] > ' '
  {
    if s != [] && s[0] <= ' ' {
      TrimStartFirst(s[1..]);
    }
  }

  /** What `TrimStart` drops is blank. */
  lemma {:induction false} TrimStartDropsBlank(s: string)
    ensures forall i :: 0 <= i < |s| - |TrimStart(s)| ==> s[i] <= ' '
  {
    if s != [] && s[0] <= ' ' {
      TrimStartDropsBlank(s[1..]);
      forall i | 1 <= i < |s| - |TrimStart(s)|
        ensures s[i] <= ' '
      {
        assert s[i] == s[1..][i - 1];
      }
    }
  }

  lemma {:induction false} TrimEndKeepsFirst(t: string)
    requires t != [] && t[0] > ' '
    ensures TrimEnd(t) != ""
  {
    if t[|t| - 1] <= ' ' {
      assert |t| > 1;
      TrimEndKeepsFirst(t[..|t| - 1]);
    }
  }

  predicate IsDigit(c: char) {
    '0' <= c <= '9'
  }

  /** Every character of `s` is a decimal digit (checked from the end, as `DigitsValue` reads them). */
  predicate AllDigits(s: string) {
    s == [] || (IsDigit(s[|s| - 1]) && AllDigits(s[..|s| - 1]))
  }

  lemma {:induction false} AllDigitsAt(s: string)
    requires AllDigits(s)
    ensures forall i :: 0 <= i < |s| ==> IsDigit(s[i])
  {
    if s != [] {
      AllDigitsAt(s[..|s| - 1]);
      assert forall i :: 0 <= i < |s| - 1 ==> s[i] == s[..|s| - 1][i];
    }
  }

  /** The value of a decimal digit string. */
  function DigitsValue(s: string): nat
    requires AllDigits(s)
  {
    if s == [] then 0 else DigitsValue(s[..|s| - 1]) * 10 + (s[|s| - 1] as int - '0' as int)
  }

  /**
   * `Integer.parseInt(s)`: an optional sign followed by at least one decimal
   * digit, with a value that fits in 32 bits; `None` stands for the
   * `NumberFormatException`.
   */
  function ParseInt(s: string): (r: Option<int>)
    ensures r.Some? ==> MinInt <= r.value <= MaxInt
  {
    if |s| == 0 then None
    else
      var signed := s[0] == '-' || s[0] == '+';
      var digits := if signed then s[1..] else s;
      if |digits| == 0 || !AllDigits(digits) then None
      else
        var v: int := if s[0] == '-' then 0 - DigitsValue(digits) as int else DigitsValue(digits);
        if MinInt <= v <= MaxInt then Some(v) else None
  }

  /** The decimal digits of `n`, without leading zeros. */
  function NatToString(n: nat): (s: string)
    ensures |s| >= 1 && AllDigits(s)
  {
    if n < 10 then [('0' as int + n) as char]
    else
      var front := NatToString(n / 10);
      var s := front + [('0' as int + n % 10) as char];
      assert s[..|s| - 1] == front;
      s
  }

  /** `Integer.toString(n)`, as used by string concatenation. */
  function IntToString(n: int): (s: string)
    ensures |s| >= 1
    ensures forall i :: 0 <= i < |s| ==> IsDigit(s[i]) || s[i] == '-'
  {
    AllDigitsAt(NatToString(if n < 0 then -n else n));
    if n < 0 then "-" + NatToString(-n) else NatToString(n)
  }

  lemma {:induction false} NatToStringValue(n: nat)
    ensures DigitsValue(NatToString(n)) == n
  {
    if n >= 10 {
      NatToStringValue(n / 10);
      var s := NatToString(n);
      assert s[..|s| - 1] == NatToString(n / 10);
    }
  }

  /** Parsing the decimal form of a 32-bit integer gives the integer back. */
  lemma ParseIntToString(n: int)
    requires MinInt <= n <= MaxInt
    ensures ParseInt(IntToString(n)) == Some(n)
  {
    if n < 0 {
      NatToStringValue(-n);
      ParseNegative(NatToString(-n));
    } else {
      NatToStringValue(n);
      ParseUnsigned(NatToString(n));
    }
  }

  /** A digit string of at most `MaxInt` parses to its value. */
  lemma ParseUnsigned(digits: string)
    requires |digits| >= 1 && AllDigits(digits) && DigitsValue(digits) <= MaxInt
    ensures ParseInt(digits) == Some(DigitsValue(digits))
  {
    AllDigitsAt(digits);
    assert IsDigit(digits[0]);
  }

  /** `-` followed by a digit string of at most `-MinInt` parses to minus its value. */
  lemma ParseNegative(digits: string)
    requires |digits| >= 1 && AllDigits(digits) && DigitsValue(digits) <= -MinInt
    ensures ParseInt("-" + digits) == Some(0 - DigitsValue(digits))
  {
    var s := "-" + digits;
    assert s[0] == '-' && s[1..] == digits;
  }


}
