/** The string primitives of Python that the request-assembly code relies on:
    `str.isspace`/`str.strip`, `str.split(sep)`, `str.lower`, the substring
    test `p in s`, and `str(n)` for a natural number. */
module Text {

  // ---------------------------------------------------------------------------
  // Whitespace and strip
  // ---------------------------------------------------------------------------

  /** The characters Python's `str.isspace` accepts: the ASCII controls
      TAB, LF, VT, FF, CR, the separators U+001C..U+001F, SPACE, NEL, NBSP
      and the Unicode space separators. */
  predicate IsSpace(c: char) {
    || c == ' '
    || '\t' <= c <= '\r'
    || '\U{001C}' <= c <= '\U{001F}'
    || c == '\U{0085}' || c == '\U{00A0}' || c == '\U{1680}'
    || '\U{2000}' <= c <= '\U{200A}'
    || c == '\U{2028}' || c == '\U{2029}' || c == '\U{202F}'
    || c == '\U{205F}' || c == '\U{3000}'
  }

  /** `s.lstrip()`: the longest suffix of `s` not starting with whitespace. */
  function StripLeft(s: string): (r: string)
    ensures |r| <= |s| && r == s[|s| - |r|..]
    ensures forall k :: 0 <= k < |s| - |r| ==> IsSpace(s[k])
    ensures r != [] ==> !IsSpace(r[0])
  {
    if |s| > 0 && IsSpace(s[0]) then StripLeft(s[1..]) else s
  }

  /** `s.rstrip()`: the longest prefix of `s` not ending with whitespace. */
  function StripRight(s: string): (r: string)
    ensures |r| <= |s| && r == s[..|r|]
    ensures forall k :: |r| <= k < |s| ==> IsSpace(s[k])
    ensures r != [] ==> !IsSpace(r[|r| - 1])
  {
    if |s| > 0 && IsSpace(s[|s| - 1]) then StripRight(s[..|s| - 1]) else s
  }

  /** `r` is `s[i..i + |r|]` and everything of `s` outside that window is
      whitespace. */
  predicate IsWindow(s: string, i: int, r: string) {
    && 0 <= i <= |s| - |r|
    && r == s[i..i + |r|]
    && (forall k :: 0 <= k < i ==> IsSpace(s[k]))
    && (forall k :: i + |r| <= k < |s| ==> IsSpace(s[k]))
  }

  /** `s.strip()`: `s` with all leading and trailing whitespace removed. */
  function Strip(s: string): (r: string)
    ensures exists i :: IsWindow(s, i, r)
    ensures r != [] ==> !IsSpace(r[0]) && !IsSpace(r[|r| - 1])
  {
    var left := StripLeft(s);
    var r := StripRight(left);
    assert IsWindow(s, |s| - |left|, r);
    r
  }

  /** Strip leaves nothing exactly when every character is whitespace. */
  lemma {:induction false} StripEmptyIff(s: string)
    ensures Strip(s) == [] <==> forall k :: 0 <= k < |s| ==> IsSpace(s[k])
  {
    var r := Strip(s);
    var i :| IsWindow(s, i, r);
    if r == [] {
      forall k | 0 <= k < |s| ensures IsSpace(s[k]) {
        assert k < i || i + |r| <= k;
      }
    } else {
      assert s[i] == r[0];
    }
  }

  /** A string with no whitespace at either end is its own strip. */
  lemma StripTrimmed(s: string)
    requires s != [] ==> !IsSpace(s[0]) && !IsSpace(s[|s| - 1])
    ensures Strip(s) == s
  {
    var left := StripLeft(s);
    assert left == s by {
      if s != [] {
        assert !IsSpace(s[0]);
      }
    }
    assert StripRight(left) == s by {
      if s != [] {
        assert !IsSpace(s[|s| - 1]);
      }
    }
  }

  /** Stripping twice is stripping once. */
  lemma StripIdempotent(s: string)
    ensures Strip(Strip(s)) == Strip(s)
  {
    StripTrimmed(Strip(s));
  }

  // ---------------------------------------------------------------------------
  // Split and join on one separator character
  // ---------------------------------------------------------------------------

  /** `s.split(sep)` for a one-character separator: the pieces between the
      separators, always at least one (`"".split("\n") == [""]`). */
  function Split(s: string, sep: char): (parts: seq<string>)
    ensures |parts| >= 1
    ensures forall k :: 0 <= k < |parts| ==> sep !in parts[k]
  {
    if s == [] then [[]]
    else
      var rest := Split(s[1..], sep);
      if s[0] == sep then [[]] + rest
      else [[s[0]] + rest[0]] + rest[1..]
  }

  /** `sep.join(parts)`. */
  function Join(parts: seq<string>, sep: char): string {
    if parts == [] then []
    else if |parts| == 1 then parts[0]
    else parts[0] + [sep] + Join(parts[1..], sep)
  }

  /** Splitting at a separator splits the two sides independently. */
  lemma {:induction false} SplitAround(a: string, sep: char, b: string)
    ensures Split(a + [sep] + b, sep) == Split(a, sep) + Split(b, sep)
  {
    if a == [] {
      assert a + [sep] + b == [sep] + b;
      assert ([sep] + b)[1..] == b;
    } else {
      assert (a + [sep] + b)[1..] == a[1..] + [sep] + b;
      SplitAround(a[1..], sep, b);
    }
  }

  /** A string without the separator is one piece. */
  lemma {:induction false} SplitNoSeparator(s: string, sep: char)
    requires sep !in s
    ensures Split(s, sep) == [s]
  {
    if s != [] {
      SplitNoSeparator(s[1..], sep);
      assert [s[0]] + s[1..] == s;
    }
  }

  /** Joining the pieces of a split gives back the string. */
  lemma {:induction false} JoinSplit(s: string, sep: char)
    ensures Join(Split(s, sep), sep) == s
  {
    if s != [] {
      var rest := Split(s[1..], sep);
      JoinSplit(s[1..], sep);
      if s[0] == sep {
        assert Join([[]] + rest, sep) == [] + [sep] + Join(rest, sep);
      } else {
        var parts := [[s[0]] + rest[0]] + rest[1..];
        if |rest| == 1 {
          assert Join(parts, sep) == [s[0]] + rest[0];
        } else {
          assert parts[1..] == rest[1..];
          assert Join(rest, sep) == rest[0] + [sep] + Join(rest[1..], sep);
          assert Join(parts, sep) == [s[0]] + rest[0] + [sep] + Join(rest[1..], sep);
        }
        assert [s[0]] + s[1..] == s;
      }
    }
  }

  /** Splitting the join of separator-free pieces gives back the pieces. */
  lemma {:induction false} SplitJoin(parts: seq<string>, sep: char)
    requires |parts| >= 1
    requires forall k :: 0 <= k < |parts| ==> sep !in parts[k]
    ensures Split(Join(parts, sep), sep) == parts
  {
    if |parts| == 1 {
      SplitNoSeparator(parts[0], sep);
    } else {
      SplitJoin(parts[1..], sep);
      SplitAround(parts[0], sep, Join(parts[1..], sep));
      SplitNoSeparator(parts[0], sep);
    }
  }

  // ---------------------------------------------------------------------------
  // Lower case
  // ---------------------------------------------------------------------------

  /** Python's `str.lower` on the characters this model distinguishes: ASCII
      `A`..`Z` and the Latin-1 capitals U+00C0..U+00DE (except the
      multiplication sign U+00D7) map to their small letters, 32 code points
      up; every other character is left as is. */
  predicate IsCapital(c: char) {
    'A' <= c <= 'Z' || ('\U{00C0}' <= c <= '\U{00DE}' && c != '\U{00D7}')
  }

  function LowerChar(c: char): (r: char)
    ensures IsCapital(c) ==> r as int == c as int + 32 && !IsCapital(r)
    ensures !IsCapital(c) ==> r == c
  {
    if IsCapital(c) then (c as int + 32) as char else c
  }

  /** `s.lower()`, character by character. */
  function Lower(s: string): (r: string)
    ensures |r| == |s|
    ensures forall k :: 0 <= k < |s| ==> r[k] == LowerChar(s[k])
  {
    seq(|s|, k requires 0 <= k < |s| => LowerChar(s[k]))
  }

  /** Lower-casing twice is lower-casing once. */
  lemma LowerIdempotent(s: string)
    ensures Lower(Lower(s)) == Lower(s)
  {
  }

  /** Lower-casing leaves no capital behind and changes nothing else: a
      string is its own lower case exactly when it has no capital. */
  lemma LowerFixedIff(s: string)
    ensures forall k :: 0 <= k < |s| ==> !IsCapital(Lower(s)[k])
    ensures Lower(s) == s <==> forall k :: 0 <= k < |s| ==> !IsCapital(s[k])
  {
    if Lower(s) == s {
      forall k | 0 <= k < |s| ensures !IsCapital(s[k]) {
        assert Lower(s)[k] == s[k];
      }
    }
  }

  // ---------------------------------------------------------------------------
  // Substring test
  // ---------------------------------------------------------------------------

  predicate IsPrefix(p: string, s: string) {
    |p| <= |s| && s[..|p|] == p
  }

  /** Python's `pat in text` for strings. */
  predicate Contains(text: string, pat: string) {
    IsPrefix(pat, text) || (text != [] && Contains(text[1..], pat))
  }

  /** `pat` occurs in `text` starting at position `i`. */
  predicate OccursAt(text: string, pat: string, i: int) {
    0 <= i <= |text| - |pat| && text[i..i + |pat|] == pat
  }

  /** `pat in text` holds exactly when `pat` occurs at some position of `text`. */
  lemma {:induction false} ContainsIff(text: string, pat: string)
    ensures Contains(text, pat) <==> exists i :: OccursAt(text, pat, i)
  {
    if Contains(text, pat) {
      ContainsWitness(text, pat);
    }
    if exists i :: OccursAt(text, pat, i) {
      var i :| OccursAt(text, pat, i);
      OccursContains(text, pat, i);
    }
  }

  lemma {:induction false} ContainsWitness(text: string, pat: string)
    requires Contains(text, pat)
    ensures exists i :: OccursAt(text, pat, i)
  {
    if IsPrefix(pat, text) {
      assert OccursAt(text, pat, 0);
    } else {
      ContainsWitness(text[1..], pat);
      var i :| OccursAt(text[1..], pat, i);
      assert text[1..][i..i + |pat|] == text[i + 1..i + 1 + |pat|];
      assert OccursAt(text, pat, i + 1);
    }
  }

  lemma {:induction false} OccursContains(text: string, pat: string, i: int)
    requires OccursAt(text, pat, i)
    ensures Contains(text, pat)
    decreases i
  {
    if i > 0 {
      assert text[1..][i - 1..i - 1 + |pat|] == text[i..i + |pat|];
      OccursContains(text[1..], pat, i - 1);
    } else {
      assert IsPrefix(pat, text);
    }
  }

  /** The number of occurrences of `c` in `s`. */
  function CountChar(s: string, c: char): nat {
    if s == [] then 0 else (if s[0] == c then 1 else 0) + CountChar(s[1..], c)
  }

  /** Occurrences in a concatenation add up. */
  lemma {:induction false} CountCharAppend(a: string, b: string, c: char)
    ensures CountChar(a + b, c) == CountChar(a, c) + CountChar(b, c)
  {
    if a != [] {
      assert (a + b)[1..] == a[1..] + b;
      CountCharAppend(a[1..], b, c);
    } else {
      assert a + b == b;
    }
  }

  /** A character that does not occur is counted zero times. */
  lemma {:induction false} CountAbsent(s: string, c: char)
    requires c !in s
    ensures CountChar(s, c) == 0
  {
    if s != [] {
      assert c !in s[1..];
      CountAbsent(s[1..], c);
    }
  }

  // ---------------------------------------------------------------------------
  // Decimal numerals
  // ---------------------------------------------------------------------------

  predicate IsDigit(c: char) {
    '0' <= c <= '9'
  }

  function DigitChar(d: nat): (c: char)
    requires d < 10
    ensures IsDigit(c) && c as int - '0' as int == d
  {
    (d + '0' as int) as char
  }

  /** `str(n)`: the decimal numeral of `n`, without leading zeros. */
  function NatToString(n: nat): (r: string)
    ensures |r| >= 1
    ensures forall k :: 0 <= k < |r| ==> IsDigit(r[k])
    ensures r[0] == '0' ==> n == 0 && r == "0"
  {
    if n < 10 then [DigitChar(n)] else NatToString(n / 10) + [DigitChar(n % 10)]
  }

  /** The number a string of decimal digits denotes (the inverse of `str`). */
  function DigitsValue(s: string): nat
    requires forall k :: 0 <= k < |s| ==> IsDigit(s[k])
  {
    if s == [] then 0
    else
      assert IsDigit(s[|s| - 1]);
      DigitsValue(s[..|s| - 1]) * 10 + (s[|s| - 1] as int - '0' as int)
  }

  /** Reading back the numeral gives the number. */
  lemma {:induction false} NatToStringRoundTrip(n: nat)
    ensures DigitsValue(NatToString(n)) == n
  {
    if n >= 10 {
      var r := NatToString(n);
      assert r[..|r| - 1] == NatToString(n / 10);
      NatToStringRoundTrip(n / 10);
    }
  }

  /** Distinct numbers have distinct numerals. */
  lemma NatToStringInjective(a: nat, b: nat)
    ensures NatToString(a) == NatToString(b) <==> a == b
  {
    if NatToString(a) == NatToString(b) {
      NatToStringRoundTrip(a);
      NatToStringRoundTrip(b);
    }
  }
}
