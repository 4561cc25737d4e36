/**
 * The Python string operations both scripts rely on: `re.sub(r"\D", "", s)`,
 * `str.strip()`, `str.lower().endswith(...)`, `str.replace(a, b)`, `str(n)` for a
 * natural number and `os.path.join(a, b)` (POSIX).
 */
module Strings {

  // ---------------------------------------------------------------------------
  // Digits
  // ---------------------------------------------------------------------------

  /** An ASCII decimal digit (the model's reading of the regex class `\d`). */
  predicate IsDigit(c: char) {
    '0' <= c <= '9'
  }

  predicate AllDigits(s: string) {
    forall i :: 0 <= i < |s| ==> IsDigit(s[i])
  }

  /** `re.sub(r"\D", "", s)`: every non-digit character removed. */
  function OnlyDigits(s: string): (r: string)
    ensures AllDigits(r)
    ensures |r| <= |s|
  {
    if s == [] then []
    else (if IsDigit(s[0]) then [s[0]] else []) + OnlyDigits(s[1..])
  }

  /** Removing the non-digits of a concatenation removes them from each part:
      the digits keep their order. */
  lemma {:induction false} OnlyDigitsAppend(a: string, b: string)
    ensures OnlyDigits(a + b) == OnlyDigits(a) + OnlyDigits(b)
  {
    if a == [] {
      assert a + b == b;
    } else {
      assert (a + b)[0] == a[0];
      assert (a + b)[1..] == a[1..] + b;
      OnlyDigitsAppend(a[1..], b);
    }
  }

  /** No digit is lost: each digit occurs as often in the result as in the input,
      and no other character occurs in it at all. */
  lemma {:induction false} OnlyDigitsKeepsEveryDigit(s: string, c: char)
    ensures multiset(OnlyDigits(s))[c] == if IsDigit(c) then multiset(s)[c] else 0
  {
    if s != [] {
      OnlyDigitsKeepsEveryDigit(s[1..], c);
      assert s == [s[0]] + s[1..];
      assert multiset(s) == multiset([s[0]]) + multiset(s[1..]);
    }
  }

  /** A string of digits only is left as it is. */
  lemma {:induction false} OnlyDigitsOfDigits(s: string)
    requires AllDigits(s)
    ensures OnlyDigits(s) == s
  {
    if s != [] {
      OnlyDigitsOfDigits(s[1..]);
    }
  }

  lemma DropSeparator(a: string, c: char, b: string)
    requires AllDigits(a) && !IsDigit(c)
    ensures OnlyDigits(a + [c] + b) == a + OnlyDigits(b)
  {
    var ac := a + [c];
    OnlyDigitsAppend(ac, b);
    OnlyDigitsAppend(a, [c]);
    OnlyDigitsOfDigits(a);
    assert OnlyDigits([c]) == [] by {
      assert [c][1..] == [];
    }
    assert OnlyDigits(ac) == a;
  }

  // ---------------------------------------------------------------------------
  // Whitespace and str.strip()
  // ---------------------------------------------------------------------------

  /** The characters for which Python's `str.isspace()` holds. */
  predicate IsSpace(c: char) {
    var n := c as int;
    || 9 <= n <= 13 || 28 <= n <= 32 || n == 0x85 || n == 0xA0 || n == 0x1680
    || 0x2000 <= n <= 0x200A || n == 0x2028 || n == 0x2029 || n == 0x202F || n == 0x205F || n == 0x3000
  }

  predicate AllSpace(s: string) {
    forall i :: 0 <= i < |s| ==> IsSpace(s[i])
  }

  /** The length of the run of whitespace that starts s. */
  function LeadingSpaces(s: string): (k: nat)
    ensures k <= |s|
    ensures forall i :: 0 <= i < k ==> IsSpace(s[i])
    ensures k < |s| ==> !IsSpace(s[k])
  {
    if s != [] && IsSpace(s[0]) then 1 + LeadingSpaces(s[1..]) else 0
  }

  /** The length of the run of whitespace that ends s. */
  function TrailingSpaces(s: string): (k: nat)
    ensures k <= |s|
    ensures forall i :: |s| - k <= i < |s| ==> IsSpace(s[i])
    ensures k < |s| ==> !IsSpace(s[|s| - 1 - k])
  {
    if s != [] && IsSpace(s[|s| - 1]) then 1 + TrailingSpaces(s[..|s| - 1]) else 0
  }

  /** s[lo..hi] is what remains of s once whitespace is stripped from both ends. */
  ghost predicate StrippedAt(s: string, lo: nat, hi: nat) {
    && lo <= hi <= |s|
    && (forall i :: 0 <= i < lo ==> IsSpace(s[i]))
    && (forall i :: hi <= i < |s| ==> IsSpace(s[i]))
    && (lo < hi ==> !IsSpace(s[lo]) && !IsSpace(s[hi - 1]))
  }

  /** `str.strip()` with no argument. */
  function Strip(s: string): (r: string)
    ensures exists lo: nat, hi: nat :: StrippedAt(s, lo, hi) && r == s[lo..hi]
    ensures r == [] <==> AllSpace(s)
    ensures r != [] ==> !IsSpace(r[0]) && !IsSpace(r[|r| - 1])
  {
    var lo := LeadingSpaces(s);
    var t := s[lo..];
    var k := TrailingSpaces(t);
    assert StrippedAt(s, lo, lo + |t| - k) by {
      forall i | lo + |t| - k <= i < |s| ensures IsSpace(s[i]) {
        assert s[i] == t[i - lo];
      }
      if k < |t| {
        assert s[lo + |t| - k - 1] == t[|t| - 1 - k];
      }
    }
    t[..|t| - k]
  }

  /** A string with no whitespace at either end is its own strip. */
  lemma StripUnpadded(s: string)
    requires s != [] ==> !IsSpace(s[0]) && !IsSpace(s[|s| - 1])
    ensures Strip(s) == s
  {
    var r := Strip(s);
    var lo: nat, hi: nat :| StrippedAt(s, lo, hi) && r == s[lo..hi];
    if s != [] {
      assert lo == 0;
      assert hi == |s|;
    }
  }

  // ---------------------------------------------------------------------------
  // Case, suffixes and replacement
  // ---------------------------------------------------------------------------

  /** `str.lower()` on one character, restricted to ASCII letters. */
  function LowerChar(c: char): char {
    if 'A' <= c <= 'Z' then (c as int - 'A' as int + 'a' as int) as char else c
  }

  function Lower(s: string): (r: string)
    ensures |r| == |s|
  {
    seq(|s|, i requires 0 <= i < |s| => LowerChar(s[i]))
  }

  predicate EndsWith(s: string, suffix: string) {
    |suffix| <= |s| && s[|s| - |suffix|..] == suffix
  }

  /** `s.replace(from, to)` for single characters. */
  function ReplaceChar(s: string, from: char, to: char): (r: string)
    ensures |r| == |s|
    ensures forall i :: 0 <= i < |s| ==> r[i] == if s[i] == from then to else s[i]
  {
    if s == [] then [] else [if s[0] == from then to else s[0]] + ReplaceChar(s[1..], from, to)
  }

  // ---------------------------------------------------------------------------
  // Decimal numerals
  // ---------------------------------------------------------------------------

  function DigitChar(d: nat): (c: char)
    requires d < 10
    ensures IsDigit(c)
  {
    ('0' as int + d) as char
  }

  /** `str(n)` for a natural number: its shortest decimal numeral. */
  function NatToString(n: nat): (r: string)
    ensures |r| > 0 && AllDigits(r)
    ensures r[0] == '0' ==> n == 0
  {
    if n < 10 then [DigitChar(n)] else NatToString(n / 10) + [DigitChar(n % 10)]
  }

  /** The value of a numeral. */
  function NumeralValue(s: string): nat
    requires AllDigits(s)
  {
    if s == [] then 0 else 10 * NumeralValue(s[..|s| - 1]) + (s[|s| - 1] as int - '0' as int)
  }

  lemma {:induction false} NatToStringValue(n: nat)
    ensures NumeralValue(NatToString(n)) == n
  {
    if n >= 10 {
      NatToStringValue(n / 10);
      var r := NatToString(n);
      assert r[..|r| - 1] == NatToString(n / 10);
    }
  }

  // ---------------------------------------------------------------------------
  // Paths
  // ---------------------------------------------------------------------------

  /** `os.path.join(dir, name)` on POSIX: an absolute name replaces the directory,
      and a separator is inserted unless the directory is empty or already ends with one. */
  function Join(dir: string, name: string): (p: string)
  {
    if |name| > 0 && name[0] == '/' then name
    else if dir == [] || dir[|dir| - 1] == '/' then dir + name
    else dir + "/" + name
  }

  /** The joined path ends with the name. */
  lemma JoinEndsWith(dir: string, name: string)
    ensures EndsWith(Join(dir, name), name)
  {
    var p := Join(dir, name);
    if !(|name| > 0 && name[0] == '/') {
      assert p[|p| - |name|..] == name;
    }
  }
}
