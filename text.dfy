/** The few Python `str` primitives the application relies on: the Unicode
    whitespace class (used both by the `\s` of a `str` regular expression and by
    `str.strip()`), upper-casing, stripping and `startswith`. */
module PyText {

  /** `str.isspace()`: the characters Python treats as whitespace, which is also
      the set matched by `\s` in a `str` pattern and removed by `str.strip()`. */
  predicate IsSpace(c: char) {
    var n := c as int;
    || (0x09 <= n <= 0x0D)
    || (0x1C <= n <= 0x20)
    || n == 0x85
    || n == 0xA0
    || n == 0x1680
    || (0x2000 <= n <= 0x200A)
    || n == 0x2028
    || n == 0x2029
    || n == 0x202F
    || n == 0x205F
    || n == 0x3000
  }

  predicate IsLowerAscii(c: char) {
    'a' <= c <= 'z'
  }

  /** The two ASCII alphabets, letter for letter. */
  const AsciiLower: string := "abcdefghijklmnopqrstuvwxyz"
  const AsciiUpper: string := "ABCDEFGHIJKLMNOPQRSTUVWXYZ"

  /** `str.upper()` restricted to ASCII: a-z become A-Z, every other character is kept. */
  function UpperChar(c: char): (u: char)
    ensures !IsLowerAscii(u)
  {
    if IsLowerAscii(c) then (c as int - 32) as char else c
  }

  /** Upper-casing agrees with the alphabet tables: the i-th lower-case letter
      becomes the i-th capital, a character outside the lower-case table is
      kept, and upper-casing twice is upper-casing once. */
  lemma UpperCharTable(c: char)
    ensures forall i :: 0 <= i < |AsciiLower| ==> UpperChar(AsciiLower[i]) == AsciiUpper[i]
    ensures IsLowerAscii(c) <==> c in AsciiLower
    ensures c !in AsciiLower ==> UpperChar(c) == c
    ensures UpperChar(UpperChar(c)) == UpperChar(c)
  {
    UpperAlphabet();
    if IsLowerAscii(c) {
      AlphabetAt(c as int - 'a' as int);
      assert AsciiLower[c as int - 'a' as int] == c;
    }
    if c in AsciiLower {
      var i :| 0 <= i < |AsciiLower| && AsciiLower[i] == c;
      AlphabetAt(i);
    }
  }

  lemma UpperAlphabet()
    ensures forall i :: 0 <= i < |AsciiLower| ==> UpperChar(AsciiLower[i]) == AsciiUpper[i]
  {
    forall i | 0 <= i < |AsciiLower|
      ensures UpperChar(AsciiLower[i]) == AsciiUpper[i]
    {
      AlphabetAt(i);
    }
  }

  /** The i-th letter of each table is i places after its first letter. */
  lemma AlphabetAt(i: int)
    requires 0 <= i < 26
    ensures |AsciiLower| == |AsciiUpper| == 26
    ensures AsciiLower[i] as int == 'a' as int + i
    ensures AsciiUpper[i] as int == 'A' as int + i
  {
  }

  function Upper(s: string): (u: string)
    ensures |u| == |s|
    ensures forall i :: 0 <= i < |s| ==> u[i] == UpperChar(s[i])
  {
    seq(|s|, i requires 0 <= i < |s| => UpperChar(s[i]))
  }

  /** `str.lstrip()`: drop leading whitespace. */
  function LStrip(s: string): string
  {
    if |s| > 0 && IsSpace(s[0]) then LStrip(s[1..]) else s
  }

  /** `str.rstrip()`: drop trailing whitespace. */
  function RStrip(s: string): string
  {
    if |s| > 0 && IsSpace(s[|s| - 1]) then RStrip(s[..|s| - 1]) else s
  }

  /** `str.strip()`. */
  function Strip(s: string): string
  {
    RStrip(LStrip(s))
  }

  predicate StartsWith(s: string, prefix: string) {
    |prefix| <= |s| && s[..|prefix|] == prefix
  }

  /** `LStrip` removes exactly a maximal run of leading whitespace. */
  lemma {:induction false} LStripShape(s: string)
    ensures |LStrip(s)| <= |s|
    ensures LStrip(s) == s[|s| - |LStrip(s)|..]
    ensures forall i :: 0 <= i < |s| - |LStrip(s)| ==> IsSpace(s[i])
    ensures |LStrip(s)| > 0 ==> !IsSpace(LStrip(s)[0])
  {
    if |s| > 0 && IsSpace(s[0]) {
      LStripShape(s[1..]);
      assert s[1..][|s| - 1 - |LStrip(s)|..] == s[|s| - |LStrip(s)|..];
    }
  }

  /** `RStrip` removes exactly a maximal run of trailing whitespace. */
  lemma {:induction false} RStripShape(s: string)
    ensures |RStrip(s)| <= |s|
    ensures RStrip(s) == s[..|RStrip(s)|]
    ensures forall i :: |RStrip(s)| <= i < |s| ==> IsSpace(s[i])
    ensures |RStrip(s)| > 0 ==> !IsSpace(RStrip(s)[|RStrip(s)| - 1])
  {
    if |s| > 0 && IsSpace(s[|s| - 1]) {
      var t := s[..|s| - 1];
      RStripShape(t);
      assert t[..|RStrip(s)|] == s[..|RStrip(s)|];
    }
  }

  /** Trailing whitespace never decides whether a string starts with a prefix
      that holds no whitespace: testing `strip()` is testing `lstrip()`. */
  lemma StripStartsWithIff(s: string, prefix: string)
    requires forall i :: 0 <= i < |prefix| ==> !IsSpace(prefix[i])
    ensures StartsWith(Strip(s), prefix) <==> StartsWith(LStrip(s), prefix)
  {
    var t := LStrip(s);
    RStripShape(t);
    var r := RStrip(t);
    if StartsWith(t, prefix) {
      if |prefix| > 0 {
        assert t[|prefix| - 1] == prefix[|prefix| - 1];
      }
      assert |r| >= |prefix|;
      assert r[..|prefix|] == t[..|prefix|];
    }
    if StartsWith(r, prefix) {
      assert t[..|prefix|] == r[..|prefix|];
    }
  }
}
