/** `clean_seq`: normalise a user-typed amino-acid sequence and validate it
    before it is sent to the folding service. */
module Validation {
  import opened PyText

  /** The accepted one-letter residue codes: the 20 standard amino acids and
      the ambiguity codes B, Z, J and X (24 letters; neither O nor U). */
  const ValidAa: set<char> :=
    {'A', 'R', 'N', 'D', 'C', 'Q', 'E', 'G', 'H', 'I', 'L', 'K',
     'M', 'F', 'P', 'S', 'T', 'W', 'Y', 'V', 'B', 'Z', 'J', 'X'}

  /** Longest sequence the validator lets through. */
  const MaxLength: nat := 4000

  /** Why a sequence was refused, in the order the checks run. */
  datatype SeqError =
    | EmptySequence                          // "Empty sequence."
    | InvalidToken(position: nat, token: char) // "Invalid token '<token>' at <position>." (1-indexed)
    | TooLong                                // "Sequence too long (>4000)."

  datatype Cleaned = Clean(sequence: string) | Rejected(reason: SeqError)

  /** The characters the substitution deletes: `\s` plus no-break space,
      zero-width space, zero-width non-joiner, zero-width joiner, CR and LF. */
  predicate IsSeparator(c: char) {
    IsSpace(c) || c as int == 0xA0 || c as int == 0x200B || c as int == 0x200C
    || c as int == 0x200D || c == '\r' || c == '\n'
  }

  /** The substitution in `clean_seq`: deleting every run of separators is
      deleting every separator. */
  function RemoveSeparators(s: string): string
  {
    if s == [] then []
    else (if IsSeparator(s[0]) then [] else [s[0]]) + RemoveSeparators(s[1..])
  }

  /** The string `clean_seq` checks: upper-cased, then with separators removed. */
  function Normalize(x: string): string
  {
    RemoveSeparators(Upper(x))
  }

  /** The index and character of every invalid token of `s` from index `i` on,
      in order: the list `clean_seq` builds before reporting its first entry. */
  function BadTokensFrom(s: string, i: nat): seq<(nat, char)>
    requires i <= |s|
    decreases |s| - i
  {
    if i == |s| then []
    else (if s[i] !in ValidAa then [(i, s[i])] else []) + BadTokensFrom(s, i + 1)
  }

  function BadTokens(s: string): seq<(nat, char)>
  {
    BadTokensFrom(s, 0)
  }

  /** `clean_seq`: empty first, then the first invalid token, then the length. */
  function CleanSeq(x: string): Cleaned
  {
    var s := Normalize(x);
    if |s| == 0 then Rejected(EmptySequence)
    else
      var bad := BadTokens(s);
      if |bad| > 0 then Rejected(InvalidToken(bad[0].0 + 1, bad[0].1))
      else if |s| > MaxLength then Rejected(TooLong)
      else Clean(s)
  }

  predicate AllValid(s: string) {
    forall i :: 0 <= i < |s| ==> s[i] in ValidAa
  }

  // ----- Normalisation -----

  lemma {:induction false} RemoveSeparatorsAppend(a: string, b: string)
    ensures RemoveSeparators(a + b) == RemoveSeparators(a) + RemoveSeparators(b)
  {
    if a != [] {
      assert (a + b)[1..] == a[1..] + b;
      RemoveSeparatorsAppend(a[1..], b);
    } else {
      assert a + b == b;
    }
  }

  /** What survives the substitution: no separator, characters kept in order,
      and nothing at all exactly when the input held only separators. */
  lemma RemoveSeparatorsShape(s: string)
    ensures |RemoveSeparators(s)| <= |s|
    ensures forall i :: 0 <= i < |RemoveSeparators(s)| ==> !IsSeparator(RemoveSeparators(s)[i])
    ensures forall i :: 0 <= i < |RemoveSeparators(s)| ==> RemoveSeparators(s)[i] in s
    ensures RemoveSeparators(s) == [] <==> forall i :: 0 <= i < |s| ==> IsSeparator(s[i])
    ensures (forall i :: 0 <= i < |s| ==> !IsSeparator(s[i])) ==> RemoveSeparators(s) == s
  {
    RemoveSeparatorsKeeps(s);
    RemoveSeparatorsExtremes(s);
  }

  /** What is left is no longer than the input, separator-free and drawn from the input. */
  lemma {:induction false} RemoveSeparatorsKeeps(s: string)
    ensures |RemoveSeparators(s)| <= |s|
    ensures forall i :: 0 <= i < |RemoveSeparators(s)| ==> !IsSeparator(RemoveSeparators(s)[i])
    ensures forall i :: 0 <= i < |RemoveSeparators(s)| ==> RemoveSeparators(s)[i] in s
  {
    if s != [] {
      RemoveSeparatorsKeeps(s[1..]);
      var head := if IsSeparator(s[0]) then [] else [s[0]];
      assert RemoveSeparators(s) == head + RemoveSeparators(s[1..]);
      forall i | 0 <= i < |RemoveSeparators(s)|
        ensures RemoveSeparators(s)[i] in s
      {
        if i >= |head| {
          assert RemoveSeparators(s)[i] == RemoveSeparators(s[1..])[i - |head|];
          assert RemoveSeparators(s)[i] in s[1..];
        }
      }
    }
  }

  /** Nothing is left of an all-separator input, and everything of a
      separator-free one. */
  lemma {:induction false} RemoveSeparatorsExtremes(s: string)
    ensures RemoveSeparators(s) == [] <==> forall i :: 0 <= i < |s| ==> IsSeparator(s[i])
    ensures (forall i :: 0 <= i < |s| ==> !IsSeparator(s[i])) ==> RemoveSeparators(s) == s
  {
    if s != [] {
      RemoveSeparatorsExtremes(s[1..]);
      var head := if IsSeparator(s[0]) then [] else [s[0]];
      assert RemoveSeparators(s) == head + RemoveSeparators(s[1..]);
      if forall i :: 0 <= i < |s| ==> IsSeparator(s[i]) {
        assert forall i :: 0 <= i < |s[1..]| ==> IsSeparator(s[1..][i]);
      }
      if forall i :: 0 <= i < |s| ==> !IsSeparator(s[i]) {
        assert forall i :: 0 <= i < |s[1..]| ==> !IsSeparator(s[1..][i]);
        assert s == [s[0]] + s[1..];
      }
    }
  }

  lemma NormalizeAppend(a: string, b: string)
    ensures Normalize(a + b) == Normalize(a) + Normalize(b)
  {
    assert Upper(a + b) == Upper(a) + Upper(b);
    RemoveSeparatorsAppend(Upper(a), Upper(b));
  }

  lemma NormalizeChar(c: char)
    ensures Normalize([c]) == if IsSeparator(c) then [] else [UpperChar(c)]
  {
    var u := UpperChar(c);
    assert Upper([c]) == [u];
    assert [u][1..] == [];
    assert RemoveSeparators([u]) == (if IsSeparator(u) then [] else [u]) + RemoveSeparators([]);
    UpperKeepsSeparators(c);
  }

  /** Upper-casing never turns a separator into a non-separator or back. */
  lemma UpperKeepsSeparators(c: char)
    ensures IsSeparator(UpperChar(c)) <==> IsSeparator(c)
  {
  }

  /** The normalised string holds no separator and no lower-case ASCII letter,
      is never longer than the input, and is empty exactly when the input is
      blank. */
  lemma NormalizeShape(x: string)
    ensures |Normalize(x)| <= |x|
    ensures forall i :: 0 <= i < |Normalize(x)| ==>
              !IsSeparator(Normalize(x)[i]) && !IsLowerAscii(Normalize(x)[i])
    ensures Normalize(x) == [] <==> forall i :: 0 <= i < |x| ==> IsSeparator(x[i])
  {
    var u := Upper(x);
    RemoveSeparatorsShape(u);
    forall i | 0 <= i < |Normalize(x)|
      ensures !IsLowerAscii(Normalize(x)[i])
    {
      var c := Normalize(x)[i];
      assert c in u;
      var j :| 0 <= j < |u| && u[j] == c;
      assert c == UpperChar(x[j]);
    }
    forall i | 0 <= i < |x|
      ensures IsSeparator(u[i]) <==> IsSeparator(x[i])
    {
      UpperKeepsSeparators(x[i]);
    }
  }

  /** A string with no separator and no lower-case ASCII letter is left alone. */
  lemma NormalizeFixes(s: string)
    requires forall i :: 0 <= i < |s| ==> !IsSeparator(s[i]) && !IsLowerAscii(s[i])
    ensures Normalize(s) == s
  {
    assert Upper(s) == s;
    RemoveSeparatorsShape(s);
  }

  /** Normalising twice is normalising once. */
  lemma NormalizeIdempotent(x: string)
    ensures Normalize(Normalize(x)) == Normalize(x)
  {
    NormalizeShape(x);
    NormalizeFixes(Normalize(x));
  }

  // ----- The scan for invalid tokens -----

  /** Position `p` holds the first invalid character at or after `i`. */
  predicate FirstInvalidFrom(s: string, i: nat, p: nat) {
    i <= p < |s| && s[p] !in ValidAa && forall j :: i <= j < p ==> s[j] in ValidAa
  }

  /** The comprehension is empty exactly when every character from `i` on is
      valid, and its first entry is the first invalid character and its index. */
  lemma {:induction false} BadTokensFromFirst(s: string, i: nat)
    requires i <= |s|
    ensures BadTokensFrom(s, i) == [] <==> forall j :: i <= j < |s| ==> s[j] in ValidAa
    ensures BadTokensFrom(s, i) != [] ==>
              var b := BadTokensFrom(s, i)[0];
              FirstInvalidFrom(s, i, b.0) && b.1 == s[b.0]
    decreases |s| - i
  {
    if i < |s| {
      BadTokensFromFirst(s, i + 1);
      if s[i] !in ValidAa {
        assert BadTokensFrom(s, i)[0] == (i, s[i]);
      } else {
        assert BadTokensFrom(s, i) == BadTokensFrom(s, i + 1);
      }
    }
  }

  /** The valid tokens are exactly the capital letters other than O and U,
      so a valid token is never a separator nor a lower-case letter. */
  lemma ValidTokenShape(c: char)
    ensures c in ValidAa <==> 'A' <= c <= 'Z' && c != 'O' && c != 'U'
    ensures c in ValidAa ==> !IsSeparator(c) && !IsLowerAscii(c)
  {
  }

  // ----- clean_seq -----

  /** `clean_seq` succeeds exactly when the normalised input is non-empty, at
      most 4000 long and made of valid tokens only, and then returns it. */
  lemma CleanSeqAccepts(x: string)
    ensures CleanSeq(x).Clean? <==>
              0 < |Normalize(x)| <= MaxLength && AllValid(Normalize(x))
    ensures CleanSeq(x).Clean? ==> CleanSeq(x).sequence == Normalize(x)
  {
    BadTokensFromFirst(Normalize(x), 0);
  }

  /** A sequence that is already clean passes through unchanged. */
  lemma CleanSeqKeepsValid(s: string)
    requires 0 < |s| <= MaxLength && AllValid(s)
    ensures CleanSeq(s) == Clean(s)
  {
    forall i | 0 <= i < |s|
      ensures !IsSeparator(s[i]) && !IsLowerAscii(s[i])
    {
      ValidTokenShape(s[i]);
    }
    NormalizeFixes(s);
    CleanSeqAccepts(s);
  }

  /** Cleaning a cleaned sequence again changes nothing. */
  lemma CleanSeqIdempotent(x: string)
    requires CleanSeq(x).Clean?
    ensures CleanSeq(CleanSeq(x).sequence) == CleanSeq(x)
  {
    CleanSeqAccepts(x);
    CleanSeqKeepsValid(Normalize(x));
  }

  /** The "empty" error is reported exactly for input made only of separators
      (the empty string included). */
  lemma CleanSeqEmptyIff(x: string)
    ensures CleanSeq(x) == Rejected(EmptySequence) <==>
              forall i :: 0 <= i < |x| ==> IsSeparator(x[i])
  {
    NormalizeShape(x);
  }

  /** The "invalid token" error is reported exactly when the normalised input
      holds some invalid character, whatever its length; it names the first
      such character and its 1-indexed position. */
  lemma CleanSeqInvalidToken(x: string)
    ensures var s := Normalize(x);
            CleanSeq(x).Rejected? && CleanSeq(x).reason.InvalidToken? <==> !AllValid(s)
    ensures var s := Normalize(x);
            CleanSeq(x).Rejected? && CleanSeq(x).reason.InvalidToken? ==>
              var p, c := CleanSeq(x).reason.position, CleanSeq(x).reason.token;
              && 1 <= p <= |s| && s[p - 1] == c && c !in ValidAa
              && forall j :: 0 <= j < p - 1 ==> s[j] in ValidAa
  {
    BadTokensFromFirst(Normalize(x), 0);
  }

  /** The "too long" error is reported exactly for a clean sequence of more
      than 4000 tokens. */
  lemma CleanSeqTooLongIff(x: string)
    ensures CleanSeq(x) == Rejected(TooLong) <==>
              AllValid(Normalize(x)) && |Normalize(x)| > MaxLength
  {
    BadTokensFromFirst(Normalize(x), 0);
  }

  // ----- Worked cases -----

  /** Exactly 4000 valid letters pass; 4001 are too long. */
  lemma LengthBoundary()
    ensures CleanSeq(seq(4000, _ => 'A')) == Clean(seq(4000, _ => 'A'))
    ensures CleanSeq(seq(4001, _ => 'A')) == Rejected(TooLong)
  {
    var ok := seq(4000, _ => 'A');
    var long := seq(4001, _ => 'A');
    assert 'A' in ValidAa;
    CleanSeqKeepsValid(ok);
    forall i | 0 <= i < |long|
      ensures !IsSeparator(long[i]) && !IsLowerAscii(long[i])
    {
      ValidTokenShape(long[i]);
    }
    NormalizeFixes(long);
    CleanSeqTooLongIff(long);
  }

  /** A 5000-character input ending in '#' reports the token, not the length. */
  lemma InvalidBeforeTooLong()
    ensures CleanSeq(seq(4999, _ => 'A') + "#") == Rejected(InvalidToken(5000, '#'))
  {
    var x := seq(4999, _ => 'A') + "#";
    forall i | 0 <= i < |x|
      ensures !IsSeparator(x[i]) && !IsLowerAscii(x[i])
    {
      if i < 4999 {
        ValidTokenShape(x[i]);
      }
    }
    NormalizeFixes(x);
    assert x[4999] == '#';
    CleanSeqInvalidToken(x);
  }

  /** Upper-casing and separator removal on a small input. */
  lemma NormalizeExample()
    ensures Normalize(" a\nC") == "AC"
  {
    NormalizeAppend([' ', 'a'], ['\n', 'C']);
    NormalizePair(' ', 'a');
    NormalizePair('\n', 'C');
  }

  lemma NormalizePair(c: char, d: char)
    ensures Normalize([c, d]) == Normalize([c]) + Normalize([d])
    ensures Normalize([c]) == if IsSeparator(c) then [] else [UpperChar(c)]
    ensures Normalize([d]) == if IsSeparator(d) then [] else [UpperChar(d)]
  {
    assert [c, d] == [c] + [d];
    NormalizeAppend([c], [d]);
    NormalizeChar(c);
    NormalizeChar(d);
  }

  /** Case and separators are normalised away before the checks. */
  lemma CleanExample()
    ensures CleanSeq(" a\nC") == Clean("AC")
  {
    NormalizeExample();
    assert 'A' in ValidAa && 'C' in ValidAa;
    CleanSeqKeepsValid("AC");
    NormalizeFixes("AC");
  }

  /** The position is 1-indexed and names the first offending character. */
  lemma InvalidTokenExample()
    ensures CleanSeq("AXZ#Q") == Rejected(InvalidToken(4, '#'))
  {
    var x := "AXZ#Q";
    assert Normalize(x) == x by {
      forall i | 0 <= i < |x|
        ensures !IsSeparator(x[i]) && !IsLowerAscii(x[i])
      {
      }
      NormalizeFixes(x);
    }
    assert BadTokens(x)[0] == (3, '#');
  }

  /** Input made only of separators is empty. */
  lemma BlankExample()
    ensures CleanSeq(" \r\n ") == Rejected(EmptySequence)
  {
    CleanSeqEmptyIff(" \r\n ");
  }
}
