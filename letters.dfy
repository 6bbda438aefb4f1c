/** Character classes, case conversion and the few C string routines the game
    relies on (isalpha, tolower, toupper, isspace, strcspn, strchr, strcasecmp,
    atoi), restricted to ASCII, together with the in-place string_to_lower.
    Each char stands for one byte of a C string, so a length is a byte count
    as strlen gives it. */
module Letters {

  predicate IsLower(c: char) { 'a' <= c <= 'z' }

  predicate IsUpper(c: char) { 'A' <= c <= 'Z' }

  /** isalpha in the C locale */
  predicate IsAlpha(c: char) { IsLower(c) || IsUpper(c) }

  predicate IsDigit(c: char) { '0' <= c <= '9' }

  /** isspace in the C locale: space, and tab through carriage return */
  predicate IsSpace(c: char) { c == ' ' || '\t' <= c <= '\r' }

  /** A word of lower-case letters only, as the answer and a lowered valid guess are */
  predicate IsLowerWord(s: string) {
    forall i :: 0 <= i < |s| ==> IsLower(s[i])
  }

  /** Counting a character in a prefix one position longer */
  lemma CountSnoc(s: string, m: nat, x: char)
    requires 0 < m <= |s|
    ensures multiset(s[..m])[x] == multiset(s[..m - 1])[x] + (if s[m - 1] == x then 1 else 0)
  {
    assert s[..m] == s[..m - 1] + [s[m - 1]];
  }

  /** toupper: maps a lower-case letter to its upper-case form, anything else to itself */
  function ToUpper(c: char): (u: char)
    ensures IsLower(c) ==> IsUpper(u) && u != c
    ensures !IsLower(c) ==> u == c
  {
    if IsLower(c) then (c as int - 32) as char else c
  }

  /** tolower: maps an upper-case letter to its lower-case form, anything else to itself */
  function ToLower(c: char): (l: char)
    ensures IsUpper(c) ==> IsLower(l) && ToUpper(l) == c
    ensures !IsUpper(c) ==> l == c
  {
    if IsUpper(c) then (c as int + 32) as char else c
  }

  /** toupper is one-to-one on lower-case letters */
  lemma ToUpperInjective(c: char, d: char)
    requires IsLower(c) && IsLower(d)
    ensures ToUpper(c) == ToUpper(d) <==> c == d
  {
  }

  /** The string with every character passed through tolower */
  function Lowered(s: string): (r: string)
    ensures |r| == |s|
  {
    seq(|s|, i requires 0 <= i < |s| => ToLower(s[i]))
  }

  /** string_to_lower: lowers the string in place */
  method StringToLower(str: array<char>)
    modifies str
    ensures str[..] == Lowered(old(str[..]))
  {
    for i := 0 to str.Length
      invariant forall k :: 0 <= k < i ==> str[k] == ToLower(old(str[k]))
      invariant forall k :: i <= k < str.Length ==> str[k] == old(str[k])
    {
      str[i] := ToLower(str[i]);
    }
  }

  /** Lowering a string made of letters gives a lower-case word; lowering twice
      is lowering once; characters that are not upper-case letters are kept. */
  lemma LoweredFacts(s: string)
    ensures Lowered(Lowered(s)) == Lowered(s)
    ensures (forall i :: 0 <= i < |s| ==> IsAlpha(s[i])) ==> IsLowerWord(Lowered(s))
    ensures forall i :: 0 <= i < |s| && !IsUpper(s[i]) ==> Lowered(s)[i] == s[i]
    ensures IsLowerWord(s) ==> Lowered(s) == s
  {
  }

  /** strcasecmp(s, t) == 0, for ASCII strings without a terminator inside */
  predicate CaseInsensitiveEqual(s: string, t: string) {
    Lowered(s) == Lowered(t)
  }

  /** Index of the first occurrence of c in s, or |s| when there is none:
      strcspn with a one-character reject set, and the position strchr finds */
  function IndexOf(s: string, c: char): (k: nat)
    ensures k <= |s|
    ensures k < |s| ==> s[k] == c
    ensures forall j :: 0 <= j < k ==> s[j] != c
    ensures k == |s| <==> c !in s
  {
    if |s| == 0 then 0
    else if s[0] == c then 0
    else 1 + IndexOf(s[1..], c)
  }

  /** s[strcspn(s, "\n")] = '\0': cuts the string at its first newline */
  function StripNewline(s: string): (r: string)
    ensures '\n' !in r
    ensures r <= s
    ensures '\n' !in s ==> r == s
    ensures '\n' in s ==> |r| < |s| && s[|r|] == '\n'
  {
    s[..IndexOf(s, '\n')]
  }

  /** Value of a decimal digit */
  function DigitValue(c: char): (d: nat)
    requires IsDigit(c)
    ensures d <= 9
  {
    c as int - '0' as int
  }

  /** Accumulates the leading run of decimal digits of s onto acc */
  function DecimalPrefix(s: string, acc: nat): nat
  {
    if |s| == 0 || !IsDigit(s[0]) then acc
    else DecimalPrefix(s[1..], acc * 10 + DigitValue(s[0]))
  }

  /** Number of leading white-space characters of s */
  function LeadingSpaces(s: string): (n: nat)
    ensures n <= |s|
    ensures n < |s| ==> !IsSpace(s[n])
  {
    if |s| == 0 || !IsSpace(s[0]) then 0 else 1 + LeadingSpaces(s[1..])
  }

  /** atoi: optional leading white space, an optional sign, then the longest run
      of decimal digits; 0 when there are none. The C routine's behaviour on
      values beyond the range of int is not modelled (integers are unbounded). */
  function Atoi(s: string): int
  {
    var t := s[LeadingSpaces(s)..];
    if |t| > 0 && t[0] == '-' then -(DecimalPrefix(t[1..], 0) as int)
    else if |t| > 0 && t[0] == '+' then DecimalPrefix(t[1..], 0)
    else DecimalPrefix(t, 0)
  }

  /** atoi of a one-character string is the digit's value, or 0 for a non-digit */
  lemma AtoiSingle(c: char)
    ensures IsDigit(c) ==> Atoi([c]) == DigitValue(c)
    ensures !IsDigit(c) ==> Atoi([c]) == 0
  {
    assert [c][1..] == [];
    if IsSpace(c) {
      assert LeadingSpaces([c]) == 1;
    } else {
      assert LeadingSpaces([c]) == 0;
      assert [c][0..] == [c];
      if IsDigit(c) {
        assert DecimalPrefix([c], 0) == DecimalPrefix([], DigitValue(c));
      }
    }
  }

  /** atoi of a string that starts with '-' followed by a non-digit is 0 */
  lemma AtoiHyphenWord(s: string)
    requires |s| >= 2 && s[0] == '-' && !IsDigit(s[1])
    ensures Atoi(s) == 0
  {
    assert LeadingSpaces(s) == 0;
    assert s[0..] == s;
  }
}
