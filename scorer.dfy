/** The guess scorer: process_word and its helper find_frequency.

    process_word walks the positions left to right. An exact match gets the
    upper-case letter; a letter found elsewhere in the answer gets its
    lower-case form, but only when the scratch buffer lowerResult does not yet
    hold that letter; anything else gets a hyphen. After an exact match, when
    lowerResult holds more copies of the letter than the answer does, every
    earlier lower-case mark of that letter becomes a hyphen.

    Score below is the closed form of that loop: a lower-case mark can only sit
    at the first occurrence of its letter in the guess, and survives exactly when
    the guess's exact matches of the letter are fewer than the answer's copies.
    ProcessWord is the loop itself, proved equal to Score. */
module Scorer {
  import opened Letters

  /** HYPHEN, the mark of a letter that earns nothing */
  const Absent: char := '-'

  /** find_frequency: the number of times ch occurs in str */
  method FindFrequency(str: string, ch: char) returns (occurrence: nat)
    ensures occurrence == multiset(str)[ch]
  {
    occurrence := 0;
    for i := 0 to |str|
      invariant occurrence == multiset(str[..i])[ch]
    {
      assert str[..i + 1] == str[..i] + [str[i]];
      if str[i] == ch {
        occurrence := occurrence + 1;
      }
    }
    assert str[..|str|] == str;
  }

  /** Number of positions among the first m where guess and answer both hold c */
  function ExactCount(g: string, a: string, c: char, m: nat): nat
    requires |g| == |a| && m <= |a|
  {
    if m == 0 then 0
    else ExactCount(g, a, c, m - 1) + (if g[m - 1] == c && a[m - 1] == c then 1 else 0)
  }

  /** An exact match uses a copy of the letter in the answer and in the guess */
  lemma {:induction false} ExactCountBounds(g: string, a: string, c: char, m: nat)
    requires |g| == |a| && m <= |a|
    ensures ExactCount(g, a, c, m) <= multiset(a[..m])[c]
    ensures ExactCount(g, a, c, m) <= multiset(g[..m])[c]
  {
    if m > 0 {
      ExactCountBounds(g, a, c, m - 1);
      CountSnoc(a, m, c);
      CountSnoc(g, m, c);
    }
  }

  /** Number of exact matches of letter c in the whole word */
  function ExactMatches(g: string, a: string, c: char): (e: nat)
    requires |g| == |a|
    ensures e <= multiset(a)[c]
  {
    assert a[..|a|] == a;
    ExactCountBounds(g, a, c, |a|);
    ExactCount(g, a, c, |a|)
  }

  /** The mark at position k once the first m positions have been processed.
      Only the exact matches seen so far can have revoked a lower-case mark. */
  function MarkAfter(g: string, a: string, m: nat, k: nat): char
    requires |g| == |a| && m <= |a| && k < |a|
  {
    if g[k] == a[k] then ToUpper(g[k])
    else if g[k] in a && IndexOf(g, g[k]) == k && ExactCount(g, a, g[k], m) < multiset(a)[g[k]] then g[k]
    else Absent
  }

  /** The feedback string process_word returns, in closed form */
  function Score(g: string, a: string): (r: string)
    requires |g| == |a|
    ensures |r| == |a|
  {
    seq(|a|, k requires 0 <= k < |a| => MarkAfter(g, a, |a|, k))
  }

  /** What process_word appends to lowerResult for position k */
  function ScratchMark(g: string, a: string, k: nat): char
    requires |g| == |a| && k < |a|
  {
    if g[k] == a[k] || (g[k] in a && IndexOf(g, g[k]) == k) then g[k] else Absent
  }

  /** The contents of lowerResult after the first i positions */
  function Scratch(g: string, a: string, i: nat): (s: string)
    requires |g| == |a| && i <= |a|
    ensures |s| == i
  {
    seq(i, k requires 0 <= k < i => ScratchMark(g, a, k))
  }

  /** The first occurrence of c in the guess lies among the first i positions,
      is not an exact match, and c occurs in the answer: lowerResult then holds
      one copy of c beyond those of the exact matches. */
  predicate Pending(g: string, a: string, c: char, i: nat)
    requires |g| == |a| && i <= |a|
  {
    IndexOf(g, c) < i && a[IndexOf(g, c)] != c && c in a
  }

  lemma {:induction false} ScratchCount(g: string, a: string, c: char, i: nat)
    requires |g| == |a| && i <= |a| && c != Absent
    ensures multiset(Scratch(g, a, i))[c] == ExactCount(g, a, c, i) + (if Pending(g, a, c, i) then 1 else 0)
  {
    if i > 0 {
      ScratchCount(g, a, c, i - 1);
      assert Scratch(g, a, i) == Scratch(g, a, i - 1) + [ScratchMark(g, a, i - 1)];
    }
  }

  /** For a letter of the answer, lowerResult holds it exactly when the guess
      has already shown it */
  lemma ScratchHolds(g: string, a: string, c: char, i: nat)
    requires |g| == |a| && i <= |a| && c != Absent && c in a
    ensures c in Scratch(g, a, i) <==> IndexOf(g, c) < i
  {
    var f := IndexOf(g, c);
    if f < i {
      assert Scratch(g, a, i)[f] == c;
    }
    if c in Scratch(g, a, i) {
      var k :| 0 <= k < i && Scratch(g, a, i)[k] == c;
      assert g[k] == c;
    }
  }

  lemma {:induction false} NoExactBeforeFirst(g: string, a: string, c: char, m: nat)
    requires |g| == |a| && m <= |a| && m <= IndexOf(g, c)
    ensures ExactCount(g, a, c, m) == 0
  {
    if m > 0 {
      NoExactBeforeFirst(g, a, c, m - 1);
    }
  }

  /** A position that is not an exact match leaves every earlier mark as it was */
  lemma KeptStep(g: string, a: string, i: nat, k: nat)
    requires |g| == |a| && k < i < |a| && g[i] != a[i]
    ensures MarkAfter(g, a, i + 1, k) == MarkAfter(g, a, i, k)
  {
    assert ExactCount(g, a, g[k], i + 1) == ExactCount(g, a, g[k], i);
  }

  /** The mark process_word writes at a position that is not an exact match */
  lemma PlacedMark(g: string, a: string, i: nat)
    requires |g| == |a| && i < |a| && g[i] != a[i] && g[i] != Absent
    ensures MarkAfter(g, a, i + 1, i) == if g[i] in a && g[i] !in Scratch(g, a, i) then g[i] else Absent
  {
    var c := g[i];
    if c in a {
      ScratchHolds(g, a, c, i);
      if c !in Scratch(g, a, i) {
        assert IndexOf(g, c) == i;
        NoExactBeforeFirst(g, a, c, i);
        assert ExactCount(g, a, c, i + 1) == 0;
        assert c in multiset(a);
      }
    }
  }

  /** After the exact match at position i, lowerResult holds more copies of
      the letter than the answer does: process_word's double-up condition */
  predicate DoubleUp(g: string, a: string, i: nat)
    requires |g| == |a| && i < |a|
  {
    ExactCount(g, a, g[i], i + 1) + (if Pending(g, a, g[i], i + 1) then 1 else 0) > multiset(a)[g[i]]
  }

  /** The revocation after an exact match at position i: an earlier mark equal
      to the lower-case letter becomes a hyphen exactly on a double-up */
  lemma RevokeStep(g: string, a: string, i: nat, k: nat)
    requires |g| == |a| && IsLowerWord(g) && IsLowerWord(a) && k < i < |a| && g[i] == a[i]
    ensures MarkAfter(g, a, i + 1, k) ==
            if DoubleUp(g, a, i) && MarkAfter(g, a, i, k) == ToLower(a[i]) then Absent else MarkAfter(g, a, i, k)
  {
    var c := g[i];
    assert ExactCount(g, a, c, i + 1) == ExactCount(g, a, c, i) + 1;
    if g[k] != c {
      assert ExactCount(g, a, g[k], i + 1) == ExactCount(g, a, g[k], i);
    } else if g[k] != a[k] && IndexOf(g, c) == k {
      assert Pending(g, a, c, i + 1);
    }
  }

  /** The marks of the first i positions once those i positions have been processed */
  function Marks(g: string, a: string, i: nat): (s: string)
    requires |g| == |a| && i <= |a|
    ensures |s| == i
  {
    seq(i, k requires 0 <= k < i => MarkAfter(g, a, i, k))
  }

  /** s with every occurrence of letter replaced by a hyphen */
  function Revoked(s: string, letter: char): (r: string)
    ensures |r| == |s|
  {
    seq(|s|, k requires 0 <= k < |s| => if s[k] == letter then Absent else s[k])
  }

  /** The marks after an exact match at position i, computed the way process_word does */
  function AfterExact(g: string, a: string, i: nat): (s: string)
    requires |g| == |a| && i < |a|
  {
    var placed := Marks(g, a, i) + [ToUpper(g[i])];
    if DoubleUp(g, a, i) then Revoked(placed, ToLower(a[i])) else placed
  }

  lemma ExactStepAt(g: string, a: string, i: nat, k: nat)
    requires |g| == |a| && IsLowerWord(g) && IsLowerWord(a) && i < |a| && g[i] == a[i] && k <= i
    ensures |AfterExact(g, a, i)| == i + 1 && Marks(g, a, i + 1)[k] == AfterExact(g, a, i)[k]
  {
    var placed := Marks(g, a, i) + [ToUpper(g[i])];
    if k < i {
      assert placed[k] == MarkAfter(g, a, i, k);
      RevokeStep(g, a, i, k);
    } else {
      assert placed[k] == ToUpper(g[i]) != ToLower(a[i]);
    }
  }

  /** One step of process_word at an exact match */
  lemma ExactStep(g: string, a: string, i: nat)
    requires |g| == |a| && IsLowerWord(g) && IsLowerWord(a) && i < |a| && g[i] == a[i]
    ensures Marks(g, a, i + 1) == AfterExact(g, a, i)
  {
    forall k | 0 <= k < i + 1
      ensures Marks(g, a, i + 1)[k] == AfterExact(g, a, i)[k]
    {
      ExactStepAt(g, a, i, k);
    }
    ExactStepAt(g, a, i, i);
  }

  /** One step of process_word at a position that is not an exact match */
  lemma OtherStep(g: string, a: string, i: nat)
    requires |g| == |a| && IsLowerWord(g) && i < |a| && g[i] != a[i]
    ensures Marks(g, a, i + 1) == Marks(g, a, i) + [if g[i] in a && g[i] !in Scratch(g, a, i) then g[i] else Absent]
    ensures ScratchMark(g, a, i) == if g[i] in a && g[i] !in Scratch(g, a, i) then g[i] else Absent
  {
    if g[i] in a {
      ScratchHolds(g, a, g[i], i);
    }
    forall k | 0 <= k < i
      ensures MarkAfter(g, a, i + 1, k) == MarkAfter(g, a, i, k)
    {
      KeptStep(g, a, i, k);
    }
    PlacedMark(g, a, i);
  }

  lemma ScratchGrows(g: string, a: string, i: nat)
    requires |g| == |a| && i < |a|
    ensures Scratch(g, a, i + 1) == Scratch(g, a, i) + [ScratchMark(g, a, i)]
  {
  }

  lemma ScoreIsMarks(g: string, a: string)
    requires |g| == |a|
    ensures Score(g, a) == Marks(g, a, |a|)
  {
  }

  /** The double-up scan of process_word: every mark equal to `letter` among
      the first `upto` positions of `result` becomes a hyphen */
  method ReplaceMarks(result: array<char>, upto: nat, letter: char)
    requires upto <= result.Length
    modifies result
    ensures result[..upto] == Revoked(old(result[..upto]), letter)
    ensures result[upto..] == old(result[upto..])
  {
    for j := 0 to upto
      invariant forall k :: 0 <= k < j ==> result[k] == if old(result[k]) == letter then Absent else old(result[k])
      invariant forall k :: j <= k < result.Length ==> result[k] == old(result[k])
    {
      if result[j] == letter {
        result[j] := Absent;
      }
    }
  }

  /** After an exact match at i, lowerResult holds more copies of the letter
      than the answer exactly on a double-up */
  lemma DoubleUpCount(g: string, a: string, i: nat)
    requires |g| == |a| && IsLowerWord(g) && i < |a| && g[i] == a[i]
    ensures multiset(Scratch(g, a, i + 1))[a[i]] > multiset(a)[a[i]] <==> DoubleUp(g, a, i)
  {
    ScratchCount(g, a, g[i], i + 1);
  }

  /** The exact-match branch of process_word for position i: writes the
      upper-case letter, appends the letter to lowerResult and, on a double-up,
      turns the earlier lower-case marks of the letter into hyphens */
  method ExactMatch(result: array<char>, lowerResult: string, guess: string, answer: string, i: nat)
    returns (lowerResult': string)
    requires |guess| == |answer| && IsLowerWord(guess) && IsLowerWord(answer)
    requires i < |answer| == result.Length && guess[i] == answer[i]
    requires lowerResult == Scratch(guess, answer, i) && result[..i] == Marks(guess, answer, i)
    modifies result
    ensures lowerResult' == Scratch(guess, answer, i + 1)
    ensures result[..i + 1] == Marks(guess, answer, i + 1)
  {
    var currentCharacter := guess[i];
    var correctPosition := ToUpper(currentCharacter);
    ExactStep(guess, answer, i);
    result[i] := correctPosition;
    ghost var placed := result[..i + 1];
    assert placed == Marks(guess, answer, i) + [correctPosition];
    lowerResult' := lowerResult + [currentCharacter];
    assert lowerResult' == Scratch(guess, answer, i + 1) by {
      ScratchGrows(guess, answer, i);
    }
    var inScratch := FindFrequency(lowerResult', answer[i]);
    var inAnswer := FindFrequency(answer, answer[i]);
    DoubleUpCount(guess, answer, i);
    if inScratch > inAnswer {
      // the scan runs to strlen(result), which is i + 1 at this point
      ReplaceMarks(result, i + 1, ToLower(answer[i]));
      assert result[..i + 1] == Revoked(placed, ToLower(answer[i]));
    }
  }

  /** process_word, over positions 0 .. |answer|-1. The C buffer `result` is an
      array; `lowerResult` is a string that grows by one character per position. */
  method ProcessWord(guess: string, answer: string) returns (marks: string)
    requires |guess| == |answer| && IsLowerWord(guess) && IsLowerWord(answer)
    ensures marks == Score(guess, answer)
  {
    var wordLength := |answer|;
    var result := new char[wordLength](_ => '\0');
    var lowerResult: string := [];
    for i := 0 to wordLength
      invariant lowerResult == Scratch(guess, answer, i)
      invariant result[..i] == Marks(guess, answer, i)
    {
      var currentCharacter := guess[i];
      ScratchGrows(guess, answer, i);
      if currentCharacter == answer[i] {
        lowerResult := ExactMatch(result, lowerResult, guess, answer, i);
      } else {
        OtherStep(guess, answer, i);
        if currentCharacter in answer {
          if currentCharacter !in lowerResult {
            result[i] := currentCharacter;
            lowerResult := lowerResult + [currentCharacter];
          } else {
            result[i] := Absent;
            lowerResult := lowerResult + [Absent];
          }
        } else {
          result[i] := Absent;
          lowerResult := lowerResult + [Absent];
        }
        assert result[..i + 1] == result[..i] + [result[i]];
      }
    }
    ScoreIsMarks(guess, answer);
    assert result[..] == result[..wordLength];
    marks := result[..];
  }
}
