/** The guess validator: check_guess_validity with contains_only_letters and
    word_exist. The messages it prints are returned as a Reason. */
module Validator {
  import opened Letters

  /** Why a guess is refused, one per message check_guess_validity prints */
  datatype Reason = WrongLength | NotOnlyLetters | NotInDictionary

  datatype Verdict = Valid | Invalid(reason: Reason)

  predicate AllLetters(s: string) {
    forall i :: 0 <= i < |s| ==> IsAlpha(s[i])
  }

  /** Some dictionary word equals the guess, ignoring case */
  predicate InDictionary(dictionary: seq<string>, guess: string) {
    exists i :: 0 <= i < |dictionary| && CaseInsensitiveEqual(dictionary[i], guess)
  }

  /** contains_only_letters: scans until a character that is not a letter */
  method ContainsOnlyLetters(str: string) returns (onlyLetters: bool)
    ensures onlyLetters <==> AllLetters(str)
  {
    for i := 0 to |str|
      invariant AllLetters(str[..i])
    {
      if !IsAlpha(str[i]) {
        assert !AllLetters(str) by {
          assert !IsAlpha(str[i]);
        }
        return false;
      }
      assert str[..i + 1] == str[..i] + [str[i]];
    }
    assert str[..|str|] == str;
    return true;
  }

  /** word_exist: a linear, case-insensitive search of the dictionary. The C
      routine first cuts the guess at a newline; that is StripNewline here. */
  method WordExists(dictionary: seq<string>, guess: string) returns (found: bool)
    ensures found <==> InDictionary(dictionary, StripNewline(guess))
  {
    var word := StripNewline(guess);
    for i := 0 to |dictionary|
      invariant forall j :: 0 <= j < i ==> !CaseInsensitiveEqual(dictionary[j], word)
    {
      if CaseInsensitiveEqual(dictionary[i], word) {
        return true;
      }
    }
    return false;
  }

  /** The checks of check_guess_validity in their order: the length, then the
      characters, then the dictionary; the first that fails decides the reason */
  function GuessVerdict(dictionary: seq<string>, wordLength: int, guess: string): Verdict
  {
    if |guess| != wordLength then Invalid(WrongLength)
    else if !AllLetters(guess) then Invalid(NotOnlyLetters)
    else if !InDictionary(dictionary, guess) then Invalid(NotInDictionary)
    else Valid
  }

  /** check_guess_validity */
  method CheckGuessValidity(dictionary: seq<string>, wordLength: int, guess: string) returns (verdict: Verdict)
    ensures verdict == GuessVerdict(dictionary, wordLength, guess)
  {
    if |guess| != wordLength {
      return Invalid(WrongLength);
    }
    var onlyLetters := ContainsOnlyLetters(guess);
    if !onlyLetters {
      return Invalid(NotOnlyLetters);
    }
    var found := WordExists(dictionary, guess);
    assert '\n' !in guess by {
      assert !IsAlpha('\n');
    }
    if !found {
      return Invalid(NotInDictionary);
    }
    return Valid;
  }

  /** A guess is accepted exactly when it has the game's length, holds only
      letters and matches a dictionary word; each refusal names the first check
      that fails */
  lemma VerdictMeaning(dictionary: seq<string>, wordLength: int, guess: string)
    ensures GuessVerdict(dictionary, wordLength, guess) == Valid <==>
              |guess| == wordLength && AllLetters(guess) && InDictionary(dictionary, guess)
    ensures GuessVerdict(dictionary, wordLength, guess) == Invalid(WrongLength) <==> |guess| != wordLength
    ensures GuessVerdict(dictionary, wordLength, guess) == Invalid(NotOnlyLetters) <==>
              |guess| == wordLength && !AllLetters(guess)
    ensures GuessVerdict(dictionary, wordLength, guess) == Invalid(NotInDictionary) <==>
              |guess| == wordLength && AllLetters(guess) && !InDictionary(dictionary, guess)
  {
  }

  /** Dictionary membership ignores the case of the guess */
  lemma InDictionaryIgnoresCase(dictionary: seq<string>, guess: string)
    ensures InDictionary(dictionary, Lowered(guess)) <==> InDictionary(dictionary, guess)
  {
    LoweredFacts(guess);
  }

  /** A valid guess, once lowered as the game loop does, is a lower-case word
      of the game's length: what the scorer expects of its guess */
  lemma ValidGuessIsScorable(dictionary: seq<string>, wordLength: int, line: string)
    requires GuessVerdict(dictionary, wordLength, Lowered(line)) == Valid
    ensures IsLowerWord(Lowered(line)) && |Lowered(line)| == wordLength
  {
    var g := Lowered(line);
    forall i | 0 <= i < |g|
      ensures IsLower(g[i])
    {
      assert IsAlpha(g[i]);
    }
  }
}
