/** Command-line acceptance: expected_arguments, load_argument and the check in
    main that every argument was accounted for. The arguments are argv without
    the program name; a usage error is None. */
module Arguments {
  import opened Letters

  datatype Option<T> = None | Some(value: T)

  const DefaultLength: int := 5
  const DefaultMax: int := 6
  const DefaultFile: string := "/usr/share/dict/words"
  /** Both -len and -max values must lie in MinSetting .. MaxSetting */
  const MinSetting: int := 3
  const MaxSetting: int := 9

  /** The settings a session starts with */
  datatype Config = Config(wordLength: int, maxGuesses: int, dictionaryFile: string)

  predicate StartsWithHyphen(s: string) {
    |s| > 0 && s[0] == '-'
  }

  predicate HasEmptyArgument(args: seq<string>) {
    exists i :: 0 <= i < |args| && |args[i]| == 0
  }

  /** Among the first n arguments, some occurrence of flag is followed by a
      one-character argument: expected_arguments then counts the flag, once */
  predicate FlagCountedWithin(args: seq<string>, flag: string, n: nat) {
    exists j :: 0 <= j < n && j < |args| - 1 && args[j] == flag && |args[j + 1]| == 1
  }

  lemma FlagCountedStep(args: seq<string>, flag: string, i: nat)
    ensures FlagCountedWithin(args, flag, i + 1) <==>
              FlagCountedWithin(args, flag, i) || (i < |args| - 1 && args[i] == flag && |args[i + 1]| == 1)
  {
    if FlagCountedWithin(args, flag, i + 1) && !FlagCountedWithin(args, flag, i) {
      var j :| 0 <= j < i + 1 && j < |args| - 1 && args[j] == flag && |args[j + 1]| == 1;
      assert j == i;
    }
  }

  /** Two arguments for each flag that expected_arguments counts */
  function FlagArguments(args: seq<string>): nat {
    (if FlagCountedWithin(args, "-len", |args|) then 2 else 0) +
    (if FlagCountedWithin(args, "-max", |args|) then 2 else 0)
  }

  /** The number of arguments expected_arguments accounts for: the counted flag
      pairs, plus one when exactly one argument is left over and it does not
      start with a hyphen (the dictionary) */
  function ExpectedCount(args: seq<string>): (e: nat)
    ensures e <= 5
    ensures e % 2 == 1 ==> |args| == e && !StartsWithHyphen(args[e - 1])
  {
    var flags := FlagArguments(args);
    if |args| == flags + 1 && !StartsWithHyphen(args[flags]) then flags + 1 else flags
  }

  /** expected_arguments: None where the C code stops with a usage error (an
      empty argument) */
  method ExpectedArguments(args: seq<string>) returns (expected: Option<nat>)
    ensures expected == if HasEmptyArgument(args) then None else Some(ExpectedCount(args))
  {
    var lenExist := false;
    var maxExist := false;
    var count := 0;
    for i := 0 to |args|
      invariant forall j :: 0 <= j < i ==> |args[j]| > 0
      invariant lenExist == FlagCountedWithin(args, "-len", i)
      invariant maxExist == FlagCountedWithin(args, "-max", i)
      invariant count == (if lenExist then 2 else 0) + (if maxExist then 2 else 0)
    {
      if |args[i]| < 1 {
        return None;
      }
      FlagCountedStep(args, "-len", i);
      FlagCountedStep(args, "-max", i);
      if args[i] == "-len" && i < |args| - 1 && !lenExist {
        if |args[i + 1]| == 1 {
          lenExist := true;
          count := count + 2;
        }
      }
      if args[i] == "-max" && i < |args| - 1 && !maxExist {
        if |args[i + 1]| == 1 {
          maxExist := true;
          count := count + 2;
        }
      }
    }
    if |args| == count + 1 {
      if args[count][0] != '-' {
        count := count + 1;
      }
    }
    return Some(count);
  }

  /** The value atoi gives the argument after the last occurrence of flag among
      the first n arguments that has an argument after it; dflt when none does */
  function FlagValue(args: seq<string>, flag: string, dflt: int, n: nat): int
    requires n <= |args|
  {
    if n == 0 then dflt
    else if n - 1 < |args| - 1 && args[n - 1] == flag then Atoi(args[n])
    else FlagValue(args, flag, dflt, n - 1)
  }

  function WordLengthSetting(args: seq<string>): int {
    FlagValue(args, "-len", DefaultLength, |args|)
  }

  function MaxGuessesSetting(args: seq<string>): int {
    FlagValue(args, "-max", DefaultMax, |args|)
  }

  predicate InRange(v: int) {
    MinSetting <= v <= MaxSetting
  }

  /** load_argument: reads every -len and -max value (the last one wins), stops
      with a usage error when either is out of range, and returns the one asked for */
  method LoadArgument(argument: string, args: seq<string>) returns (value: Option<int>)
    requires argument == "-len" || argument == "-max"
    ensures value == if InRange(WordLengthSetting(args)) && InRange(MaxGuessesSetting(args))
                     then Some(if argument == "-len" then WordLengthSetting(args) else MaxGuessesSetting(args))
                     else None
  {
    var maxLength := DefaultLength;
    var maxGuess := DefaultMax;
    for i := 0 to |args|
      invariant maxLength == FlagValue(args, "-len", DefaultLength, i)
      invariant maxGuess == FlagValue(args, "-max", DefaultMax, i)
    {
      if args[i] == "-len" {
        if |args| - 1 > i {
          maxLength := Atoi(args[i + 1]);
        }
      }
      if args[i] == "-max" {
        if |args| - 1 > i {
          maxGuess := Atoi(args[i + 1]);
        }
      }
    }
    if (maxLength < MinSetting || maxLength > MaxSetting) || (maxGuess < MinSetting || maxGuess > MaxSetting) {
      return None;
    }
    if argument == "-len" {
      return Some(maxLength);
    } else {
      return Some(maxGuess);
    }
  }

  /** What main makes of its arguments before it opens the dictionary */
  function CommandLine(args: seq<string>): Option<Config> {
    if HasEmptyArgument(args) || ExpectedCount(args) != |args| then None
    else if !InRange(WordLengthSetting(args)) || !InRange(MaxGuessesSetting(args)) then None
    else Some(Config(WordLengthSetting(args), MaxGuessesSetting(args),
                     if ExpectedCount(args) % 2 != 0 then args[|args| - 1] else DefaultFile))
  }

  /** The argument handling at the start of main: expected_arguments, the
      count check, then load_argument for -len and for -max; the dictionary is
      the last argument when the expected count is odd (load_file) */
  method AcceptCommandLine(args: seq<string>) returns (config: Option<Config>)
    ensures config == CommandLine(args)
  {
    var expected := ExpectedArguments(args);
    if expected.None? || expected.value != |args| {
      return None;
    }
    var wordLength := LoadArgument("-len", args);
    var remainingGuess := LoadArgument("-max", args);
    if wordLength.None? || remainingGuess.None? {
      return None;
    }
    var file := if expected.value % 2 != 0 then args[|args| - 1] else DefaultFile;
    return Some(Config(wordLength.value, remainingGuess.value, file));
  }

  /** The last occurrence of a flag that has an argument after it supplies the value */
  lemma {:induction false} LastOccurrenceWins(args: seq<string>, flag: string, dflt: int, j: nat, n: nat)
    requires j < n <= |args| && j < |args| - 1 && args[j] == flag
    requires forall k :: j < k < n && k < |args| - 1 ==> args[k] != flag
    ensures FlagValue(args, flag, dflt, n) == Atoi(args[j + 1])
  {
    if n - 1 > j {
      LastOccurrenceWins(args, flag, dflt, j, n - 1);
    }
  }

  /** A flag that never appears with an argument after it leaves the default */
  lemma {:induction false} AbsentFlagKeepsDefault(args: seq<string>, flag: string, dflt: int, n: nat)
    requires n <= |args|
    requires forall k :: 0 <= k < n && k < |args| - 1 ==> args[k] != flag
    ensures FlagValue(args, flag, dflt, n) == dflt
  {
    if n > 0 {
      AbsentFlagKeepsDefault(args, flag, dflt, n - 1);
    }
  }

  /** An accepted command line has no empty argument, at most five arguments,
      every argument accounted for, both settings in range, and a dictionary
      argument only as a last argument that does not start with a hyphen */
  lemma AcceptedCommandLine(args: seq<string>)
    requires CommandLine(args).Some?
    ensures !HasEmptyArgument(args) && ExpectedCount(args) == |args| <= 5
    ensures InRange(CommandLine(args).value.wordLength) && InRange(CommandLine(args).value.maxGuesses)
    ensures |args| % 2 == 1 ==>
              CommandLine(args).value.dictionaryFile == args[|args| - 1] && !StartsWithHyphen(args[|args| - 1])
    ensures |args| % 2 == 0 ==> CommandLine(args).value.dictionaryFile == DefaultFile
  {
  }

  /** Without flags the game uses words of 5 letters and 6 guesses */
  lemma Defaults(args: seq<string>)
    requires forall k :: 0 <= k < |args| - 1 ==> args[k] != "-len" && args[k] != "-max"
    ensures WordLengthSetting(args) == DefaultLength && MaxGuessesSetting(args) == DefaultMax
  {
    AbsentFlagKeepsDefault(args, "-len", DefaultLength, |args|);
    AbsentFlagKeepsDefault(args, "-max", DefaultMax, |args|);
  }

  /** A one-character value is in range exactly when it is a digit 3 to 9 */
  lemma OneCharacterValue(v: string)
    requires |v| == 1
    ensures InRange(Atoi(v)) <==> '3' <= v[0] <= '9'
  {
    AtoiSingle(v[0]);
    assert v == [v[0]];
  }

  /** With no arguments the defaults apply */
  lemma NoArguments()
    ensures CommandLine([]) == Some(Config(5, 6, DefaultFile))
  {
  }

  /** A single argument that does not start with a hyphen names the dictionary */
  lemma DictionaryOnly()
    ensures CommandLine(["words"]) == Some(Config(5, 6, "words"))
  {
    var args := ["words"];
    assert !FlagCountedWithin(args, "-len", 1) && !FlagCountedWithin(args, "-max", 1);
  }

  lemma BothFlagsAndDictionary()
    ensures CommandLine(["-len", "7", "-max", "4", "words"]) == Some(Config(7, 4, "words"))
  {
    var args := ["-len", "7", "-max", "4", "words"];
    assert args[0] == "-len" && |args[1]| == 1;
    assert args[2] == "-max" && |args[3]| == 1;
    assert FlagCountedWithin(args, "-len", 5) && FlagCountedWithin(args, "-max", 5);
    assert ExpectedCount(args) == 5 by {
      assert !StartsWithHyphen(args[4]);
    }
    LastOccurrenceWins(args, "-len", DefaultLength, 0, 5);
    LastOccurrenceWins(args, "-max", DefaultMax, 2, 5);
    AtoiSingle('7');
    AtoiSingle('4');
    assert args[1] == ['7'] && args[3] == ['4'];
  }

  /** A two-digit value is not counted, so "-len 10" leaves both arguments
      unaccounted for */
  lemma TwoDigitLength()
    ensures CommandLine(["-len", "10"]) == None
  {
    var args := ["-len", "10"];
    assert !FlagCountedWithin(args, "-len", 2) && !FlagCountedWithin(args, "-max", 2);
    assert StartsWithHyphen(args[0]);
  }

  /** A counted value outside 3 to 9 is a usage error */
  lemma TooFewGuesses()
    ensures CommandLine(["-max", "2"]) == None
  {
    var args := ["-max", "2"];
    assert args[0] == "-max" && |args[1]| == 1;
    assert FlagCountedWithin(args, "-max", 2);
    AtoiSingle('2');
    assert args[1] == ['2'];
    assert MaxGuessesSetting(args) == 2;
  }

  /** Every argument of "-len 5 -len -max 4" is accounted for (the second -len
      is not counted again and "4" counts as the dictionary), but the last -len
      takes "-max" as its value, which atoi reads as 0: a usage error */
  lemma RepeatedLengthFlag()
    ensures ExpectedCount(["-len", "5", "-len", "-max", "4"]) == 5
    ensures WordLengthSetting(["-len", "5", "-len", "-max", "4"]) == 0
    ensures CommandLine(["-len", "5", "-len", "-max", "4"]) == None
  {
    var args := ["-len", "5", "-len", "-max", "4"];
    assert args[0] == "-len" && |args[1]| == 1;
    assert args[3] == "-max" && |args[4]| == 1;
    assert FlagCountedWithin(args, "-len", 5) && FlagCountedWithin(args, "-max", 5);
    assert !StartsWithHyphen(args[4]);
    assert args[3] != "-len";
    LastOccurrenceWins(args, "-len", DefaultLength, 2, 5);
    AtoiHyphenWord("-max");
  }
}
