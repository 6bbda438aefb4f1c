# C-Wordle-Game: a verified model of the game core

This project models the terminal Wordle game in `wordle.c`. A session goes like this:

1. The command line is checked. `expected_arguments` counts the `-len value` and `-max value` pairs and an optional dictionary file, and main compares that count with the number of arguments. `load_argument` reads the word length and the number of guesses, which must both lie in 3..9.
2. The dictionary is filtered to the words of the chosen length.
3. Each line the player types is cut at its newline and lowered to lower case.
4. The lowered guess is compared with the answer. A match wins.
5. Otherwise the guess is validated: its length, then letters only, then presence in the dictionary, ignoring case. A valid guess is scored by `process_word`, and scoring costs an attempt.
6. The game is lost when no attempt is left or the input ends.

The modules are:

- `Letters` (`letters.dfy`): the C library pieces the game depends on.
  - `toupper`, `tolower`, `isalpha` and `isspace` in the C locale;
  - `strchr` and the `strcspn(s, "\n")` cut;
  - `strcasecmp` equality;
  - `atoi`;
  - `string_to_lower`, which lowers a `char` array in place.
- `Scorer` (`scorer.dfy`): `find_frequency` and `process_word`.
  - `ProcessWord` keeps the C structure: a `result` array and a `lowerResult` scratch string. The go-back loop that rewrites earlier marks is `ReplaceMarks`.
  - `ProcessWord` is proved equal to `Score`, a closed form of what it computes.
- `ScoreProperties` (`score_properties.dfy`): what the feedback promises, proved about `Score`, with worked examples.
  - It also has a standard-Wordle reference scoring (`StandardFeedback`). That reference serves only to show where `process_word` differs from standard Wordle, and where it agrees.
- `Validator` (`validator.dfy`): `contains_only_letters`, `word_exist` and `check_guess_validity`. The refusal messages become a `Reason`.
- `Dictionary` (`dictionary.dfy`): the length filter of `load_dictionary`, over the lines of the dictionary file.
- `Arguments` (`arguments.dfy`): `expected_arguments`, `load_argument` and the argument checks at the start of `main`. A usage error becomes `None`.
- `Session` (`session.dfy`): the game loop of `main`, `check_correct_guess` and `process_guesses_left`. Standard input is a sequence of lines. The game's output is a transcript of events, and each `exit` becomes an outcome, `Won` or `Lost(answer)`.

The scorer is not standard Wordle. `process_word` gives at most one lower-case ("present") mark per letter, at the letter's first occurrence in the guess. That mark is revoked whenever the guess's exact matches of the letter use up the answer's copies. Against "llama", the guess "allay" scores `aL---`. Standard Wordle gives `aLla-` (`DivergesFromStandard`). The model follows the code. The two agree on every guess with no repeated letter (`AgreesOnDistinctLetters`).

## Model

| member | source | states |
|---|---|---|
| Letters.ToUpper | wordle.c:336 | a lower-case letter becomes a different, upper-case letter; any other character is unchanged |
| Letters.ToLower | wordle.c:286 | an upper-case letter becomes the lower-case letter whose upper case it is; any other character is unchanged |
| Letters.ToUpperInjective | wordle.c:336 | two lower-case letters have the same upper case exactly when they are equal |
| Letters.StringToLower | wordle.c:284-289 | after the call the array holds its old contents lowered, character by character |
| Letters.LoweredFacts | wordle.c:284-289 | lowering is idempotent, turns an all-letter string into a lower-case word, keeps every character that is not upper case, and leaves a lower-case word unchanged |
| Letters.IndexOf | wordle.c:353-356 | the index of the first occurrence of c, no earlier occurrence, and the length exactly when c does not occur (strchr returning NULL) |
| Letters.StripNewline | wordle.c:436 | the line cut at its first newline: a prefix of the line with no newline followed in the line by a newline, or the whole line when it has none |
| Letters.AtoiSingle | wordle.c:70 | atoi of a one-character string is the digit's value, or 0 for a non-digit |
| Letters.AtoiHyphenWord | wordle.c:70 | atoi of a hyphen followed by a non-digit, such as a flag name, is 0 |
| Scorer.FindFrequency | wordle.c:300-308 | the result is the number of occurrences of ch in the string |
| Scorer.ExactMatches | wordle.c:339-341 | the exact matches of a letter never exceed its copies in the answer |
| Scorer.ExactCountBounds | wordle.c:339-341 | among the first m positions, the exact matches of a letter are at most its copies in the answer and in the guess |
| Scorer.Score | wordle.c:320-370 | the feedback has one mark per answer letter |
| Scorer.ScratchCount | wordle.c:339-366 | after i positions, lowerResult holds a letter once per exact match so far, plus once if its first guess occurrence came before i with no exact match there and the letter occurs in the answer |
| Scorer.ScratchHolds | wordle.c:356 | a letter of the answer is in lowerResult after i positions exactly when its first guess occurrence is before i |
| Scorer.DoubleUpCount | wordle.c:343-344 | after an exact match, the frequency test of the double-up check holds exactly on a double-up |
| Scorer.ExactStep | wordle.c:339-351 | an exact match places the upper-case letter and, on a double-up, turns the earlier lower-case marks of the letter into hyphens |
| Scorer.OtherStep | wordle.c:353-367 | a position that is not an exact match gets its lower-case letter when the letter is in the answer but not yet in lowerResult, and a hyphen otherwise; earlier marks are unchanged |
| Scorer.ReplaceMarks | wordle.c:346-350 | the first upto marks that equal the letter become hyphens; nothing else changes |
| Scorer.ExactMatch | wordle.c:339-351 | after the exact-match branch at i, the result prefix and lowerResult are those of i + 1 positions |
| Scorer.ProcessWord | wordle.c:320-370 | the returned feedback equals the closed form Score(guess, answer) |
| ScoreProperties.ScoreClosedForm | wordle.c:336-366 | a mark is upper case exactly at an exact match. It is lower case exactly when the letter is in the answer, is not an exact match, sits at its first occurrence in the guess, and has fewer exact matches than answer copies. Otherwise it is a hyphen |
| ScoreProperties.SelfScore | wordle.c:339-348 | scoring the answer against itself gives the answer in upper case |
| ScoreProperties.AbsentLetter | wordle.c:353-366 | a guess letter not in the answer always scores a hyphen |
| ScoreProperties.OnePresentPerLetter | wordle.c:356-361 | a lower-case mark sits at the first occurrence of its letter, and no two positions carry the same lower-case mark |
| ScoreProperties.UpperMarksPrefix | wordle.c:339-340 | among the first m marks, the upper-case marks of a letter are its exact matches so far |
| ScoreProperties.LowerMarksPrefix | wordle.c:356-358 | among the first m marks, a letter's lower-case mark appears at most once, at its first occurrence |
| ScoreProperties.MarksWithinCount | wordle.c:343-350 | per letter, the upper-case marks equal the exact matches; at most one lower-case mark; together never more than the answer's copies |
| ScoreProperties.LlamaSelf | wordle.c:339-340 | "llama" against "llama" scores "LLAMA" |
| ScoreProperties.MlamaExample | wordle.c:343-350 | "mlama" against "llama" scores "-LAMA": the early 'm' is revoked by the exact 'm' |
| ScoreProperties.AllayExample | wordle.c:353-362 | "allay" against "llama" scores "aL---" |
| ScoreProperties.DivergesFromStandard | wordle.c:353-362 | on "allay", process_word gives "aL---" where standard Wordle gives "aLla-"; on "mlama" both give "-LAMA" |
| ScoreProperties.AgreesOnDistinctLetters | wordle.c:320-370 | on a guess without repeated letters, process_word equals standard Wordle scoring |
| Validator.ContainsOnlyLetters | wordle.c:242-249 | true exactly when every character is a letter |
| Validator.WordExists | wordle.c:170-180 | true exactly when some dictionary word equals the guess, cut at its newline, ignoring case |
| Validator.CheckGuessValidity | wordle.c:262-274 | the verdict is GuessVerdict: wrong length first, then a non-letter, then not in the dictionary, else valid |
| Validator.VerdictMeaning | wordle.c:262-274 | valid exactly when all three checks pass; each refusal reason holds exactly when its check is the first to fail |
| Validator.InDictionaryIgnoresCase | wordle.c:174-175 | dictionary membership of a guess and of its lowered form agree |
| Validator.ValidGuessIsScorable | wordle.c:437-441 | a lowered guess that passes validation is a lower-case word of the game's length, as process_word needs |
| Dictionary.LengthFiltered | wordle.c:199-211 | every kept word has the game's length, has no newline, and comes from a line cut at its newline; every such line of that length is kept |
| Dictionary.LoadDictionary | wordle.c:191-217 | the loaded dictionary is LengthFiltered of the file's lines |
| Arguments.ExpectedCount | wordle.c:99-130 | at most five arguments are expected; an odd count covers every argument and its last does not start with a hyphen |
| Arguments.ExpectedArguments | wordle.c:99-130 | a usage error exactly when some argument is empty; otherwise ExpectedCount, which counts each flag once and only when a one-character argument follows it |
| Arguments.LoadArgument | wordle.c:62-87 | the last -len and -max values, or the defaults, are read; a usage error unless both lie in 3..9; the value asked for is returned |
| Arguments.AcceptCommandLine | wordle.c:412-420 | the configuration main settles on equals CommandLine(args), and each usage error becomes None |
| Arguments.LastOccurrenceWins | wordle.c:67-78 | the last occurrence of a flag that has a following argument supplies its value |
| Arguments.AbsentFlagKeepsDefault | wordle.c:63-64 | a flag that never appears with a following argument keeps its default |
| Arguments.AcceptedCommandLine | wordle.c:412-419 | an accepted command line has no empty argument, at most five arguments, all accounted for, both settings in 3..9, and, for an odd number of arguments, the last one (which does not start with a hyphen) as dictionary, otherwise the default dictionary |
| Arguments.Defaults | wordle.c:62-64 | without -len and -max flags, words have 5 letters and there are 6 guesses |
| Arguments.OneCharacterValue | wordle.c:79-81 | a one-character value is in range exactly when it is a digit 3 to 9 |
| Arguments.NoArguments | wordle.c:7-9 | no arguments give length 5, 6 guesses and the default dictionary |
| Arguments.DictionaryOnly | wordle.c:124-128 | a single argument not starting with a hyphen is the dictionary |
| Arguments.BothFlagsAndDictionary | wordle.c:62-130 | "-len 7 -max 4 words" gives length 7, 4 guesses and dictionary "words" |
| Arguments.TwoDigitLength | wordle.c:110-115 | "-len 10" is a usage error: the flag is not counted |
| Arguments.TooFewGuesses | wordle.c:79-81 | "-max 2" is a usage error: the value is out of range |
| Arguments.RepeatedLengthFlag | wordle.c:67-128 | "-len 5 -len -max 4" passes the count check but is a usage error, because the last -len takes "-max", which atoi reads as 0 |
| Session.GuessesLeftPrompt | wordle.c:401-408 | the last-attempt prompt exactly when at most one guess is left; otherwise the prompt shows the count left |
| Session.TurnOf | wordle.c:436-445 | a line wins exactly when its guess equals the answer ignoring case. Otherwise it is scored exactly when valid, costing exactly one attempt, or refused with its reason, costing none. Marks have the word length |
| Session.TakeTurn | wordle.c:436-445 | one pass of the loop body (cut, string_to_lower on the buffer, check_correct_guess, check_guess_validity, process_word) equals TurnOf |
| Session.PlayGame | wordle.c:430-457 | the session played over the input lines equals Game: the welcome prompt, then Play |
| Session.AttemptsSpent | wordle.c:435-452 | never more scored guesses than attempts; a win leaves an attempt unused; a loss reveals the answer and means the input ran out or every attempt was scored; at most the input's lines are read |
| Session.StopsAfterLastAttempt | wordle.c:440-448 | once every attempt is scored the game is lost and that scored guess is the last event, so no further line is read |
| Session.WonOnAnswer | wordle.c:382-390 | a win happens on the last line read, whose lowered guess is the answer itself, and ends the transcript with Correct |
| Session.ScoredMarksLength | wordle.c:440-442 | every scored guess shows one mark per letter of the answer |
| Session.WinsBeforeValidation | wordle.c:437-440 | a line whose guess, cut at its newline, equals the answer ignoring case wins at once, whatever the dictionary holds |
| Session.CapitalLineWins | wordle.c:436-440 | the line "LLAMA" followed by its newline wins at once against the answer "llama" |

## Left out

- File and terminal input and output: `load_file`, `fopen`, the `fgets` reads of the dictionary and of standard input, and the cutting of long lines at `DICTIONARY_MAX_CHAR` and `GUESS_MAX_CHAR`. The dictionary file and the input are sequences of lines, each as one `fgets` call returns it.
- `get_random_word` comes from a library outside this code. The answer is a parameter and must be a lower-case word of the game's length.
- Message text and exit codes: the refusal messages become `Reason`, the prompts become `Prompt`, and `exit` becomes `Won` or `Lost`. A missing default dictionary file is an I/O failure and is not modelled.
- An `fgets` failure that is not the end of the input is not modelled: main then leaves without a message. Every end of input is treated as end of file.
- Memory management: `malloc`, `realloc`, `free`, `free_dictionary`, and `int_to_string`, which stores the word count in `dictionary[0]`. The dictionary is a `seq<string>`.
- process_word's extra loop pass over the string terminator (`i <= wordLength`) and the one-byte overflow of `lowerResult`. Only positions 0 to length-1 are modelled.
- ProcessWord: the revocation scan runs to `strlen(result)`, and at that point this is i + 1. The model scans the first i + 1 marks.
- Lowering happens in place on the input buffer. `word_exist` writing a terminator at the first newline (wordle.c:172) changes nothing in the game, because the main loop has already cut the line at its first newline (wordle.c:436) before `check_guess_validity` runs; WordExists still compares the guess cut at its newline, as `word_exist` does on its own.
- Letters: `isalpha`, `tolower` and `toupper` are the C locale on ASCII letters. There is no locale-dependent behaviour.
- Letters: each Dafny `char` stands for one byte of a C string, so every length (`strlen` at wordle.c:202 and wordle.c:263) is a byte count. A multibyte UTF-8 character is several chars in the model, as it is several bytes in C; code points are not modelled.
- Letters.Atoi: atoi is modelled over leading white space, an optional sign and the digits that follow. A value too large for a C `int` is undefined behaviour in C; the model reads it as an unbounded integer, which is out of range.
- Arguments.AcceptCommandLine: the Config value only records the dictionary file name. Opening it belongs to `load_file`, which is I/O.
