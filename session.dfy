/** One game session: the loop in main that reads guesses, together with
    check_correct_guess and process_guesses_left. Standard input is the
    sequence of lines fgets returns; what the game prints is a transcript of
    events. */
module Session {
  import opened Letters
  import opened Scorer
  import opened Validator

  /** The two prompts process_guesses_left prints */
  datatype Prompt = AttemptsRemaining(count: int) | LastAttempt

  /** What the player sees after each line: the win message, the refusal
      message of check_guess_validity, the marks of process_word, or a prompt */
  datatype Event = Correct | Rejected(reason: Reason) | Scored(marks: string) | Prompted(prompt: Prompt)

  /** Won exits with status 0; Lost is the "Bad luck" message that reveals the
      answer, and status 3 */
  datatype Outcome = Won | Lost(revealed: string)

  /** How a session ends, everything it showed, and how many lines it read */
  datatype Session = Session(outcome: Outcome, transcript: seq<Event>, consumed: nat)

  /** process_guesses_left */
  function GuessesLeftPrompt(remaining: int): (p: Prompt)
    ensures p == LastAttempt <==> remaining <= 1
    ensures p.AttemptsRemaining? ==> p.count == remaining && p.count > 1
  {
    if remaining > 1 then AttemptsRemaining(remaining) else LastAttempt
  }

  /** check_correct_guess: the guess equals the answer, ignoring case */
  predicate CorrectGuess(guess: string, answer: string) {
    CaseInsensitiveEqual(guess, answer)
  }

  /** The guess the loop works on: the line cut at its newline, in lower case */
  function GuessOf(line: string): string {
    Lowered(StripNewline(line))
  }

  /** Prefixes what happened before to the rest of a session */
  function Then(done: seq<Event>, used: nat, rest: Session): Session {
    Session(rest.outcome, done + rest.transcript, used + rest.consumed)
  }

  /** The result of one line of input: a win, or an event and the guesses left */
  datatype Turn = Win | Spent(event: Event, left: int)

  /** One round of the game loop on one line. A guess equal to the answer wins
      before it is validated; otherwise a valid guess is scored and costs
      exactly one attempt, and a refused guess costs none */
  function TurnOf(dictionary: seq<string>, wordLength: int, answer: string, remaining: int, line: string): (turn: Turn)
    requires |answer| == wordLength
    ensures turn.Win? <==> CorrectGuess(GuessOf(line), answer)
    ensures turn.Spent? ==> (turn.event.Scored? || turn.event.Rejected?)
    ensures turn.Spent? ==> (turn.event.Scored? <==> GuessVerdict(dictionary, wordLength, GuessOf(line)) == Valid)
    ensures turn.Spent? ==> turn.left == remaining - (if turn.event.Scored? then 1 else 0)
    ensures turn.Spent? && turn.event.Scored? ==> |turn.event.marks| == wordLength
    ensures turn.Spent? && turn.event.Rejected? ==>
              GuessVerdict(dictionary, wordLength, GuessOf(line)) == Invalid(turn.event.reason)
  {
    var guess := GuessOf(line);
    if CorrectGuess(guess, answer) then Win
    else
      var verdict := GuessVerdict(dictionary, wordLength, guess);
      if verdict.Valid? then Spent(Scored(Score(guess, answer)), remaining - 1)
      else Spent(Rejected(verdict.reason), remaining)
  }

  /** The game loop from the point where `remaining` guesses are left and
      `lines` is the input still unread: the game is lost when no attempt is
      left or the input ends, and otherwise prompts for the next guess */
  function Play(dictionary: seq<string>, wordLength: int, answer: string, remaining: int, lines: seq<string>): Session
    requires |answer| == wordLength
    decreases |lines|
  {
    if lines == [] then Session(Lost(answer), [], 0)
    else
      match TurnOf(dictionary, wordLength, answer, remaining, lines[0])
      case Win => Session(Won, [Correct], 1)
      case Spent(event, left) =>
        if left < 1 then Session(Lost(answer), [event], 1)
        else Then([event, Prompted(GuessesLeftPrompt(left))], 1,
                  Play(dictionary, wordLength, answer, left, lines[1..]))
  }

  /** The whole session: the welcome prompt, then the loop */
  function Game(dictionary: seq<string>, wordLength: int, answer: string, maxGuesses: int, lines: seq<string>): Session
    requires |answer| == wordLength
  {
    Then([Prompted(AttemptsRemaining(maxGuesses))], 0, Play(dictionary, wordLength, answer, maxGuesses, lines))
  }

  /** The body of the game loop for one line: cut the newline, copy the line
      to a buffer and lower it in place with string_to_lower, then
      check_correct_guess, check_guess_validity and process_word */
  method TakeTurn(dictionary: seq<string>, wordLength: int, answer: string, remaining: int, line: string)
    returns (turn: Turn)
    requires |answer| == wordLength && IsLowerWord(answer)
    ensures turn == TurnOf(dictionary, wordLength, answer, remaining, line)
  {
    var stripped := StripNewline(line);
    var word := new char[|stripped|](k requires 0 <= k < |stripped| => stripped[k]);
    assert word[..] == stripped;
    StringToLower(word);
    var userGuess := word[..];
    assert userGuess == GuessOf(line);
    if CorrectGuess(userGuess, answer) {
      return Win;
    }
    var verdict := CheckGuessValidity(dictionary, wordLength, userGuess);
    if verdict.Valid? {
      ValidGuessIsScorable(dictionary, wordLength, stripped);
      var attemptGuess := ProcessWord(userGuess, answer);
      return Spent(Scored(attemptGuess), remaining - 1);
    }
    return Spent(Rejected(verdict.reason), remaining);
  }

  /** The game loop of main. The answer is the lower-case word
      get_random_word returns; each line is what one call of fgets reads */
  method PlayGame(dictionary: seq<string>, wordLength: int, answer: string, maxGuesses: int, lines: seq<string>)
    returns (session: Session)
    requires |answer| == wordLength && IsLowerWord(answer)
    ensures session == Game(dictionary, wordLength, answer, maxGuesses, lines)
  {
    var remainingGuess := maxGuesses;
    var transcript := [Prompted(AttemptsRemaining(maxGuesses))];
    var i := 0;
    while i < |lines|
      invariant 0 <= i <= |lines|
      invariant Then(transcript, i, Play(dictionary, wordLength, answer, remainingGuess, lines[i..]))
                == Game(dictionary, wordLength, answer, maxGuesses, lines)
      decreases |lines| - i
    {
      assert lines[i..][0] == lines[i] && lines[i..][1..] == lines[i + 1..];
      var turn := TakeTurn(dictionary, wordLength, answer, remainingGuess, lines[i]);
      if turn.Win? {
        return Then(transcript + [Correct], i + 1, Session(Won, [], 0));
      }
      remainingGuess := turn.left;
      if remainingGuess < 1 {
        return Then(transcript + [turn.event], i + 1, Session(Lost(answer), [], 0));
      }
      transcript := transcript + [turn.event, Prompted(GuessesLeftPrompt(remainingGuess))];
      i := i + 1;
    }
    return Session(Lost(answer), transcript, i);
  }

  /** The number of guesses a transcript shows scored */
  function ScoredCount(t: seq<Event>): nat {
    if t == [] then 0 else (if t[0].Scored? then 1 else 0) + ScoredCount(t[1..])
  }

  lemma ScoredCountPrefix(e: Event, p: Prompt, t: seq<Event>)
    ensures ScoredCount([e, Prompted(p)] + t) == (if e.Scored? then 1 else 0) + ScoredCount(t)
  {
    assert ([e, Prompted(p)] + t)[1..] == [Prompted(p)] + t;
    assert ([Prompted(p)] + t)[1..] == t;
  }

  /** Attempts are spent only on scored guesses: a session never scores more
      guesses than it allows, a win comes with an attempt to spare, and a loss
      means the input ran out or every attempt was scored */
  lemma {:induction false} AttemptsSpent(dictionary: seq<string>, wordLength: int, answer: string, remaining: int, lines: seq<string>)
    requires |answer| == wordLength && remaining >= 1
    ensures var s := Play(dictionary, wordLength, answer, remaining, lines);
      s.consumed <= |lines| &&
      ScoredCount(s.transcript) <= remaining &&
      (s.outcome == Won ==> ScoredCount(s.transcript) < remaining) &&
      (s.outcome.Lost? ==> s.outcome.revealed == answer && (s.consumed == |lines| || ScoredCount(s.transcript) == remaining))
    decreases |lines|
  {
    if lines != [] {
      var turn := TurnOf(dictionary, wordLength, answer, remaining, lines[0]);
      if turn.Spent? {
        if turn.left < 1 {
          assert ScoredCount([turn.event]) == 1 by {
            assert [turn.event][1..] == [];
          }
        } else {
          var rest := Play(dictionary, wordLength, answer, turn.left, lines[1..]);
          AttemptsSpent(dictionary, wordLength, answer, turn.left, lines[1..]);
          ScoredCountPrefix(turn.event, GuessesLeftPrompt(turn.left), rest.transcript);
        }
      }
    }
  }

  /** Once the last attempt is scored the loop breaks: a session that scored
      every attempt is lost, and the scored guess is the last thing it shows,
      so no line after it is read */
  lemma {:induction false} StopsAfterLastAttempt(dictionary: seq<string>, wordLength: int, answer: string, remaining: int, lines: seq<string>)
    requires |answer| == wordLength && remaining >= 1
    ensures var s := Play(dictionary, wordLength, answer, remaining, lines);
      ScoredCount(s.transcript) == remaining ==>
        s.outcome.Lost? && |s.transcript| > 0 && s.transcript[|s.transcript| - 1].Scored?
    decreases |lines|
  {
    if lines != [] {
      var turn := TurnOf(dictionary, wordLength, answer, remaining, lines[0]);
      if turn.Spent? && turn.left >= 1 {
        var rest := Play(dictionary, wordLength, answer, turn.left, lines[1..]);
        StopsAfterLastAttempt(dictionary, wordLength, answer, turn.left, lines[1..]);
        ScoredCountPrefix(turn.event, GuessesLeftPrompt(turn.left), rest.transcript);
      } else if turn.Spent? {
        assert ScoredCount([turn.event]) == (if turn.event.Scored? then 1 else 0) by {
          assert [turn.event][1..] == [];
        }
      }
    }
  }

  /** A session is won exactly on a line whose guess is the answer itself, and
      that line is the last one read */
  lemma {:induction false} WonOnAnswer(dictionary: seq<string>, wordLength: int, answer: string, remaining: int, lines: seq<string>)
    requires |answer| == wordLength && IsLowerWord(answer)
    ensures var s := Play(dictionary, wordLength, answer, remaining, lines);
      s.outcome == Won ==> 1 <= s.consumed <= |lines| && GuessOf(lines[s.consumed - 1]) == answer &&
                           s.transcript[|s.transcript| - 1] == Correct
    decreases |lines|
  {
    if lines != [] {
      var turn := TurnOf(dictionary, wordLength, answer, remaining, lines[0]);
      if turn.Win? {
        LoweredFacts(StripNewline(lines[0]));
        LoweredFacts(answer);
      } else if turn.left >= 1 {
        WonOnAnswer(dictionary, wordLength, answer, turn.left, lines[1..]);
        var rest := Play(dictionary, wordLength, answer, turn.left, lines[1..]);
        if rest.outcome == Won {
          assert lines[1..][rest.consumed - 1] == lines[rest.consumed];
        }
      }
    }
  }

  /** Every scored guess in a transcript shows n marks */
  predicate MarksOfLength(t: seq<Event>, n: int) {
    forall k :: 0 <= k < |t| && t[k].Scored? ==> |t[k].marks| == n
  }

  /** Every scored guess shows one mark per letter of the answer */
  lemma {:induction false} ScoredMarksLength(dictionary: seq<string>, wordLength: int, answer: string, remaining: int, lines: seq<string>)
    requires |answer| == wordLength
    ensures MarksOfLength(Play(dictionary, wordLength, answer, remaining, lines).transcript, wordLength)
    decreases |lines|
  {
    if lines != [] {
      var turn := TurnOf(dictionary, wordLength, answer, remaining, lines[0]);
      if turn.Spent? && turn.left >= 1 {
        ScoredMarksLength(dictionary, wordLength, answer, turn.left, lines[1..]);
        var head: seq<Event> := [turn.event, Prompted(GuessesLeftPrompt(turn.left))];
        var rest := Play(dictionary, wordLength, answer, turn.left, lines[1..]).transcript;
        assert MarksOfLength(head, wordLength);
        AppendMarksOfLength(head, rest, wordLength);
      }
    }
  }

  lemma AppendMarksOfLength(t: seq<Event>, u: seq<Event>, n: int)
    requires MarksOfLength(t, n) && MarksOfLength(u, n)
    ensures MarksOfLength(t + u, n)
  {
    forall k | 0 <= k < |t + u| && (t + u)[k].Scored?
      ensures |(t + u)[k].marks| == n
    {
      if k >= |t| {
        assert (t + u)[k] == u[k - |t|];
      } else {
        assert (t + u)[k] == t[k];
      }
    }
  }

  /** The answer wins even when it is typed in capitals, followed by its
      newline, and even when the dictionary does not hold it:
      check_correct_guess runs before validation */
  lemma WinsBeforeValidation(dictionary: seq<string>, answer: string, line: string, lines: seq<string>, remaining: int)
    requires IsLowerWord(answer) && GuessOf(line) == answer
    ensures Play(dictionary, |answer|, answer, remaining, [line] + lines) == Session(Won, [Correct], 1)
  {
    LoweredFacts(answer);
  }

  /** "LLAMA" typed with its newline wins against the answer "llama" */
  lemma CapitalLineWins(dictionary: seq<string>, lines: seq<string>, remaining: int)
    ensures Play(dictionary, 5, "llama", remaining, ["LLAMA\n"] + lines) == Session(Won, [Correct], 1)
  {
    assert StripNewline("LLAMA\n") == "LLAMA";
    assert GuessOf("LLAMA\n") == "llama";
    WinsBeforeValidation(dictionary, "llama", "LLAMA\n", lines, remaining);
  }
}
