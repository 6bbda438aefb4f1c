/** What the feedback of process_word promises, proved about its closed form
    Score (ProcessWord is proved equal to it). Standard Wordle scoring is
    defined here only as a point of comparison: process_word gives at most one
    lower-case mark per letter, so the two part ways on guesses that repeat a
    letter the answer also repeats. */
module ScoreProperties {
  import opened Letters
  import opened Scorer

  /** Every mark is the upper-case guess letter exactly at an exact match, the
      lower-case guess letter exactly when the letter is in the answer, is not
      an exact match, sits at the letter's first occurrence in the guess and
      the guess's exact matches of that letter are fewer than the answer's
      copies, and a hyphen otherwise. */
  lemma ScoreClosedForm(g: string, a: string, k: nat)
    requires |g| == |a| && IsLowerWord(g) && IsLowerWord(a) && k < |a|
    ensures Score(g, a)[k] == ToUpper(g[k]) || Score(g, a)[k] == g[k] || Score(g, a)[k] == Absent
    ensures IsUpper(Score(g, a)[k]) <==> g[k] == a[k]
    ensures IsUpper(Score(g, a)[k]) ==> Score(g, a)[k] == ToUpper(g[k])
    ensures IsLower(Score(g, a)[k]) <==>
              g[k] in a && g[k] != a[k] && IndexOf(g, g[k]) == k && ExactMatches(g, a, g[k]) < multiset(a)[g[k]]
    ensures IsLower(Score(g, a)[k]) ==> Score(g, a)[k] == g[k]
    ensures Score(g, a)[k] == Absent <==> !IsUpper(Score(g, a)[k]) && !IsLower(Score(g, a)[k])
  {
  }

  /** Scoring the answer against itself gives the answer in upper case */
  lemma SelfScore(a: string)
    requires IsLowerWord(a)
    ensures |Score(a, a)| == |a|
    ensures forall k :: 0 <= k < |a| ==> Score(a, a)[k] == ToUpper(a[k])
  {
  }

  /** A guess letter that does not occur in the answer always scores a hyphen */
  lemma AbsentLetter(g: string, a: string, k: nat)
    requires |g| == |a| && k < |a| && g[k] !in a
    ensures Score(g, a)[k] == Absent
  {
  }

  /** A lower-case mark sits at the first occurrence of its letter in the guess,
      so no two positions carry the same lower-case mark */
  lemma OnePresentPerLetter(g: string, a: string, i: nat, j: nat)
    requires |g| == |a| && IsLowerWord(g) && IsLowerWord(a) && i < |a| && j < |a|
    requires IsLower(Score(g, a)[i])
    ensures forall p :: 0 <= p < i ==> g[p] != g[i]
    ensures Score(g, a)[j] == Score(g, a)[i] ==> i == j
  {
    if Score(g, a)[j] == Score(g, a)[i] {
      assert IsLower(Score(g, a)[j]);
      assert g[j] == g[i];
    }
  }

  lemma {:induction false} UpperMarksPrefix(g: string, a: string, c: char, m: nat)
    requires |g| == |a| && IsLowerWord(g) && IsLowerWord(a) && IsLower(c) && m <= |a|
    ensures multiset(Score(g, a)[..m])[ToUpper(c)] == ExactCount(g, a, c, m)
  {
    if m > 0 {
      UpperMarksPrefix(g, a, c, m - 1);
      var s := Score(g, a);
      var u := ToUpper(c);
      CountSnoc(s, m, u);
      ScoreClosedForm(g, a, m - 1);
      assert s[m - 1] == u <==> g[m - 1] == c && a[m - 1] == c by {
        if g[m - 1] == a[m - 1] {
          ToUpperInjective(g[m - 1], c);
        }
      }
    }
  }

  lemma {:induction false} LowerMarksPrefix(g: string, a: string, c: char, m: nat)
    requires |g| == |a| && IsLowerWord(g) && IsLowerWord(a) && IsLower(c) && m <= |a|
    ensures multiset(Score(g, a)[..m])[c] == if IndexOf(g, c) < m && Score(g, a)[IndexOf(g, c)] == c then 1 else 0
  {
    if m > 0 {
      LowerMarksPrefix(g, a, c, m - 1);
      var s := Score(g, a);
      CountSnoc(s, m, c);
      assert s[m - 1] == c ==> IndexOf(g, c) == m - 1 by {
        ScoreClosedForm(g, a, m - 1);
      }
    }
  }

  /** The upper-case marks of a letter are its exact matches, and together with
      the lower-case marks they never exceed the letter's count in the answer */
  lemma MarksWithinCount(g: string, a: string, c: char)
    requires |g| == |a| && IsLowerWord(g) && IsLowerWord(a) && IsLower(c)
    ensures multiset(Score(g, a))[ToUpper(c)] == ExactMatches(g, a, c)
    ensures multiset(Score(g, a))[c] <= 1
    ensures multiset(Score(g, a))[ToUpper(c)] + multiset(Score(g, a))[c] <= multiset(a)[c]
  {
    var s := Score(g, a);
    assert s[..|a|] == s;
    UpperMarksPrefix(g, a, c, |a|);
    LowerMarksPrefix(g, a, c, |a|);
  }

  /** Scoring the answer "llama" against itself */
  lemma LlamaSelf()
    ensures Score("llama", "llama") == "LLAMA"
  {
    SelfScore("llama");
  }

  lemma MlamaCounts()
    ensures ExactMatches("mlama", "llama", 'm') == 1 && multiset("llama")['m'] == 1
  {
    var g, a := "mlama", "llama";
    assert ExactCount(g, a, 'm', 1) == 0;
    assert ExactCount(g, a, 'm', 2) == 0;
    assert ExactCount(g, a, 'm', 3) == 0;
    assert ExactCount(g, a, 'm', 4) == 1;
    assert ExactCount(g, a, 'm', 5) == 1;
    assert a == ['l', 'l'] + ['a'] + ['m'] + ['a'];
  }

  /** "mlama" against "llama": the 'm' at position 0 would be present, but the
      exact 'm' at position 3 uses the answer's only 'm' and revokes it */
  lemma MlamaExample()
    ensures Score("mlama", "llama") == "-LAMA"
  {
    var g, a := "mlama", "llama";
    MlamaCounts();
    assert MarkAfter(g, a, 5, 0) == Absent;
    assert MarkAfter(g, a, 5, 1) == 'L';
    assert MarkAfter(g, a, 5, 2) == 'A';
    assert MarkAfter(g, a, 5, 3) == 'M';
    assert MarkAfter(g, a, 5, 4) == 'A';
  }

  lemma AllayCounts()
    ensures ExactMatches("allay", "llama", 'a') == 0 && multiset("llama")['a'] == 2
  {
    var g, a := "allay", "llama";
    assert ExactCount(g, a, 'a', 1) == 0;
    assert ExactCount(g, a, 'a', 2) == 0;
    assert ExactCount(g, a, 'a', 3) == 0;
    assert ExactCount(g, a, 'a', 4) == 0;
    assert ExactCount(g, a, 'a', 5) == 0;
    assert a == ['l', 'l'] + ['a'] + ['m'] + ['a'];
  }

  /** "allay" against "llama": only the first 'a' is present; the second 'l' and
      the second 'a' find their letters already in the scratch buffer */
  lemma AllayExample()
    ensures Score("allay", "llama") == "aL---"
  {
    var g, a := "allay", "llama";
    AllayCounts();
    assert IndexOf(g, 'a') == 0;
    assert IndexOf(g, 'l') == 1 by {
      assert IndexOf(g[1..], 'l') == 0;
    }
    assert MarkAfter(g, a, 5, 0) == 'a';
    assert MarkAfter(g, a, 5, 1) == 'L';
    assert MarkAfter(g, a, 5, 2) == Absent;
    assert MarkAfter(g, a, 5, 3) == Absent;
    assert MarkAfter(g, a, 5, 4) == Absent by {
      assert 'y' !in a;
    }
  }

  /** Answer letters at positions among the first m that are not exact matches */
  function Unmatched(g: string, a: string, m: nat): multiset<char>
    requires |g| == |a| && m <= |a|
  {
    if m == 0 then multiset{}
    else Unmatched(g, a, m - 1) + (if g[m - 1] != a[m - 1] then multiset{a[m - 1]} else multiset{})
  }

  /** Standard Wordle from position k on: exact matches first, then present
      marks left to right while unmatched copies of the letter remain in avail */
  function StandardFrom(g: string, a: string, k: nat, avail: multiset<char>): (r: string)
    requires |g| == |a| && k <= |a|
    ensures |r| == |a| - k
    decreases |a| - k
  {
    if k == |a| then []
    else if g[k] == a[k] then [ToUpper(g[k])] + StandardFrom(g, a, k + 1, avail)
    else if g[k] in avail then [g[k]] + StandardFrom(g, a, k + 1, avail - multiset{g[k]})
    else [Absent] + StandardFrom(g, a, k + 1, avail)
  }

  /** Standard Wordle feedback, in the same upper/lower/hyphen notation */
  function StandardFeedback(g: string, a: string): (r: string)
    requires |g| == |a|
    ensures |r| == |a|
  {
    StandardFrom(g, a, 0, Unmatched(g, a, |a|))
  }

  lemma UnmatchedAllay()
    ensures Unmatched("allay", "llama", 5) == multiset{'l', 'a', 'm', 'a'}
  {
    var g, a := "allay", "llama";
    assert Unmatched(g, a, 1) == multiset{'l'};
    assert Unmatched(g, a, 2) == multiset{'l'};
    assert Unmatched(g, a, 3) == multiset{'l', 'a'};
    assert Unmatched(g, a, 4) == multiset{'l', 'a', 'm'};
  }

  lemma StandardAllayTail()
    ensures StandardFrom("allay", "llama", 2, multiset{'l', 'a', 'm'}) == "la-"
  {
    var g, a := "allay", "llama";
    assert multiset{'a', 'm'} - multiset{'a'} == multiset{'m'};
    assert StandardFrom(g, a, 4, multiset{'m'}) == "-";
    assert StandardFrom(g, a, 3, multiset{'a', 'm'}) == "a-";
    assert multiset{'l', 'a', 'm'} - multiset{'l'} == multiset{'a', 'm'};
  }

  lemma StandardAllayAfterFirst()
    ensures StandardFrom("allay", "llama", 1, multiset{'l', 'a', 'm'}) == "Lla-"
  {
    StandardAllayTail();
    assert "Lla-" == ['L'] + "la-";
  }

  lemma AllayAvailable()
    ensures multiset{'l', 'a', 'm', 'a'} - multiset{'a'} == multiset{'l', 'a', 'm'}
  {
  }

  /** Standard Wordle on "allay" against "llama" */
  lemma StandardAllay()
    ensures StandardFeedback("allay", "llama") == "aLla-"
  {
    var g, a := "allay", "llama";
    UnmatchedAllay();
    StandardAllayAfterFirst();
    AllayAvailable();
    var u := Unmatched(g, a, 5);
    assert 'a' in u;
    assert StandardFrom(g, a, 0, u) == ['a'] + StandardFrom(g, a, 1, u - multiset{'a'});
  }

  /** Standard Wordle on "mlama" against "llama" */
  lemma StandardMlama()
    ensures StandardFeedback("mlama", "llama") == "-LAMA"
  {
    var g, a := "mlama", "llama";
    assert Unmatched(g, a, 5) == multiset{'l'} by {
      assert Unmatched(g, a, 1) == multiset{'l'};
      assert Unmatched(g, a, 2) == multiset{'l'};
      assert Unmatched(g, a, 3) == multiset{'l'};
      assert Unmatched(g, a, 4) == multiset{'l'};
    }
    var u := multiset{'l'};
    assert StandardFrom(g, a, 5, u) == "";
    assert StandardFrom(g, a, 4, u) == "A";
    assert StandardFrom(g, a, 3, u) == "MA";
    assert StandardFrom(g, a, 2, u) == "AMA";
    assert StandardFrom(g, a, 1, u) == "LAMA";
    assert StandardFrom(g, a, 0, u) == "-LAMA";
  }

  /** process_word departs from standard Wordle: on "allay" against "llama" the
      second 'l' and the second 'a' are lost, because the scratch buffer already
      holds those letters; on "mlama" the two agree */
  lemma DivergesFromStandard()
    ensures Score("allay", "llama") == "aL---" && StandardFeedback("allay", "llama") == "aLla-"
    ensures Score("mlama", "llama") == StandardFeedback("mlama", "llama") == "-LAMA"
  {
    AllayExample();
    StandardAllay();
    MlamaExample();
    StandardMlama();
  }

  lemma ExactCountStep(g: string, a: string, c: char, m: nat)
    requires |g| == |a| && 0 < m <= |a|
    ensures ExactCount(g, a, c, m) == ExactCount(g, a, c, m - 1) + (if g[m - 1] == c && a[m - 1] == c then 1 else 0)
  {
  }

  lemma UnmatchedStep(g: string, a: string, c: char, m: nat)
    requires |g| == |a| && 0 < m <= |a|
    ensures Unmatched(g, a, m)[c] == Unmatched(g, a, m - 1)[c] + (if g[m - 1] != a[m - 1] && a[m - 1] == c then 1 else 0)
  {
  }

  lemma {:induction false} UnmatchedCount(g: string, a: string, c: char, m: nat)
    requires |g| == |a| && m <= |a|
    ensures Unmatched(g, a, m)[c] + ExactCount(g, a, c, m) == multiset(a[..m])[c]
  {
    if m > 0 {
      UnmatchedCount(g, a, c, m - 1);
      CountSnoc(a, m, c);
      UnmatchedStep(g, a, c, m);
      ExactCountStep(g, a, c, m);
    }
  }

  /** A guess with no repeated letter */
  predicate DistinctLetters(g: string) {
    forall i, j :: 0 <= i < j < |g| ==> g[i] != g[j]
  }

  /** With no repeated letter, a position that is not an exact match is present
      exactly when unmatched copies of its letter remain in the answer */
  lemma DistinctPresent(g: string, a: string, k: nat)
    requires |g| == |a| && IsLowerWord(g) && IsLowerWord(a) && k < |a| && DistinctLetters(g) && g[k] != a[k]
    ensures Score(g, a)[k] == if Unmatched(g, a, |a|)[g[k]] > 0 then g[k] else Absent
  {
    var c := g[k];
    assert IndexOf(g, c) == k;
    NoExactBeforeFirst(g, a, c, k);
    ExactCountNoneAfter(g, a, c, k, |a|);
    UnmatchedCount(g, a, c, |a|);
    assert a[..|a|] == a;
  }

  /** Taking one copy of g[k] out of the available letters leaves the counts
      of the later guess letters alone, as they differ from g[k] */
  lemma AvailableLater(g: string, a: string, k: nat, avail: multiset<char>, next: multiset<char>)
    requires |g| == |a| && k < |a| && DistinctLetters(g)
    requires forall j :: k <= j < |a| ==> avail[g[j]] == Unmatched(g, a, |a|)[g[j]]
    requires next == avail || next == avail - multiset{g[k]}
    ensures forall j :: k + 1 <= j < |a| ==> next[g[j]] == Unmatched(g, a, |a|)[g[j]]
  {
    forall j | k + 1 <= j < |a|
      ensures next[g[j]] == Unmatched(g, a, |a|)[g[j]]
    {
      assert g[j] != g[k];
    }
  }

  lemma {:induction false} StandardFromAgrees(g: string, a: string, k: nat, avail: multiset<char>)
    requires |g| == |a| && IsLowerWord(g) && IsLowerWord(a) && k <= |a| && DistinctLetters(g)
    requires forall j :: k <= j < |a| ==> avail[g[j]] == Unmatched(g, a, |a|)[g[j]]
    ensures StandardFrom(g, a, k, avail) == Score(g, a)[k..]
    decreases |a| - k
  {
    if k < |a| {
      var c := g[k];
      var next := if g[k] != a[k] && c in avail then avail - multiset{c} else avail;
      AvailableLater(g, a, k, avail, next);
      StandardFromAgrees(g, a, k + 1, next);
      var s := Score(g, a);
      assert s[k..] == [s[k]] + s[k + 1..];
      assert s[k] == (if g[k] == a[k] then ToUpper(c) else if c in avail then c else Absent) by {
        if g[k] != a[k] {
          DistinctPresent(g, a, k);
        }
      }
    }
  }

  lemma {:induction false} ExactCountNoneAfter(g: string, a: string, c: char, k: nat, m: nat)
    requires |g| == |a| && k < m <= |a| && ExactCount(g, a, c, k) == 0
    requires forall j :: k <= j < |a| ==> g[j] != c || a[j] != c
    ensures ExactCount(g, a, c, m) == 0
    decreases m
  {
    if m > k + 1 {
      ExactCountNoneAfter(g, a, c, k, m - 1);
    }
  }

  /** On a guess with no repeated letter, process_word agrees with standard Wordle */
  lemma AgreesOnDistinctLetters(g: string, a: string)
    requires |g| == |a| && IsLowerWord(g) && IsLowerWord(a) && DistinctLetters(g)
    ensures Score(g, a) == StandardFeedback(g, a)
  {
    StandardFromAgrees(g, a, 0, Unmatched(g, a, |a|));
    assert Score(g, a)[0..] == Score(g, a);
  }
}
