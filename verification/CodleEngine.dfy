/** The Codle engine (app/features/games/engines/codle.py): marking a guess, and one engine plugged into the service. */
module CodleEngine {
  import opened Basics
  import opened Ledger
  import opened GamesService

  const LENGTH: nat := 5
  const MAX_GUESSES: nat := 6

  datatype Mark = Absent | Present | Correct

  // ---- `_score_guess` ----

  /** Occurrences of c in the first n places. */
  function Count(s: string, c: char, n: nat): nat
    requires n <= |s|
  {
    if n == 0 then 0 else Count(s, c, n - 1) + if s[n - 1] == c then 1 else 0
  }

  /** Places among the first n where guess and answer both have c. */
  function Matched(guess: string, answer: string, c: char, n: nat): nat
    requires n <= |guess| && n <= |answer|
  {
    if n == 0 then 0 else Matched(guess, answer, c, n - 1) + if guess[n - 1] == c && answer[n - 1] == c then 1 else 0
  }

  /** Places among the first n where only the first of two words has c. */
  function Unmatched(word: string, other: string, c: char, n: nat): nat
    requires n <= |word| && n <= |other|
  {
    if n == 0 then 0 else Unmatched(word, other, c, n - 1) + if word[n - 1] == c && other[n - 1] != c then 1 else 0
  }

  /** Marks of a kind on the letter c among the first n places. */
  function Marked(guess: string, marks: seq<Mark>, c: char, k: Mark, n: nat): nat
    requires n <= |guess| && n <= |marks|
  {
    if n == 0 then 0 else Marked(guess, marks, c, k, n - 1) + if guess[n - 1] == c && marks[n - 1] == k then 1 else 0
  }

  lemma {:induction false} CountSplits(guess: string, answer: string, c: char, n: nat)
    requires n <= |guess| && n <= |answer|
    ensures Count(guess, c, n) == Matched(guess, answer, c, n) + Unmatched(guess, answer, c, n)
    ensures Count(answer, c, n) == Matched(guess, answer, c, n) + Unmatched(answer, guess, c, n)
  {
    if n > 0 {
      CountSplits(guess, answer, c, n - 1);
    }
  }

  lemma {:induction false} MarkedSame(guess: string, marks: seq<Mark>, other: seq<Mark>, c: char, k: Mark, n: nat)
    requires n <= |guess| && n <= |marks| && n <= |other| && marks[..n] == other[..n]
    ensures Marked(guess, marks, c, k, n) == Marked(guess, other, c, k, n)
  {
    if n > 0 {
      assert marks[..n][..n - 1] == marks[..n - 1] && other[..n][..n - 1] == other[..n - 1];
      assert marks[n - 1] == marks[..n][n - 1] && other[n - 1] == other[..n][n - 1];
      MarkedSame(guess, marks, other, c, k, n - 1);
    }
  }

  function Left(remaining: map<char, nat>, c: char): nat {
    if c in remaining then remaining[c] else 0
  }

  /** First pass: greens, and the answer letters they leave over. */
  method MarkGreens(guess: string, answer: string) returns (marks: seq<Mark>, remaining: map<char, nat>)
    requires |guess| == |answer|
    ensures |marks| == |guess|
    ensures forall i :: 0 <= i < |guess| ==> marks[i] == if guess[i] == answer[i] then Correct else Absent
    ensures forall c :: Left(remaining, c) == Unmatched(answer, guess, c, |answer|)
  {
    marks, remaining := seq(|guess|, i => Absent), map[];
    for i := 0 to |answer|
      invariant |marks| == |guess|
      invariant forall k :: 0 <= k < |guess| ==> marks[k] == if k < i && guess[k] == answer[k] then Correct else Absent
      invariant forall c :: Left(remaining, c) == Unmatched(answer, guess, c, i)
    {
      var ch := answer[i];
      if guess[i] == ch {
        marks := marks[i := Correct];
      } else {
        remaining := remaining[ch := Left(remaining, ch) + 1];
      }
    }
  }

  /** After i places of the second pass: c has its yellows so far, and `left` more places of the answer. */
  ghost predicate Yellows(guess: string, answer: string, marks: seq<Mark>, i: nat, c: char, left: nat) {
    && i <= |guess| == |answer| == |marks|
    && Marked(guess, marks, c, Present, i) == Min(Unmatched(guess, answer, c, i), Unmatched(answer, guess, c, |answer|))
    && left + Marked(guess, marks, c, Present, i) == Unmatched(answer, guess, c, |answer|)
  }

  lemma YellowStep(guess: string, answer: string, before: seq<Mark>, marks: seq<Mark>, i: nat, c: char,
                   left: nat, left': nat)
    requires i < |guess| == |marks| && Yellows(guess, answer, before, i, c, left)
    requires marks[..i] == before[..i]
    requires marks[i] == Correct <==> guess[i] == answer[i]
    requires guess[i] == c && guess[i] != answer[i] ==> (marks[i] == Present <==> left > 0)
    requires left' == if guess[i] == c && marks[i] == Present then left - 1 else left
    ensures Yellows(guess, answer, marks, i + 1, c, left')
  {
    MarkedSame(guess, marks, before, c, Present, i);
  }

  /**
   * Greens first, then yellows bounded by the remaining letters: a place is green exactly when the letters
   * agree, and every letter is marked green or yellow as often as guess and answer both have it.
   */
  method ScoreGuess(guess: string, answer: string) returns (marks: seq<Mark>)
    requires |guess| == |answer|
    ensures |marks| == |guess|
    ensures forall i :: 0 <= i < |guess| ==> (marks[i] == Correct <==> guess[i] == answer[i])
    ensures forall c :: Marked(guess, marks, c, Correct, |guess|) + Marked(guess, marks, c, Present, |guess|)
                        == Min(Count(guess, c, |guess|), Count(answer, c, |answer|))
  {
    var remaining;
    marks, remaining := MarkGreens(guess, answer);
    for i := 0 to |guess|
      invariant |marks| == |guess|
      invariant forall k :: 0 <= k < |guess| ==> (marks[k] == Correct <==> guess[k] == answer[k])
      invariant forall k :: i <= k < |guess| ==> marks[k] != Present
      invariant forall c :: Yellows(guess, answer, marks, i, c, Left(remaining, c))
    {
      var ch := guess[i];
      ghost var before, had := marks, remaining;
      if marks[i] != Correct && Left(remaining, ch) > 0 {
        marks := marks[i := Present];
        remaining := remaining[ch := remaining[ch] - 1];
      }
      forall c
        ensures Yellows(guess, answer, marks, i + 1, c, Left(remaining, c))
      {
        assert Yellows(guess, answer, before, i, c, Left(had, c));
        YellowStep(guess, answer, before, marks, i, c, Left(had, c), Left(remaining, c));
      }
    }
    forall c
      ensures Marked(guess, marks, c, Correct, |guess|) + Marked(guess, marks, c, Present, |guess|)
              == Min(Count(guess, c, |guess|), Count(answer, c, |answer|))
    {
      assert Yellows(guess, answer, marks, |guess|, c, Left(remaining, c));
      CountSplits(guess, answer, c, |guess|);
      GreensAreMatches(guess, answer, marks, c, |guess|);
    }
  }

  lemma {:induction false} GreensAreMatches(guess: string, answer: string, marks: seq<Mark>, c: char, n: nat)
    requires n <= |guess| == |answer| == |marks|
    requires forall i :: 0 <= i < |guess| ==> (marks[i] == Correct <==> guess[i] == answer[i])
    ensures Marked(guess, marks, c, Correct, n) == Matched(guess, answer, c, n)
  {
    if n > 0 {
      GreensAreMatches(guess, answer, marks, c, n - 1);
    }
  }

  // ---- The engine ----

  /** `str.isalpha`, for whatever counts as a letter. */
  predicate IsAlpha(isLetter: char -> bool, s: string) {
    forall i :: 0 <= i < |s| ==> isLetter(s[i])
  }

  /**
   * `validate_attempt` on an upper-cased guess. The detail's body lists the guesses so far, five letters
   * each; their marks follow from them.
   */
  function ValidateGuess(isLetter: char -> bool, answer: Json, guess: Json, prior: Option<Detail>): Option<Play> {
    if |answer| != LENGTH || |guess| != LENGTH || !IsAlpha(isLetter, guess) then None
    else if prior.Some? && prior.value.finished then None
    else
      var guesses := (if prior.Some? then prior.value.body else "") + guess;
      var used := |guesses| / LENGTH;
      var solved := guess == answer;
      var finished := solved || used >= MAX_GUESSES;
      Some(Play(if solved then (MAX_GUESSES - used + 1) as real else 0.0, Detail(finished, guesses), finished))
  }

  function Codle(isLetter: char -> bool, answerOf: int -> Json): Engine {
    Engine(60, true, 1, answerOf, (round, body, now) => true,
           (answer, guess, prior) => ValidateGuess(isLetter, answer, guess, prior),
           (raw: real, detail: Detail, isMember: bool) => raw.Floor * 10)
  }

  /** The guesses a detail holds. */
  function GuessCount(prior: Option<Detail>): nat {
    if prior.Some? then |prior.value.body| / LENGTH else 0
  }

  /**
   * A guess is taken when it is five letters and the board is open. A hit on guess n is worth 7 - n, any other guess
   * nothing; the board is over with a hit or the sixth guess, and goes on as the guesses so far and this one.
   */
  lemma GuessOutcome(isLetter: char -> bool, answer: Json, guess: Json, prior: Option<Detail>, n: nat)
    requires |answer| == 5 && (prior.Some? ==> |prior.value.body| % 5 == 0)
    requires n == GuessCount(prior) + 1 <= 6
    ensures var play := ValidateGuess(isLetter, answer, guess, prior);
            && (play.Some? <==> |guess| == 5 && (forall c :: c in guess ==> isLetter(c))
                                && (prior.Some? ==> !prior.value.finished))
            && (play.Some? ==>
                  && play.value.rawScore == (if guess == answer then (7 - n) as real else 0.0)
                  && play.value.finished == (guess == answer || n == 6)
                  && play.value.detail
                     == Detail(play.value.finished, (if prior.Some? then prior.value.body else "") + guess))
  {
    var body := (if prior.Some? then prior.value.body else "") + guess;
    if |guess| == 5 {
      assert |body| == 5 * n;
    }
  }

  /** In the service, a hit on guess n pays 10 * (7 - n) as far as the day's cap of 60 leaves room; a loss nothing. */
  lemma HitPays(isLetter: char -> bool, answerOf: int -> Json, rows: seq<Attempt>, s: Submit, guess: Json,
                prior: Option<Detail>, n: nat)
    requires NonNegative(rows) && |answerOf(RoundOf(s))| == 5 && (prior.Some? ==> |prior.value.body| % 5 == 0)
    requires n == GuessCount(prior) + 1 <= 6
    ensures var e := Codle(isLetter, answerOf);
            var play := e.validateAttempt(e.generateRound(RoundOf(s)), guess, prior);
            var banked := PointsToday(rows, s.game, s.player, s.now);
            play.Some? && play.value.finished ==>
              AwardPoints(e, rows, s, play.value)
              == if guess == answerOf(RoundOf(s)) then Min(10 * (7 - n), Max(0, 60 - banked)) else 0
  {
    GuessOutcome(isLetter, answerOf(RoundOf(s)), guess, prior, n);
    var e := Codle(isLetter, answerOf);
    assert e.validateAttempt(e.generateRound(RoundOf(s)), guess, prior)
        == ValidateGuess(isLetter, answerOf(RoundOf(s)), guess, prior);
  }

  lemma CodleIsCoherent(isLetter: char -> bool, answerOf: int -> Json)
    ensures Coherent(Codle(isLetter, answerOf))
  {
    var e := Codle(isLetter, answerOf);
    assert forall payload, body, prior ::
        e.validateAttempt(payload, body, prior) == ValidateGuess(isLetter, payload, body, prior);
  }

  /** A Codle row: one to six guesses, open only below six, and worth at most sixty points, none while open. */
  ghost predicate CodleRow(a: Attempt) {
    && (exists used :: 1 <= used <= MAX_GUESSES && |a.detail.body| == used * LENGTH
                       && (!a.detail.finished ==> used < MAX_GUESSES))
    && 0 <= a.points <= 60
    && (!a.detail.finished ==> a.points == 0)
  }

  ghost predicate CodleRows(rows: seq<Attempt>, game: nat) {
    forall i :: 0 <= i < |rows| && rows[i].game == game ==> CodleRow(rows[i])
  }

  lemma GuessKeepsRow(isLetter: char -> bool, answer: Json, guess: Json, prior: Option<Detail>, a: Attempt)
    requires ValidateGuess(isLetter, answer, guess, prior).Some?
    requires prior.Some? ==>
               exists used :: 1 <= used < MAX_GUESSES && |prior.value.body| == used * LENGTH
    requires a.detail == ValidateGuess(isLetter, answer, guess, prior).value.detail
    requires 0 <= a.points <= 60 && (!a.detail.finished ==> a.points == 0)
    ensures CodleRow(a)
  {
    var used := if prior.Some? then |prior.value.body| / LENGTH + 1 else 1;
    assert |a.detail.body| == used * LENGTH;
    assert used == |a.detail.body| / LENGTH;
  }

  lemma AwardWithinCap(isLetter: char -> bool, answerOf: int -> Json, rows: seq<Attempt>, s: Submit, play: Play)
    requires NonNegative(rows)
    ensures 0 <= AwardPoints(Codle(isLetter, answerOf), rows, s, play) <= 60
  {
    TotalMonotone(rows, SinceToday(s.game, s.player, s.now), SinceToday(s.game, s.player, s.now));
  }

  lemma SubmitKeepsCodleRows(engines: map<nat, Engine>, isLetter: char -> bool, answerOf: int -> Json, game: nat,
                             rows: seq<Attempt>, s: Submit)
    requires game in engines && engines[game] == Codle(isLetter, answerOf) && CodleRows(rows, game) && NonNegative(rows)
    ensures CodleRows(Apply(engines, rows, s), game)
  {
    if s.game == game && SubmitAttempt(engines, rows, s).Ok? {
      var e := engines[game];
      var r := SubmitAttempt(engines, rows, s).value;
      var existing := LatestAttempt(rows, s.game, RoundOf(s), s.player);
      var prior := if existing.Some? then Some(rows[existing.value].detail) else None;
      assert e.validateAttempt(e.generateRound(RoundOf(s)), s.body, prior)
          == ValidateGuess(isLetter, answerOf(RoundOf(s)), s.body, prior);
      AwardWithinCap(isLetter, answerOf, rows, s, ValidateGuess(isLetter, answerOf(RoundOf(s)), s.body, prior).value);
      if existing.Some? {
        assert CodleRow(rows[existing.value]);
      }
      GuessKeepsRow(isLetter, answerOf(RoundOf(s)), s.body, prior, r.0[r.1]);
    }
  }

  /** In every run, for any daily answers: nobody gets a seventh guess or more than sixty points for a round. */
  lemma {:induction false} SixGuessesInEveryRun(engines: map<nat, Engine>, isLetter: char -> bool,
                                                answerOf: int -> Json, game: nat, run: seq<Submit>)
    requires game in engines && engines[game] == Codle(isLetter, answerOf)
    requires forall i :: 0 <= i < |run| ==> run[i].now <= run[i].stamp
    ensures CodleRows(Run(engines, [], run), game)
  {
    if |run| > 0 {
      var n := |run| - 1;
      SixGuessesInEveryRun(engines, isLetter, answerOf, game, run[..n]);
      DailyCapInEveryRun(engines, run[..n]);
      SubmitKeepsCodleRows(engines, isLetter, answerOf, game, Run(engines, [], run[..n]), run[n]);
    }
  }
}
