/** The true/false quiz screen (src/components/PolicyQuiz.tsx): a walk
    through a fixed list of quizzes, one answer per quiz, with a running
    score and a closing message picked by the share of right answers.
    Only the answers of the quizzes matter to the state; their texts are
    display content. */
module PolicyQuiz {
  import opened Wrappers

  /** The answers of the eight built-in quizzes, in order. */
  const AnswerKey: seq<bool> := [true, true, false, false, false, false, true, false]

  /** How many of the `given` answers, to the quizzes at `indices`, are right. */
  function CountCorrect(indices: seq<int>, given: seq<bool>): (n: nat)
    requires |indices| == |given|
    requires forall i :: 0 <= i < |indices| ==> 0 <= indices[i] < |AnswerKey|
    ensures n <= |given|
  {
    if given == [] then 0
    else
      var last := |given| - 1;
      CountCorrect(indices[..last], given[..last]) + (if given[last] == AnswerKey[indices[last]] then 1 else 0)
  }

  /** No quiz index appears twice, and they come in the order answered. */
  predicate StrictlyIncreasing(s: seq<int>)
  {
    forall i, j :: 0 <= i < j < |s| ==> s[i] < s[j]
  }

  /** Answering the quiz at `k` scores one exactly when the answer is right. */
  lemma CountCorrectSnoc(indices: seq<int>, given: seq<bool>, k: int, answer: bool)
    requires |indices| == |given| && 0 <= k < |AnswerKey|
    requires forall i :: 0 <= i < |indices| ==> 0 <= indices[i] < |AnswerKey|
    ensures CountCorrect(indices + [k], given + [answer])
         == CountCorrect(indices, given) + (if answer == AnswerKey[k] then 1 else 0)
  {
    assert (indices + [k])[..|indices|] == indices;
    assert (given + [answer])[..|given|] == given;
  }

  /** An index above all entries can be appended to a strictly increasing list. */
  lemma IncreasingSnoc(s: seq<int>, k: int)
    requires StrictlyIncreasing(s)
    requires forall i :: 0 <= i < |s| ==> s[i] < k
    ensures StrictlyIncreasing(s + [k])
  {
  }

  /** A strictly increasing list of indices in `0..hi` has at most `hi + 1` entries. */
  lemma {:induction false} IncreasingBound(s: seq<int>, hi: int)
    requires StrictlyIncreasing(s) && hi >= -1
    requires forall i :: 0 <= i < |s| ==> 0 <= s[i] <= hi
    ensures |s| <= hi + 1
  {
    if s != [] {
      var init := s[..|s| - 1];
      var top := s[|s| - 1];
      assert 0 <= top <= hi;
      forall i | 0 <= i < |init| ensures 0 <= init[i] <= top - 1 {
        assert init[i] == s[i];
      }
      IncreasingBound(init, top - 1);
    }
  }

  /** Every reachable state: the index is a quiz, each quiz is answered at
      most once and only up to the current one, the result is shown exactly
      when the current quiz has been answered, and the score counts the
      right answers. */
  predicate Consistent(currentIndex: int, selectedAnswer: Option<bool>, showResult: bool, score: int,
                       answered: seq<int>, given: seq<bool>)
  {
    && 0 <= currentIndex < |AnswerKey|
    && (forall i :: 0 <= i < |answered| ==> 0 <= answered[i] <= currentIndex)
    && StrictlyIncreasing(answered)
    && (showResult <==> selectedAnswer.Some?)
    && (showResult <==> |answered| > 0 && answered[|answered| - 1] == currentIndex)
    && |given| == |answered|
    && score == CountCorrect(answered, given)
  }

  /** A first answer to the current quiz keeps the state consistent. */
  lemma AnswerKeepsConsistent(currentIndex: int, selectedAnswer: Option<bool>, score: int,
                              answered: seq<int>, given: seq<bool>, answer: bool)
    requires Consistent(currentIndex, selectedAnswer, false, score, answered, given)
    ensures Consistent(currentIndex, Some(answer), true,
                       score + (if answer == AnswerKey[currentIndex] then 1 else 0),
                       answered + [currentIndex], given + [answer])
  {
    forall i | 0 <= i < |answered| ensures answered[i] < currentIndex {
      if i < |answered| - 1 {
        assert answered[i] < answered[|answered| - 1];
      }
    }
    IncreasingSnoc(answered, currentIndex);
    CountCorrectSnoc(answered, given, currentIndex, answer);
    var answered' := answered + [currentIndex];
    assert answered'[|answered'| - 1] == currentIndex;
    forall i | 0 <= i < |answered'| ensures 0 <= answered'[i] <= currentIndex {
      if i < |answered| {
        assert answered'[i] == answered[i];
      }
    }
  }

  /** The component's six pieces of state. `given` is a ghost record of the
      answers chosen, parallel to `answered`, so that the score can be
      stated as the number of right answers. */
  class QuizSession {
    var currentIndex: int
    var selectedAnswer: Option<bool>
    var showResult: bool
    var score: int
    var answered: seq<int>
    var quizComplete: bool
    ghost var given: seq<bool>

    /** Every reachable state (see `Consistent`). */
    ghost predicate Valid()
      reads this
    {
      Consistent(currentIndex, selectedAnswer, showResult, score, answered, given)
    }

    /** The initial state: first quiz, nothing selected, no result, score 0. */
    constructor ()
      ensures Valid()
      ensures currentIndex == 0 && selectedAnswer == None && !showResult
      ensures score == 0 && answered == [] && !quizComplete
    {
      currentIndex := 0;
      selectedAnswer := None;
      showResult := false;
      score := 0;
      answered := [];
      quizComplete := false;
      given := [];
    }

    /** `handleAnswer`: ignored once the result is shown; otherwise records
        the answer, shows the result and scores a right answer. */
    method Answer(answer: bool)
      requires Valid()
      modifies this
      ensures Valid()
      ensures old(showResult) ==> unchanged(this)
      ensures !old(showResult) ==>
        && selectedAnswer == Some(answer) && showResult
        && score == old(score) + (if answer == AnswerKey[currentIndex] then 1 else 0)
        && answered == old(answered) + [old(currentIndex)]
        && currentIndex == old(currentIndex) && quizComplete == old(quizComplete)
    {
      if showResult {
        return;
      }
      AnswerKeepsConsistent(currentIndex, selectedAnswer, score, answered, given, answer);
      selectedAnswer := Some(answer);
      showResult := true;
      if answer == AnswerKey[currentIndex] {
        score := score + 1;
      }
      answered := answered + [currentIndex];
      given := given + [answer];
    }

    /** `handleNext`: moves to the next quiz with a clean slate, or completes
        the quiz after the last one. */
    method Next()
      requires Valid()
      modifies this
      ensures Valid()
      ensures old(currentIndex) < |AnswerKey| - 1 ==>
        && currentIndex == old(currentIndex) + 1 && selectedAnswer == None && !showResult
        && score == old(score) && answered == old(answered) && quizComplete == old(quizComplete)
      ensures old(currentIndex) == |AnswerKey| - 1 ==>
        && quizComplete && currentIndex == old(currentIndex) && selectedAnswer == old(selectedAnswer)
        && showResult == old(showResult) && score == old(score) && answered == old(answered)
    {
      if currentIndex < |AnswerKey| - 1 {
        currentIndex := currentIndex + 1;
        selectedAnswer := None;
        showResult := false;
      } else {
        quizComplete := true;
      }
    }

    /** `handleRestart`: back to the initial state. */
    method Restart()
      requires Valid()
      modifies this
      ensures Valid()
      ensures currentIndex == 0 && selectedAnswer == None && !showResult
      ensures score == 0 && answered == [] && !quizComplete
    {
      currentIndex := 0;
      selectedAnswer := None;
      showResult := false;
      score := 0;
      answered := [];
      quizComplete := false;
      given := [];
    }

    /** The wrong answers the completion screen reports, `QUIZZES.length - score`. */
    function WrongCount(): (n: nat)
      requires Valid()
      reads this
      ensures n + score == |AnswerKey|
    {
      ScoreWithinQuizzes(this);
      |AnswerKey| - score
    }
  }

  /** In every reachable state the score lies between 0 and the number of
      quizzes answered, which is at most the number of quizzes. */
  lemma ScoreWithinQuizzes(q: QuizSession)
    requires q.Valid()
    ensures 0 <= q.score <= |q.answered| <= q.currentIndex + 1 <= |AnswerKey|
  {
    IncreasingBound(q.answered, q.currentIndex);
  }

  // ---------------------------------------------------------------------
  // The closing message
  // ---------------------------------------------------------------------

  /** The five closing messages, from the best result down. */
  datatype Tier = Perfect | Great | Good | Fair | Beginner

  /** `getScoreMessage`: the percentage `score / length * 100` against 100,
      80, 60 and 40, compared here in whole numbers. */
  function ScoreTier(score: int, total: int): (t: Tier)
    requires total > 0
    ensures t == Perfect <==> score == total
    ensures t == Beginner <==> 5 * score < 2 * total
  {
    if score * 100 == 100 * total then Perfect
    else if score * 100 >= 80 * total then Great
    else if score * 100 >= 60 * total then Good
    else if score * 100 >= 40 * total then Fair
    else Beginner
  }

  /** The message of each tier. */
  function Message(t: Tier): (m: string)
    ensures |m| > 0
  {
    match t
    case Perfect => "🏆 완벽해요! 정책 전문가시네요!"
    case Great => "🎉 대단해요! 정책을 잘 알고 계시네요!"
    case Good => "👍 좋아요! 조금만 더 알아보면 완벽해요!"
    case Fair => "💪 괜찮아요! 앞으로 더 알아가면 됩니다!"
    case Beginner => "📚 걱정 마세요! 이제부터 하나씩 알아가면 됩니다!"
  }

  /** Each tier has its own message. */
  lemma MessagesDistinct(a: Tier, b: Tier)
    ensures Message(a) == Message(b) <==> a == b
  {
    if a != b {
      assert Message(a)[0] != Message(b)[0];
    }
  }

  /** Rank of a tier, 4 for the best. */
  function Rank(t: Tier): (r: nat)
    ensures r <= 4
    ensures r == 4 <==> t == Perfect
  {
    match t
    case Perfect => 4
    case Great => 3
    case Good => 2
    case Fair => 1
    case Beginner => 0
  }

  /** A higher score never gives a worse message. */
  lemma ScoreTierMonotone(s1: int, s2: int, total: int)
    requires total > 0 && s1 <= s2 <= total
    ensures Rank(ScoreTier(s1, total)) <= Rank(ScoreTier(s2, total))
  {
  }

  /** Over the eight quizzes: all right is perfect, 7 great, 5 or 6 good,
      4 fair, 3 or fewer the beginner's message. */
  lemma TiersOfEightQuizzes(score: int)
    requires 0 <= score <= |AnswerKey|
    ensures ScoreTier(score, |AnswerKey|) == Perfect <==> score == 8
    ensures ScoreTier(score, |AnswerKey|) == Great <==> score == 7
    ensures ScoreTier(score, |AnswerKey|) == Good <==> 5 <= score <= 6
    ensures ScoreTier(score, |AnswerKey|) == Fair <==> score == 4
    ensures ScoreTier(score, |AnswerKey|) == Beginner <==> score <= 3
  {
  }

  /** `getScoreMessage` on the session's score: the perfect message exactly
      when every quiz was answered right, the beginner's exactly when at most
      three were. */
  function ScoreMessage(q: QuizSession): (m: string)
    requires q.Valid()
    reads q
    ensures m == Message(Perfect) <==> q.score == |AnswerKey|
    ensures m == Message(Beginner) <==> q.score <= 3
  {
    var t := ScoreTier(q.score, |AnswerKey|);
    ScoreWithinQuizzes(q);
    TiersOfEightQuizzes(q.score);
    MessagesDistinct(t, Perfect);
    MessagesDistinct(t, Beginner);
    Message(t)
  }
}
