/**
 * The quiz page: a fixed table of ten multiple-choice questions, and the state the click handlers
 * move through (start screen, one question at a time with a selected option, the results screen).
 */
module Quiz {
  import opened Wrappers

  datatype Question = Question(text: string, options: seq<string>, answer: string)

  /** `quizData`. */
  const QuizData: seq<Question> := [
    Question("What is the capital of France?", ["Berlin", "Madrid", "Paris", "Rome"], "Paris"),
    Question("Which planet is known as the Red Planet?", ["Earth", "Mars", "Jupiter", "Saturn"], "Mars"),
    Question("Who wrote 'Romeo and Juliet'?",
             ["William Shakespeare", "Mark Twain", "Charles Dickens", "Jane Austen"], "William Shakespeare"),
    Question("What is the boiling point of water at sea level?",
             ["90\U{00B0}C", "100\U{00B0}C", "110\U{00B0}C", "120\U{00B0}C"], "100\U{00B0}C"),
    Question("What is the largest ocean on Earth?",
             ["Atlantic Ocean", "Indian Ocean", "Arctic Ocean", "Pacific Ocean"], "Pacific Ocean"),
    Question("Which element has the chemical symbol 'O'?", ["Gold", "Oxygen", "Silver", "Iron"], "Oxygen"),
    Question("Who painted the Mona Lisa?",
             ["Vincent Van Gogh", "Pablo Picasso", "Leonardo da Vinci", "Claude Monet"], "Leonardo da Vinci"),
    Question("What is the smallest prime number?", ["0", "1", "2", "3"], "2"),
    Question("Which language is primarily spoken in Brazil?",
             ["Spanish", "Portuguese", "French", "English"], "Portuguese"),
    Question("What gas do plants absorb from the atmosphere?",
             ["Oxygen", "Nitrogen", "Carbon Dioxide", "Hydrogen"], "Carbon Dioxide")
  ]

  /** The position of each question's answer among its options. */
  const AnswerIndex: seq<nat> := [2, 1, 0, 1, 3, 1, 2, 2, 1, 2]

  /** Every question's answer is one of its options, so a full score is reachable. */
  lemma AnswersAmongOptions()
    ensures |AnswerIndex| == |QuizData|
    ensures forall i :: 0 <= i < |QuizData| ==>
      AnswerIndex[i] < |QuizData[i].options| && QuizData[i].options[AnswerIndex[i]] == QuizData[i].answer
  {
  }

  /**
   * How many of the chosen options, one per question from the first, are that question's answer:
   * the score a round with these choices earns.
   */
  function Correct(questions: seq<Question>, chosen: seq<string>): (n: nat)
    requires |chosen| <= |questions|
    ensures n <= |chosen|
    decreases |chosen|
  {
    if chosen == [] then 0
    else
      var k := |chosen| - 1;
      Correct(questions, chosen[..k]) + if chosen[k] == questions[k].answer then 1 else 0
  }

  /** The answers themselves, in question order. */
  function AnswerKey(questions: seq<Question>): (r: seq<string>)
    ensures |r| == |questions|
    ensures forall i :: 0 <= i < |r| ==> r[i] == questions[i].answer
  {
    seq(|questions|, i requires 0 <= i < |questions| => questions[i].answer)
  }

  /** Answering one more question adds a point exactly when the choice is its answer. */
  lemma CorrectSnoc(questions: seq<Question>, chosen: seq<string>, option: string)
    requires |chosen| < |questions|
    ensures Correct(questions, chosen + [option])
         == Correct(questions, chosen) + if option == questions[|chosen|].answer then 1 else 0
  {
    assert (chosen + [option])[..|chosen|] == chosen;
  }

  /** Choosing the answer every time scores one point per question answered so far. */
  lemma {:induction false} CorrectAnswers(questions: seq<Question>, n: nat)
    requires n <= |questions|
    ensures Correct(questions, AnswerKey(questions)[..n]) == n
    decreases n
  {
    if n > 0 {
      CorrectAnswers(questions, n - 1);
      assert AnswerKey(questions)[..n][..n - 1] == AnswerKey(questions)[..n - 1];
    }
  }

  /** Choosing the answer to every question gives the full score. */
  lemma PerfectScore(questions: seq<Question>)
    ensures Correct(questions, AnswerKey(questions)) == |questions|
  {
    CorrectAnswers(questions, |questions|);
    assert AnswerKey(questions)[..|questions|] == AnswerKey(questions);
  }

  /** A choice that is never an answer scores nothing. */
  lemma {:induction false} NoneCorrect(questions: seq<Question>, chosen: seq<string>)
    requires |chosen| <= |questions|
    requires forall i :: 0 <= i < |chosen| ==> chosen[i] != questions[i].answer
    ensures Correct(questions, chosen) == 0
    decreases |chosen|
  {
    if chosen != [] {
      NoneCorrect(questions, chosen[..|chosen| - 1]);
    }
  }

  /** What the container shows. */
  datatype Screen = Start | Asking | Results

  class QuizPage {
    /** The question table the page runs through (`quizData`). */
    const questions: seq<Question>
    var currentQuestionIndex: nat
    var score: nat
    var selectedOption: Option<string>
    var screen: Screen
    /** Whether the Next button of the question shown is enabled. */
    var nextEnabled: bool

    /**
     * The score never exceeds the questions answered and those never exceed the table; a question
     * is shown only while the index is inside the table, with Next enabled exactly when one of its
     * options is selected; the results appear once every question is answered.
     */
    ghost predicate Valid()
      reads this
    {
      && 0 < |questions|
      && score <= currentQuestionIndex <= |questions|
      && (screen == Start ==> currentQuestionIndex == 0 && score == 0)
      && (screen == Asking ==>
            && currentQuestionIndex < |questions|
            && (nextEnabled <==> selectedOption.Some?)
            && (selectedOption.Some? ==> selectedOption.value in questions[currentQuestionIndex].options))
      && (screen == Results ==> currentQuestionIndex == |questions|)
    }

    /** The page as loaded: the start screen, nothing answered. */
    constructor ()
      ensures Valid()
      ensures questions == QuizData
      ensures screen == Start && currentQuestionIndex == 0 && score == 0 && selectedOption == None
    {
      questions := QuizData;
      currentQuestionIndex, score, selectedOption := 0, 0, None;
      screen, nextEnabled := Start, false;
    }

    /** `startQuiz` (the start button): shows the current question with nothing selected. */
    method StartQuiz()
      requires Valid() && screen == Start
      modifies this
      ensures Valid()
      ensures screen == Asking && selectedOption == None && !nextEnabled
      ensures currentQuestionIndex == old(currentQuestionIndex) && score == old(score)
    {
      ShowQuestion();
    }

    /** `showQuestion`: clears the selection and disables Next. */
    method ShowQuestion()
      requires 0 < |questions| && currentQuestionIndex < |questions| && score <= currentQuestionIndex
      modifies this
      ensures Valid()
      ensures screen == Asking && selectedOption == None && !nextEnabled
      ensures currentQuestionIndex == old(currentQuestionIndex) && score == old(score)
    {
      selectedOption := None;
      screen := Asking;
      nextEnabled := false;
    }

    /**
     * A click on option `k` of the question shown: replaces any earlier selection and enables
     * Next.
     */
    method SelectOption(k: nat)
      requires Valid() && screen == Asking && k < |questions[currentQuestionIndex].options|
      modifies this
      ensures Valid()
      ensures currentQuestionIndex == old(currentQuestionIndex) && score == old(score) && screen == Asking
      ensures selectedOption == Some(questions[currentQuestionIndex].options[k]) && nextEnabled
    {
      selectedOption := Some(questions[currentQuestionIndex].options[k]);
      nextEnabled := true;
    }

    /**
     * The Next button (enabled only once an option is selected): one point when the selection is the
     * answer, then the next question, or the results after the last one.
     */
    method Next()
      requires Valid() && screen == Asking && nextEnabled
      modifies this
      ensures Valid()
      ensures score == old(score) + if old(selectedOption) == Some(questions[old(currentQuestionIndex)].answer) then 1 else 0
      ensures currentQuestionIndex == old(currentQuestionIndex) + 1
      ensures screen == if currentQuestionIndex < |questions| then Asking else Results
      ensures screen == Asking ==> selectedOption == None && !nextEnabled
    {
      if selectedOption == Some(questions[currentQuestionIndex].answer) {
        score := score + 1;
      }
      currentQuestionIndex := currentQuestionIndex + 1;
      if currentQuestionIndex < |questions| {
        ShowQuestion();
      } else {
        screen := Results;
      }
    }

    /**
     * The restart button of the results screen: index and score back to zero and the start screen
     * shown. The last selection is left as it was; the next question shown clears it.
     */
    method Restart()
      requires Valid() && screen == Results
      modifies this
      ensures Valid()
      ensures currentQuestionIndex == 0 && score == 0 && screen == Start
      ensures selectedOption == old(selectedOption)
    {
      currentQuestionIndex, score := 0, 0;
      screen := Start;
    }

    /**
     * A whole round from the start screen: for each question in turn the option at `picks[i]` is
     * clicked and then Next. The round ends on the results screen with one point per pick that is
     * the answer.
     */
    method PlayRound(picks: seq<nat>) returns (chosen: seq<string>)
      requires Valid() && screen == Start
      requires |picks| == |questions|
      requires forall i :: 0 <= i < |picks| ==> picks[i] < |questions[i].options|
      modifies this
      ensures Valid() && screen == Results
      ensures |chosen| == |questions|
      ensures forall i :: 0 <= i < |chosen| ==> chosen[i] == questions[i].options[picks[i]]
      ensures score == Correct(questions, chosen)
    {
      StartQuiz();
      chosen := [];
      var i := 0;
      while i < |picks|
        invariant 0 <= i <= |picks|
        invariant Valid()
        invariant currentQuestionIndex == i && |chosen| == i
        invariant screen == if i < |questions| then Asking else Results
        invariant i < |questions| ==> !nextEnabled
        invariant forall j :: 0 <= j < i ==> chosen[j] == questions[j].options[picks[j]]
        invariant score == Correct(questions, chosen)
      {
        SelectOption(picks[i]);
        var option := questions[i].options[picks[i]];
        Next();
        CorrectSnoc(questions, chosen, option);
        chosen := chosen + [option];
        i := i + 1;
      }
    }
  }
}
