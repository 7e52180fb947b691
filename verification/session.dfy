/**
 * The quiz page's session: the module globals of js/script.js (lines 22-33) as the fields of
 * one object, and the handlers that change them. A `setTimeout` step that a handler schedules
 * is returned as a value for the caller to run; each random draw is a parameter.
 */
module QuizSession {
  import opened Text
  import opened Helpers
  import opened Shuffle
  import opened Bank

  datatype Mode = Quiz | Simulated

  /** One `simAnswers` record. */
  datatype Answer = Answer(question: Question, selected: seq<string>, isCorrect: bool)

  /** What `nextQuestion` did. */
  datatype Selection =
    | NoCandidates      // the chosen category has no question
    | Exhausted         // every candidate was shown; a retry is scheduled
    | Shown(q: Question)

  /** The step `validateAnswer` schedules. */
  datatype FollowUp = Stay | NextQuiz | LoadSim(index: nat) | FinishSim

  /** What a click on an option button did. */
  datatype Click = Ignored | Toggled | Validated(isCorrect: bool, next: FollowUp)

  /** How a handler that starts a simulated test ended: the test began, or quiz mode took over. */
  datatype Launch = SimStarted | QuizShown(sel: Selection)

  /** The figures of the final-score modal. */
  datatype Report = Report(timedOut: bool, correct: nat, scores: seq<(string, nat)>, approved: bool)

  /** The pass threshold of `showSimulatedScore`. */
  const PassMark: nat := 82

  /** The length of a simulated test: two hours, in seconds. */
  const SimSeconds: int := 120 * 60

  /** The selector value that stands for every category. */
  const AllCategories: string := "all"

  /** The modal's per-category lines: each table category with its score, zero when it has none. */
  function ScoreLines(cfg: seq<(string, nat)>, scores: map<string, nat>): (r: seq<(string, nat)>)
    ensures |r| == |cfg|
    ensures forall k :: 0 <= k < |r| ==> r[k].0 == cfg[k].0 && (cfg[k].0 !in scores ==> r[k].1 == 0)
    ensures forall k :: 0 <= k < |r| && cfg[k].0 in scores ==> r[k].1 == scores[cfg[k].0]
  {
    seq(|cfg|, k requires 0 <= k < |cfg| => (cfg[k].0, ScoreOf(scores, cfg[k].0)))
  }

  /** The correct answers among `answers` whose question has category `cat`. */
  function CorrectIn(answers: seq<Answer>, cat: string): nat
  {
    if answers == [] then 0
    else
      var last := answers[|answers| - 1];
      CorrectIn(answers[..|answers| - 1], cat) + (if last.isCorrect && last.question.category == cat then 1 else 0)
  }

  /** The correct answers among `answers`. */
  function CorrectTotal(answers: seq<Answer>): (n: nat)
    ensures n <= |answers|
  {
    if answers == [] then 0
    else CorrectTotal(answers[..|answers| - 1]) + (if answers[|answers| - 1].isCorrect then 1 else 0)
  }

  /** Appending one answer adds it to the counts it belongs to. */
  lemma AnswerAppended(answers: seq<Answer>, a: Answer)
    ensures CorrectTotal(answers + [a]) == CorrectTotal(answers) + (if a.isCorrect then 1 else 0)
    ensures forall cat ::
      CorrectIn(answers + [a], cat) == CorrectIn(answers, cat) + (if a.isCorrect && a.question.category == cat then 1 else 0)
  {
    assert (answers + [a])[..|answers|] == answers;
  }

  /** The option letters whose buttons are selected, in button order. */
  function SelectedLetters(picked: set<string>): (r: seq<string>)
    ensures forall l :: l in r <==> l in Letters && l in picked
    ensures IsSubseq(r, Letters)
    ensures forall i, j :: 0 <= i < j < |r| ==> r[i] != r[j]
  {
    assert Distinct(Letters);
    Among(Letters, picked)
  }

  /** A click on a button flips its `selected` class. */
  function Toggle(picked: set<string>, letter: string): (r: set<string>)
    ensures letter in r <==> letter !in picked
    ensures forall l :: l != letter ==> (l in r <==> l in picked)
  {
    if letter in picked then picked - {letter} else picked + {letter}
  }

  /** The condition under which a click goes on to `validateAnswer`. */
  predicate Ready(correct: seq<string>, selected: seq<string>)
  {
    var needed := if |correct| == 0 then 1 else |correct|;
    |correct| <= 1 || |selected| >= needed
  }

  /**
   * The fallback to one needed selection never matters: a key of at most one letter is
   * validated on the first click, a longer one once as many buttons are selected.
   */
  lemma ReadyIff(correct: seq<string>, selected: seq<string>)
    ensures Ready(correct, selected) <==> |correct| <= 1 || |selected| >= |correct|
    ensures |correct| == 0 ==> Ready(correct, selected)
  {
  }

  /** The questions `nextQuestion` chooses among for the selector value `cat`. */
  function Candidates(all: seq<Question>, cat: string): (r: seq<Question>)
    ensures forall k :: 0 <= k < |r| ==> r[k] in all && (cat == AllCategories || r[k].category == cat)
    ensures cat == AllCategories ==> r == all
    ensures cat != AllCategories ==> forall q :: multiset(r)[q] == if q.category == cat then multiset(all)[q] else 0
  {
    if cat == AllCategories then all else OfCategory(all, cat)
  }

  /** The candidates whose id is not among the shown ones, in their order. */
  function Unseen(qs: seq<Question>, answered: set<string>): (r: seq<Question>)
    ensures forall q :: q in r <==> q in qs && q.id !in answered
    ensures forall q :: multiset(r)[q] == if q.id in answered then 0 else multiset(qs)[q]
  {
    if qs == [] then []
    else
      var rest := Unseen(qs[1..], answered);
      assert qs == [qs[0]] + qs[1..];
      assert forall q :: q in qs <==> q == qs[0] || q in qs[1..];
      if qs[0].id in answered then rest else [qs[0]] + rest
  }

  /** A zero score for every category of the table. */
  function ZeroScores(cfg: seq<(string, nat)>): (m: map<string, nat>)
    ensures forall c :: c in m ==> m[c] == 0
    ensures forall c :: c in m <==> c in Names(cfg)
  {
    if cfg == [] then map[]
    else
      var n := |cfg| - 1;
      assert Names(cfg) == Names(cfg[..n]) + [cfg[n].0];
      ZeroScores(cfg[..n])[cfg[n].0 := 0]
  }

  /** The score of `cat`, zero when it has none. */
  function ScoreOf(scores: map<string, nat>, cat: string): nat
  {
    if cat in scores then scores[cat] else 0
  }

  /** One point more for `cat` when the answer is right; otherwise the scores stay as they are. */
  function Credit(scores: map<string, nat>, cat: string, isCorrect: bool): (r: map<string, nat>)
    ensures forall c :: ScoreOf(r, c) == ScoreOf(scores, c) + (if isCorrect && c == cat then 1 else 0)
  {
    if isCorrect then scores[cat := ScoreOf(scores, cat) + 1] else scores
  }

  /** The per-category scores count the correct answers of each category. */
  ghost predicate ScoresMatch(scores: map<string, nat>, answers: seq<Answer>)
  {
    forall cat :: ScoreOf(scores, cat) == CorrectIn(answers, cat)
  }

  /** Recording an answer and crediting its category keep the scores in step with the answers. */
  lemma CreditAnswer(scores: map<string, nat>, answers: seq<Answer>, a: Answer)
    requires ScoresMatch(scores, answers)
    ensures ScoresMatch(Credit(scores, a.question.category, a.isCorrect), answers + [a])
    ensures CorrectTotal(answers + [a]) == CorrectTotal(answers) + (if a.isCorrect then 1 else 0)
  {
    AnswerAppended(answers, a);
  }

  /** A test that holds the table's total, each category exactly its quota. */
  predicate Filled(qs: seq<Question>, cfg: seq<(string, nat)>)
  {
    |qs| == Total(cfg) && forall k :: 0 <= k < |cfg| ==> Count(qs, cfg[k].0) == cfg[k].1
  }

  /** A simulated test holds `SIM_TOTAL` questions, each category exactly its quota. */
  predicate QuotasFilled(qs: seq<Question>)
  {
    Filled(qs, SimConfig)
  }

  /** The first loop of `prepareSimulated`: every category has at least its quota. */
  method CheckQuotas(all: seq<Question>, cfg: seq<(string, nat)>) returns (ok: bool)
    ensures ok <==> QuotasMet(all, cfg)
  {
    var k := 0;
    while k < |cfg|
      invariant 0 <= k <= |cfg|
      invariant forall j :: 0 <= j < k ==> Count(all, cfg[j].0) >= cfg[j].1
    {
      var (cat, quota) := cfg[k];
      var questionsCat := OfCategory(all, cat);
      if |questionsCat| < quota {
        return false;
      }
      k := k + 1;
    }
    return true;
  }

  /** The draw for table entry `k` extends the draws of the entries before it. */
  lemma DrawStep(all: seq<Question>, cfg: seq<(string, nat)>, picks: seq<seq<nat>>, k: nat)
    requires k < |cfg| && QuotasMet(all, cfg) && ValidCategoryPicks(all, cfg, picks)
    ensures QuotasMet(all, cfg[..k + 1]) && ValidCategoryPicks(all, cfg[..k + 1], picks[..k + 1])
    ensures Draws(all, cfg[..k + 1], picks[..k + 1]) ==
      Draws(all, cfg[..k], picks[..k]) + Draw(all, cfg[k].0, cfg[k].1, picks[k])
    ensures ZeroScores(cfg[..k + 1]) == ZeroScores(cfg[..k])[cfg[k].0 := 0]
  {
    assert cfg[..k + 1][..k] == cfg[..k] && picks[..k + 1][..k] == picks[..k];
  }

  /**
   * The second loop of `prepareSimulated`: each category's questions shuffled and cut to
   * its quota, appended in table order, with a zero score entered for the category.
   */
  method DrawQuestions(all: seq<Question>, cfg: seq<(string, nat)>, catPicks: seq<seq<nat>>)
    returns (drawn: seq<Question>, scores: map<string, nat>)
    requires QuotasMet(all, cfg) && ValidCategoryPicks(all, cfg, catPicks)
    ensures drawn == Draws(all, cfg, catPicks)
    ensures scores == ZeroScores(cfg)
  {
    drawn, scores := [], map[];
    var k := 0;
    while k < |cfg|
      invariant 0 <= k <= |cfg|
      invariant QuotasMet(all, cfg[..k]) && ValidCategoryPicks(all, cfg[..k], catPicks[..k])
      invariant drawn == Draws(all, cfg[..k], catPicks[..k])
      invariant scores == ZeroScores(cfg[..k])
    {
      var (cat, quota) := cfg[k];
      var pool := OfCategory(all, cat);
      var arr := new Question[|pool|](i requires 0 <= i < |pool| => pool[i]);
      assert arr[..] == pool;
      var shuffled := ShuffleArray(arr, catPicks[k]);
      DrawStep(all, cfg, catPicks, k);
      drawn := drawn + shuffled[..quota];
      scores := scores[cat := 0];
      k := k + 1;
    }
    assert cfg[..k] == cfg && catPicks[..k] == catPicks;
  }

  /** The final shuffle of the draws is a full test taken from the bank. */
  lemma DrawsFilled(all: seq<Question>, cfg: seq<(string, nat)>, catPicks: seq<seq<nat>>, finalPicks: seq<nat>)
    requires QuotasMet(all, cfg) && ValidCategoryPicks(all, cfg, catPicks) && Distinct(Names(cfg))
    requires ValidPicks(finalPicks, Total(cfg))
    ensures Filled(Shuffled(Draws(all, cfg, catPicks), finalPicks), cfg)
    ensures multiset(Shuffled(Draws(all, cfg, catPicks), finalPicks)) <= multiset(all)
    ensures forall q :: q in Shuffled(Draws(all, cfg, catPicks), finalPicks) ==> q in all
  {
    var drawn := Draws(all, cfg, catPicks);
    var mixed := Shuffled(drawn, finalPicks);
    forall j | 0 <= j < |cfg| ensures Count(mixed, cfg[j].0) == cfg[j].1 {
      DrawsCount(all, cfg, catPicks, j);
      CountPermutation(drawn, mixed, cfg[j].0);
    }
    DrawsSubBank(all, cfg, catPicks);
    forall q | q in mixed ensures q in all {
      assert q in multiset(drawn);
    }
  }

  /**
   * What `prepareSimulated` builds once the quotas are met: the draws, checked against the
   * table's total and shuffled as a whole, and a zero score per category.
   */
  method BuildSimulated(all: seq<Question>, cfg: seq<(string, nat)>, catPicks: seq<seq<nat>>, finalPicks: seq<nat>)
    returns (qs: seq<Question>, scores: map<string, nat>)
    requires QuotasMet(all, cfg) && ValidCategoryPicks(all, cfg, catPicks) && Distinct(Names(cfg))
    requires ValidPicks(finalPicks, Total(cfg))
    ensures qs == Shuffled(Draws(all, cfg, catPicks), finalPicks) && scores == ZeroScores(cfg)
    ensures Filled(qs, cfg) && multiset(qs) <= multiset(all) && forall q :: q in qs ==> q in all
  {
    var drawn;
    drawn, scores := DrawQuestions(all, cfg, catPicks);
    if |drawn| != Total(cfg) {
      assert false;
    }
    var arr := new Question[|drawn|](i requires 0 <= i < |drawn| => drawn[i]);
    assert arr[..] == drawn;
    var mixed := ShuffleArray(arr, finalPicks);
    qs := mixed[..];
    DrawsFilled(all, cfg, catPicks, finalPicks);
  }

  class Session {
    var allQuestions: seq<Question>
    var current: Option<Question>
    /** The letters of the option buttons that carry the `selected` class. */
    var picked: set<string>
    /** The option buttons carry `opt-disabled`. */
    var locked: bool
    var answeredQuestions: set<string>
    var asked: nat
    var correctCount: nat
    var wrongCount: nat
    var mode: Mode
    var simQuestions: seq<Question>
    var simAnswers: seq<Answer>
    var simIndex: nat
    var simCategoryScores: map<string, nat>
    var timerRunning: bool
    var timeLeft: int
    /** The value of the category selector. */
    var category: string


    /** Every validation counts once, as right or as wrong. */
    predicate Tally()
      reads this
    {
      asked == correctCount + wrongCount
    }

    ghost predicate Valid()
      reads this
    {
      Tally() && ScoresMatch(simCategoryScores, simAnswers)
      && (mode == Simulated ==>
        QuotasFilled(simQuestions) && simIndex == |simAnswers| && asked == |simAnswers|
        && correctCount == CorrectTotal(simAnswers))
    }

    constructor ()
      ensures Valid() && mode == Quiz && current == None && category == AllCategories
      ensures allQuestions == [] && answeredQuestions == {} && asked == 0 && !timerRunning
    {
      allQuestions := [];
      current := None;
      picked := {};
      locked := false;
      answeredQuestions := {};
      asked, correctCount, wrongCount := 0, 0, 0;
      mode := Quiz;
      simQuestions, simAnswers, simIndex := [], [], 0;
      simCategoryScores := map[];
      timerRunning := false;
      timeLeft := 0;
      category := AllCategories;
    }

    /** The state part of `renderQuestion`: fresh buttons, and the question's id marked as shown. */
    method Render(q: Question)
      modifies this
      ensures current == Some(q) && picked == {} && !locked
      ensures answeredQuestions == old(answeredQuestions) + {q.id}
      ensures allQuestions == old(allQuestions) && category == old(category) && mode == old(mode)
      ensures asked == old(asked) && correctCount == old(correctCount) && wrongCount == old(wrongCount)
      ensures simQuestions == old(simQuestions) && simAnswers == old(simAnswers) && simIndex == old(simIndex)
      ensures simCategoryScores == old(simCategoryScores)
      ensures timerRunning == old(timerRunning) && timeLeft == old(timeLeft)
    {
      current := Some(q);
      picked := {};
      locked := false;
      answeredQuestions := answeredQuestions + {q.id};
    }

    /**
     * `nextQuestion`: among the questions of the selected category that have not been shown,
     * the one at the draw `pick`; nothing when the category is empty; a scheduled retry when
     * every candidate has been shown.
     */
    method NextQuestion(pick: nat) returns (sel: Selection)
      requires Valid()
      modifies this
      ensures Valid()
      ensures sel == NoCandidates <==> Candidates(allQuestions, category) == []
      ensures sel == Exhausted <==>
        Candidates(allQuestions, category) != [] &&
        forall q :: q in Candidates(allQuestions, category) ==> q.id in old(answeredQuestions)
      ensures sel.Shown? ==>
        sel.q in Candidates(allQuestions, category) && sel.q.id !in old(answeredQuestions) &&
        current == Some(sel.q) && picked == {} && !locked &&
        answeredQuestions == old(answeredQuestions) + {sel.q.id}
      ensures !sel.Shown? ==>
        current == old(current) && picked == old(picked) && locked == old(locked) &&
        answeredQuestions == old(answeredQuestions)
      ensures allQuestions == old(allQuestions) && category == old(category) && mode == old(mode)
      ensures asked == old(asked) && correctCount == old(correctCount) && wrongCount == old(wrongCount)
      ensures simQuestions == old(simQuestions) && simAnswers == old(simAnswers) && simIndex == old(simIndex)
      ensures simCategoryScores == old(simCategoryScores)
      ensures timerRunning == old(timerRunning) && timeLeft == old(timeLeft)
    {
      var candidates := Candidates(allQuestions, category);
      if |candidates| == 0 {
        return NoCandidates;
      }
      var pool := Unseen(candidates, answeredQuestions);
      if |pool| == 0 {
        forall q | q in candidates ensures q.id in answeredQuestions {
          assert q !in pool;
        }
        return Exhausted;
      }
      assert pool[0] in candidates && pool[0].id !in answeredQuestions;
      var q := pool[pick % |pool|];
      assert q in pool;
      Render(q);
      sel := Shown(q);
    }

    /** The retry `nextQuestion` schedules when it runs out: forget what was shown and pick again. */
    method RetryAfterExhausted(pick: nat) returns (sel: Selection)
      requires Valid()
      modifies this
      ensures Valid()
      ensures Candidates(allQuestions, category) != [] ==> sel.Shown?
      ensures Candidates(allQuestions, category) == [] ==> sel == NoCandidates && answeredQuestions == {}
      ensures sel.Shown? ==>
        sel.q in Candidates(allQuestions, category) && current == Some(sel.q) && picked == {} && !locked &&
        answeredQuestions == {sel.q.id}
      ensures !sel.Shown? ==> current == old(current) && picked == old(picked) && locked == old(locked)
      ensures allQuestions == old(allQuestions) && category == old(category) && mode == old(mode)
      ensures asked == old(asked) && correctCount == old(correctCount) && wrongCount == old(wrongCount)
      ensures simQuestions == old(simQuestions) && simAnswers == old(simAnswers) && simIndex == old(simIndex)
      ensures simCategoryScores == old(simCategoryScores)
      ensures timerRunning == old(timerRunning) && timeLeft == old(timeLeft)
    {
      answeredQuestions := {};
      if Candidates(allQuestions, category) != [] {
        assert Candidates(allQuestions, category)[0] in Candidates(allQuestions, category);
      }
      sel := NextQuestion(pick);
    }

    /** `loadSimQuestion(i)`: shows simulated question `i`; past the end nothing changes. */
    method LoadSimQuestion(i: nat)
      requires Valid()
      modifies this
      ensures Valid()
      ensures i < |simQuestions| ==>
        current == Some(simQuestions[i]) && picked == {} && !locked &&
        answeredQuestions == old(answeredQuestions) + {simQuestions[i].id}
      ensures i >= |simQuestions| ==>
        current == old(current) && picked == old(picked) && locked == old(locked) &&
        answeredQuestions == old(answeredQuestions)
      ensures allQuestions == old(allQuestions) && category == old(category) && mode == old(mode)
      ensures asked == old(asked) && correctCount == old(correctCount) && wrongCount == old(wrongCount)
      ensures simQuestions == old(simQuestions) && simAnswers == old(simAnswers) && simIndex == old(simIndex)
      ensures simCategoryScores == old(simCategoryScores)
      ensures timerRunning == old(timerRunning) && timeLeft == old(timeLeft)
    {
      if i < |simQuestions| {
        Render(simQuestions[i]);
      }
    }

    /**
     * `validateAnswer(selected)`: locks the buttons, counts the answer as right exactly when
     * the selection holds the key's letters in any order, and in a simulated test records the
     * answer, credits its category when right and moves to the next question.
     */
    method ValidateAnswer(selected: seq<string>) returns (isCorrect: bool, next: FollowUp)
      requires Valid() && current.Some?
      modifies this
      ensures Valid()
      ensures isCorrect <==> multiset(old(current).value.correct) == multiset(selected)
      ensures locked && current == old(current) && picked == old(picked)
      ensures asked == old(asked) + 1
      ensures correctCount == old(correctCount) + (if isCorrect then 1 else 0)
      ensures wrongCount == old(wrongCount) + (if isCorrect then 0 else 1)
      ensures mode == Quiz ==> next == (if isCorrect then NextQuiz else Stay)
      ensures mode == Quiz ==>
        simAnswers == old(simAnswers) && simIndex == old(simIndex) && simCategoryScores == old(simCategoryScores)
      ensures mode == Simulated ==> simAnswers == old(simAnswers) + [Answer(current.value, selected, isCorrect)]
      ensures mode == Simulated ==> simIndex == old(simIndex) + 1
      ensures mode == Simulated ==>
        forall cat :: ScoreOf(simCategoryScores, cat) == ScoreOf(old(simCategoryScores), cat) + (if isCorrect && cat == current.value.category then 1 else 0)
      ensures mode == Simulated ==> simCategoryScores == Credit(old(simCategoryScores), current.value.category, isCorrect)
      ensures mode == Simulated ==>
        next == (if simIndex < |simQuestions| then LoadSim(simIndex) else FinishSim)
      ensures allQuestions == old(allQuestions) && category == old(category) && mode == old(mode)
      ensures answeredQuestions == old(answeredQuestions) && simQuestions == old(simQuestions)
      ensures timerRunning == old(timerRunning) && timeLeft == old(timeLeft)
    {
      var q := current.value;
      isCorrect := CheckAnswer(q.correct, selected);
      CountAnswer(isCorrect);
      if mode == Quiz {
        next := if isCorrect then NextQuiz else Stay;
      } else {
        var answer := Answer(q, selected, isCorrect);
        CreditAnswer(simCategoryScores, simAnswers, answer);
        next := RecordSimAnswer(answer);
      }
    }

    /** One more answer counted, as right or as wrong, with the buttons locked. */
    method CountAnswer(isCorrect: bool)
      modifies this
      ensures locked && asked == old(asked) + 1
      ensures correctCount == old(correctCount) + (if isCorrect then 1 else 0)
      ensures wrongCount == old(wrongCount) + (if isCorrect then 0 else 1)
      ensures current == old(current) && picked == old(picked)
      ensures allQuestions == old(allQuestions) && category == old(category) && mode == old(mode)
      ensures answeredQuestions == old(answeredQuestions) && simQuestions == old(simQuestions)
      ensures simAnswers == old(simAnswers) && simIndex == old(simIndex) && simCategoryScores == old(simCategoryScores)
      ensures timerRunning == old(timerRunning) && timeLeft == old(timeLeft)
    {
      locked := true;
      asked := asked + 1;
      if isCorrect {
        correctCount := correctCount + 1;
      } else {
        wrongCount := wrongCount + 1;
      }
    }

    /** The simulated-test half of `validateAnswer`: record, credit, advance, schedule. */
    method RecordSimAnswer(answer: Answer) returns (next: FollowUp)
      modifies this
      ensures simAnswers == old(simAnswers) + [answer]
      ensures simCategoryScores == Credit(old(simCategoryScores), answer.question.category, answer.isCorrect)
      ensures simIndex == old(simIndex) + 1
      ensures next == if simIndex < |simQuestions| then LoadSim(simIndex) else FinishSim
      ensures locked == old(locked) && asked == old(asked) && correctCount == old(correctCount) && wrongCount == old(wrongCount)
      ensures current == old(current) && picked == old(picked)
      ensures allQuestions == old(allQuestions) && category == old(category) && mode == old(mode)
      ensures answeredQuestions == old(answeredQuestions) && simQuestions == old(simQuestions)
      ensures timerRunning == old(timerRunning) && timeLeft == old(timeLeft)
    {
      simAnswers := simAnswers + [answer];
      simCategoryScores := Credit(simCategoryScores, answer.question.category, answer.isCorrect);
      simIndex := simIndex + 1;
      next := if simIndex < |simQuestions| then LoadSim(simIndex) else FinishSim;
    }

    /**
     * `onSelectOption` for the button of `letter`: ignored without a question or once the
     * buttons are locked; otherwise the button's selection flips, and the answer is validated
     * at once for a key of at most one letter, else once as many buttons are selected as
     * the key has letters.
     */
    method OnSelectOption(letter: string) returns (click: Click)
      requires Valid()
      requires current.Some? ==> letter in Letters && Choice(current.value.options, letter) != ""
      modifies this
      ensures Valid()
      ensures current == old(current) && answeredQuestions == old(answeredQuestions) && mode == old(mode)
      ensures old(current) == None || old(locked) ==> click == Ignored && picked == old(picked) && asked == old(asked)
      ensures old(current).Some? && !old(locked) ==>
        picked == Toggle(old(picked), letter) &&
        (click.Validated? <==> Ready(old(current).value.correct, SelectedLetters(picked)))
      ensures click.Validated? ==>
        locked && asked == old(asked) + 1 &&
        (click.isCorrect <==> multiset(old(current).value.correct) == multiset(SelectedLetters(picked)))
      ensures click.Validated? ==>
        correctCount == old(correctCount) + (if click.isCorrect then 1 else 0) &&
        wrongCount == old(wrongCount) + (if click.isCorrect then 0 else 1)
      ensures click.Validated? && mode == Quiz ==>
        click.next == (if click.isCorrect then NextQuiz else Stay) &&
        simAnswers == old(simAnswers) && simIndex == old(simIndex) && simCategoryScores == old(simCategoryScores)
      ensures click.Validated? && mode == Simulated ==>
        simAnswers == old(simAnswers) + [Answer(old(current).value, SelectedLetters(picked), click.isCorrect)] &&
        simIndex == old(simIndex) + 1 &&
        simCategoryScores == Credit(old(simCategoryScores), old(current).value.category, click.isCorrect) &&
        click.next == (if simIndex < |simQuestions| then LoadSim(simIndex) else FinishSim)
      ensures click == Ignored ==> picked == old(picked)
      ensures !click.Validated? ==>
        locked == old(locked) && asked == old(asked) && correctCount == old(correctCount) && wrongCount == old(wrongCount) &&
        simAnswers == old(simAnswers) && simIndex == old(simIndex) && simCategoryScores == old(simCategoryScores)
      ensures allQuestions == old(allQuestions) && category == old(category) && simQuestions == old(simQuestions)
      ensures timerRunning == old(timerRunning) && timeLeft == old(timeLeft)
    {
      if current.None? || locked {
        return Ignored;
      }
      picked := Toggle(picked, letter);
      var selected := SelectedLetters(picked);
      if Ready(current.value.correct, selected) {
        var isCorrect, next := ValidateAnswer(selected);
        click := Validated(isCorrect, next);
      } else {
        click := Toggled;
      }
    }

    /**
     * `prepareSimulated`: all or nothing. When some category of `SIM_CONFIG` has fewer
     * questions than its quota, the simulated state is emptied and nothing else changes;
     * otherwise the test is each category's quota drawn from its shuffled questions, the
     * whole shuffled again, with the counters, the shown set and the index reset.
     */
    method PrepareSimulated(catPicks: seq<seq<nat>>, finalPicks: seq<nat>) returns (ok: bool)
      requires ValidCategoryPicks(allQuestions, SimConfig, catPicks)
      requires ValidPicks(finalPicks, Total(SimConfig))
      modifies this
      ensures allQuestions == old(allQuestions) && category == old(category) && mode == old(mode)
      ensures current == old(current) && picked == old(picked) && locked == old(locked)
      ensures timerRunning == old(timerRunning) && timeLeft == old(timeLeft)
      ensures ok <==> QuotasMet(allQuestions, SimConfig)
      ensures simAnswers == [] && ScoresMatch(simCategoryScores, simAnswers)
      ensures !ok ==>
        simQuestions == [] && simCategoryScores == map[] && simIndex == old(simIndex) &&
        answeredQuestions == old(answeredQuestions) &&
        asked == old(asked) && correctCount == old(correctCount) && wrongCount == old(wrongCount)
      ensures ok ==>
        simQuestions == Shuffled(Draws(allQuestions, SimConfig, catPicks), finalPicks) &&
        simCategoryScores == ZeroScores(SimConfig) && simIndex == 0 && answeredQuestions == {} &&
        asked == 0 && correctCount == 0 && wrongCount == 0
      ensures ok ==> QuotasFilled(simQuestions) && multiset(simQuestions) <= multiset(allQuestions)
      ensures ok ==> forall q :: q in simQuestions ==> q in allQuestions
    {
      ClearSimulated();
      ok := CheckQuotas(allQuestions, SimConfig);
      if ok {
        FillSimulated(catPicks, finalPicks);
      }
    }

    /** The opening of `prepareSimulated`: no simulated questions, answers or scores. */
    method ClearSimulated()
      modifies this
      ensures simQuestions == [] && simAnswers == [] && simCategoryScores == map[]
      ensures simIndex == old(simIndex) && answeredQuestions == old(answeredQuestions)
      ensures asked == old(asked) && correctCount == old(correctCount) && wrongCount == old(wrongCount)
      ensures allQuestions == old(allQuestions) && category == old(category) && mode == old(mode)
      ensures current == old(current) && picked == old(picked) && locked == old(locked)
      ensures timerRunning == old(timerRunning) && timeLeft == old(timeLeft)
    {
      simQuestions, simAnswers, simCategoryScores := [], [], map[];
    }

    /** The part of `prepareSimulated` after the quota check has passed. */
    method FillSimulated(catPicks: seq<seq<nat>>, finalPicks: seq<nat>)
      requires QuotasMet(allQuestions, SimConfig) && ValidCategoryPicks(allQuestions, SimConfig, catPicks)
      requires ValidPicks(finalPicks, Total(SimConfig))
      requires simAnswers == []
      modifies this
      ensures allQuestions == old(allQuestions) && category == old(category) && mode == old(mode)
      ensures current == old(current) && picked == old(picked) && locked == old(locked)
      ensures timerRunning == old(timerRunning) && timeLeft == old(timeLeft)
      ensures simAnswers == [] && ScoresMatch(simCategoryScores, simAnswers)
      ensures simQuestions == Shuffled(Draws(allQuestions, SimConfig, catPicks), finalPicks)
      ensures simCategoryScores == ZeroScores(SimConfig) && simIndex == 0 && answeredQuestions == {}
      ensures asked == 0 && correctCount == 0 && wrongCount == 0
      ensures QuotasFilled(simQuestions) && multiset(simQuestions) <= multiset(allQuestions)
      ensures forall q :: q in simQuestions ==> q in allQuestions
    {
      SimConfigShape();
      var qs, scores := BuildSimulated(allQuestions, SimConfig, catPicks, finalPicks);
      StartSimulated(qs, scores);
    }

    /** The assignments that end `prepareSimulated`: the new test, index 0, counters reset. */
    method StartSimulated(qs: seq<Question>, scores: map<string, nat>)
      modifies this
      ensures simQuestions == qs && simCategoryScores == scores && simIndex == 0 && answeredQuestions == {}
      ensures asked == 0 && correctCount == 0 && wrongCount == 0
      ensures allQuestions == old(allQuestions) && category == old(category) && mode == old(mode)
      ensures current == old(current) && picked == old(picked) && locked == old(locked)
      ensures timerRunning == old(timerRunning) && timeLeft == old(timeLeft) && simAnswers == old(simAnswers)
    {
      ResetCounters();
      simQuestions, simCategoryScores, simIndex := qs, scores, 0;
    }

    /** `stopTimer`. */
    method StopTimer()
      modifies this
      ensures !timerRunning && timeLeft == old(timeLeft)
      ensures allQuestions == old(allQuestions) && category == old(category) && mode == old(mode)
      ensures current == old(current) && picked == old(picked) && locked == old(locked)
      ensures answeredQuestions == old(answeredQuestions)
      ensures asked == old(asked) && correctCount == old(correctCount) && wrongCount == old(wrongCount)
      ensures simQuestions == old(simQuestions) && simAnswers == old(simAnswers) && simIndex == old(simIndex)
      ensures simCategoryScores == old(simCategoryScores)
    {
      timerRunning := false;
    }

    /** `startTimer(seconds)`: any running countdown is replaced by one from `seconds`. */
    method StartTimer(seconds: int)
      modifies this
      ensures timerRunning && timeLeft == seconds
      ensures allQuestions == old(allQuestions) && category == old(category) && mode == old(mode)
      ensures current == old(current) && picked == old(picked) && locked == old(locked)
      ensures answeredQuestions == old(answeredQuestions)
      ensures asked == old(asked) && correctCount == old(correctCount) && wrongCount == old(wrongCount)
      ensures simQuestions == old(simQuestions) && simAnswers == old(simAnswers) && simIndex == old(simIndex)
      ensures simCategoryScores == old(simCategoryScores)
    {
      StopTimer();
      timeLeft := seconds;
      timerRunning := true;
    }

    /**
     * The pass check of `showSimulatedScore`: the timer stops, and the result is a pass
     * exactly when at least `PassMark` answers were right. In a simulated test the figures
     * are the counts of right answers among the recorded answers, overall and per category,
     * and once all `SIM_TOTAL` questions are answered a pass means at most 18 wrong answers.
     */
    method ShowSimulatedScore(timedOut: bool) returns (report: Report)
      requires Valid()
      modifies this
      ensures Valid() && !timerRunning && timeLeft == old(timeLeft)
      ensures report.timedOut == timedOut && report.correct == correctCount
      ensures report.scores == ScoreLines(SimConfig, simCategoryScores)
      ensures report.approved <==> correctCount >= PassMark
      ensures mode == Simulated ==>
        report.correct == CorrectTotal(simAnswers) &&
        forall k :: 0 <= k < |SimConfig| ==> report.scores[k] == (SimConfig[k].0, CorrectIn(simAnswers, SimConfig[k].0))
      ensures mode == Simulated && simIndex == |simQuestions| ==> (report.approved <==> wrongCount <= 18)
      ensures allQuestions == old(allQuestions) && category == old(category) && mode == old(mode)
      ensures current == old(current) && picked == old(picked) && locked == old(locked)
      ensures answeredQuestions == old(answeredQuestions)
      ensures asked == old(asked) && correctCount == old(correctCount) && wrongCount == old(wrongCount)
      ensures simQuestions == old(simQuestions) && simAnswers == old(simAnswers) && simIndex == old(simIndex)
      ensures simCategoryScores == old(simCategoryScores)
    {
      StopTimer();
      SimConfigShape();
      report := Report(timedOut, correctCount, ScoreLines(SimConfig, simCategoryScores), correctCount >= PassMark);
    }

    /**
     * One second of the countdown: `timeLeft` drops by one, and at zero or below the timer
     * stops and the final score is shown as timed out.
     */
    method Tick() returns (report: Option<Report>)
      requires Valid() && timerRunning
      modifies this
      ensures Valid() && timeLeft == old(timeLeft) - 1
      ensures report.Some? <==> timeLeft <= 0
      ensures report.Some? ==> !timerRunning && report.value.timedOut && report.value.correct == correctCount
      ensures report.None? ==> timerRunning
      ensures allQuestions == old(allQuestions) && category == old(category) && mode == old(mode)
      ensures current == old(current) && picked == old(picked) && locked == old(locked)
      ensures answeredQuestions == old(answeredQuestions)
      ensures asked == old(asked) && correctCount == old(correctCount) && wrongCount == old(wrongCount)
      ensures simQuestions == old(simQuestions) && simAnswers == old(simAnswers) && simIndex == old(simIndex)
      ensures simCategoryScores == old(simCategoryScores)
      ensures report.Some? ==> (report.value.approved <==> correctCount >= PassMark)
      ensures report.Some? ==> report.value.scores == ScoreLines(SimConfig, simCategoryScores)
      ensures report.Some? && mode == Simulated ==>
        report.value.correct == CorrectTotal(simAnswers) &&
        forall k :: 0 <= k < |SimConfig| ==> report.value.scores[k] == (SimConfig[k].0, CorrectIn(simAnswers, SimConfig[k].0))
    {
      timeLeft := timeLeft - 1;
      if timeLeft <= 0 {
        var r := ShowSimulatedScore(true);
        report := Some(r);
      } else {
        report := None;
      }
    }

    /** The three counters back to zero and the set of shown questions emptied. */
    method ResetCounters()
      modifies this
      ensures asked == 0 && correctCount == 0 && wrongCount == 0 && answeredQuestions == {}
      ensures allQuestions == old(allQuestions) && category == old(category) && mode == old(mode)
      ensures current == old(current) && picked == old(picked) && locked == old(locked)
      ensures simQuestions == old(simQuestions) && simAnswers == old(simAnswers) && simIndex == old(simIndex)
      ensures simCategoryScores == old(simCategoryScores)
      ensures timerRunning == old(timerRunning) && timeLeft == old(timeLeft)
    {
      answeredQuestions := {};
      asked, correctCount, wrongCount := 0, 0, 0;
    }

    /** Switches the mode. */
    method SetMode(m: Mode)
      modifies this
      ensures mode == m
      ensures allQuestions == old(allQuestions) && category == old(category)
      ensures current == old(current) && picked == old(picked) && locked == old(locked)
      ensures answeredQuestions == old(answeredQuestions)
      ensures asked == old(asked) && correctCount == old(correctCount) && wrongCount == old(wrongCount)
      ensures simQuestions == old(simQuestions) && simAnswers == old(simAnswers) && simIndex == old(simIndex)
      ensures simCategoryScores == old(simCategoryScores)
      ensures timerRunning == old(timerRunning) && timeLeft == old(timeLeft)
    {
      mode := m;
    }

    /**
     * The `closeScoreBtn` handler: back to quiz mode with the counters at zero and nothing
     * shown yet, then `nextQuestion`, which then shows a question whenever the selected
     * category has one.
     */
    method CloseScore(pick: nat) returns (sel: Selection)
      requires Valid()
      modifies this
      ensures Valid() && mode == Quiz
      ensures asked == 0 && correctCount == 0 && wrongCount == 0
      ensures sel == NoCandidates <==> Candidates(allQuestions, category) == []
      ensures sel.Shown? ==>
        sel.q in Candidates(allQuestions, category) && current == Some(sel.q) && picked == {} && !locked &&
        answeredQuestions == {sel.q.id}
      ensures !sel.Shown? ==>
        sel == NoCandidates && current == old(current) && picked == old(picked) && locked == old(locked) &&
        answeredQuestions == {}
      ensures allQuestions == old(allQuestions) && category == old(category)
      ensures simQuestions == old(simQuestions) && simAnswers == old(simAnswers) && simIndex == old(simIndex)
      ensures simCategoryScores == old(simCategoryScores)
      ensures timerRunning == old(timerRunning) && timeLeft == old(timeLeft)
    {
      SetMode(Quiz);
      ResetCounters();
      sel := NextFresh(pick);
    }

    /** `nextQuestion` right after the set of shown questions is emptied: never exhausted. */
    method NextFresh(pick: nat) returns (sel: Selection)
      requires Valid() && answeredQuestions == {}
      modifies this
      ensures Valid()
      ensures sel == NoCandidates <==> Candidates(allQuestions, category) == []
      ensures sel.Shown? ==>
        sel.q in Candidates(allQuestions, category) && current == Some(sel.q) && picked == {} && !locked &&
        answeredQuestions == {sel.q.id}
      ensures !sel.Shown? ==>
        sel == NoCandidates && current == old(current) && picked == old(picked) && locked == old(locked) &&
        answeredQuestions == {}
      ensures allQuestions == old(allQuestions) && category == old(category) && mode == old(mode)
      ensures asked == old(asked) && correctCount == old(correctCount) && wrongCount == old(wrongCount)
      ensures simQuestions == old(simQuestions) && simAnswers == old(simAnswers) && simIndex == old(simIndex)
      ensures simCategoryScores == old(simCategoryScores)
      ensures timerRunning == old(timerRunning) && timeLeft == old(timeLeft)
    {
      if Candidates(allQuestions, category) != [] {
        assert Candidates(allQuestions, category)[0] in Candidates(allQuestions, category);
      }
      sel := NextQuestion(pick);
    }

    /**
     * The `btnQuiz` handler: quiz mode, the countdown stopped, the counters at zero and
     * nothing shown yet, then `nextQuestion`.
     */
    method BtnQuiz(pick: nat) returns (sel: Selection)
      requires Valid()
      modifies this
      ensures Valid() && mode == Quiz && !timerRunning && timeLeft == old(timeLeft)
      ensures asked == 0 && correctCount == 0 && wrongCount == 0
      ensures sel == NoCandidates <==> Candidates(allQuestions, category) == []
      ensures sel.Shown? ==>
        sel.q in Candidates(allQuestions, category) && current == Some(sel.q) && picked == {} && !locked &&
        answeredQuestions == {sel.q.id}
      ensures !sel.Shown? ==>
        sel == NoCandidates && current == old(current) && picked == old(picked) && locked == old(locked) &&
        answeredQuestions == {}
      ensures allQuestions == old(allQuestions) && category == old(category)
      ensures simQuestions == old(simQuestions) && simAnswers == old(simAnswers) && simIndex == old(simIndex)
      ensures simCategoryScores == old(simCategoryScores)
    {
      SetMode(Quiz);
      StopTimer();
      ResetCounters();
      sel := NextFresh(pick);
    }

    /**
     * What the `btnSimulated` and `restartBtn` handlers do after choosing simulated mode:
     * when `prepareSimulated` succeeds, a two-hour countdown starts and the first simulated
     * question is shown; otherwise quiz mode is restored and `nextQuestion` runs.
     */
    method LaunchSimulated(catPicks: seq<seq<nat>>, finalPicks: seq<nat>, pick: nat) returns (launch: Launch)
      requires mode == Simulated && Tally()
      requires ValidCategoryPicks(allQuestions, SimConfig, catPicks)
      requires ValidPicks(finalPicks, Total(SimConfig))
      modifies this
      ensures allQuestions == old(allQuestions) && category == old(category)
      ensures Valid()
      ensures launch == SimStarted <==> QuotasMet(allQuestions, SimConfig)
      ensures launch == SimStarted ==>
        mode == Simulated && timerRunning && timeLeft == SimSeconds &&
        simQuestions == Shuffled(Draws(allQuestions, SimConfig, catPicks), finalPicks) &&
        QuotasFilled(simQuestions) && multiset(simQuestions) <= multiset(allQuestions) &&
        simAnswers == [] && simIndex == 0 && simCategoryScores == ZeroScores(SimConfig) &&
        asked == 0 && correctCount == 0 && wrongCount == 0 &&
        simQuestions != [] && current == Some(simQuestions[0]) && picked == {} && !locked &&
        answeredQuestions == {simQuestions[0].id}
      ensures launch.QuizShown? ==>
        mode == Quiz && simQuestions == [] && simAnswers == [] && simCategoryScores == map[] &&
        simIndex == old(simIndex) && timerRunning == old(timerRunning) && timeLeft == old(timeLeft) &&
        asked == old(asked) && correctCount == old(correctCount) && wrongCount == old(wrongCount)
      ensures launch.QuizShown? ==>
        (launch.sel == NoCandidates <==> Candidates(allQuestions, category) == []) &&
        (launch.sel == Exhausted <==>
          Candidates(allQuestions, category) != [] &&
          forall q :: q in Candidates(allQuestions, category) ==> q.id in old(answeredQuestions))
      ensures launch.QuizShown? && launch.sel.Shown? ==>
        launch.sel.q in Candidates(allQuestions, category) && launch.sel.q.id !in old(answeredQuestions) &&
        current == Some(launch.sel.q) && picked == {} && !locked &&
        answeredQuestions == old(answeredQuestions) + {launch.sel.q.id}
      ensures launch.QuizShown? && !launch.sel.Shown? ==>
        current == old(current) && picked == old(picked) && locked == old(locked) &&
        answeredQuestions == old(answeredQuestions)
    {
      var ok := PrepareSimulated(catPicks, finalPicks);
      if ok {
        BeginSimulated();
        launch := SimStarted;
      } else {
        var sel := QuizFallback(pick);
        launch := QuizShown(sel);
      }
    }

    /** The `else` branch of a failed launch: back to quiz mode, then `nextQuestion`. */
    method QuizFallback(pick: nat) returns (sel: Selection)
      requires Tally() && simAnswers == [] && simCategoryScores == map[]
      modifies this
      ensures Valid() && mode == Quiz
      ensures sel == NoCandidates <==> Candidates(allQuestions, category) == []
      ensures sel == Exhausted <==>
        Candidates(allQuestions, category) != [] &&
        forall q :: q in Candidates(allQuestions, category) ==> q.id in old(answeredQuestions)
      ensures sel.Shown? ==>
        sel.q in Candidates(allQuestions, category) && sel.q.id !in old(answeredQuestions) &&
        current == Some(sel.q) && picked == {} && !locked &&
        answeredQuestions == old(answeredQuestions) + {sel.q.id}
      ensures !sel.Shown? ==>
        current == old(current) && picked == old(picked) && locked == old(locked) &&
        answeredQuestions == old(answeredQuestions)
      ensures allQuestions == old(allQuestions) && category == old(category)
      ensures asked == old(asked) && correctCount == old(correctCount) && wrongCount == old(wrongCount)
      ensures simQuestions == old(simQuestions) && simAnswers == old(simAnswers) && simIndex == old(simIndex)
      ensures simCategoryScores == old(simCategoryScores)
      ensures timerRunning == old(timerRunning) && timeLeft == old(timeLeft)
    {
      SetMode(Quiz);
      sel := NextQuestion(pick);
    }

    /** The two-hour countdown started and the first simulated question shown, on a freshly prepared test. */
    method BeginSimulated()
      requires mode == Simulated && simIndex == 0 && answeredQuestions == {} && simAnswers == []
      requires asked == 0 && correctCount == 0 && wrongCount == 0
      requires QuotasFilled(simQuestions) && ScoresMatch(simCategoryScores, simAnswers)
      modifies this
      ensures Valid() && timerRunning && timeLeft == SimSeconds
      ensures simQuestions != [] && current == Some(simQuestions[0]) && picked == {} && !locked
      ensures answeredQuestions == {simQuestions[0].id}
      ensures allQuestions == old(allQuestions) && category == old(category) && mode == old(mode)
      ensures asked == old(asked) && correctCount == old(correctCount) && wrongCount == old(wrongCount)
      ensures simQuestions == old(simQuestions) && simAnswers == old(simAnswers) && simIndex == old(simIndex)
      ensures simCategoryScores == old(simCategoryScores)
    {
      SimConfigShape();
      StartTimer(SimSeconds);
      LoadSimQuestion(0);
    }

    /** The `btnSimulated` handler: simulated mode, then the launch of a simulated test. */
    method BtnSimulated(catPicks: seq<seq<nat>>, finalPicks: seq<nat>, pick: nat) returns (launch: Launch)
      requires Valid()
      requires ValidCategoryPicks(allQuestions, SimConfig, catPicks)
      requires ValidPicks(finalPicks, Total(SimConfig))
      modifies this
      ensures allQuestions == old(allQuestions) && category == old(category)
      ensures Valid()
      ensures launch == SimStarted <==> QuotasMet(allQuestions, SimConfig)
      ensures launch == SimStarted ==>
        mode == Simulated && timerRunning && timeLeft == SimSeconds &&
        simQuestions == Shuffled(Draws(allQuestions, SimConfig, catPicks), finalPicks) &&
        QuotasFilled(simQuestions) && multiset(simQuestions) <= multiset(allQuestions) &&
        simAnswers == [] && simIndex == 0 && simCategoryScores == ZeroScores(SimConfig) &&
        asked == 0 && correctCount == 0 && wrongCount == 0 &&
        simQuestions != [] && current == Some(simQuestions[0]) && picked == {} && !locked &&
        answeredQuestions == {simQuestions[0].id}
      ensures launch.QuizShown? ==>
        mode == Quiz && simQuestions == [] && simAnswers == [] && simCategoryScores == map[] &&
        simIndex == old(simIndex) && timerRunning == old(timerRunning) && timeLeft == old(timeLeft) &&
        asked == old(asked) && correctCount == old(correctCount) && wrongCount == old(wrongCount)
      ensures launch.QuizShown? ==>
        (launch.sel == NoCandidates <==> Candidates(allQuestions, category) == []) &&
        (launch.sel == Exhausted <==>
          Candidates(allQuestions, category) != [] &&
          forall q :: q in Candidates(allQuestions, category) ==> q.id in old(answeredQuestions))
      ensures launch.QuizShown? && launch.sel.Shown? ==>
        launch.sel.q in Candidates(allQuestions, category) && launch.sel.q.id !in old(answeredQuestions) &&
        current == Some(launch.sel.q) && picked == {} && !locked &&
        answeredQuestions == old(answeredQuestions) + {launch.sel.q.id}
      ensures launch.QuizShown? && !launch.sel.Shown? ==>
        current == old(current) && picked == old(picked) && locked == old(locked) &&
        answeredQuestions == old(answeredQuestions)
    {
      SetMode(Simulated);
      launch := LaunchSimulated(catPicks, finalPicks, pick);
    }

    /**
     * The `restartBtn` handler: the counters at zero and nothing shown yet; in simulated mode
     * a new simulated test is launched, in quiz mode `nextQuestion` runs.
     */
    method Restart(catPicks: seq<seq<nat>>, finalPicks: seq<nat>, pick: nat) returns (launch: Launch)
      requires Valid()
      requires ValidCategoryPicks(allQuestions, SimConfig, catPicks)
      requires ValidPicks(finalPicks, Total(SimConfig))
      modifies this
      ensures allQuestions == old(allQuestions) && category == old(category)
      ensures Valid()
      ensures asked == 0 && correctCount == 0 && wrongCount == 0
      ensures old(mode) == Quiz ==> launch.QuizShown? && mode == Quiz
      ensures old(mode) == Quiz ==>
        simQuestions == old(simQuestions) && simAnswers == old(simAnswers) && simIndex == old(simIndex) &&
        simCategoryScores == old(simCategoryScores)
      ensures old(mode) == Simulated ==> (launch == SimStarted <==> QuotasMet(allQuestions, SimConfig))
      ensures old(mode) == Simulated && launch.QuizShown? ==>
        simQuestions == [] && simAnswers == [] && simCategoryScores == map[] && simIndex == old(simIndex)
      ensures launch == SimStarted ==>
        mode == Simulated && timerRunning && timeLeft == SimSeconds &&
        simQuestions == Shuffled(Draws(allQuestions, SimConfig, catPicks), finalPicks) &&
        QuotasFilled(simQuestions) && multiset(simQuestions) <= multiset(allQuestions) &&
        simAnswers == [] && simIndex == 0 && simCategoryScores == ZeroScores(SimConfig) &&
        asked == 0 && correctCount == 0 && wrongCount == 0 &&
        simQuestions != [] && current == Some(simQuestions[0]) && picked == {} && !locked &&
        answeredQuestions == {simQuestions[0].id}
      ensures launch.QuizShown? ==>
        mode == Quiz && timerRunning == old(timerRunning) && timeLeft == old(timeLeft) &&
        (launch.sel == NoCandidates <==> Candidates(allQuestions, category) == [])
      ensures launch.QuizShown? && launch.sel.Shown? ==>
        launch.sel.q in Candidates(allQuestions, category) &&
        current == Some(launch.sel.q) && picked == {} && !locked && answeredQuestions == {launch.sel.q.id}
      ensures launch.QuizShown? && !launch.sel.Shown? ==>
        launch.sel == NoCandidates && current == old(current) && picked == old(picked) && locked == old(locked) &&
        answeredQuestions == {}
    {
      ResetCounters();
      if mode == Simulated {
        if Candidates(allQuestions, category) != [] {
          assert Candidates(allQuestions, category)[0] in Candidates(allQuestions, category);
        }
        launch := LaunchSimulated(catPicks, finalPicks, pick);
      } else {
        var sel := NextFresh(pick);
        launch := QuizShown(sel);
      }
    }

    /**
     * The `nextBtn` handler: in quiz mode `nextQuestion`; in a simulated test the question at
     * `simIndex` is shown again while one is left, and nothing happens past the end.
     */
    method NextButton(pick: nat) returns (sel: Option<Selection>)
      requires Valid()
      modifies this
      ensures Valid()
      ensures mode == Quiz ==> sel.Some? && (sel.value == NoCandidates <==> Candidates(allQuestions, category) == [])
      ensures mode == Quiz ==>
        (sel.value == Exhausted <==>
          Candidates(allQuestions, category) != [] &&
          forall q :: q in Candidates(allQuestions, category) ==> q.id in old(answeredQuestions))
      ensures mode == Quiz && sel.value.Shown? ==>
        sel.value.q in Candidates(allQuestions, category) && sel.value.q.id !in old(answeredQuestions) &&
        current == Some(sel.value.q) && picked == {} && !locked &&
        answeredQuestions == old(answeredQuestions) + {sel.value.q.id}
      ensures mode == Quiz && !sel.value.Shown? ==>
        current == old(current) && picked == old(picked) && locked == old(locked) &&
        answeredQuestions == old(answeredQuestions)
      ensures mode == Simulated ==> sel == None
      ensures mode == Simulated && simIndex < |simQuestions| ==>
        current == Some(simQuestions[simIndex]) && picked == {} && !locked &&
        answeredQuestions == old(answeredQuestions) + {simQuestions[simIndex].id}
      ensures mode == Simulated && simIndex >= |simQuestions| ==>
        current == old(current) && picked == old(picked) && locked == old(locked) &&
        answeredQuestions == old(answeredQuestions)
      ensures allQuestions == old(allQuestions) && category == old(category) && mode == old(mode)
      ensures asked == old(asked) && correctCount == old(correctCount) && wrongCount == old(wrongCount)
      ensures simQuestions == old(simQuestions) && simAnswers == old(simAnswers) && simIndex == old(simIndex)
      ensures simCategoryScores == old(simCategoryScores)
      ensures timerRunning == old(timerRunning) && timeLeft == old(timeLeft)
    {
      if mode == Quiz {
        var s := NextQuestion(pick);
        sel := Some(s);
      } else {
        if simIndex < |simQuestions| {
          LoadSimQuestion(simIndex);
        }
        sel := None;
      }
    }

    /** Sets the value of the category selector. */
    method SetCategory(cat: string)
      modifies this
      ensures category == cat
      ensures allQuestions == old(allQuestions) && mode == old(mode)
      ensures current == old(current) && picked == old(picked) && locked == old(locked)
      ensures answeredQuestions == old(answeredQuestions)
      ensures asked == old(asked) && correctCount == old(correctCount) && wrongCount == old(wrongCount)
      ensures simQuestions == old(simQuestions) && simAnswers == old(simAnswers) && simIndex == old(simIndex)
      ensures simCategoryScores == old(simCategoryScores)
      ensures timerRunning == old(timerRunning) && timeLeft == old(timeLeft)
    {
      category := cat;
    }

    /**
     * A new choice `cat` in the category selector: in quiz mode the shown set is cleared and
     * `nextQuestion` runs on the new category; a simulated test ignores the selector.
     */
    method CategoryChange(cat: string, pick: nat) returns (sel: Option<Selection>)
      requires Valid()
      modifies this
      ensures Valid() && category == cat
      ensures mode == Quiz ==>
        sel.Some? && (sel.value == NoCandidates <==> Candidates(allQuestions, cat) == [])
      ensures mode == Quiz && sel.value.Shown? ==>
        sel.value.q in Candidates(allQuestions, cat) && current == Some(sel.value.q) && picked == {} && !locked &&
        answeredQuestions == {sel.value.q.id}
      ensures mode == Quiz && !sel.value.Shown? ==>
        sel.value == NoCandidates && current == old(current) && picked == old(picked) && locked == old(locked) &&
        answeredQuestions == {}
      ensures mode == Simulated ==>
        sel == None && current == old(current) && picked == old(picked) && locked == old(locked) &&
        answeredQuestions == old(answeredQuestions)
      ensures allQuestions == old(allQuestions) && mode == old(mode)
      ensures asked == old(asked) && correctCount == old(correctCount) && wrongCount == old(wrongCount)
      ensures simQuestions == old(simQuestions) && simAnswers == old(simAnswers) && simIndex == old(simIndex)
      ensures simCategoryScores == old(simCategoryScores)
      ensures timerRunning == old(timerRunning) && timeLeft == old(timeLeft)
    {
      SetCategory(cat);
      if mode == Quiz {
        ClearShown();
        var s := NextFresh(pick);
        sel := Some(s);
      } else {
        sel := None;
      }
    }

    /** Empties the set of shown questions. */
    method ClearShown()
      modifies this
      ensures answeredQuestions == {}
      ensures allQuestions == old(allQuestions) && category == old(category) && mode == old(mode)
      ensures current == old(current) && picked == old(picked) && locked == old(locked)
      ensures asked == old(asked) && correctCount == old(correctCount) && wrongCount == old(wrongCount)
      ensures simQuestions == old(simQuestions) && simAnswers == old(simAnswers) && simIndex == old(simIndex)
      ensures simCategoryScores == old(simCategoryScores)
      ensures timerRunning == old(timerRunning) && timeLeft == old(timeLeft)
    {
      answeredQuestions := {};
    }

    /** The bank replaced by `qs`, with the selector's options rebuilt and back at "all". */
    method SetBank(qs: seq<Question>)
      modifies this
      ensures allQuestions == qs && category == AllCategories
      ensures mode == old(mode) && current == old(current) && picked == old(picked) && locked == old(locked)
      ensures answeredQuestions == old(answeredQuestions)
      ensures asked == old(asked) && correctCount == old(correctCount) && wrongCount == old(wrongCount)
      ensures simQuestions == old(simQuestions) && simAnswers == old(simAnswers) && simIndex == old(simIndex)
      ensures simCategoryScores == old(simCategoryScores)
      ensures timerRunning == old(timerRunning) && timeLeft == old(timeLeft)
    {
      allQuestions := qs;
      category := AllCategories;
    }

    /**
     * `loadSheet` from the fetched rows on: the bank is the kept, normalised rows, the
     * selector offers the table's categories present in it, and a first question is picked
     * unless the bank is empty.
     */
    method LoadSheet(rows: seq<Row>, pick: nat) returns (present: seq<string>, shown: Option<Selection>)
      requires Valid()
      modifies this
      ensures allQuestions == LoadQuestions(rows) && category == AllCategories
      ensures present == PresentCategories(allQuestions)
      ensures Valid()
      ensures shown == None <==> allQuestions == []
      ensures shown.Some? ==>
        shown.value != NoCandidates &&
        (shown.value == Exhausted <==> forall q :: q in allQuestions ==> q.id in old(answeredQuestions))
      ensures shown.Some? && shown.value.Shown? ==>
        shown.value.q in allQuestions && shown.value.q.id !in old(answeredQuestions) &&
        current == Some(shown.value.q) && picked == {} && !locked &&
        answeredQuestions == old(answeredQuestions) + {shown.value.q.id}
      ensures shown.Some? && old(answeredQuestions) == {} ==> shown.value.Shown?
      ensures shown == None || !shown.value.Shown? ==>
        current == old(current) && picked == old(picked) && locked == old(locked) &&
        answeredQuestions == old(answeredQuestions)
      ensures mode == old(mode)
      ensures asked == old(asked) && correctCount == old(correctCount) && wrongCount == old(wrongCount)
      ensures simQuestions == old(simQuestions) && simAnswers == old(simAnswers) && simIndex == old(simIndex)
      ensures simCategoryScores == old(simCategoryScores)
      ensures timerRunning == old(timerRunning) && timeLeft == old(timeLeft)
    {
      var qs := LoadQuestions(rows);
      present := PresentCategories(qs);
      shown := InstallBank(qs, pick);
    }

    /** The bank replaced by `qs`, then `nextQuestion` unless the bank is empty. */
    method InstallBank(qs: seq<Question>, pick: nat) returns (shown: Option<Selection>)
      requires Valid()
      modifies this
      ensures allQuestions == qs && category == AllCategories
      ensures Valid()
      ensures shown == None <==> qs == []
      ensures shown.Some? ==>
        shown.value != NoCandidates &&
        (shown.value == Exhausted <==> forall q :: q in qs ==> q.id in old(answeredQuestions))
      ensures shown.Some? && shown.value.Shown? ==>
        shown.value.q in qs && shown.value.q.id !in old(answeredQuestions) &&
        current == Some(shown.value.q) && picked == {} && !locked &&
        answeredQuestions == old(answeredQuestions) + {shown.value.q.id}
      ensures shown.Some? && old(answeredQuestions) == {} ==> shown.value.Shown?
      ensures shown == None || !shown.value.Shown? ==>
        current == old(current) && picked == old(picked) && locked == old(locked) &&
        answeredQuestions == old(answeredQuestions)
      ensures mode == old(mode)
      ensures asked == old(asked) && correctCount == old(correctCount) && wrongCount == old(wrongCount)
      ensures simQuestions == old(simQuestions) && simAnswers == old(simAnswers) && simIndex == old(simIndex)
      ensures simCategoryScores == old(simCategoryScores)
      ensures timerRunning == old(timerRunning) && timeLeft == old(timeLeft)
    {
      SetBank(qs);
      if |qs| == 0 {
        return None;
      }
      assert qs[0] in Candidates(allQuestions, category);
      var sel := NextQuestion(pick);
      shown := Some(sel);
    }
  }
}
