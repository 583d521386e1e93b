/**
  The quiz session of src/main.py with the widgets stripped away. The state
  keeps the app's counters and current answer, what the three text widgets
  show, whether the input area and result are displayed, and whether a timer
  callback is scheduled. Each handler of the app becomes a pure step:
  `Start` (on_mount), `CheckAnswer` (check_answer), `Tick` (update_timer) and
  `ShowStatistics` (show_statistics). Random draws and the elapsed time are
  parameters of the steps.
 */
module Quiz {
  import opened Wrappers
  import opened Decimal
  import opened MathGenerator

  /** Length of a session in seconds. */
  const SessionSeconds: int := 60

  const WelcomeText: string := "Welcome to Mental Math Practice!"
  const CorrectMessage: string := "Correct!"
  const InvalidMessage: string := "Please enter a valid number."

  function IncorrectMessage(answer: int): string {
    "Incorrect. The correct answer is " + IntToString(answer) + "."
  }

  function RemainingMessage(remaining: int): string {
    "Time remaining: " + IntToString(remaining) + " seconds"
  }

  /** The end-of-session report: correct answers, total questions, accuracy in percent. */
  datatype Report = Report(correct: nat, total: nat, accuracy: real)

  /** What the question widget shows: a prompt, or the statistics once time is up. */
  datatype Display = Prompt(text: string) | Statistics(report: Report)

  datatype SessionState = SessionState(
    correct: nat,       // correct_answers
    total: nat,         // total_questions
    answer: int,        // the answer of the question on display
    question: Display,  // the question widget
    welcome: string,    // the welcome / remaining-time line
    result: string,     // the result widget's text
    resultShown: bool,  // whether the result widget is displayed
    inputShown: bool,   // whether the input area is displayed
    tickPending: bool   // whether an update_timer callback is scheduled
  )

  /** The prompt on display, when there is one, is a generated prompt whose answer is `answer`. */
  predicate PromptMatchesAnswer(s: SessionState) {
    s.question.Prompt? ==>
      var d := ParseQuestion(s.question.text);
      d.Some? && Generate(d.value).answer == s.answer
  }

  /**
    The session invariant: never more correct answers than questions; the
    timer is scheduled exactly while the input area and result are shown;
    once the timer has stopped, the remaining-time line is blank; and the
    prompt on display agrees with the answer being checked.
   */
  predicate Valid(s: SessionState) {
    && s.correct <= s.total
    && s.tickPending == s.inputShown
    && s.tickPending == s.resultShown
    && (!s.tickPending ==> s.welcome == "")
    && PromptMatchesAnswer(s)
  }

  /** generate_question: draws a question, keeps its answer and displays its text. */
  function NewQuestion(s: SessionState, d: Draw): (t: SessionState)
    ensures t.answer == Generate(d).answer
    ensures t.question == Prompt(Generate(d).text)
    ensures PromptMatchesAnswer(t)
    ensures t.(answer := s.answer, question := s.question) == s
  {
    var q := Generate(d);
    ParseGenerate(d);
    s.(answer := q.answer, question := Prompt(q.text))
  }

  /** on_mount: the first question is up, the timer is armed and both counters are zero. */
  function Start(d: Draw): (s: SessionState)
    ensures s.correct == 0 && s.total == 0
    ensures s.answer == Generate(d).answer
    ensures s.question == Prompt(Generate(d).text)
    ensures s.tickPending && s.inputShown && s.resultShown
    ensures s.welcome == WelcomeText && s.result == ""
    ensures Valid(s)
  {
    var initial := SessionState(0, 0, 0, Prompt(""), WelcomeText, "", true, true, true);
    NewQuestion(initial, d)
  }

  /**
    check_answer on the text in the input field. Valid integer input counts
    one more question, and one more correct answer exactly when it equals the
    current answer; other text changes no counter. Either way a new question
    replaces the current one. Nothing here looks at whether the session has
    ended.
   */
  function CheckAnswer(s: SessionState, input: string, next: Draw): (t: SessionState)
    ensures ParseInt(input).None? ==> t.correct == s.correct && t.total == s.total
    ensures ParseInt(input).None? ==> t.result == InvalidMessage
    ensures ParseInt(input).Some? ==> t.total == s.total + 1
    ensures ParseInt(input).Some? ==> (t.correct == s.correct + 1 <==> ParseInt(input).value == s.answer)
    ensures ParseInt(input).Some? ==> (t.correct == s.correct <==> ParseInt(input).value != s.answer)
    ensures ParseInt(input) == Some(s.answer) ==> t.result == CorrectMessage
    ensures ParseInt(input).Some? && ParseInt(input).value != s.answer ==> t.result == IncorrectMessage(s.answer)
    ensures t.answer == Generate(next).answer && t.question == Prompt(Generate(next).text)
    ensures t.welcome == s.welcome && t.resultShown == s.resultShown
    ensures t.inputShown == s.inputShown && t.tickPending == s.tickPending
    ensures Valid(s) ==> Valid(t)
  {
    var scored :=
      match ParseInt(input)
      case Some(v) =>
        if v == s.answer then
          s.(total := s.total + 1, correct := s.correct + 1, result := CorrectMessage)
        else
          s.(total := s.total + 1, result := IncorrectMessage(s.answer))
      case None =>
        s.(result := InvalidMessage);
    NewQuestion(scored, next)
  }

  /** Accuracy in percent: zero before any question, otherwise the share of correct answers. */
  function Accuracy(correct: nat, total: nat): (a: real)
    ensures total == 0 ==> a == 0.0
    ensures total > 0 ==> a * (total as real) == 100.0 * (correct as real)
    ensures correct <= total ==> 0.0 <= a <= 100.0
    ensures correct <= total && total > 0 ==> (a == 100.0 <==> correct == total)
    ensures a == 0.0 <==> total == 0 || correct == 0
  {
    if total > 0 then (correct as real / total as real) * 100.0 else 0.0
  }

  /** show_statistics: the report replaces the question; input area, result and timer line go. */
  function ShowStatistics(s: SessionState): (t: SessionState)
    ensures t.question.Statistics?
    ensures t.question.report.correct == s.correct && t.question.report.total == s.total
    ensures t.question.report.accuracy == Accuracy(s.correct, s.total)
    ensures !t.inputShown && !t.resultShown && t.welcome == ""
    ensures t.correct == s.correct && t.total == s.total && t.answer == s.answer
    ensures t.result == s.result && t.tickPending == s.tickPending
  {
    var report := Report(s.correct, s.total, Accuracy(s.correct, s.total));
    s.(question := Statistics(report), inputShown := false, resultShown := false, welcome := "")
  }

  /**
    update_timer, `elapsed` being the whole seconds since the start. The
    callback that fired is used up; when time remains, the line shows it and
    exactly one new callback is scheduled, otherwise the statistics are shown
    and none is.
   */
  function Tick(s: SessionState, elapsed: int): (t: SessionState)
    ensures t.tickPending <==> SessionSeconds - elapsed > 0
    ensures SessionSeconds - elapsed <= 0 ==>
      && t.question == Statistics(Report(s.correct, s.total, Accuracy(s.correct, s.total)))
      && !t.inputShown && !t.resultShown && t.welcome == ""
    ensures SessionSeconds - elapsed > 0 ==>
      && t.welcome == RemainingMessage(SessionSeconds - elapsed)
      && t.question == s.question && t.inputShown == s.inputShown && t.resultShown == s.resultShown
    ensures t.correct == s.correct && t.total == s.total && t.answer == s.answer && t.result == s.result
  {
    var fired := s.(tickPending := false);
    var remaining := SessionSeconds - elapsed;
    if remaining <= 0 then
      ShowStatistics(fired)
    else
      fired.(welcome := RemainingMessage(remaining), tickPending := true)
  }

  /** A tick that fires while scheduled keeps the session invariant. */
  lemma TickPreservesValid(s: SessionState, elapsed: int)
    requires Valid(s) && s.tickPending
    ensures Valid(Tick(s, elapsed))
  {
  }

  /** The two things that reach a session: a submitted answer and the timer firing. */
  datatype Event = Submit(input: string, next: Draw) | TimerFires(elapsed: int)

  /** One event. A timer can only fire while a callback is scheduled. */
  function Step(s: SessionState, e: Event): (t: SessionState)
    ensures Valid(s) ==> Valid(t)
    ensures t.correct >= s.correct && t.total >= s.total && t.total <= s.total + 1
    ensures !s.tickPending ==> !t.tickPending && t.inputShown == s.inputShown
  {
    match e
    case Submit(input, next) => CheckAnswer(s, input, next)
    case TimerFires(elapsed) =>
      if s.tickPending then
        Tick(s, elapsed)
      else
        s
  }

  /** A run of events from a given state. */
  function Run(s: SessionState, es: seq<Event>): SessionState
    decreases |es|
  {
    if |es| == 0 then s else Run(Step(s, es[0]), es[1..])
  }

  /** The invariant, in particular `correct <= total`, holds after any sequence of events. */
  lemma {:induction false} RunPreservesValid(s: SessionState, es: seq<Event>)
    requires Valid(s)
    ensures Valid(Run(s, es))
    decreases |es|
  {
    if |es| > 0 {
      RunPreservesValid(Step(s, es[0]), es[1..]);
    }
  }

  /** Every session started by `Start` satisfies the invariant forever. */
  lemma SessionAlwaysValid(d: Draw, es: seq<Event>)
    ensures Valid(Run(Start(d), es))
    ensures Run(Start(d), es).correct <= Run(Start(d), es).total
  {
    RunPreservesValid(Start(d), es);
  }

  /** Counters never decrease, and each event adds at most one question. */
  lemma {:induction false} RunCounters(s: SessionState, es: seq<Event>)
    ensures s.correct <= Run(s, es).correct
    ensures s.total <= Run(s, es).total <= s.total + |es|
    decreases |es|
  {
    if |es| > 0 {
      RunCounters(Step(s, es[0]), es[1..]);
    }
  }

  /** Once the timer has stopped no callback is ever scheduled again and the input area stays hidden. */
  lemma {:induction false} EndedStaysEnded(s: SessionState, es: seq<Event>)
    requires !s.tickPending
    ensures !Run(s, es).tickPending
    ensures Run(s, es).inputShown == s.inputShown
    decreases |es|
  {
    if |es| > 0 {
      EndedStaysEnded(Step(s, es[0]), es[1..]);
    }
  }

  /**
    After the statistics are shown, check_answer still counts a submitted
    number: the handler only has the input area hidden, it has no guard.
   */
  lemma SubmitAfterEndStillCounts(s: SessionState, v: int, next: Draw)
    requires !s.tickPending
    ensures Step(s, Submit(IntToString(v), next)).total == s.total + 1
    ensures Step(s, Submit(IntToString(v), next)).correct == s.correct + (if v == s.answer then 1 else 0)
    ensures !Step(s, Submit(IntToString(v), next)).tickPending
  {
    ParseIntOfIntToString(v);
  }

  /** Submitting the current answer as `str` prints it is always counted as correct. */
  lemma SubmitCorrectAnswer(s: SessionState, next: Draw)
    ensures CheckAnswer(s, IntToString(s.answer), next).correct == s.correct + 1
    ensures CheckAnswer(s, IntToString(s.answer), next).total == s.total + 1
    ensures CheckAnswer(s, IntToString(s.answer), next).result == CorrectMessage
  {
    ParseIntOfIntToString(s.answer);
  }

  /** A product that is not positive, with a positive factor, has a non-positive other factor. */
  lemma NonPositiveFactor(u: real, d: real)
    requires d > 0.0 && u * d <= 0.0
    ensures u <= 0.0
  {
  }

  /** A positive factor can be cancelled from both sides of an inequality. */
  lemma CancelPositive(a: real, b: real, d: real)
    requires d > 0.0 && a * d <= b * d
    ensures a <= b
  {
    assert (a - b) * d == a * d - b * d;
    NonPositiveFactor(a - b, d);
  }

  /** The share of correct answers rises, or stays, with one more correct answer. */
  lemma ShareRises(x: real, y: real)
    requires 0.0 <= x <= y && y > 0.0
    ensures x / y <= (x + 1.0) / (y + 1.0)
  {
    var p, q := x / y, (x + 1.0) / (y + 1.0);
    assert p * y == x && q * (y + 1.0) == x + 1.0;
    CancelPositive(p, 1.0, y);
    assert p <= 1.0;
    assert p * (y + 1.0) == x + p;
    assert p * (y + 1.0) <= q * (y + 1.0);
    CancelPositive(p, q, y + 1.0);
  }

  /** The share of correct answers falls, or stays, with one more wrong answer. */
  lemma ShareFalls(x: real, y: real)
    requires 0.0 <= x && y > 0.0
    ensures x / (y + 1.0) <= x / y
  {
    var p, q := x / y, x / (y + 1.0);
    assert p * y == x && q * (y + 1.0) == x;
    CancelPositive(0.0, q, y + 1.0);
    assert q * y + q == x;
    CancelPositive(q, p, y);
  }

  /** A correct answer never lowers the accuracy and a wrong one never raises it. */
  lemma AccuracyMonotone(c: nat, t: nat)
    requires c <= t
    ensures Accuracy(c, t) <= Accuracy(c + 1, t + 1)
    ensures Accuracy(c, t + 1) <= Accuracy(c, t)
  {
    if t > 0 {
      ShareRises(c as real, t as real);
      ShareFalls(c as real, t as real);
    }
  }

  /** The worked example's question: operands 7 and 3 with `+`. */
  lemma ExampleQuestion()
    ensures Generate(Draw(7, 3, Plus)) == Question("What is 7 + 3?", 10)
  {
    assert NatToString(7) == "7" && NatToString(3) == "3";
  }

  /** How the worked example's three inputs parse. */
  lemma ExampleParses()
    ensures ParseInt("10") == Some(10) && ParseInt("5") == Some(5) && ParseInt("abc") == None
    ensures IncorrectMessage(10) == "Incorrect. The correct answer is 10."
  {
    assert IntToString(10) == "10" by {
      assert NatToString(1) == "1" && NatToString(0) == "0";
      assert NatToString(10) == NatToString(1) + [DigitChar(0)];
    }
    assert IntToString(5) == "5";
    ParseIntOfIntToString(10);
    ParseIntOfIntToString(5);
    assert !IsDigit("abc"[1]);
  }

  /** The worked example's answers: "10" scores, "abc" is refused, "5" is wrong against 10. */
  lemma ExampleAnswers()
    ensures var d := Draw(7, 3, Plus);
      var s1 := CheckAnswer(Start(d), "10", d);
      var s2 := CheckAnswer(s1, "abc", d);
      var s3 := CheckAnswer(s2, "5", d);
      && s1.result == "Correct!" && s1.correct == 1 && s1.total == 1
      && s2.result == "Please enter a valid number." && s2.correct == 1 && s2.total == 1
      && s3.result == "Incorrect. The correct answer is 10." && s3.correct == 1 && s3.total == 2
  {
    var d := Draw(7, 3, Plus);
    ExampleQuestion();
    ExampleParses();
    var s1 := CheckAnswer(Start(d), "10", d);
    assert s1.answer == 10 && s1.correct == 1 && s1.total == 1;
    var s2 := CheckAnswer(s1, "abc", d);
    assert s2.answer == 10 && s2.correct == 1 && s2.total == 1;
  }

  /** The worked example's end: a minute with no answers reports 0 of 0 at zero accuracy. */
  lemma ExampleTimeUp(d: Draw)
    ensures Tick(Start(d), 60).question == Statistics(Report(0, 0, 0.0))
    ensures !Tick(Start(d), 60).tickPending && !Tick(Start(d), 60).inputShown
  {
  }
}
