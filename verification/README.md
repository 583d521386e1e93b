# TerminalMath quiz core in Dafny

TerminalMath is a terminal mental-arithmetic quiz. A session lasts 60 seconds.
In that time it asks questions such as `What is 7 + 3?`, counts typed answers and
correct answers, and then shows the accuracy. This project models the two pieces
of the program that hold logic rather than widget wiring:

- `math_generator.dfy` (module `MathGenerator`) models the question generator of
  `math_generator.py`. The generator's three random draws are parameters: two
  operands of subset type `Operand` (1 to 20, both inclusive) and an `Operator`.
  This makes generation a total function `Generate(Draw) -> Question`.
  `ParseQuestion` reads a prompt back, and the two are proved to form a bijection
  between draws and generated prompts.
- `quiz.dfy` (module `Quiz`) models the session of `src/main.py` as a value of type
  `SessionState`. The state holds the two counters, the current answer, what the
  question, welcome and result widgets show, whether the input area and result are
  displayed, and whether an `update_timer` callback is scheduled. `Start`,
  `CheckAnswer`, `Tick` and `ShowStatistics` are pure steps. `Step` and `Run`
  deliver sequences of events: submitted text and timer firings.
- `decimal.dfy` (module `Decimal`) models how integers become text in the
  f-strings (`str`) and how typed text becomes an integer (`int`, with an
  optional sign and ASCII digits). It proves that the two are inverse.
- `wrappers.dfy` defines `Option`. In this model, `None` stands for Python's
  `ValueError`.

The model follows the code in two places where a reader might expect the opposite:

- Non-numeric input still replaces the question. The call to `generate_question`
  at src/main.py:85 is outside the `try`, so it runs on both paths.
  `CheckAnswer` always installs the next draw's question.
- Nothing stops `check_answer` after the statistics are shown. `show_statistics`
  only hides the input area and the result (src/main.py:96-97). `CheckAnswer` has
  no guard. `SubmitAfterEndStillCounts` states that a number submitted after the
  end is still counted. A further submission also overwrites the statistics in
  the question widget with a new prompt. What the session does guarantee is
  that no timer callback is ever scheduled again (`EndedStaysEnded`).

## Model

| member | source | states |
|---|---|---|
| `Decimal.NatToString` | math_generator.py:10 | `str` of a natural is a non-empty digit string without a leading zero, one character exactly below 10 |
| `Decimal.IntToString` | src/main.py:80 | `str` of an integer starts with `-` exactly when it is negative, followed by a canonical digit string |
| `Decimal.ParseInt` | src/main.py:74 | `int` succeeds exactly on a non-empty digit string, or on `+`/`-` followed by a non-empty digit string; a plain digit string yields its value; a negative result needs a leading minus |
| `Decimal.SignedParse` | src/main.py:74 | for a digit string t, zero padding allowed, `int("+" + t) == int(t)` and `int("-" + t)` is its negation |
| `Decimal.DigitsValueOfNatToString` | math_generator.py:10 | reading back the digits `str` printed gives the natural number again |
| `Decimal.NatToStringOfDigitsValue` | math_generator.py:10 | every canonical digit string is exactly what `str` prints for its value |
| `Decimal.NatToStringInjective` | math_generator.py:10 | distinct naturals print differently |
| `Decimal.ParseIntOfIntToString` | src/main.py:74 | `int(str(i)) == i` for every integer, negatives included |
| `Decimal.IntToStringOfParseInt` | src/main.py:74 | text written as `str` writes integers parses to a value whose `str` is that same text |
| `MathGenerator.SymbolOperator` | math_generator.py:6 | a prompt character stands for an operator exactly when that operator prints as it, so only `+`, `-` and `*` are operators |
| `MathGenerator.Generate` | math_generator.py:3-17 | total on every draw; `+` gives num1 + num2 in [2, 40], `-` gives num1 - num2 in [-19, 19], `*` gives num1 * num2 in [1, 400]; every answer lies in [-19, 400]; the text is `What is <num1> <op> <num2>?` |
| `MathGenerator.ParseGenerate` | math_generator.py:8-16 | parsing a generated prompt recovers exactly its operands and operator |
| `MathGenerator.GenerateParse` | math_generator.py:8-16 | every text that parses to a draw is exactly the prompt generated from that draw |
| `MathGenerator.AnswerFromText` | math_generator.py:8-16 | recomputing from the parsed prompt gives the answer the generator returned |
| `MathGenerator.GenerateInjective` | math_generator.py:8-16 | different draws never give the same prompt |
| `Quiz.NewQuestion` | src/main.py:40-47 | the new answer is the draw's answer, the question widget shows exactly the drawn prompt, that prompt parses to a draw with that answer, and nothing else changes |
| `Quiz.Start` | src/main.py:28-33 | a session starts with both counters at 0, the first question up, the timer armed, the input shown, and the invariant holding |
| `Quiz.CheckAnswer` | src/main.py:71-85 | input that is not an integer leaves both counters unchanged and says "Please enter a valid number."; an integer adds 1 to the total and 1 to the correct count exactly when it equals the answer, with message "Correct!" or "Incorrect. The correct answer is <answer>."; either way a new question replaces the old one; timer, input area and welcome line are untouched; the invariant is preserved |
| `Quiz.Accuracy` | src/main.py:89-93 | 0 with no questions, otherwise accuracy × total = 100 × correct; within [0, 100] when correct ≤ total; 100 exactly when every answer was right; 0 exactly when none was |
| `Quiz.ShowStatistics` | src/main.py:87-98 | the question widget shows the counters and their accuracy; input area and result are hidden; the timer line is blank; the counters are unchanged |
| `Quiz.Tick` | src/main.py:49-60 | with remaining = 60 - elapsed: if remaining ≤ 0, the statistics are shown, input area and result are hidden, and no callback is scheduled; otherwise the line shows the remaining seconds, the rest of the display is unchanged, and exactly one callback is scheduled; the counters are unchanged either way |
| `Quiz.TickPreservesValid` | src/main.py:49-60 | a tick that fires while scheduled keeps the session invariant |
| `Quiz.Step` | src/main.py:62-69 | one event preserves the invariant, never lowers a counter, adds at most one question, and never schedules a timer once none is pending |
| `Quiz.RunPreservesValid` | src/main.py:28-98 | `correct <= total` and the rest of the session invariant hold after any sequence of events |
| `Quiz.SessionAlwaysValid` | src/main.py:28-85 | every session begun by `Start` keeps `correct <= total` forever |
| `Quiz.RunCounters` | src/main.py:73-85 | counters never decrease, and n events add at most n questions |
| `Quiz.EndedStaysEnded` | src/main.py:54-60 | once no callback is pending, none is ever scheduled again and the input area's visibility does not change |
| `Quiz.SubmitAfterEndStillCounts` | src/main.py:71-96 | after the session has ended, a submitted number still adds a question, and adds a correct answer exactly when it equals the current answer |
| `Quiz.SubmitCorrectAnswer` | src/main.py:74-78 | typing the current answer always counts as correct and says "Correct!" |
| `Quiz.AccuracyMonotone` | src/main.py:89-93 | a correct answer never lowers the accuracy and a wrong one never raises it |
| `Quiz.ExampleQuestion` | math_generator.py:8-10 | operands 7 and 3 with `+` give "What is 7 + 3?" and 10 |
| `Quiz.ExampleParses` | src/main.py:73-83 | "10" and "5" parse as integers and "abc" does not |
| `Quiz.ExampleAnswers` | src/main.py:73-85 | against 10: "10" gives (1, 1) and "Correct!", then "abc" keeps (1, 1), then "5" gives (1, 2) and "Incorrect. The correct answer is 10." |
| `Quiz.ExampleTimeUp` | src/main.py:49-55 | a tick at 60 seconds with no answers reports 0 correct of 0 at accuracy 0 and stops the timer |

## Left out

- Widgets, layout, styling, focus, the dark-mode binding, and `main`/`app.run` (src/main.py:1-26, 100-105) are left out. They are user-interface plumbing over the Textual library. The button and Enter-key handlers (src/main.py:62-69) become the `Submit` event.
- Clearing the input field and moving focus to it in `generate_question` (src/main.py:46-47) are left out. The text in the field when the user submits is a parameter of `CheckAnswer`.
- `time.time()` and `set_timer` are not modelled directly. `Tick` takes the whole seconds elapsed since the start, which the code gets from `int(time.time() - start_time)`. The scheduler is reduced to the `tickPending` flag. A timer event does nothing unless a callback is pending.
- Python's `random` module is left out. The draws are parameters, constrained to the ranges `randint` and `choice` produce. Uniformity is not modelled.
- `Quiz.Accuracy`: computed exactly as a real number rather than as a floating-point division, so rounding of the float is not modelled.
- `Quiz.ShowStatistics`: the statistics text ("Time's up!", the counters, and the accuracy printed with two decimals) is kept as a `Report` value rather than a string. Float formatting to two decimals is not modelled.
- `Decimal.ParseInt`: accepts only an optional `+` or `-` followed by ASCII digits. Python's `int` also strips surrounding whitespace, allows underscores between digits, and accepts non-ASCII decimal digits. Such inputs follow the invalid-number path in this model. In the other direction, CPython from 3.11 (and the 3.10.7, 3.9.14 and 3.8.14 security releases) raises `ValueError` on text of more than 4300 digits. The model has no such digit limit and counts that input as an answer. The repository does not pin a Python version, and older versions have no limit.
- The import of `src.math_generator` while the generator file sits at the repository root is left out. It is a packaging matter, not behaviour.
