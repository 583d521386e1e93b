/**
  The question generator of math_generator.py. The three random draws
  (two operands in [1, 20] and one operator) are parameters, so generation is
  a total pure function from a `Draw` to a `Question`. `ParseQuestion` reads a
  prompt back, and the two are proved to be a bijection between draws and the
  prompts the generator can produce.
 */
module MathGenerator {
  import opened Wrappers
  import opened Decimal

  /** An operand as `random.randint(1, 20)` draws it: both bounds inclusive. */
  type Operand = n: nat | 1 <= n <= 20 witness 1

  /** The operators `random.choice` picks from. */
  datatype Operator = Plus | Minus | Times

  /** One outcome of the generator's three random draws. */
  datatype Draw = Draw(num1: Operand, num2: Operand, op: Operator)

  /** The pair the generator returns: the prompt text and the integer answer. */
  datatype Question = Question(text: string, answer: int)

  const Prefix: string := "What is "

  /** The character an operator is printed as in the prompt. */
  function Symbol(op: Operator): char {
    match op
    case Plus => '+'
    case Minus => '-'
    case Times => '*'
  }

  /** The operator a prompt character stands for, if any. */
  function SymbolOperator(c: char): (r: Option<Operator>)
    ensures forall op :: r == Some(op) <==> Symbol(op) == c
  {
    if c == '+' then Some(Plus)
    else if c == '-' then Some(Minus)
    else if c == '*' then Some(Times)
    else None
  }

  /**
    `generate_question` with its draws given. Every draw yields a question;
    the answer is the operator applied to the operands and the text spells
    out exactly those operands and that operator.
   */
  function Generate(d: Draw): (q: Question)
    ensures d.op == Plus ==> q.answer == d.num1 + d.num2 && 2 <= q.answer <= 40
    ensures d.op == Minus ==> q.answer == d.num1 - d.num2 && -19 <= q.answer <= 19
    ensures d.op == Times ==> q.answer == d.num1 * d.num2 && 1 <= q.answer <= 400
    ensures -19 <= q.answer <= 400
    ensures q.text == Prefix + NatToString(d.num1) + [' ', Symbol(d.op), ' '] + NatToString(d.num2) + "?"
  {
    match d.op
    case Plus =>
      Question(Prefix + NatToString(d.num1) + " + " + NatToString(d.num2) + "?", d.num1 + d.num2)
    case Minus =>
      Question(Prefix + NatToString(d.num1) + " - " + NatToString(d.num2) + "?", d.num1 - d.num2)
    case Times =>
      ProductBound(d.num1, d.num2);
      Question(Prefix + NatToString(d.num1) + " * " + NatToString(d.num2) + "?", d.num1 * d.num2)
  }

  /** Two operands multiply to at most 20 * 20. */
  lemma ProductBound(a: Operand, b: Operand)
    ensures 1 <= a * b <= 400
  {
  }

  /** The length of the longest prefix of `s` made of digits. */
  function DigitRun(s: string): (k: nat)
    ensures k <= |s| && AllDigits(s[..k])
    ensures k < |s| ==> !IsDigit(s[k])
  {
    if |s| == 0 || !IsDigit(s[0]) then 0 else 1 + DigitRun(s[1..])
  }

  /**
    Reads a prompt `What is <a> <op> <b>?` back into its draw; `None` for text
    that is not such a prompt, whose numbers are not written as `str` writes
    them, or whose operands lie outside [1, 20].
   */
  function ParseQuestion(text: string): (r: Option<Draw>)
    ensures r.Some? ==> |text| > |Prefix| && text[..|Prefix|] == Prefix && text[|text| - 1] == '?'
  {
    if |text| <= |Prefix| || text[..|Prefix|] != Prefix || text[|text| - 1] != '?' then
      None
    else
      ParseBody(text[|Prefix|..|text| - 1])
  }

  /** Reads the `<a> <op> <b>` between the prefix and the question mark. */
  function ParseBody(body: string): (r: Option<Draw>)
  {
    var k := DigitRun(body);
    if k + 3 > |body| || body[k] != ' ' || body[k + 2] != ' ' || SymbolOperator(body[k + 1]).None? then
      None
    else
      var left, right := body[..k], body[k + 3..];
      if !Canonical(left) || !Canonical(right) then
        None
      else
        var a, b := DigitsValue(left), DigitsValue(right);
        if 1 <= a <= 20 && 1 <= b <= 20 then
          Some(Draw(a, b, SymbolOperator(body[k + 1]).value))
        else
          None
  }

  /** The digit run of digits followed by a non-digit ends exactly at the non-digit. */
  lemma DigitRunStopsAt(x: string, y: string)
    requires AllDigits(x) && |y| > 0 && !IsDigit(y[0])
    ensures DigitRun(x + y) == |x|
  {
    var s := x + y;
    assert forall i :: 0 <= i < |x| ==> s[i] == x[i];
    assert s[|x|] == y[0];
  }

  /** The middle of a generated prompt parses back to its draw. */
  lemma ParseBodyOfParts(d: Draw)
    ensures ParseBody(NatToString(d.num1) + [' ', Symbol(d.op), ' '] + NatToString(d.num2)) == Some(d)
  {
    var l, r := NatToString(d.num1), NatToString(d.num2);
    var c := Symbol(d.op);
    var body := l + [' ', c, ' '] + r;
    assert body == l + ([' ', c, ' '] + r);
    DigitRunStopsAt(l, [' ', c, ' '] + r);
    var k := |l|;
    assert body[k] == ' ' && body[k + 1] == c && body[k + 2] == ' ';
    assert SymbolOperator(c) == Some(d.op);
    assert body[..k] == l;
    assert body[k + 3..] == r;
    DigitsValueOfNatToString(d.num1);
    DigitsValueOfNatToString(d.num2);
  }

  /** The prompt determines the draw: parsing the generated text recovers the operands and the operator. */
  lemma ParseGenerate(d: Draw)
    ensures ParseQuestion(Generate(d).text) == Some(d)
  {
    var text := Generate(d).text;
    var body := NatToString(d.num1) + [' ', Symbol(d.op), ' '] + NatToString(d.num2);
    assert text == Prefix + body + "?";
    assert text[..|Prefix|] == Prefix;
    assert text[|Prefix|..|text| - 1] == body;
    ParseBodyOfParts(d);
  }

  /** A middle that parses is exactly the middle of the prompt generated from its draw. */
  lemma PartsOfParseBody(body: string)
    requires ParseBody(body).Some?
    ensures var d := ParseBody(body).value;
      body == NatToString(d.num1) + [' ', Symbol(d.op), ' '] + NatToString(d.num2)
  {
    var d := ParseBody(body).value;
    var k := DigitRun(body);
    var left, right := body[..k], body[k + 3..];
    NatToStringOfDigitsValue(left);
    NatToStringOfDigitsValue(right);
    assert body == left + [body[k], body[k + 1], body[k + 2]] + right;
  }

  /** A text is its first `n` characters, its middle and its last character. */
  lemma SplitEnds(text: string, n: nat)
    requires n < |text|
    ensures text == text[..n] + text[n..|text| - 1] + [text[|text| - 1]]
  {
  }

  /** Conversely, every text that parses is exactly the prompt generated from its draw. */
  lemma GenerateParse(text: string, d: Draw)
    requires ParseQuestion(text) == Some(d)
    ensures Generate(d).text == text
  {
    var body := text[|Prefix|..|text| - 1];
    assert ParseBody(body) == Some(d);
    PartsOfParseBody(body);
    SplitEnds(text, |Prefix|);
  }

  /** Recomputing the answer from the parsed prompt gives the generator's answer. */
  lemma AnswerFromText(d: Draw)
    ensures var e := ParseQuestion(Generate(d).text);
      e.Some? && Generate(e.value).answer == Generate(d).answer
  {
    ParseGenerate(d);
  }

  /** Different draws never produce the same prompt. */
  lemma GenerateInjective(d: Draw, e: Draw)
    requires Generate(d).text == Generate(e).text
    ensures d == e
  {
    ParseGenerate(d);
    ParseGenerate(e);
  }
}
