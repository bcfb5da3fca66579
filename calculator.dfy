/** The body of main (main.go:56-83): parse both operands, refuse to mix the
    two numeral systems, calculate, and answer in Roman numerals when the
    operands were Roman. */
module Calculator {
  import opened Results
  import opened Text
  import opened Splitter
  import opened Numbers
  import opened Arithmetic
  import opened RomanNumerals

  /** What main prints after "Результат:". */
  datatype Output = Arabic(value: int) | Roman(numeral: string)

  /** main.go:69-72: both operands must be of one system; the answer is Roman
      exactly when they are. */
  function SelectSystem(left: Operand, right: Operand): (r: Result<bool>)
    ensures r.Err? <==> left.isRoman != right.isRoman
    ensures r.Err? ==> r.error == MixedSystems
    ensures r.Ok? ==> r.value == left.isRoman == right.isRoman
  {
    if (left.isRoman && !right.isRoman) || (!left.isRoman && right.isRoman) then Err(MixedSystems)
    else Ok(left.isRoman || right.isRoman)
  }

  /** main.go:78-83: the result as a Roman numeral or as a decimal number. */
  function Format(value: int, roman: bool): Result<Output> {
    if roman then
      var numeral :- IntToRomanSpec(value);
      Ok(Roman(numeral))
    else
      Ok(Arabic(value))
  }

  /** main.go:69-83 on two parsed operands and the operator character. */
  function Combine(left: Operand, right: Operand, op: char): Result<Output> {
    var roman :- SelectSystem(left, right);
    var value :- Calculate(left.value, right.value, [op]);
    Format(value, roman)
  }

  /** What the calculator answers for one input line. */
  function EvaluateSpec(line: string): Result<Output> {
    var e :- SplitSpec(line);
    var left :- ParseNumberSpec(e.left);
    var right :- ParseNumberSpec(e.right);
    Combine(left, right, e.op)
  }

  /** main.go:21-83, with the panics as errors and the printing left out. */
  method Evaluate(line: string) returns (r: Result<Output>)
    ensures r == EvaluateSpec(line)
  {
    var e :- Split(line);
    var left :- ParseNumber(e.left);
    var right :- ParseNumber(e.right);
    if (left.isRoman && !right.isRoman) || (!left.isRoman && right.isRoman) {
      return Err(MixedSystems);
    }
    var operator := [e.op];
    var result :- Calculate(left.value, right.value, operator);
    if left.isRoman || right.isRoman {
      var numeral :- IntToRoman(result);
      r := Ok(Roman(numeral));
    } else {
      r := Ok(Arabic(result));
    }
  }

  /** What parseNumber can produce, and what the splitter can: operands of at
      least 1 and an operator character. */
  predicate Admissible(left: Operand, right: Operand, op: char) {
    left.value >= 1 && right.value >= 1 && IsOperator(op)
  }

  /** On admissible inputs calculate's two panics are never reached. */
  lemma CombineNeverFailsInCalculate(left: Operand, right: Operand, op: char)
    requires Admissible(left, right, op)
    ensures Combine(left, right, op).Err? ==>
              Combine(left, right, op).error != DivisionByZero && !Combine(left, right, op).error.UnsupportedOperator?
  {
    CalculateFails(left.value, right.value, [op]);
  }

  /** The splitter's operator always names one of calculate's four cases, and a
      parsed divisor is at least 1: the two panics of calculate are never reached
      from an input line. */
  lemma CalculateNeverFails(line: string)
    ensures EvaluateSpec(line).Err? ==>
              EvaluateSpec(line).error != DivisionByZero && !EvaluateSpec(line).error.UnsupportedOperator?
  {
    var e := SplitSpec(line);
    if e.Err? {
      assert e.error == EmptyInput || e.error == BadExpression;
    } else {
      var left, right := ParseNumberSpec(e.value.left), ParseNumberSpec(e.value.right);
      if left.Err? {
        ParseErrors(e.value.left);
      } else if right.Err? {
        ParseErrors(e.value.right);
      } else {
        SplitAccepted(Normalize(line), e.value);
        OperandBounds(e.value.left);
        OperandBounds(e.value.right);
        CombineNeverFailsInCalculate(left.value, right.value, e.value.op);
      }
    }
  }

  /** An Arabic and a Roman operand, in either order, are rejected. */
  lemma MixedSystemsRejected(left: Operand, right: Operand, op: char)
    requires Admissible(left, right, op)
    ensures Combine(left, right, op) == Err(MixedSystems) <==> left.isRoman != right.isRoman
  {
    CalculateFails(left.value, right.value, [op]);
  }

  /** Two Arabic operands give the decimal result of calculate. */
  lemma ArabicResult(left: Operand, right: Operand, op: char)
    requires Admissible(left, right, op) && !left.isRoman && !right.isRoman
    ensures Combine(left, right, op) ==
              match op
              case '+' => Ok(Arabic(left.value + right.value))
              case '-' => Ok(Arabic(left.value - right.value))
              case '*' => Ok(Arabic(left.value * right.value))
              case _ => Ok(Arabic(TruncDiv(left.value, right.value)))
  {
  }

  /** Two Roman operands give the numeral of the result, or an error naming the
      result when it is not between 1 and 3999. */
  lemma RomanResult(left: Operand, right: Operand, op: char)
    requires Admissible(left, right, op) && left.isRoman && right.isRoman
    ensures Calculate(left.value, right.value, [op]).Ok?
    ensures var value := Calculate(left.value, right.value, [op]).value;
            Combine(left, right, op) ==
              if 1 <= value <= 3999 then Ok(Roman(Spell(Greedy(value, 0))))
              else Err(NotRepresentable(value))
  {
    CalculateFails(left.value, right.value, [op]);
  }

  /** An answer is Roman exactly when the operands were. */
  lemma OutputSystem(left: Operand, right: Operand, op: char)
    requires Combine(left, right, op).Ok?
    ensures left.isRoman == right.isRoman
    ensures Combine(left, right, op).value.Roman? <==> left.isRoman
  {
  }

  /** An accepted line is cut into operands parseNumber accepts, and its answer
      is what the two operands and the operator give. */
  lemma EvaluateAccepted(line: string)
    requires EvaluateSpec(line).Ok?
    ensures SplitSpec(line).Ok?
    ensures var e := SplitSpec(line).value;
            ParseNumberSpec(e.left).Ok? && ParseNumberSpec(e.right).Ok? &&
            Admissible(ParseNumberSpec(e.left).value, ParseNumberSpec(e.right).value, e.op) &&
            EvaluateSpec(line) == Combine(ParseNumberSpec(e.left).value, ParseNumberSpec(e.right).value, e.op)
  {
    var e := SplitSpec(line).value;
    SplitAccepted(Normalize(line), e);
    OperandBounds(e.left);
    OperandBounds(e.right);
  }

  /** A zero divisor never reaches calculate: "0" is refused by the range check
      of parseNumber first, so such a line fails with that error. */
  lemma ZeroDivisorRejected(line: string)
    requires SplitSpec(line).Ok? && SplitSpec(line).value.right == "0"
    requires ParseNumberSpec(SplitSpec(line).value.left).Ok?
    ensures EvaluateSpec(line) == Err(OutOfRange("0"))
  {
    ZeroIsOutOfRange();
  }

  /** The Arabic operands of an accepted line are plain digit strings: the
      splitter leaves no sign in them. */
  lemma ArabicOperandsAreDigits(line: string, e: Expression)
    requires SplitSpec(line) == Ok(e)
    requires ParseNumberSpec(e.left).Ok? && !ParseNumberSpec(e.left).value.isRoman
    requires ParseNumberSpec(e.right).Ok? && !ParseNumberSpec(e.right).value.isRoman
    ensures AllDigits(e.left) && ParseNumberSpec(e.left).value.value == DecimalValue(e.left)
    ensures AllDigits(e.right) && ParseNumberSpec(e.right).value.value == DecimalValue(e.right)
  {
    SplitOperandsHaveNoOperator(Normalize(line), e);
    ArabicOperandIsDecimal(e.left);
    ArabicOperandIsDecimal(e.right);
    assert !IsOperator(e.left[0]) && !IsOperator(e.right[0]);
  }
}
