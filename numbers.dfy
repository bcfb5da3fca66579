/** parseNumber of main.go:87-121: an operand is an Arabic number when
    strconv.Atoi accepts it, and is otherwise decoded as a Roman numeral over I, V, X. */
module Numbers {
  import opened Results
  import opened Text

  /** A parsed operand: its value and whether it was written in Roman numerals. */
  datatype Operand = Operand(value: int, isRoman: bool)

  /** The only Roman symbols the decoder knows (main.go:98-100). */
  const RomanValues: map<char, int> := map['I' := 1, 'V' := 5, 'X' := 10]

  predicate IsRomanSymbol(c: char) {
    c in RomanValues
  }

  predicate AllRomanSymbols(s: string) {
    forall k :: 0 <= k < |s| ==> IsRomanSymbol(s[k])
  }

  /** One step of the decoder (main.go:108-111): add the symbol's value and, when it
      exceeds the previous symbol's value, take back twice the previous one. */
  function Step(sum: int, lastValue: int, value: int): int {
    if lastValue < value then sum + value - 2 * lastValue else sum + value
  }

  /** The decoder run over `s` from the state (sum, lastValue): the final sum,
      or None as soon as a character is not a Roman symbol. */
  function Decode(s: string, sum: int, lastValue: int): Option<int> {
    if s == [] then Some(sum)
    else if s[0] !in RomanValues then None
    else Decode(s[1..], Step(sum, lastValue, RomanValues[s[0]]), RomanValues[s[0]])
  }

  /** The Roman sum of `s`, decoded from the initial state (0, 0). */
  function RomanSum(s: string): Option<int> {
    Decode(s, 0, 0)
  }

  /** What parseNumber returns for `s`. */
  function ParseNumberSpec(s: string): Result<Operand> {
    match Atoi(s)
    case Some(arabic) =>
      if arabic < 1 || arabic > 10 then Err(OutOfRange(s)) else Ok(Operand(arabic, false))
    case None =>
      match RomanSum(s)
      case None => Err(BadNumeral(s))
      case Some(sum) => if sum <= 0 then Err(NotPositive(s)) else Ok(Operand(sum, true))
  }

  /** parseNumber (main.go:87-121), with its accumulating loop over the symbols. */
  method ParseNumber(s: string) returns (r: Result<Operand>)
    ensures r == ParseNumberSpec(s)
  {
    var arabic := Atoi(s);
    if arabic.Some? {
      if arabic.value < 1 || arabic.value > 10 {
        return Err(OutOfRange(s));
      }
      return Ok(Operand(arabic.value, false));
    }
    var sum := 0;
    var lastValue := 0;
    for i := 0 to |s|
      invariant Decode(s[i..], sum, lastValue) == RomanSum(s)
    {
      assert s[i..][1..] == s[i + 1..];
      if s[i] !in RomanValues {
        return Err(BadNumeral(s));
      }
      var value := RomanValues[s[i]];
      sum := sum + value;
      if lastValue < value {
        sum := sum - 2 * lastValue;
      }
      lastValue := value;
    }
    if sum <= 0 {
      return Err(NotPositive(s));
    }
    return Ok(Operand(sum, true));
  }

  /** The decoder fails exactly when some character is not one of I, V, X. */
  lemma {:induction false} DecodeFailsOnForeignSymbol(s: string, sum: int, lastValue: int)
    ensures Decode(s, sum, lastValue).None? <==> !AllRomanSymbols(s)
  {
    if s != [] && s[0] in RomanValues {
      DecodeFailsOnForeignSymbol(s[1..], Step(sum, lastValue, RomanValues[s[0]]), RomanValues[s[0]]);
      assert forall k :: 1 <= k < |s| ==> s[k] == s[1..][k - 1];
    }
  }

  /** From a state with a positive sum after a symbol, the sum stays positive:
      a larger symbol is always at least twice the one before it. */
  lemma {:induction false} DecodeStaysPositive(s: string, sum: int, lastValue: int)
    requires AllRomanSymbols(s)
    requires sum >= 1 && (lastValue == 1 || lastValue == 5 || lastValue == 10)
    ensures Decode(s, sum, lastValue).Some? && Decode(s, sum, lastValue).value >= 1
  {
    if s != [] {
      var value := RomanValues[s[0]];
      assert lastValue < value ==> value >= 2 * lastValue;
      assert AllRomanSymbols(s[1..]) by {
        assert forall k :: 0 <= k < |s| - 1 ==> s[1..][k] == s[k + 1];
      }
      DecodeStaysPositive(s[1..], Step(sum, lastValue, value), value);
    }
  }

  /** Every non-empty string of I, V and X has a positive Roman sum (main.go:101-118). */
  lemma RomanSumPositive(s: string)
    requires s != [] && AllRomanSymbols(s)
    ensures RomanSum(s).Some? && RomanSum(s).value >= 1
  {
    var value := RomanValues[s[0]];
    assert AllRomanSymbols(s[1..]) by {
      assert forall k :: 0 <= k < |s| - 1 ==> s[1..][k] == s[k + 1];
    }
    DecodeStaysPositive(s[1..], value, value);
  }

  /** A string of decimal digits is an Arabic operand exactly when its value is in
      1..10; a smaller or larger one that fits an `int` is out of range, and one too
      large for an `int` falls through to the Roman decoder, which refuses it. */
  lemma ParseArabic(s: string)
    requires s != [] && AllDigits(s)
    ensures ParseNumberSpec(s) == Ok(Operand(DecimalValue(s), false)) <==> 1 <= DecimalValue(s) <= 10
    ensures ParseNumberSpec(s) ==
              if DecimalValue(s) > MaxInt then Err(BadNumeral(s))
              else if DecimalValue(s) < 1 || DecimalValue(s) > 10 then Err(OutOfRange(s))
              else Ok(Operand(DecimalValue(s), false))
  {
    DecodeFailsOnForeignSymbol(s, 0, 0);
  }

  /** A Roman operand is a string of I, V and X, returned with the Roman flag set
      and a positive value; a string that is neither an integer nor made of these
      symbols is a format error; a non-empty string of them is always accepted. */
  lemma ParseRoman(s: string)
    ensures ParseNumberSpec(s).Ok? && ParseNumberSpec(s).value.isRoman ==>
              AllRomanSymbols(s) && ParseNumberSpec(s).value.value == RomanSum(s).value >= 1
    ensures Atoi(s).None? && !AllRomanSymbols(s) ==> ParseNumberSpec(s) == Err(BadNumeral(s))
    ensures s != [] && AllRomanSymbols(s) ==>
              RomanSum(s).Some? && ParseNumberSpec(s) == Ok(Operand(RomanSum(s).value, true))
  {
    DecodeFailsOnForeignSymbol(s, 0, 0);
    if s != [] && AllRomanSymbols(s) {
      RomanSumPositive(s);
    }
  }

  /** The "no negative Roman numbers" error is reached by the empty string only. */
  lemma NotPositiveOnlyForEmpty(s: string)
    ensures ParseNumberSpec(s) == Err(NotPositive(s)) <==> s == []
  {
    DecodeFailsOnForeignSymbol(s, 0, 0);
    if s != [] && AllRomanSymbols(s) {
      RomanSumPositive(s);
    }
  }

  /** Every accepted operand is positive, and an Arabic one is at most 10. */
  lemma OperandBounds(s: string)
    requires ParseNumberSpec(s).Ok?
    ensures ParseNumberSpec(s).value.value >= 1
    ensures !ParseNumberSpec(s).value.isRoman ==> ParseNumberSpec(s).value.value <= 10
  {
  }

  /** parseNumber fails only with one of its three messages, naming the text. */
  lemma ParseErrors(s: string)
    ensures ParseNumberSpec(s).Err? ==>
              ParseNumberSpec(s) in {Err(OutOfRange(s)), Err(BadNumeral(s)), Err(NotPositive(s))}
  {
  }

  /** The Arabic operand 0 is refused by the range check. */
  lemma ZeroIsOutOfRange()
    ensures ParseNumberSpec("0") == Err(OutOfRange("0"))
  {
    assert AllDigits("0") && DecimalValue("0") == 0;
    ParseArabic("0");
  }

  /** An operand accepted as Arabic is a decimal numeral: digits, after at
      most a plus sign, whose value is the operand's. */
  lemma ArabicOperandIsDecimal(s: string)
    requires ParseNumberSpec(s).Ok? && !ParseNumberSpec(s).value.isRoman
    ensures s != [] && s[0] != '-'
    ensures var d := if s[0] == '+' then s[1..] else s;
            d != [] && AllDigits(d) && ParseNumberSpec(s).value.value == DecimalValue(d)
  {
  }
}
