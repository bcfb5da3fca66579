# One-line Roman/Arabic calculator — a Dafny model

The program reads one line such as `3 + 5` or `III * VI` and prints the
result. Operands are either Arabic numbers from 1 to 10 or Roman numerals
written with I, V and X. The operator is one of `+ - * /`. The answer is
Roman when the operands are Roman. Mixing the two systems, a malformed
line, an operand out of range, and a Roman result outside 1..3999 all end the
program with a panic.

The model follows the five parts of `main.go`, one Dafny module each. A
module called Results holds the error and result types, and Text models the
library calls (`strings.ToUpper`, `strings.TrimSpace`, `strconv.Atoi`).

- **Splitter** (`splitter.dfy`): upper-casing, trimming, the empty-line
  check, the operator scan with `operatorPos`, and the cut into two trimmed
  operands.
- **Numbers** (`numbers.dfy`): `parseNumber`. It tries `Atoi` first and
  accepts only 1..10. Otherwise it decodes with the fold over I, V and X that
  adds each value and takes back twice the previous value when a larger one
  follows.
- **Arithmetic** (`arithmetic.dfy`): `calculate`. Go's `/` truncates toward
  zero.
- **RomanNumerals** (`roman.dfy`): `intToRoman`, the greedy encoder over the
  13-row table.
- **Calculator** (`calculator.dfy`): the glue in `main`, which parses both
  operands, rejects mixed systems, calculates, and formats the result.

Each panic is an `Err` of `Results.Error`. Every constructor of that type
names the `main.go` line of its panic.

Every loop of the source is a method with the same loop:

- In `Splitter.FindOperator` and `Splitter.Split`, the scan with
  `operatorPos`.
- In `Numbers.ParseNumber`, the `sum`/`lastValue` accumulation.
- In `RomanNumerals.IntToRoman`, the two nested loops.

Each such method is proved equal to a specification function:
`Splitter.SplitSpec`, `Numbers.ParseNumberSpec`,
`RomanNumerals.IntToRomanSpec` and `Calculator.EvaluateSpec`. The lemmas
state the properties of those functions.

A zero divisor never reaches `calculate`: the operand `0` fails the Arabic
range check of `parseNumber` first (main.go:91-93), so `10 / 0` reports an
out-of-range operand. `Calculator.ZeroDivisorRejected` states this, and
`Calculator.CalculateNeverFails` proves that the division-by-zero panic and
the unknown-operator panic of `calculate` are unreachable from an input
line.

## Model

| member | source | states |
|---|---|---|
| Text.LeadingSpaces | main.go:24 | the count is at most the length, covers only white space, and stops at the first non-space |
| Text.TrailingSpaces | main.go:24 | the same at the tail |
| Text.TrimSpace | main.go:24 | the result is the slice of the input after its leading white space, and neither starts nor ends with white space |
| Text.TrimSpaceRemovesOnlySpace | main.go:24 | everything removed on both sides is white space, and the result is empty exactly when the input is all white space |
| Text.ToUpperProperties | main.go:21 | same length, no lower-case letter left, other characters unchanged, lower-case letters shifted to upper case, idempotent |
| Text.ToUpper | main.go:21 | upper-casing of ASCII letters; see Text.ToUpperProperties |
| Text.Atoi | main.go:89-90 | succeeds exactly on an optional sign followed by at least one digit whose signed decimal value fits in 64 bits, and then returns that signed value; a plain digit string gives its decimal value exactly when it fits |
| Splitter.Normalize | main.go:21-24 | the line upper-cased and trimmed; see Text.ToUpperProperties, Text.TrimSpaceRemovesOnlySpace, Splitter.TrimKeepsNoOperator |
| Splitter.OperatorPositions | main.go:33-41 | every position lies inside the line |
| Splitter.PositionsExact | main.go:33-41 | an index holds + - * / exactly when it is among the operator positions |
| Splitter.PositionsIncreasing | main.go:33-41 | the positions are strictly increasing |
| Splitter.PositionsOfPrefix | main.go:33-41 | the positions in a prefix are a prefix of the positions in the whole line |
| Splitter.Cut | main.go:47-54 | the trimmed texts either side of p, rejected when either is blank; see Splitter.SplitAtOperator and Splitter.CutOperandsTrimmed |
| Splitter.SplitNormalized | main.go:27-54 | the empty-line, operator-count and blank-operand checks on a normalised line; see Splitter.SplitRejectsOperatorCount, Splitter.SplitAtOperator, Splitter.SplitAccepted |
| Splitter.SplitSpec | main.go:21-54 | what the splitter returns for a line; see Splitter.SplitRejectsOperatorCount, Splitter.SplitAtOperator, Splitter.SplitAccepted, Splitter.SplitOperandsHaveNoOperator |
| Splitter.FindOperator | main.go:32-45 | the scan returns the sole operator's index when there is exactly one operator, and the operand-count error otherwise |
| Splitter.Split | main.go:21-54 | the method computes exactly the splitter specification of the line |
| Splitter.SplitRejectsOperatorCount | main.go:33-45 | a line with no operator, or with operators at two indices, is rejected |
| Splitter.NoOperatorPositions | main.go:43-45 | a line without operator characters has no operator position |
| Splitter.UniqueOperatorPosition | main.go:33-41 | a line whose only operator is at p has the single position p |
| Splitter.SplitAtOperator | main.go:48-54 | with one operator at p, the operands are the trimmed texts before and after p, and the line is rejected when either is blank |
| Splitter.TrimKeepsNoOperator | main.go:48-49 | trimming never introduces an operator character |
| Splitter.CutOperandsTrimmed | main.go:48-54 | a successful cut has the character at p as operator and non-empty operands with no white space at their edges |
| Splitter.SplitAccepted | main.go:21-54 | an accepted line has an operator among + - * / and non-empty, edge-trimmed operands |
| Splitter.PiecesHaveNoOperator | main.go:48-49 | the two trimmed pieces around the sole operator hold no operator |
| Splitter.SoleOperator | main.go:32-54 | an accepted line was cut at its one operator position |
| Splitter.OnlyOperatorAt | main.go:33-41 | a single operator position is the only index holding an operator |
| Splitter.SplitOperandsHaveNoOperator | main.go:48-54 | neither operand of an accepted line contains an operator |
| Numbers.Step | main.go:108-112 | one decoder step; see Numbers.DecodeStaysPositive and RomanNumerals.DecodeRun |
| Numbers.Decode | main.go:101-113 | the decoding fold; see Numbers.DecodeFailsOnForeignSymbol and Numbers.DecodeStaysPositive |
| Numbers.RomanSum | main.go:101-113 | the decoder run from a zero sum and a zero previous value; see Numbers.RomanSumPositive, Numbers.ParseRoman, Numbers.ParseNumber |
| Numbers.ParseNumberSpec | main.go:87-121 | what parseNumber returns; see Numbers.ParseArabic, Numbers.ParseRoman, Numbers.NotPositiveOnlyForEmpty, Numbers.ArabicOperandIsDecimal |
| Numbers.ParseNumber | main.go:87-121 | the method with its decoding loop computes exactly the specification of parseNumber |
| Numbers.DecodeFailsOnForeignSymbol | main.go:103-107 | the decoder fails exactly when some character is not I, V or X |
| Numbers.DecodeStaysPositive | main.go:103-113 | once a symbol has been read, the sum stays at least 1 whatever follows |
| Numbers.RomanSumPositive | main.go:101-118 | a non-empty string of I, V and X has a positive sum |
| Numbers.ParseArabic | main.go:89-95 | a digit string is accepted as Arabic exactly when its value is 1..10; otherwise it is out of range, or a bad numeral when it overflows 64 bits |
| Numbers.ParseRoman | main.go:97-120 | an accepted Roman operand consists of I, V and X and carries the Roman flag and the decoded sum; a non-number with a foreign character is a bad numeral; a non-empty IVX string is accepted as Roman |
| Numbers.NotPositiveOnlyForEmpty | main.go:116-118 | the non-positive Roman error happens exactly for the empty string |
| Numbers.OperandBounds | main.go:87-121 | an accepted operand is at least 1, and at most 10 when Arabic |
| Numbers.ParseErrors | main.go:87-121 | parseNumber fails only with its three messages, each naming the text |
| Numbers.ArabicOperandIsDecimal | main.go:89-95 | an operand accepted as Arabic is digits after at most a plus sign, and its value is their decimal value |
| Numbers.ZeroIsOutOfRange | main.go:89-93 | the operand "0" is refused by the Arabic range check |
| Arithmetic.Calculate | main.go:124-140 | the four operations and the two failures; see Arithmetic.CalculateFails, Arithmetic.TruncDiv, Arithmetic.CalculateInverses |
| Arithmetic.TruncDiv | main.go:136 | the remainder is smaller than the divisor in magnitude and has the sign of the dividend |
| Arithmetic.TruncDivUnique | main.go:136 | only the truncated quotient has such a remainder |
| Arithmetic.CalculateFails | main.go:124-140 | calculate fails exactly on a zero divisor and on an unknown operator, with those two errors |
| Arithmetic.CalculateInverses | main.go:126-136 | subtraction undoes addition, and division undoes multiplication by a non-zero number |
| Arithmetic.TruncDivOfNaturals | main.go:132-136 | on non-negative operands the truncated quotient is the ordinary one |
| RomanNumerals.Greedy | main.go:148-173 | the rows the encoder emits; see RomanNumerals.GreedyTotal, RomanNumerals.GreedyTens, RomanNumerals.FirstRowLarge |
| RomanNumerals.IntToRomanSpec | main.go:143-176 | what intToRoman returns; see RomanNumerals.IntToRoman and RomanNumerals.RoundTripExactlyBelowForty |
| RomanNumerals.IntToRoman | main.go:143-176 | the method with its two nested loops computes exactly the specification of intToRoman, including the rejection outside 1..3999 |
| RomanNumerals.SpellAppend | main.go:170 | appending a row appends its symbol |
| RomanNumerals.TotalAppend | main.go:171 | appending a row adds its value |
| RomanNumerals.EmitOne | main.go:169-172 | one inner-loop pass keeps the emitted rows a prefix of the greedy encoding |
| RomanNumerals.GreedyTotal | main.go:167-173 | the emitted rows add up to the number |
| RomanNumerals.SpellConcat | main.go:170 | spelling distributes over concatenation |
| RomanNumerals.GreedyOfZero | main.go:168-173 | nothing is emitted for 0 |
| RomanNumerals.GreedyOnes | main.go:164-173 | from the I row, n is written as n I's |
| RomanNumerals.GreedyTens | main.go:160-173 | from the X row, 10t+u (u<10) is t X's followed by the units |
| RomanNumerals.SpellCopies | main.go:170 | copies of a one-letter row spell that letter repeated |
| RomanNumerals.SkipLargeRows | main.go:152-159 | below 40 the rows from M to XL emit nothing |
| RomanNumerals.DecodeRun | main.go:103-113 | decoding a run of one symbol adds its value once per copy |
| RomanNumerals.SpellUnits | main.go:161-164 | the units 0..9 are spelled as the IX, V, IV and I rows give them |
| RomanNumerals.DecodeUnits | main.go:103-113 | the spelled units decode back to their value after X's or at the start |
| RomanNumerals.DecodeUnitsText | main.go:103-113 | the spellings of 0..9 decode to 0..9 |
| RomanNumerals.DecodeAfterFive | main.go:103-113 | V followed by j I's decodes to 5+j |
| RomanNumerals.SpellBelowForty | main.go:152-173 | below 40 intToRoman writes t X's and then the units |
| RomanNumerals.RoundTripBelowForty | main.go:87-176 | for 1..39 parseNumber reads back, as a Roman operand, the number intToRoman wrote |
| RomanNumerals.FirstRowLarge | main.go:152-173 | from 40 on, the first emitted row is one of M to XL |
| RomanNumerals.LargeRowEndsForeign | main.go:98-159 | the symbols M to XL end in a letter the decoder rejects and start with neither a digit nor a sign |
| RomanNumerals.NoRoundTripFromForty | main.go:103-176 | for 40..3999 parseNumber rejects what intToRoman wrote as a bad numeral |
| RomanNumerals.RoundTripExactlyBelowForty | main.go:87-176 | over 1..3999 the round trip succeeds exactly for 1..39 |
| RomanNumerals.RomanOperandsUnbounded | main.go:97-120 | t X's parse as the Roman operand 10t for every t ≥ 1, so Roman operands are not limited to 10 |
| Calculator.SelectSystem | main.go:69-78 | mixing systems is rejected exactly when the flags differ; otherwise the answer is Roman exactly when the operands are |
| Calculator.Format | main.go:78-83 | the result as a numeral or a decimal number; see Calculator.RomanResult and Calculator.ArabicResult |
| Calculator.Combine | main.go:68-83 | the system check, calculate and formatting; see Calculator.MixedSystemsRejected, Calculator.OutputSystem, Calculator.CombineNeverFailsInCalculate |
| Calculator.EvaluateSpec | main.go:21-83 | what the program answers for a line; see Calculator.CalculateNeverFails, Calculator.EvaluateAccepted, Calculator.ZeroDivisorRejected, Calculator.ArabicOperandsAreDigits |
| Calculator.Evaluate | main.go:21-83 | the method computes exactly the calculator specification of the line |
| Calculator.CombineNeverFailsInCalculate | main.go:124-140 | on operands of at least 1 and a splitter operator, neither panic of calculate is reached |
| Calculator.CalculateNeverFails | main.go:56-83 | no input line reaches the division-by-zero or unknown-operator failure |
| Calculator.MixedSystemsRejected | main.go:69-72 | an Arabic and a Roman operand, in either order, give the mixed-systems error, and only they do |
| Calculator.ArabicResult | main.go:75-136 | two Arabic operands give the decimal sum, difference, product or truncated quotient |
| Calculator.RomanResult | main.go:75-146 | two Roman operands give the greedy numeral of the result, or the not-representable error when it lies outside 1..3999 |
| Calculator.OutputSystem | main.go:69-83 | an answer is Roman exactly when both operands are Roman |
| Calculator.EvaluateAccepted | main.go:21-83 | an accepted line was split, both operands parsed, and the answer is what they and the operator produce |
| Calculator.ArabicOperandsAreDigits | main.go:48-95 | the Arabic operands of an accepted line are plain digit strings whose decimal value is the operand |
| Calculator.ZeroDivisorRejected | main.go:56-93 | a line whose right operand is 0 fails with the range error of "0" |

## Left out

- Reading the line from standard input (main.go:12-19) and printing the prompt and the result (main.go:79, 82) are not modelled. The model starts from the line as a string and returns `Calculator.Output`.
- Panics are modelled as `Err` values, not as unwinding.
- Text models Unicode only in part. `ToUpper` maps only the ASCII letters a-z, and `TrimSpace` removes only ASCII white space (space, tab, newline, carriage return, vertical tab, form feed). Go also upper-cases the dotless ı into I and trims Unicode white space; neither is modelled.
- Byte versus rune indexing (main.go:33, 48-49, 103) is not modelled. On ASCII input the two coincide.
- Text.Atoi models base-10 `strconv.Atoi` on a 64-bit platform, with an optional sign and at least one digit. Go's error values and messages are not modelled, only failure.
- Arithmetic uses mathematical integers, with no 64-bit wrap-around. A Roman sum, or `calculate` on two Roman operands (main.go:127-136), can exceed a 64-bit `int` only on input hundreds of megabytes long; that overflow is not modelled.
- The exact panic messages (in Russian) are replaced by the constructors of `Results.Error`.

