/** The error values the calculator can stop with, and the Option and Result
    types that carry them. Every `panic` of main.go becomes an `Err`. */
module Results {

  /** One constructor per distinct panic of main.go. */
  datatype Error =
    | EmptyInput                        // main.go:27-29: nothing left after trimming
    | BadExpression                     // main.go:37, 44, 53: not exactly one operator, or an empty operand
    | OutOfRange(text: string)          // main.go:91-92: an Arabic operand outside 1..10
    | BadNumeral(text: string)          // main.go:104-106: a symbol outside I, V, X
    | NotPositive(text: string)         // main.go:116-117: a Roman sum that is not positive
    | MixedSystems                      // main.go:68-69: one Arabic and one Roman operand
    | DivisionByZero                    // main.go:133-134
    | UnsupportedOperator(op: string)   // main.go:137-138
    | NotRepresentable(value: int)      // main.go:144-145: no Roman numeral for this value

  datatype Option<+T> = None | Some(value: T)

  datatype Result<+T> = Ok(value: T) | Err(error: Error) {
    predicate IsFailure() { Err? }

    function PropagateFailure<U>(): Result<U>
      requires Err?
    {
      Err(error)
    }

    function Extract(): T
      requires Ok?
    {
      value
    }
  }
}
