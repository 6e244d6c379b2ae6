/** Option, Result and the error kinds the library raises as exceptions. */
module Wrappers {

  datatype Option<T> = None | Some(value: T)

  /** The exceptions thrown by the library, one variant per distinct cause. */
  datatype Error =
    | DivisionByZero          // \DivisionByZeroError from the fields and from polynomial division
    | FieldMismatch           // polynomials over two different field instances
    | InvalidArgument         // negative degree, length mismatch, duplicate points, bad string length
    | OrderTooSmall           // InvalidFieldOrderException::tooSmall
    | NotPrimePower           // InvalidFieldOrderException::notPrimePower
    | UnsupportedField        // RuntimeException: a prime power the library has no field for
    | NoPrimitivePolynomial   // RuntimeException from the primitive-polynomial lookup
    | NotBinaryField          // InvalidArgumentException from the codeword converter
    | BadMethodCall           // BadMethodCallException from the alpha formatter
    | NegativeShift           // \ArithmeticError from a bit shift by a negative amount

  datatype Result<T> = Ok(value: T) | Err(error: Error)
  {
    predicate IsFailure() { Err? }

    function PropagateFailure<U>(): Result<U>
      requires Err?
    {
      Err(error)
    }

    function Extract(): T
      requires Ok?
    {
      value
    }
  }
}
