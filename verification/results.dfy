/** Error outcomes of the charge-exchange model.

    Python raises ZeroDivisionError on a float division by zero, and numpy
    returns NaN or infinity (with a runtime warning) for an array division by
    zero, the mean of an empty array or the square root of a negative number;
    `np.random.normal` raises ValueError for a negative scale.
    Exact reals have no NaN, so each of those situations becomes an `Err`
    carrying the reason. */
module Results {

  datatype CxError =
    | DivisionByZero       // a denominator (mass, density, volume, weight, total weight) is zero
    | LengthMismatch       // two arrays combined element by element have different lengths
    | EmptyBatch           // the mean of an empty array is requested
    | DegenerateBatch      // the sample batch has zero spread, so it cannot be rescaled
    | NegativeTemperature  // the thermal speed would be the square root of a negative number
    | NegativeSpread       // a normal draw is asked for with a negative standard deviation

  /** A value or the reason it could not be computed; usable with `:-`. */
  datatype Result<+T> = Ok(value: T) | Err(error: CxError) {

    predicate IsFailure() {
      Err?
    }

    function PropagateFailure<U>(): Result<U>
      requires Err?
    {
      Err(error)
    }

    function Extract(): T
      requires Ok?
    {
      value
    }
  }
}
