/** The ways an operation of the genetic algorithm can fail, and the wrappers that carry them. */
module Outcomes {

  /** Failures of the engine. The first three are the exceptions the Python code raises. */
  datatype Error =
    | InvalidChromosomeLength     // `assert(len(cromossomo) == self.n_bits)`
    | ValueOutOfBounds            // `assert(self.l_inf <= v <= self.l_sup)`
    | DivisionByZero              // `self._vmax / (self.l_sup - self.l_inf)` with equal bounds
    | SampleLargerThanPopulation  // `sample(range(1, n_bits-2), k)` with too few interior loci
    | EmptyPopulation             // `max(aptidoes)` over an empty list
    | DrawsExhausted              // the supplied random draws ran out before selection found a pair

  /** An operation that returns a value or fails. */
  datatype Result<+T> = Success(value: T) | Failure(error: Error)

  /** An operation that only changes state, and may fail. */
  datatype Outcome = Pass | Fail(error: Error)

  datatype Option<+T> = None | Some(value: T)
}
