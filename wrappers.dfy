/** Shared failure-compatible datatypes.

  The modelled code reports failure in a handful of ways: Python raises
  ValueError, TypeError, IndexError, KeyError, AttributeError or
  ZeroDivisionError or fails an `assert`; the C++ planner calls DIE (print and abort) or throws a
  standard exception, or reads past the end of a container.  Every one of
  them becomes an `Err` carrying the kind of failure, so that a model never
  has to forbid the failing input with a `requires`.
*/
module Wrappers {

  datatype Option<+T> = None | Some(value: T)

  /** The way an operation of the source stops instead of returning. */
  datatype Failure =
    | ValueError      // Python `raise ValueError`
    | TypeError       // Python `raise TypeError`
    | IndexError      // Python indexing out of range
    | KeyError        // Python dictionary lookup of a missing key
    | AttributeError  // Python access to a missing attribute
    | AssertionError  // Python `assert` that does not hold
    | ZeroDivisionError  // Python division by zero
    | Die             // C++ DIE(...) / exit(...): the process stops
    | DomainError     // C++ throw std::domain_error
    | LogicError      // C++ throw std::logic_error
    | UndefinedBehaviour  // C++ front() of an empty container

  datatype Result<+T> = Ok(value: T) | Err(failure: Failure) {
    predicate IsFailure() { Err? }
    function PropagateFailure<U>(): Result<U>
      requires Err?
    {
      Err(failure)
    }
    function Extract(): T
      requires Ok?
    {
      value
    }
  }
}
