/** The observable part of the parser-combinator library the decoder is built on:
    its result type and the `alt` choice. */
module Nom {
  /** The error kinds that the modelled parsers produce or pass along. */
  datatype ErrorKind = Eof | Tag | ParseTo | TakeWhile1 | Many0

  /** How much more input an incomplete parse asked for. */
  datatype Needed = Unknown | Size(n: nat)

  /** `IResult<I, O>`: success with the remaining input and a value, a recoverable
      error carrying the input at which it occurred, or a request for more input. */
  datatype IResult<I, O> = Done(rest: I, value: O) | Error(input: I, kind: ErrorKind) | Incomplete(needed: Needed)
  {
    predicate IsFailure() {
      !Done?
    }

    /** The `?` operator: a failure is passed on unchanged. */
    function PropagateFailure<U>(): (r: IResult<I, U>)
      requires !Done?
      ensures Error? <==> r.Error?
      ensures Error? ==> r.input == input && r.kind == kind
      ensures Incomplete? ==> r == Incomplete(needed)
    {
      if Error? then Error(input, kind) else Incomplete(needed)
    }

    function Extract(): (I, O)
      requires Done?
    {
      (rest, value)
    }
  }

  /** `alt((first, second))`: the second alternative is tried only when the
      first one fails with a recoverable `Error`. */
  function Alt<I, O>(first: IResult<I, O>, second: IResult<I, O>): (r: IResult<I, O>)
    ensures first.Error? ==> r == second
    ensures !first.Error? ==> r == first
  {
    if first.Error? then second else first
  }
}
