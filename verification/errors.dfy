/** The two ways an operation of the package can end badly. A Go `panic`
    becomes a Fault; a returned `error` becomes Err with its message. */
module Errors {

  import opened Kinds

  /** Why an operation panicked. */
  datatype Fault =
    | Panic(msg: string)                 // panic("...") with a fixed text
    | ValueError(op: string, kind: Kind)  // panic(&ValueError{op, kind})
    | WrongKind(kind: Kind)              // mustBe: the text names the caller found at run time
    | NilType                            // a method called through a nil Type interface
    | NilDeref                           // a read or write through the nil address
    | BadAddress                         // storage outside the memory the model knows of

  /** The outcome of an operation: a value, a returned error, or a panic. */
  datatype Result<T> = Ok(value: T) | Err(msg: string) | Fail(fault: Fault)
  {
    predicate IsFailure() { !Ok? }

    function PropagateFailure<U>(): Result<U>
      requires !Ok?
    {
      if Err? then Err(msg) else Fail(fault)
    }

    function Extract(): T
      requires Ok?
    {
      value
    }
  }
}
