/** Failure-carrying results shared by every component of the model.

    The library reports failure by throwing .NET exceptions; here each thrown
    exception becomes an `Err` carrying the exception's kind, and a call that
    completes becomes `Ok`. */
module Wrappers {

  /** The kinds of exception the modelled code throws (or, for a fault on
      unmapped memory, the access violation the runtime raises). */
  datatype Error =
    | NotSupported        // NotSupportedException
    | BadArgument         // ArgumentException (also a failing static type check)
    | NullArgument        // ArgumentNullException
    | InvalidOperation    // InvalidOperationException
    | Win32               // Win32Exception wrapping the OS last-error code
    | ShortTransfer       // plain Exception: the OS copied fewer bytes than asked
    | AccessViolation     // dereference of memory that is not mapped
    | IndexOutOfRange     // IndexOutOfRangeException
    | Overflow            // OverflowException
    | OutOfMemory         // OutOfMemoryException: AllocHGlobal could not allocate
    | FileNotFound        // FileNotFoundException
    | CorruptState        // plain Exception: module not in its parent's registry
    | FreeLibraryFailed   // plain Exception: remote FreeLibrary returned zero
    | NoModuleBase        // plain Exception: remote LoadLibraryW returned zero
    | Invocation          // TargetInvocationException: an invoked delegate threw
    | TypeInitialization  // TypeInitializationException: a static constructor threw

  datatype Option<+T> = None | Some(value: T)

  datatype Result<+T> = Ok(value: T) | Err(error: Error) {
    predicate IsFailure() {
      Err?
    }

    function PropagateFailure<U>(): Result<U>
      requires Err?
    {
      Err(error)
    }

    function Extract(): T
      requires Ok?
    {
      value
    }
  }
}
