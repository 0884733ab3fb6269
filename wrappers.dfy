/** Results and the closed error taxonomy of the emulator.  The original throws a
    message string on every fault; here each fault is a structured value. */
module Wrappers {

  /** Every condition that aborts a program load or a run. */
  datatype Error =
    | NoSuchRegister(register: string)     // reading a register that was never written
    | OutOfRange(address: int)             // an address outside (0, SP's initial value)
    | Uninitialized(address: int)          // reading a byte that was never written
    | NoSuchFunction(name: string)         // CALL of an undeclared label
    | Redeclaration(name: string)          // the same label declared twice
    | CompilationError(line: string)       // a source line the validator rejects
    | MemoryLeak                           // top-level RET with SP not restored
    | Undefined(what: string)              // behaviour the C++ leaves undefined (see README)

  datatype Result<T> = Ok(value: T) | Err(error: Error)

  datatype Outcome = Pass | Fail(error: Error)
}
