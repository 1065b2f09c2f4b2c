/** The status codes (tlibc_error_code_t) that the polling loop and the worker launcher test for. */
module ErrorCodes {
  /** A hard error: one the core produces itself, or any other code a probe or worker returns. */
  datatype ErrorCode =
    | Errno        // E_TLIBC_ERRNO: a system call failed
    | OutOfMemory  // E_TLIBC_OUT_OF_MEMORY: the thread table is too small
    | Other(n: int)

  /** E_TLIBC_NOERROR, E_TLIBC_WOULD_BLOCK, or a hard error. */
  datatype Status = NoError | WouldBlock | Err(code: ErrorCode)
}
