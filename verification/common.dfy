/** Types shared by the whole model: optional values, the driver's error value,
    and the oracles that stand in for the native library. */
module Common {

  datatype Option<+T> = None | Some(value: T)

  /** The two error classes the driver raises: ordinary failures and cooperative
      interruption of a script. */
  datatype ErrorKind = EError | EInterrupted

  /** An error value: a message and its class. A driver call that succeeds
      returns `None` instead of an `Error`. */
  datatype Error = Error(msg: string, kind: ErrorKind)

  function Fail(msg: string): Error
  {
    Error(msg, EError)
  }

  /** What one native store call does: whether it fails, and the text the
      native library's error log holds afterwards. */
  datatype Native = Native(fail: bool, errLog: string)

  /** The native outcome used when a script has no oracle entry for a line. */
  const NativeOk: Native := Native(false, "")

  /** What opening the native database does: it yields a handle, or it fails
      with the text of the native error log. */
  datatype OpenResult = Opened(handle: nat) | OpenFailed(log: string)
}
