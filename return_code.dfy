/** The three-level return code shared by the functions that report one
    (return_code.h). */
module ReturnCodes {

  datatype ReturnCode = Success | Fail | Error {

    /** The integer the C enumeration gives the code. Callers test it as
        `if (rc)` for "anything but success", `rc < 0` for an error and
        `rc > 0` for a failure. */
    function Code(): (c: int)
      ensures (c == 0) == Success?
      ensures (c > 0) == Fail?
      ensures (c < 0) == Error?
    {
      match this
      case Success => 0
      case Fail => 1
      case Error => -1
    }
  }
}
