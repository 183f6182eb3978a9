/** The exceptions of recovery.py and the outcome of a call that may raise.

    The program has one domain exception, RecoveryError, whose only payload is a
    message built by an f-string. Each such f-string is one constructor of Cause, so
    that the model can say which check failed without parsing text; Text renders the
    message the program would print. Every other exception (an OSError from
    subprocess.run or open, the ValueError of a negative sleep, anything an
    operation handed to retry raises) is Foreign, carrying its str().
 */
module Errors {

  datatype Error =
    | Recovery(cause: Cause)   // RecoveryError(Text(cause))
    | Foreign(text: string)    // any other exception, with its message

  datatype Cause =
    | FileMissing(path: string)                              // recovery.py:77
    | UnsupportedType(ext: string)                           // recovery.py:75
    | IsoMissing(path: string)                               // recovery.py:111
    | AllMethodsFailed(path: string)                         // recovery.py:109
    | FlashIsoFailed(path: string, device: string, inner: Error) // recovery.py:112-114
    | FlashFailed(path: string, device: string, inner: Error)    // recovery.py:78-80
    | RetryExhausted(attempts: int)                          // recovery.py:123-124

  /** What a call produced: the value it returned, or the exception it raised. */
  datatype Outcome<+T> = Returned(value: T) | Raised(error: Error) {
    /** True when the call raised RecoveryError, the one kind retry catches. */
    predicate IsRecoveryError() {
      Raised? && error.Recovery?
    }
  }

  datatype Option<+T> = None | Some(value: T)

  /** The message of the ValueError that time.sleep raises for a negative length. */
  const NegativeSleep: string := "sleep length must be non-negative"

  /** The message of the OverflowError that time.sleep raises for a length whose count of
      nanoseconds does not fit in a signed 64-bit integer. */
  const SleepOverflow: string := "timestamp too large to convert to C _PyTime_t"

  /** str(e): the message a caught exception is rendered as inside an f-string. */
  function Text(e: Error): string {
    match e
    case Foreign(t) => t
    case Recovery(c) => CauseText(c)
  }

  /** A wrapping message ends with the text of the exception it wraps. */
  function CauseText(c: Cause): (m: string)
    ensures (c.FlashIsoFailed? || c.FlashFailed?) ==>
      |Text(c.inner)| < |m| && m[|m| - |Text(c.inner)|..] == Text(c.inner)
  {
    match c
    case FileMissing(p) => "File " + p + " does not exist, skipping flashing"
    case UnsupportedType(x) => "Unsupported file type: " + x
    case IsoMissing(p) => "ISO file " + p + " does not exist, skipping flashing"
    case AllMethodsFailed(p) => "All ISO flashing methods failed for file " + p
    case FlashIsoFailed(p, d, e) =>
      "Error flashing ISO file " + p + " to device " + d + ": " + Text(e)
    case FlashFailed(p, d, e) =>
      "Error flashing file " + p + " to device " + d + ": " + Text(e)
    case RetryExhausted(n) => "Failed after " + IntText(n) + " attempts."
  }

  /** Decimal rendering of an int, as Python's str(int) writes it. */
  function IntText(n: int): string {
    if n < 0 then "-" + NatText(-n) else NatText(n)
  }

  function NatText(n: nat): string {
    if n < 10 then [Digit(n)] else NatText(n / 10) + [Digit(n % 10)]
  }

  function Digit(d: nat): char
    requires d < 10
  {
    "0123456789"[d]
  }
}
