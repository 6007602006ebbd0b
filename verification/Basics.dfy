/** Shared vocabulary: optional values, refusals, atomic amounts and UTC days. */
module Basics {

  datatype Option<+T> = None | Some(value: T)

  /** The error codes the modelled operations throw. */
  datatype ErrorCode =
    | Internal
    | InvalidInput
    | OperationBlocked
    | OperationNotFound
    | AllowlistRefused
    | ProfileDrift
    | RevisionConflict
    | RpcAmbiguous
    | RpcProtocol
    | StateCorrupt

  /** An operation either returns a value or throws one error code. */
  datatype Result<+T> = Ok(value: T) | Err(error: ErrorCode) {
    predicate IsFailure() { Err? }

    function PropagateFailure<U>(): Result<U>
      requires Err?
    {
      Err(error)
    }

    function Extract(): T
      requires Ok?
    {
      value
    }
  }

  const MAX_UINT256: nat := 0xFFFF_FFFF_FFFF_FFFF_FFFF_FFFF_FFFF_FFFF_FFFF_FFFF_FFFF_FFFF_FFFF_FFFF_FFFF_FFFF
  const MS_PER_DAY: int := 86_400_000

  /** The UTC calendar day of an instant in milliseconds (Euclidean division, so days before 1970 are right too). */
  function Day(instant: int): int { instant / MS_PER_DAY }

  /** A UTC day is its 24 hours of 60 minutes of 60 seconds of 1,000 milliseconds. */
  lemma DayMeaning(instant: int, day: int)
    ensures Day(instant) == day <==> day * 24 * 60 * 60 * 1000 <= instant < (day + 1) * 24 * 60 * 60 * 1000
  {
  }

  lemma DayMonotone(a: int, b: int)
    requires a <= b
    ensures Day(a) <= Day(b)
  {
  }

  predicate IsAlphanumeric(c: char) { 'A' <= c <= 'Z' || 'a' <= c <= 'z' || '0' <= c <= '9' }

  /** A string of bounded length whose first character is alphanumeric and whose others may also be punctuation. */
  predicate IsToken(s: string, maximum: nat, punctuation: string) {
    && 1 <= |s| <= maximum
    && IsAlphanumeric(s[0])
    && forall i :: 0 <= i < |s| ==> IsAlphanumeric(s[i]) || s[i] in punctuation
  }
}
