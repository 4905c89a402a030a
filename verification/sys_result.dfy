// The value a system call hands back: one machine word, whose top 4096 values are error codes.

module SysResult {
  import opened Bits
  import opened Prelude

  /** A raw system-call result: an unsigned 64-bit word. */
  type Word = x: nat | x < U64_LIMIT

  /** `-4096` reinterpreted as an unsigned word: the first of the 4096 error values. */
  const FIRST_ERROR: nat := U64_LIMIT - 4096

  /** A value at or above `FIRST_ERROR` is an error. */
  predicate IsError(w: Word) {
    w >= FIRST_ERROR
  }

  /** A value below `FIRST_ERROR` is a success; every word is exactly one of the two. */
  predicate IsSuccess(w: Word)
    ensures IsSuccess(w) <==> !IsError(w)
  {
    w < FIRST_ERROR
  }

  /** Wraps a success value; the debug assertion on the value is a precondition here. */
  function Success(val: nat): (w: Word)
    requires val < FIRST_ERROR
    ensures IsSuccess(w) && w == val
  {
    val
  }

  /** The value of a success, or the panic carrying `msg` for an error. */
  function Expect(w: Word, msg: string): (r: Result<nat, string>)
    ensures r.Ok? <==> IsSuccess(w)
    ensures r.Ok? ==> r.value == w
    ensures r.Err? ==> r.error == msg
  {
    if IsSuccess(w) then Ok(w) else Err(msg)
  }

  /** The message `unwrap` panics with. */
  const UNWRAP_MESSAGE: string := "called `SysResult::unwrap()` on an error value"

  /** `expect` with the fixed panic message. */
  function Unwrap(w: Word): (r: Result<nat, string>)
    ensures r.Ok? <==> IsSuccess(w)
    ensures r.Ok? ==> r.value == w
    ensures r.Err? ==> r.error == UNWRAP_MESSAGE
  {
    Expect(w, UNWRAP_MESSAGE)
  }

  /** Unwrapping a value made by `success` gives that value back. */
  lemma UnwrapSuccess(val: nat)
    requires val < FIRST_ERROR
    ensures Unwrap(Success(val)) == Ok(val)
  {
  }

  /** The error codes, in the order of their offsets from `FIRST_ERROR`. */
  datatype ErrorCode = InvalidValue | InvalidProcessId | OutOfMemory | Conflict

  /** The offset of each error code above `FIRST_ERROR`. */
  function Code(e: ErrorCode): (c: nat)
    ensures c < 4
  {
    match e
    case InvalidValue => 0
    case InvalidProcessId => 1
    case OutOfMemory => 2
    case Conflict => 3
  }

  /** The name the `Debug` rendering gives each error code. */
  function Name(e: ErrorCode): string {
    match e
    case InvalidValue => "INVALID_VALUE"
    case InvalidProcessId => "INVALID_PROCESS_ID"
    case OutOfMemory => "OUT_OF_MEMORY"
    case Conflict => "CONFLICT"
  }

  /** The word that encodes an error code. */
  function ErrorValue(e: ErrorCode): (w: Word)
    ensures IsError(w)
  {
    FIRST_ERROR + Code(e)
  }

  const INVALID_VALUE: Word := ErrorValue(InvalidValue)
  const INVALID_PROCESS_ID: Word := ErrorValue(InvalidProcessId)
  const OUT_OF_MEMORY: Word := ErrorValue(OutOfMemory)
  const CONFLICT: Word := ErrorValue(Conflict)

  /** The error code a word encodes, if it is one of the four named ones. */
  function ErrorOf(w: Word): (r: Option<ErrorCode>)
    ensures r.Some? ==> IsError(w) && ErrorValue(r.value) == w
  {
    if w == FIRST_ERROR then Some(InvalidValue)
    else if w == FIRST_ERROR + 1 then Some(InvalidProcessId)
    else if w == FIRST_ERROR + 2 then Some(OutOfMemory)
    else if w == FIRST_ERROR + 3 then Some(Conflict)
    else None
  }

  /** Decoding an encoded error code gives it back, so distinct codes have distinct words. */
  lemma ErrorRoundTrip(e: ErrorCode)
    ensures ErrorOf(ErrorValue(e)) == Some(e)
  {
  }

  /** The four error words are pairwise distinct. */
  lemma ErrorValuesDistinct(e1: ErrorCode, e2: ErrorCode)
    ensures ErrorValue(e1) == ErrorValue(e2) <==> e1 == e2
  {
    ErrorRoundTrip(e1);
    ErrorRoundTrip(e2);
  }

  /** What the `Debug` implementation writes. */
  datatype Rendering =
    | Tuple(value: nat)   // `SysResult(<value>)`
    | Named(name: string) // the bare name of an error code
    | UnknownError        // `SysResult(<unknown error>)`

  /** `Debug` as written: an error word is matched against the bare offsets 0 to 3. */
  function DebugAsWritten(w: Word): Rendering {
    if IsSuccess(w) then Tuple(w)
    else if w == Code(InvalidValue) then Named(Name(InvalidValue))
    else if w == Code(InvalidProcessId) then Named(Name(InvalidProcessId))
    else if w == Code(OutOfMemory) then Named(Name(OutOfMemory))
    else if w == Code(Conflict) then Named(Name(Conflict))
    else UnknownError
  }

  /** As written, no error word is ever named: the offsets 0 to 3 are all successes. */
  lemma DebugAsWrittenNeverNames(w: Word)
    ensures IsError(w) ==> DebugAsWritten(w) == UnknownError
    ensures DebugAsWritten(OUT_OF_MEMORY) == UnknownError
  {
  }

  /** `Debug` as intended: an error word is matched against `FIRST_ERROR` plus each offset. */
  function Debug(w: Word): (d: Rendering)
    ensures IsSuccess(w) ==> d == Tuple(w)
    ensures IsError(w) ==> (d == UnknownError <==> ErrorOf(w).None?)
  {
    if IsSuccess(w) then Tuple(w)
    else match ErrorOf(w)
      case Some(e) => Named(Name(e))
      case None => UnknownError
  }

  /** The intended rendering names every error code. */
  lemma DebugNamesErrors(e: ErrorCode)
    ensures Debug(ErrorValue(e)) == Named(Name(e))
  {
    ErrorRoundTrip(e);
  }
}
