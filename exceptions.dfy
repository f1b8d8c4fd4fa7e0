/**
 * The agent's error taxonomy: `EidAgentException`, an exception that carries a
 * string error code next to its message, and the four factories that fix the
 * code and message for each kind of failure.
 *
 * The SDK client and the HTTP handler are written against a second revision
 * of the class, one built from an `EidAgentErrorCode` enum whose
 * `ErrorCodeValue` is the code string.  That enum is `ErrorKind` here, and its
 * code strings are taken to be the ones the factories use.
 */
module Exceptions {
  import opened Wrappers

  /** The four kinds of failure the agent reports. */
  datatype ErrorKind = CardNotPresent | ReaderNotFound | Timeout | InternalError

  /** An `EidAgentException`: the code given to its constructor, kept as is,
      and the exception's message. */
  datatype AgentException = AgentException(code: string, message: string)

  /** Any exception a call may throw: an `EidAgentException`, or some other
      exception (a parse error, an overflow, a missing native library). */
  datatype Fault = AgentFault(exception: AgentException) | OtherFault

  const CardNotPresentCode: string := "card_not_present"
  const ReaderNotFoundCode: string := "reader_not_found"
  const TimeoutCode: string := "timeout"
  const InternalErrorCode: string := "internal_error"

  /** The wire code of a kind of failure. */
  function CodeValue(kind: ErrorKind): (code: string)
    ensures KindOfCode(code) == Some(kind)
  {
    match kind
    case CardNotPresent => CardNotPresentCode
    case ReaderNotFound => ReaderNotFoundCode
    case Timeout => TimeoutCode
    case InternalError => InternalErrorCode
  }

  /** The kind a code string stands for, if it is one of the four codes. */
  function KindOfCode(code: string): (kind: Option<ErrorKind>)
  {
    if code == CardNotPresentCode then Some(CardNotPresent)
    else if code == ReaderNotFoundCode then Some(ReaderNotFound)
    else if code == TimeoutCode then Some(Timeout)
    else if code == InternalErrorCode then Some(InternalError)
    else None
  }

  /** The four codes are pairwise distinct: a code determines its kind. */
  lemma CodeValueInjective(k1: ErrorKind, k2: ErrorKind)
    requires CodeValue(k1) == CodeValue(k2)
    ensures k1 == k2
  {
    assert KindOfCode(CodeValue(k1)) == Some(k1);
  }

  /** `KindOfCode` recognises exactly the four codes. */
  lemma KindOfCodeExact(code: string)
    ensures KindOfCode(code).Some? <==> code in {CardNotPresentCode, ReaderNotFoundCode, TimeoutCode, InternalErrorCode}
    ensures KindOfCode(code).Some? ==> CodeValue(KindOfCode(code).value) == code
  {
  }

  /** `new EidAgentException(EidAgentErrorCode kind, string message)`. */
  function FromKind(kind: ErrorKind, message: string): (e: AgentException)
    ensures KindOf(e) == Some(kind) && e.message == message
  {
    AgentException(CodeValue(kind), message)
  }

  /** `ex.ErrorCode`: the kind of an exception, when its code is one of the four. */
  function KindOf(e: AgentException): (k: Option<ErrorKind>)
    ensures k.Some? <==> e.code in {CardNotPresentCode, ReaderNotFoundCode, TimeoutCode, InternalErrorCode}
    ensures k.Some? ==> CodeValue(k.value) == e.code
  {
    KindOfCode(e.code)
  }

  /** `EidAgentException.CardNotPresent()`. */
  function CardNotPresentException(): (e: AgentException)
    ensures KindOf(e) == Some(CardNotPresent)
    ensures e.message == "No Emirates ID detected on reader."
  {
    AgentException(CardNotPresentCode, "No Emirates ID detected on reader.")
  }

  /** `EidAgentException.ReaderNotFound()`. */
  function ReaderNotFoundException(): (e: AgentException)
    ensures KindOf(e) == Some(ReaderNotFound)
    ensures e.message == "HID reader not detected."
  {
    AgentException(ReaderNotFoundCode, "HID reader not detected.")
  }

  /** `EidAgentException.Timeout()`. */
  function TimeoutException(): (e: AgentException)
    ensures KindOf(e) == Some(Timeout)
    ensures e.message == "Read operation timed out."
  {
    AgentException(TimeoutCode, "Read operation timed out.")
  }

  const DefaultInternalMessage: string := "Internal error"

  /** `EidAgentException.InternalError(message)`; the C# default argument is
      `DefaultInternalMessage`. */
  function InternalErrorException(message: string): (e: AgentException)
    ensures KindOf(e) == Some(InternalError)
    ensures e.message == message
  {
    AgentException(InternalErrorCode, message)
  }

  /** `EidAgentException.InternalError()` with the default argument. */
  function DefaultInternalErrorException(): (e: AgentException)
    ensures KindOf(e) == Some(InternalError)
    ensures e.message == "Internal error"
  {
    InternalErrorException(DefaultInternalMessage)
  }

  /** The factories of one revision and the kind-based constructor of the
      other build the same exceptions. */
  lemma FactoriesMatchKinds(message: string)
    ensures CardNotPresentException() == FromKind(CardNotPresent, "No Emirates ID detected on reader.")
    ensures ReaderNotFoundException() == FromKind(ReaderNotFound, "HID reader not detected.")
    ensures TimeoutException() == FromKind(Timeout, "Read operation timed out.")
    ensures InternalErrorException(message) == FromKind(InternalError, message)
  {
  }

  /** No two factories produce exceptions of the same kind. */
  lemma FactoryKindsDistinct(message: string)
    ensures var es := [CardNotPresentException(), ReaderNotFoundException(), TimeoutException(), InternalErrorException(message)];
            forall i, j :: 0 <= i < j < |es| ==> KindOf(es[i]) != KindOf(es[j])
  {
  }
}
