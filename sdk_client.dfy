/**
 * `NativeIcaSdkClient`: the thin client over the vendor's native card-reader
 * library.  It holds no state of its own; every native call is modelled by
 * what it hands back (a result code, a text buffer, a length, bytes), passed
 * in as a parameter.  A call that takes arguments is a function parameter,
 * so the model shows which arguments it receives.
 */
module IcaSdk {
  import opened Wrappers
  import opened DotNetText
  import opened ResponseParser
  import Exceptions

  type AgentException = Exceptions.AgentException
  type Fault = Exceptions.Fault

  // ---------------------------------------------------------------------
  // Reader status

  /** `IcaReaderStatus`, in declaration order. */
  datatype ReaderStatus =
    | Ready
    | ToolkitNotInitialized
    | ReaderNotSelected
    | CardNotConnected
    | ReaderNotFound
    | CardNotPresent
    | Timeout
    | Busy
    | Unknown

  /** The underlying value of each `IcaReaderStatus` member. */
  function EnumValue(s: ReaderStatus): (n: int)
    ensures 0 <= n <= 8
  {
    match s
    case Ready => 0
    case ToolkitNotInitialized => 1
    case ReaderNotSelected => 2
    case CardNotConnected => 3
    case ReaderNotFound => 4
    case CardNotPresent => 5
    case Timeout => 6
    case Busy => 7
    case Unknown => 8
  }

  /** `GetReaderStatus()`, given what the native `GetReaderStatus` returned.
      Every code from 0 to 7 names the status with that value; every other
      code, negative or large, is `Unknown`. */
  function GetReaderStatus(nativeStatus: int): (s: ReaderStatus)
    ensures s == Unknown <==> !(0 <= nativeStatus <= 7)
    ensures s != Unknown ==> EnumValue(s) == nativeStatus
  {
    match nativeStatus
    case 0 => Ready
    case 1 => ToolkitNotInitialized
    case 2 => ReaderNotSelected
    case 3 => CardNotConnected
    case 4 => ReaderNotFound
    case 5 => CardNotPresent
    case 6 => Timeout
    case 7 => Busy
    case _ => Unknown
  }

  /** The mapping undoes the enum's numbering, `Unknown` (value 8) included. */
  lemma GetReaderStatusRoundTrip(s: ReaderStatus)
    ensures GetReaderStatus(EnumValue(s)) == s
  {
    match s
    case Ready =>
    case ToolkitNotInitialized =>
    case ReaderNotSelected =>
    case CardNotConnected =>
    case ReaderNotFound =>
    case CardNotPresent =>
    case Timeout =>
    case Busy =>
    case Unknown =>
  }

  // ---------------------------------------------------------------------
  // Result codes

  /** The text placed between the caller's message and an unmapped code. */
  const IcaCodeLabel: string := " ICA code: "

  /** The message of an `InternalError` raised for an unmapped code: the
      caller's message, the label, the code and a full stop.  The code can be
      read back from the text between the label and the full stop. */
  function WithIcaCode(message: string, result: int): (m: string)
    ensures |m| > |message| + |IcaCodeLabel|
    ensures m[..|message|] == message
    ensures m[|message|..|message| + |IcaCodeLabel|] == IcaCodeLabel
    ensures m[|m| - 1] == '.'
    ensures m[|message| + |IcaCodeLabel|..|m| - 1] == IntToString(result)
    ensures ParseInt(m[|message| + |IcaCodeLabel|..|m| - 1]) == result
  {
    var digits := IntToString(result);
    var m := message + IcaCodeLabel + digits + ".";
    assert m[|message| + |IcaCodeLabel|..|m| - 1] == digits;
    m
  }

  /** `EnsureSuccess(result, message)`: completes when the native result is
      0; codes 4, 5 and 6 become reader-not-found, card-not-present and
      timeout with the caller's message; every other code becomes an internal
      error whose message ends with the code. */
  function EnsureSuccess(result: int, message: string): (o: Outcome<AgentException>)
    ensures o.Pass? <==> result == 0
    ensures result == 4 ==> o == Fail(Exceptions.FromKind(Exceptions.ReaderNotFound, message))
    ensures result == 5 ==> o == Fail(Exceptions.FromKind(Exceptions.CardNotPresent, message))
    ensures result == 6 ==> o == Fail(Exceptions.FromKind(Exceptions.Timeout, message))
    ensures result !in {0, 4, 5, 6} ==>
      o.Fail? && Exceptions.KindOf(o.error) == Some(Exceptions.InternalError) && o.error.message == WithIcaCode(message, result)
  {
    if result == 0 then Pass
    else match result
      case 4 => Fail(Exceptions.FromKind(Exceptions.ReaderNotFound, message))
      case 5 => Fail(Exceptions.FromKind(Exceptions.CardNotPresent, message))
      case 6 => Fail(Exceptions.FromKind(Exceptions.Timeout, message))
      case _ => Fail(Exceptions.FromKind(Exceptions.InternalError, WithIcaCode(message, result)))
  }

  /** The raw code can be read back from an internal error's message: the
      caller's message is kept as a prefix and the code follows the label. */
  lemma InternalErrorCarriesCode(result: int, message: string)
    requires result !in {0, 4, 5, 6}
    ensures var m := EnsureSuccess(result, message).error.message;
      && |m| > |message| + |IcaCodeLabel|
      && m[..|message|] == message
      && ParseInt(m[|message| + |IcaCodeLabel|..|m| - 1]) == result
  {
  }

  /** Distinct failing codes give distinct exceptions, for one message. */
  lemma EnsureSuccessInjective(r1: int, r2: int, message: string)
    requires r1 != 0 && r2 != 0 && r1 != r2
    ensures EnsureSuccess(r1, message) != EnsureSuccess(r2, message)
  {
    if r1 !in {4, 5, 6} && r2 !in {4, 5, 6} {
      InternalErrorCarriesCode(r1, message);
      InternalErrorCarriesCode(r2, message);
    }
  }

  const DisconnectFailedMessage: string := "Failed to disconnect card session."
  const CleanupFailedMessage: string := "Failed to cleanup ICA toolkit session."

  /** `DisconnectCard()`: any non-zero native result is an internal error. */
  function DisconnectCard(result: int): (o: Outcome<AgentException>)
    ensures o.Pass? <==> result == 0
    ensures o.Fail? ==> o.error == Exceptions.FromKind(Exceptions.InternalError, DisconnectFailedMessage)
  {
    if result != 0 then Fail(Exceptions.FromKind(Exceptions.InternalError, DisconnectFailedMessage)) else Pass
  }

  /** `Cleanup()`: any non-zero native result is an internal error. */
  function Cleanup(result: int): (o: Outcome<AgentException>)
    ensures o.Pass? <==> result == 0
    ensures o.Fail? ==> o.error == Exceptions.FromKind(Exceptions.InternalError, CleanupFailedMessage)
  {
    if result != 0 then Fail(Exceptions.FromKind(Exceptions.InternalError, CleanupFailedMessage)) else Pass
  }

  /** Teardown is stricter than `EnsureSuccess`: the codes that `EnsureSuccess`
      maps to reader, card and timeout errors are internal errors here. */
  lemma TeardownIgnoresDeviceCodes(result: int, message: string)
    requires result in {4, 5, 6}
    ensures Exceptions.KindOf(EnsureSuccess(result, message).error) != Some(Exceptions.InternalError)
    ensures Exceptions.KindOf(DisconnectCard(result).error) == Some(Exceptions.InternalError)
    ensures Exceptions.KindOf(Cleanup(result).error) == Some(Exceptions.InternalError)
  {
  }

  // ---------------------------------------------------------------------
  // Calls that only check their result code

  /** `IcaInitializationOptions`; a `null` path is `None`. */
  datatype InitializationOptions = InitializationOptions(processMode: bool, configFilePath: Option<string>)

  const InitializeFailedMessage: string := "ICA toolkit initialization failed."
  const SelectReaderFailedMessage: string := "Unable to select ICA reader."
  const ConnectCardFailedMessage: string := "Failed to connect to Emirates ID card."
  const ListReadersFailedMessage: string := "Unable to list ICA readers."
  const ReadCardFailedMessage: string := "Failed to read public card data from ICA SDK."
  const PhotoFailedMessage: string := "Failed to read card photo."

  /** `Initialize(options)`: the native call receives 1 or 0 for the process
      mode and the configuration path, with `null` passed as the empty string. */
  function Initialize(options: InitializationOptions, nativeInitialize: (int, string) -> int): (o: Outcome<AgentException>)
    ensures var mode := if options.processMode then 1 else 0;
            var path := if options.configFilePath.Some? then options.configFilePath.value else "";
            && (o.Pass? <==> nativeInitialize(mode, path) == 0)
            && (o.Fail? ==> o == EnsureSuccess(nativeInitialize(mode, path), InitializeFailedMessage))
            && (o.Fail? ==> |o.error.message| >= |InitializeFailedMessage|
                            && o.error.message[..|InitializeFailedMessage|] == InitializeFailedMessage)
  {
    var path := match options.configFilePath
      case Some(p) => p
      case None => "";
    EnsureSuccess(nativeInitialize(if options.processMode then 1 else 0, path), InitializeFailedMessage)
  }

  /** `SelectReader(readerName)`: the name is passed to the native call
      unchanged. */
  function SelectReader(readerName: string, nativeSelectReader: string -> int): (o: Outcome<AgentException>)
    ensures o.Pass? <==> nativeSelectReader(readerName) == 0
    ensures o.Fail? ==> o == EnsureSuccess(nativeSelectReader(readerName), SelectReaderFailedMessage)
  {
    EnsureSuccess(nativeSelectReader(readerName), SelectReaderFailedMessage)
  }

  /** `ConnectCard()`. */
  function ConnectCard(result: int): (o: Outcome<AgentException>)
    ensures o.Pass? <==> result == 0
    ensures o.Fail? ==> o == EnsureSuccess(result, ConnectCardFailedMessage)
  {
    EnsureSuccess(result, ConnectCardFailedMessage)
  }

  // ---------------------------------------------------------------------
  // Reader list

  /** The characters the reader list is split on. */
  predicate IsReaderSeparator(c: char) {
    c == ';' || c == '\n' || c == '\r'
  }

  predicate NoSeparator(s: string) {
    forall i :: 0 <= i < |s| ==> !IsReaderSeparator(s[i])
  }

  /** What the reader list promises of each entry. */
  predicate IsReaderName(s: string) {
    s != [] && IsTrimmed(s) && NoSeparator(s)
  }

  /** The pieces between separators, empty ones included (`string.Split`
      with no options): one more piece than there are separators. */
  function Fields(s: string): (r: seq<string>)
    ensures |r| >= 1
    ensures forall i :: 0 <= i < |r| ==> NoSeparator(r[i])
    decreases |s|
  {
    if s == [] then [[]]
    else
      var rest := Fields(s[1..]);
      if IsReaderSeparator(s[0]) then [[]] + rest
      else [[s[0]] + rest[0]] + rest[1..]
  }

  /** `StringSplitOptions.TrimEntries`. */
  function TrimEntries(fields: seq<string>): (r: seq<string>)
    ensures |r| == |fields|
    ensures forall i :: 0 <= i < |r| ==> r[i] == Trim(fields[i])
  {
    seq(|fields|, i requires 0 <= i < |fields| => Trim(fields[i]))
  }

  /** The split step of `ListReaders()`. */
  function SplitReaders(buffer: string): (r: seq<string>)
    ensures forall i :: 0 <= i < |r| ==> IsReaderName(r[i])
  {
    var fields := Fields(buffer);
    forall i | 0 <= i < |fields| ensures NoSeparator(Trim(fields[i])) {
      TrimKeepsNoSeparator(fields[i]);
    }
    RemoveEmptyEntries(TrimEntries(fields))
  }

  lemma TrimKeepsNoSeparator(s: string)
    requires NoSeparator(s)
    ensures NoSeparator(Trim(s))
  {
    var r := Trim(s);
    if r != [] {
      var lead := LeadingWhiteSpace(s);
      assert r == s[lead..|s| - TrailingWhiteSpace(s)];
      forall k | 0 <= k < |r| ensures !IsReaderSeparator(r[k]) {
        assert r[k] == s[lead + k];
      }
    }
  }

  lemma {:induction false} FieldsOfEntry(s: string)
    requires NoSeparator(s)
    ensures Fields(s) == [s]
    decreases |s|
  {
    if s != [] {
      FieldsOfEntry(s[1..]);
      assert [s[0]] + s[1..] == s;
    }
  }

  lemma {:induction false} FieldsAppend(a: string, c: char, b: string)
    requires IsReaderSeparator(c)
    ensures Fields(a + [c] + b) == Fields(a) + Fields(b)
    decreases |a|
  {
    if a == [] {
      assert a + [c] + b == [c] + b;
      assert ([c] + b)[1..] == b;
    } else {
      assert (a + [c] + b)[1..] == a[1..] + [c] + b;
      FieldsAppend(a[1..], c, b);
    }
  }

  /** Trimming piece by piece distributes over concatenation. */
  lemma TrimEntriesAppend(xs: seq<string>, ys: seq<string>)
    ensures TrimEntries(xs + ys) == TrimEntries(xs) + TrimEntries(ys)
  {
    var l, tx, ty := TrimEntries(xs + ys), TrimEntries(xs), TrimEntries(ys);
    assert |l| == |tx + ty|;
    forall i | 0 <= i < |l| ensures l[i] == (tx + ty)[i] {
      if i < |xs| {
        calc {
          l[i];
          Trim((xs + ys)[i]);
          { assert (xs + ys)[i] == xs[i]; }
          Trim(xs[i]);
          tx[i];
        }
      } else {
        calc {
          l[i];
          Trim((xs + ys)[i]);
          { assert (xs + ys)[i] == ys[i - |xs|]; }
          Trim(ys[i - |xs|]);
          ty[i - |xs|];
        }
      }
    }
  }

  /** A buffer without separators holds at most one reader: its trimmed
      text, unless that is blank. */
  lemma SplitReadersOfEntry(s: string)
    requires NoSeparator(s)
    ensures SplitReaders(s) == if IsBlank(s) then [] else [Trim(s)]
  {
    FieldsOfEntry(s);
    var t := Trim(s);
    assert TrimEntries([s]) == [t];
    assert [t][1..] == [];
    assert RemoveEmptyEntries([t]) == if t == [] then [] else [t];
  }

  /** Splitting distributes over a separator: the readers before it, in
      order, then the readers after it. */
  lemma SplitReadersAppend(a: string, c: char, b: string)
    requires IsReaderSeparator(c)
    ensures SplitReaders(a + [c] + b) == SplitReaders(a) + SplitReaders(b)
  {
    FieldsAppend(a, c, b);
    var fa, fb := Fields(a), Fields(b);
    TrimEntriesAppend(fa, fb);
    RemoveEmptyAppend(TrimEntries(fa), TrimEntries(fb));
  }

  /** Nothing but separators and white space. */
  predicate OnlySeparatorsOrWhiteSpace(s: string) {
    forall i :: 0 <= i < |s| ==> IsReaderSeparator(s[i]) || IsWhiteSpace(s[i])
  }

  lemma OnlySeparatorsOrWhiteSpaceAround(a: string, c: char, b: string)
    requires IsReaderSeparator(c)
    ensures OnlySeparatorsOrWhiteSpace(a + [c] + b) <==> OnlySeparatorsOrWhiteSpace(a) && OnlySeparatorsOrWhiteSpace(b)
  {
    var s := a + [c] + b;
    if OnlySeparatorsOrWhiteSpace(s) {
      forall i | 0 <= i < |a| ensures IsReaderSeparator(a[i]) || IsWhiteSpace(a[i]) {
        assert s[i] == a[i];
      }
      forall i | 0 <= i < |b| ensures IsReaderSeparator(b[i]) || IsWhiteSpace(b[i]) {
        assert s[|a| + 1 + i] == b[i];
      }
    }
  }

  /** The list is empty exactly when the buffer holds nothing but separators
      and white space. */
  lemma {:induction false} SplitReadersEmpty(buffer: string)
    ensures SplitReaders(buffer) == [] <==> OnlySeparatorsOrWhiteSpace(buffer)
    decreases |buffer|
  {
    if NoSeparator(buffer) {
      SplitReadersOfEntry(buffer);
    } else {
      var k :| 0 <= k < |buffer| && IsReaderSeparator(buffer[k]);
      var a, b := buffer[..k], buffer[k + 1..];
      assert buffer == a + [buffer[k]] + b;
      SplitReadersAppend(a, buffer[k], b);
      OnlySeparatorsOrWhiteSpaceAround(a, buffer[k], b);
      SplitReadersEmpty(a);
      SplitReadersEmpty(b);
    }
  }

  /** The readers joined with `;`, the format the native call fills in. */
  function JoinReaders(names: seq<string>): string
    decreases |names|
  {
    if names == [] then []
    else if |names| == 1 then names[0]
    else names[0] + ";" + JoinReaders(names[1..])
  }

  /** Splitting a `;`-joined list of reader names gives back exactly that
      list, in the same order. */
  lemma {:induction false} SplitJoinRoundTrip(names: seq<string>)
    requires forall i :: 0 <= i < |names| ==> IsReaderName(names[i])
    ensures SplitReaders(JoinReaders(names)) == names
    decreases |names|
  {
    if names == [] {
      SplitReadersOfEntry([]);
    } else {
      var first, rest := names[0], names[1..];
      SplitReaderName(first);
      if rest != [] {
        assert JoinReaders(names) == first + [';'] + JoinReaders(rest);
        SplitReadersAppend(first, ';', JoinReaders(rest));
        SplitJoinRoundTrip(rest);
        assert names == [first] + rest;
      }
    }
  }

  /** A single reader name splits to itself. */
  lemma SplitReaderName(name: string)
    requires IsReaderName(name)
    ensures SplitReaders(name) == [name]
  {
    assert !IsBlank(name) by {
      assert !IsWhiteSpace(name[0]);
    }
    SplitReadersOfEntry(name);
    TrimOfTrimmed(name);
  }

  /** `ListReaders()`, given the native result code and the text the native
      call wrote into the buffer. */
  function ListReaders(result: int, buffer: string): (r: Result<seq<string>, AgentException>)
    ensures r.Success? <==> result == 0
    ensures r.Failure? ==> Fail(r.error) == EnsureSuccess(result, ListReadersFailedMessage)
    ensures r.Success? ==> r.value == SplitReaders(buffer)
    ensures r.Success? ==> forall i :: 0 <= i < |r.value| ==> IsReaderName(r.value[i])
  {
    match EnsureSuccess(result, ListReadersFailedMessage)
    case Fail(e) => Failure(e)
    case Pass => Success(SplitReaders(buffer))
  }

  // ---------------------------------------------------------------------
  // Card data

  /** `ReadCard()`, given the native result code, the text in the buffer, the
      parsed document (`None` when the text is not well-formed XML, where
      `XDocument.Parse` throws) and the date parser. */
  function ReadCard<D>(result: int, xml: string, parsed: Option<seq<Element>>, parseDate: string -> D): (r: Result<CardData<D>, Fault>)
    ensures r.Success? <==> result == 0 && parsed.Some?
    ensures result != 0 ==> r == Failure(Exceptions.AgentFault(EnsureSuccess(result, ReadCardFailedMessage).error))
    ensures result == 0 && parsed.None? ==> r == Failure(Exceptions.OtherFault)
    ensures r.Success? ==> r.value == ParsePublicDataXml(xml, parsed.value, parseDate)
    ensures r.Success? ==> r.value.rawSignedResponseXml == Some(xml)
  {
    match EnsureSuccess(result, ReadCardFailedMessage)
    case Fail(e) => Failure(Exceptions.AgentFault(e))
    case Pass =>
      match parsed
      case None => Failure(Exceptions.OtherFault)
      case Some(doc) => Success(ParsePublicDataXml(xml, doc, parseDate))
  }

  // ---------------------------------------------------------------------
  // Photo

  newtype byte = x: int | 0 <= x < 256

  /** `GetPhoto()`.  The native `GetPhoto` is called twice: a probe with no
      buffer, which returns `probeResult` and sets the length to
      `probeLength`; then, with a buffer of that many bytes, a call that
      returns `readResult`, sets the length to `readLength` and leaves the
      buffer holding `native`.  The native side must not report more bytes
      than the buffer it was given; nothing in the client checks this. */
  method GetPhoto(probeResult: int, probeLength: int, readResult: int, readLength: int, native: seq<byte>)
    returns (r: Result<Option<seq<byte>>, Fault>)
    requires probeResult == 0 && probeLength > 0 ==> |native| == probeLength
    requires probeResult == 0 && probeLength > 0 && readResult == 0 ==> readLength <= probeLength
    ensures probeResult != 0 || probeLength <= 0 ==> r == Success(None)
    ensures probeResult == 0 && probeLength > 0 && readResult != 0 ==>
      r == Failure(Exceptions.AgentFault(EnsureSuccess(readResult, PhotoFailedMessage).error))
    ensures probeResult == 0 && probeLength > 0 && readResult == 0 && readLength < 0 ==> r == Failure(Exceptions.OtherFault)
    ensures probeResult == 0 && probeLength > 0 && readResult == 0 && readLength >= 0 ==>
      r.Success? && r.value.Some? && |r.value.value| == readLength && r.value.value == native[..readLength]
  {
    if probeResult != 0 || probeLength <= 0 {
      return Success(None);
    }
    // the unmanaged buffer, as the second native call leaves it
    var buffer := new byte[probeLength](i requires 0 <= i < probeLength => native[i]);
    if readResult != 0 {
      return Failure(Exceptions.AgentFault(EnsureSuccess(readResult, PhotoFailedMessage).error));
    }
    if readLength < 0 {
      // `new byte[length]` throws OverflowException
      return Failure(Exceptions.OtherFault);
    }
    var output := new byte[readLength];
    var i := 0;
    while i < readLength
      invariant 0 <= i <= readLength
      invariant output[..i] == native[..i]
      invariant buffer[..] == native
    {
      output[i] := buffer[i];
      i := i + 1;
    }
    return Success(Some(output[..]));
  }
}
