# EidAgent core in Dafny

EidAgent is a localhost service that puts an Emirates ID card reader behind an
authenticated HTTPS endpoint. The agent's own logic is small. This project
models that logic and proves its properties:

- the error taxonomy (`EidAgentException` and its four factories);
- the vendor SDK client (`NativeIcaSdkClient`). This covers how native result
  codes become reader statuses or typed errors, how the reader list is split,
  how the photo is fetched with a probe call and then a copy, and how the
  public-data document is turned into card fields (`IcaResponseParser`);
- the `/read-eid` handler in `Program.cs`. It checks the shared secret, then
  maps the reader's result or exception to an HTTP status and a JSON body.

Every native call into `ica_sdk.dll` is a parameter. The parameter is either
what the call returned (a result code, the text in a buffer, a length, the
bytes in a buffer) or, for a call that takes arguments, a function of those
arguments.

Files and modules:

| file | module | models |
|---|---|---|
| `wrappers.dfy` | `Wrappers` | `null` (`Option`), "returns or throws" (`Result`, `Outcome`) |
| `text.dfy` | `DotNetText` | `char.IsWhiteSpace`, `string.Trim`, `string.IsNullOrWhiteSpace`, the dropping of empty strings (`StringSplitOptions.RemoveEmptyEntries`, `StringValues`), `int` formatting |
| `exceptions.dfy` | `Exceptions` | `src/EidAgent/Exceptions/EidAgentException.cs` |
| `response_parser.dfy` | `ResponseParser` | `IcaResponseParser` in `src/EidAgent/Services/IcaSdkClient.cs` |
| `sdk_client.dfy` | `IcaSdk` | `NativeIcaSdkClient` in `src/EidAgent/Services/IcaSdkClient.cs` |
| `read_endpoint.dfy` | `ReadEndpoint` | the `/read-eid` handler in `src/EidAgent/Program.cs` |

### Two revisions of the exception class

`EidAgentException` in `src/EidAgent/Exceptions/EidAgentException.cs` has a constructor `(string code, string message)`,
a get-only `Code` property and four factories. The SDK client and the handler
are written against a different revision. That revision builds exceptions from
an `EidAgentErrorCode` enum value (`new EidAgentException(EidAgentErrorCode.InternalError, ...)`)
and reads `ex.ErrorCode` and `ex.ErrorCodeValue`. Neither that constructor, those
two members nor the enum exist in that file, so the tree as committed does not
compile. The model reconciles the two revisions:

- `AgentException(code, message)` is the class in that file. It is a datatype, so its
  code is exactly the one it was built with and cannot change afterwards.
- `ErrorKind` is the missing enum. `CodeValue` is `ErrorCodeValue`. The code
  strings are assumed to be the factories' strings.
- `FromKind` is the enum-based constructor. `KindOf` is `ex.ErrorCode`.
- `FactoriesMatchKinds` proves that the two revisions build the same
  exceptions.

The handler has a second compile error of the same kind. Its two error paths
(`src/EidAgent/Program.cs:94` and `:98`) pass the status code to `Results.Json`
as the second positional argument. That parameter is the
`JsonSerializerOptions?`, and the status code is the named `statusCode:`
parameter, which the 401 path at line 81 uses. `FaultResult` takes the intended
reading: the integer is the HTTP status of the response.

### What the code does not have

The code has no session orchestrator running initialize, select, connect,
read and clean up under a lock, and no table from reader status to error.
It has no rate limiter (no 429 responses), no identity-number masking and no
integrity check of the card data. The error kinds are the four listed above;
there is no `Unauthorized` or `RateLimited` kind.

`IcaEidReader.ReadAsync` only throws `ReaderNotFound()`. The registered reader
is `FakeEidReader`. The model follows the code: four error kinds, no masking,
no rate limit. `FakeEidReader` has a comment saying the API layer masks the
number. The handler does not do this: `SuccessPassesThrough` and
`FakeReaderNumberReachesCallerUnmasked` prove that the full number reaches the
caller.

## Model

| member | source | states |
|---|---|---|
| `Exceptions.CodeValue` | src/EidAgent/Exceptions/EidAgentException.cs:12-22 | Each kind's code string is one of the four factory codes, and `KindOfCode` maps it back to that kind |
| `Exceptions.CodeValueInjective` | src/EidAgent/Exceptions/EidAgentException.cs:12-22 | The four codes are pairwise distinct, so a code determines its kind |
| `Exceptions.KindOfCodeExact` | src/EidAgent/Exceptions/EidAgentException.cs:12-22 | A code string is recognised exactly when it is one of `card_not_present`, `reader_not_found`, `timeout`, `internal_error`, and then maps back to itself |
| `Exceptions.KindOf` | src/EidAgent/Program.cs:91 | An exception has a kind exactly when its code is one of the four codes, and the kind's code is then the exception's code |
| `Exceptions.FromKind` | src/EidAgent/Services/IcaSdkClient.cs:180-183 | The enum-based constructor gives an exception of that kind, carrying the message it was given |
| `Exceptions.CardNotPresentException` | src/EidAgent/Exceptions/EidAgentException.cs:12-13 | Kind card-not-present, message "No Emirates ID detected on reader." |
| `Exceptions.ReaderNotFoundException` | src/EidAgent/Exceptions/EidAgentException.cs:15-16 | Kind reader-not-found, message "HID reader not detected." |
| `Exceptions.TimeoutException` | src/EidAgent/Exceptions/EidAgentException.cs:18-19 | Kind timeout, message "Read operation timed out." |
| `Exceptions.InternalErrorException` | src/EidAgent/Exceptions/EidAgentException.cs:21-22 | Kind internal error; the supplied message is passed through unchanged (`DefaultInternalErrorException` covers the default argument) |
| `Exceptions.DefaultInternalErrorException` | src/EidAgent/Exceptions/EidAgentException.cs:21-22 | With the default argument, the internal-error factory gives kind internal error and the message "Internal error" |
| `Exceptions.FactoriesMatchKinds` | src/EidAgent/Exceptions/EidAgentException.cs:12-22 | Each factory builds the same exception as the enum-based constructor with that kind and the factory's message |
| `Exceptions.FactoryKindsDistinct` | src/EidAgent/Exceptions/EidAgentException.cs:12-22 | No two factories produce exceptions of the same kind |
| `DotNetText.IsNullOrWhiteSpace` | src/EidAgent/Program.cs:77 | A value is null-or-white-space exactly when it is null or trims to the empty string |
| `DotNetText.Trim` | src/EidAgent/Services/IcaSdkClient.cs:232 | The result has no white space at its ends, and it is empty exactly when the input is blank |
| `DotNetText.TrimIsInfix` | src/EidAgent/Services/IcaSdkClient.cs:232 | The trimmed text is an infix of the input with only white space cut from either end; with `Trim`'s contract this determines it |
| `DotNetText.TrimOfTrimmed` | src/EidAgent/Services/IcaSdkClient.cs:84 | Trimming a string with no white space at its ends leaves it unchanged |
| `DotNetText.RemoveEmptyEntries` | src/EidAgent/Services/IcaSdkClient.cs:84 | Every kept piece is non-empty and comes from the input |
| `DotNetText.RemoveEmptySingleton` | src/EidAgent/Services/IcaSdkClient.cs:84 | A single piece is kept exactly when it is non-empty |
| `DotNetText.RemoveEmptyAppend` | src/EidAgent/Services/IcaSdkClient.cs:84 | Removing empty pieces from two lists joined is removing them from each and joining the results; with `RemoveEmptySingleton` this keeps exactly the non-empty pieces, all of them, in order |
| `DotNetText.IntToString` | src/EidAgent/Services/IcaSdkClient.cs:183 | The decimal text of a result code starts with `-` exactly for negative codes and is otherwise digits only, at least one, with no leading zero; 0 prints as "0"; parsing it gives the code back |
| `DotNetText.DecimalRoundTrip` | src/EidAgent/Services/IcaSdkClient.cs:183 | Parsing the digits of a natural number gives the number back |
| `DotNetText.IntToStringInjective` | src/EidAgent/Services/IcaSdkClient.cs:183 | Different codes print as different text |
| `IcaSdk.EnumValue` | src/EidAgent/Services/IcaSdkClient.cs:35-46 | The underlying values of `IcaReaderStatus` lie between 0 and 8 |
| `IcaSdk.GetReaderStatus` | src/EidAgent/Services/IcaSdkClient.cs:101-116 | Total: each code 0..7 gives the status whose enum value it is (Ready … Busy, in order), and exactly the other codes give `Unknown` |
| `IcaSdk.GetReaderStatusRoundTrip` | src/EidAgent/Services/IcaSdkClient.cs:104-115 | Mapping any status's enum value back gives that status, `Unknown` (value 8) included |
| `IcaSdk.WithIcaCode` | src/EidAgent/Services/IcaSdkClient.cs:183 | The message starts with the caller's message, then ` ICA code: `, and ends with `.`; the text in between is the code's decimal text and parses back to the code |
| `IcaSdk.EnsureSuccess` | src/EidAgent/Services/IcaSdkClient.cs:171-185 | Completes exactly when the code is 0. Codes 4, 5 and 6 give reader-not-found, card-not-present and timeout with the caller's message unchanged. Every other code gives an internal error whose message is the caller's message followed by ` ICA code: <code>.` |
| `IcaSdk.InternalErrorCarriesCode` | src/EidAgent/Services/IcaSdkClient.cs:183 | An internal error's message starts with the caller's message, and the raw code can be read back from the text after the label |
| `IcaSdk.EnsureSuccessInjective` | src/EidAgent/Services/IcaSdkClient.cs:178-184 | For one message, distinct non-zero codes give distinct exceptions |
| `IcaSdk.DisconnectCard` | src/EidAgent/Services/IcaSdkClient.cs:153-160 | Succeeds exactly on 0; every non-zero code gives an internal error "Failed to disconnect card session." |
| `IcaSdk.Cleanup` | src/EidAgent/Services/IcaSdkClient.cs:162-169 | Succeeds exactly on 0; every non-zero code gives an internal error "Failed to cleanup ICA toolkit session." |
| `IcaSdk.TeardownIgnoresDeviceCodes` | src/EidAgent/Services/IcaSdkClient.cs:153-185 | Codes 4, 5 and 6 are not internal errors under `EnsureSuccess`, but they are under `DisconnectCard` and `Cleanup` |
| `IcaSdk.Initialize` | src/EidAgent/Services/IcaSdkClient.cs:69-74 | The native call gets process mode 1 or 0 and the configuration path, with `null` passed as ""; initialization succeeds exactly when that call returns 0; a failure is what `EnsureSuccess` gives for that code with "ICA toolkit initialization failed.", so its message starts with that text |
| `IcaSdk.SelectReader` | src/EidAgent/Services/IcaSdkClient.cs:89-93 | The reader name is passed to the native call unchanged; selection succeeds exactly when that call returns 0, and a failure is what `EnsureSuccess` gives for that code with "Unable to select ICA reader." |
| `IcaSdk.ConnectCard` | src/EidAgent/Services/IcaSdkClient.cs:95-99 | Succeeds exactly when the native result is 0; a failure is what `EnsureSuccess` gives for that code with "Failed to connect to Emirates ID card." (5 is card-not-present) |
| `IcaSdk.Fields` | src/EidAgent/Services/IcaSdkClient.cs:83-84 | Splitting on `;`, `\n` and `\r` gives at least one piece, and no piece contains a separator |
| `IcaSdk.TrimEntries` | src/EidAgent/Services/IcaSdkClient.cs:84 | Each piece is replaced by its trimmed form, with the same number of pieces |
| `IcaSdk.TrimEntriesAppend` | src/EidAgent/Services/IcaSdkClient.cs:84 | Trimming the pieces of two lists joined is trimming each list and joining the results |
| `IcaSdk.SplitReaders` | src/EidAgent/Services/IcaSdkClient.cs:83-84 | Every returned reader name is non-empty, has no white space at either end, and contains no `;`, `\n` or `\r` |
| `IcaSdk.TrimKeepsNoSeparator` | src/EidAgent/Services/IcaSdkClient.cs:84 | Trimming a piece with no separator leaves a string with no separator |
| `IcaSdk.SplitReadersOfEntry` | src/EidAgent/Services/IcaSdkClient.cs:83-84 | A buffer without separators gives no reader if it is blank, and otherwise exactly one reader: its trimmed text |
| `IcaSdk.SplitReaderName` | src/EidAgent/Services/IcaSdkClient.cs:83-84 | A buffer holding one valid reader name gives exactly that name |
| `IcaSdk.SplitReadersAppend` | src/EidAgent/Services/IcaSdkClient.cs:83-84 | The readers of `a`, a separator, then `b` are the readers of `a` followed by the readers of `b`, in buffer order |
| `IcaSdk.SplitReadersEmpty` | src/EidAgent/Services/IcaSdkClient.cs:83-84 | The reader list is empty exactly when the buffer holds only separators and white space |
| `IcaSdk.SplitJoinRoundTrip` | src/EidAgent/Services/IcaSdkClient.cs:83-84 | Splitting reader names joined with `;` gives back exactly those names, in the same order |
| `IcaSdk.ListReaders` | src/EidAgent/Services/IcaSdkClient.cs:76-87 | Returns a list exactly when the native result is 0, and then the list is the split of the buffer, so every entry is a valid reader name; otherwise it throws what `EnsureSuccess` throws |
| `IcaSdk.ReadCard` | src/EidAgent/Services/IcaSdkClient.cs:118-126 | A non-zero code throws `EnsureSuccess`'s exception. Malformed XML throws a non-agent exception. Otherwise the card is `ParsePublicDataXml` of the document, keeping the raw XML |
| `IcaSdk.GetPhoto` | src/EidAgent/Services/IcaSdkClient.cs:128-151 | No photo when the probe fails or reports length ≤ 0. `EnsureSuccess`'s exception when the second call fails. An overflow when the second call reports a negative length. Otherwise exactly the first `length` bytes of the buffer, `length` being the value the second call reported |
| `ResponseParser.EqualsIgnoreCase` | src/EidAgent/Services/IcaSdkClient.cs:229 | Two names match exactly when their upper-cased forms are equal; equal names match |
| `ResponseParser.FirstMatch` | src/EidAgent/Services/IcaSdkClient.cs:228-229 | Gives the position of the first element in document order whose local name equals the name ignoring case, or none when no element matches |
| `ResponseParser.NameValue` | src/EidAgent/Services/IcaSdkClient.cs:228-233 | What a name yields, when anything, is trimmed and non-empty |
| `ResponseParser.NameValueOfFirstElement` | src/EidAgent/Services/IcaSdkClient.cs:228-233 | When element `i` is the first whose local name matches, the name yields nothing if that element's text is blank and its trimmed text otherwise |
| `ResponseParser.NameValueOfNoElement` | src/EidAgent/Services/IcaSdkClient.cs:228-233 | A name that no element matches yields nothing |
| `ResponseParser.GetValue` | src/EidAgent/Services/IcaSdkClient.cs:224-237 | The result is trimmed. It is empty exactly when no alias yields a value. Otherwise it is the value of the first alias, in priority order, that yields one, and every earlier alias yields nothing |
| `ResponseParser.FirstMatchIgnoresLater` | src/EidAgent/Services/IcaSdkClient.cs:228-233 | Elements after a name's first match change neither that match nor what the name yields |
| `ResponseParser.GetValueIgnoresLater` | src/EidAgent/Services/IcaSdkClient.cs:226-234 | Once every alias has a matching element, appending elements does not change the looked-up value |
| `ResponseParser.BlankFirstMatchHidesLaterValue` | src/EidAgent/Services/IcaSdkClient.cs:228-233 | A blank first `Gender` element gives "" even though a later `gender` element holds "M" |
| `ResponseParser.ParsePublicDataXml` | src/EidAgent/Services/IcaSdkClient.cs:254-263 | Each field is the lookup of its own alias list (`IdNumber`, `EmiratesId`, `EidNumber` for the number, and so on), the two dates are the date parser applied to their lookups, the request id is the `RequestID` lookup, the raw XML is kept verbatim, and every text field is trimmed |
| `ResponseParser.ParsedFieldsEmptyWhenAbsent` | src/EidAgent/Services/IcaSdkClient.cs:254-263 | Each text field is "" exactly when none of its aliases yields a value; the request id is what `RequestID` yields |
| `ReadEndpoint.HeaderText` | src/EidAgent/Program.cs:79 | No values give "". One value gives that value, even when it is empty. Two or more values skip the empty ones and comma-join the rest (`CommaJoin`): none left gives "", one left gives that value, and two or more left give a text containing a comma |
| `ReadEndpoint.CommaJoin` | src/EidAgent/Program.cs:79 | No parts give "", one part gives itself, and two or more give a text containing a comma |
| `ReadEndpoint.CommaJoinAppend` | src/EidAgent/Program.cs:79 | Joining two non-empty lists is joining each and putting a comma between them; with the one-part case this makes the text the parts in order, separated by commas |
| `ReadEndpoint.CommaSecretMatchedBySplitHeader` | src/EidAgent/Program.cs:76-79 | A non-blank secret `a,b` (with `a` and `b` non-empty) is matched by the header sent twice, as `a` and as `b` |
| `ReadEndpoint.Authorized` | src/EidAgent/Program.cs:76-79 | Passing the checks needs a configured secret that does not trim to "" and a present header; a header with two or more non-empty values never matches a secret without a comma |
| `ReadEndpoint.EmptyHeaderValuesSkipped` | src/EidAgent/Program.cs:79 | A non-blank secret sent once, together with an empty repetition of the header before or after it, passes the checks |
| `ReadEndpoint.SingleHeaderValueAuthorized` | src/EidAgent/Program.cs:76-79 | With one header value, the checks pass exactly when the secret is not blank and the value equals it |
| `ReadEndpoint.FaultResult` | src/EidAgent/Program.cs:89-99 | An agent exception that is not an internal error gives 400. An internal-error agent exception, or any other exception, gives 500. The body is always an error body |
| `ReadEndpoint.HandleReadEid` | src/EidAgent/Program.cs:74-100 | 401 exactly when the secret check fails; 200 exactly when it passes and the reader returns; otherwise 400 or 500; the body is a reader result exactly on 200 (`SuccessPassesThrough` shows it is the reader's own result) |
| `ReadEndpoint.BlankSecretRejectsAll` | src/EidAgent/Program.cs:76-82 | A null, empty or white-space secret gives 401 `unauthorized`, whatever the header and the reader |
| `ReadEndpoint.MissingHeaderRejected` | src/EidAgent/Program.cs:78-81 | A request without `X-Shared-Secret` gives 401 |
| `ReadEndpoint.MismatchedHeaderRejected` | src/EidAgent/Program.cs:79-81 | A header whose text differs from the secret gives 401 |
| `ReadEndpoint.SecretComparisonIsCaseSensitive` | src/EidAgent/Program.cs:79 | A header equal to the secret only when case is ignored gives 401, and an exact match passes |
| `ReadEndpoint.ReaderIgnoredUnlessAuthorized` | src/EidAgent/Program.cs:77-86 | When the checks fail, the response does not depend on the reader |
| `ReadEndpoint.SuccessPassesThrough` | src/EidAgent/Program.cs:86-87 | An authorized successful read gives 200 with the reader's result unchanged |
| `ReadEndpoint.AgentExceptionMapping` | src/EidAgent/Program.cs:89-95 | An agent exception gives 500 exactly when its code is `internal_error` and 400 otherwise, with its code as the body's error |
| `ReadEndpoint.OtherExceptionIsInternal` | src/EidAgent/Program.cs:96-99 | Any other exception gives 500 `internal_error` |
| `ReadEndpoint.NativeCodeReachesCaller` | src/EidAgent/Program.cs:89-95 | A failing native code raised through `EnsureSuccess` gives 400 with `reader_not_found`, `card_not_present` or `timeout` for codes 4, 5 and 6, and 500 `internal_error` for every other code |
| `ReadEndpoint.FakeReaderNumberReachesCallerUnmasked` | src/EidAgent/Services/FakeEidReader.cs:9-21 | With the fake reader, the caller receives the identity number unmasked, contrary to the comment at line 9 |
| `ReadEndpoint.IcaReaderStubAnswersReaderNotFound` | src/EidAgent/Services/IcaEidReader.cs:8-12 | With the SDK reader stub, an authorized caller always gets 400 `reader_not_found` |

## Left out

- Native calls into `ica_sdk.dll`: the P/Invoke declarations (`NativeIcaInterop`) are replaced by parameters that carry their results.
- Buffer capacities (8 KiB for the reader list, 64 KiB for the public data): the text the native call leaves in the buffer is a parameter, so truncation by the capacity is not modelled.
- IcaSdk.GetPhoto: requires that the second native call reports no more bytes than the probed buffer holds. The client never checks this, and a larger length would make `Marshal.Copy` read past the unmanaged buffer. That memory access is outside what the model can express.
- IcaSdk.GetPhoto: allocating and freeing the unmanaged buffer (`AllocHGlobal` and `FreeHGlobal` in `finally`) has no visible effect in the model. The returned `byte[]` is given as its contents.
- XML parsing: `XDocument.Parse` is replaced by the list of elements it would yield, each with its local name and `Value`, or by `None` when it would throw.
- Date parsing (`DateOnly.TryParse`, then `DateTime.TryParse`, depends on the culture): it is a function parameter, and the date type is a type parameter.
- ResponseParser.EqualsIgnoreCase: upper-cases ASCII letters only, while `OrdinalIgnoreCase` applies Unicode's invariant upper-casing. Non-ASCII names that fold onto the ASCII alias names therefore do not match in the model.
- DotNetText.IntToString: uses `-` as the minus sign. `$"{result}"` formats with the current culture's negative sign. Result codes are unbounded integers rather than 32-bit values; this makes no difference here, because no arithmetic is done on them.
- ReadEndpoint.HandleReadEid: the header is the list of its values, turned into text as `StringValues.ToString()` does (a single value as is, two or more joined with commas after empty ones are skipped); a `null` value is taken to be empty. The async call, cancellation through `RequestAborted`, and JSON serialisation are not modelled.
- Hosting in `Program.cs` is not modelled: Windows service registration, Serilog sinks, CORS, Kestrel HTTPS, the port setting and `/health` with its timestamp.
- `src/EidAgent/Services/IcaSdkIntegrationHelpers.cs` is not part of this model. It holds random request-id generation and XML signature checking, which are library calls.
- `src/EidAgent/Options/AgentOptions.cs` is not part of this model. It holds configuration defaults only, and contains unresolved merge-conflict markers.
- Session orchestration, rate limiting, identity-number masking and integrity validation are not in the code, so they are not modelled.
