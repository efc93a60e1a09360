# gRPC status values and address metadata, modelled in Dafny

This project models the core of a Go gRPC fork's status/error package and
one small piece of its address-metadata package:

- **Status value** (`Status`): an immutable record holding a status code, a
  message and an ordered list of `Any` detail envelopes (a type URL plus
  bytes). It is built by `New`, `NewWithoutStacks` or `FromProto`, and read
  through the nil-safe accessors `Code`, `Message`, `Proto` and `Details`.
  `WithDetails` returns a new status with more details.
- **Error wrapper** (`Error`): presents a non-OK status as a Go `error`. It
  has `Error`, `Message`, `Code`, `GRPCStatus`, `Stacks` and `Is`.
- **Stack capture**: `callers` records at most 32 program counters, and
  `StackTrace` turns them into frames. `New` formats these frames and
  stores the text as the first detail, a `DebugInfo`.
- **Address metadata**: `mdValue.Equal`, which compares two
  `map[string][]string`, and the thin `Get`/`Set` accessors on an address.

Go pointers that may be nil are `Option` values. A `*Status` is an
`Option<Status>`, and a `Status` holds an `Option<StatusProto>`, so both
nil checks in the accessors are modelled. Codes are `codes.Code`, an
unsigned 32-bit value. The wire record stores them as a signed 32-bit
value, and both conversions are written out (`ToInt32`, `ToCode`).

Some collaborators are not Go code in this package. They become parameters:

- Go's protobuf library (`ptypes.MarshalAny`, `ptypes.UnmarshalAny`, and the
  text form of an `Any`) is a `Codec` value holding three functions.
  Marshalling and unmarshalling may fail. Cloning a record is the identity
  on values, and `proto.Equal` is structural equality.
- The goroutine's call chain is a sequence of program counters. Its element
  0 is the frame of `runtime.Callers` itself.
- The `%+v` rendering of a stack trace is a function `formatTrace`. An error
  wrapped by `NewWithoutStacks` is given by its two renderings, `Error()`
  and `%+v`.

Two behaviours of the code are worth noting:

- `New` discards the `WithDetails` error and returns its nil result
  (internal/status/status.go:60-65). So a failure to marshal the debug
  detail gives a nil status, and `Err` gives a nil error even for a non-OK
  code. `StatusProperties.ErrNilOnMarshalFailure` states this.
- `Is` compares the whole wire record with `proto.Equal`, details included
  (internal/status/status.go:215), not only code and message.
  `StatusProperties.IsSeesCapturedTrace` states the consequence: two
  statuses whose captured traces render differently are never equivalent.

Files: `wrappers.dfy` (Option and Result), `stack.dfy` (module `Stack`),
`strings.dfy` (module `Strings`: Go's `strings.Replace`), `status.dfy`
(module `Status`), `status_properties.dfy` (module `StatusProperties`) and
`metadata.dfy` (module `Metadata`).

The loops in the Go code are methods: `WithDetails`, `Details`, `callers`,
`StackTrace` and `mdValue.Equal`. Each is proved equal to a specification
function (`AppendDetails`, `DecodeDetails`, `Capture`, `Frames`,
`SameEntries`), and the lemmas are stated over those functions.

## Model

| member | source | states |
|---|---|---|
| `Status.Code` | internal/status/status.go:99-105 | A nil status, or one without a record, reports OK. Otherwise the code converts back to the stored `int32`. A non-OK code implies that the status and its record are present. |
| `Status.Message` | internal/status/status.go:107-113 | A nil status, or one without a record, reports "". Otherwise it returns the stored message. |
| `Status.Proto` | internal/status/status.go:115-121 | A nil status gives a nil record. Otherwise it gives a copy equal to the stored record, which may itself be nil. |
| `Status.FromProto` | internal/status/status.go:84-87 | Always gives a non-nil status that holds a copy of the given record. |
| `Status.StatusString` | internal/status/status.go:167-169 | The text is the message alone. |
| `Status.ErrOf` | internal/status/status.go:123-129 | The result is nil exactly when the code is OK, and it is never a foreign error. Otherwise it is an `*Error` over this very status, with the same non-OK code and the message as its text. |
| `Status.MarshalAll` | internal/status/status.go:139-145 | It succeeds exactly when every message marshals. On success there is one envelope per message, in order. On failure the error is that of the first message that fails. |
| `Status.AppendDetails` | internal/status/status.go:131-147 | An OK code gives the fixed OK-code error. Otherwise the call succeeds exactly when every message marshals, and a failure carries the first error. On success the code and message are kept, the old details form a prefix, and the marshalled messages follow in order. |
| `Status.WithDetails` | internal/status/status.go:131-147 | The loop that clones the record and appends each envelope, returning early on failure, computes exactly `AppendDetails`. |
| `Status.DecodeAll` | internal/status/status.go:155-164 | There is one slot per envelope. Each slot is decoded on its own, so a failure in one slot does not affect the others. |
| `Status.DecodeDetails` | internal/status/status.go:149-165 | The result is nil exactly for a nil status or record. Otherwise there is one slot per stored envelope, in order. A slot holds an error exactly when that envelope fails to unmarshal, and the other slots are still decoded. |
| `Status.Details` | internal/status/status.go:149-165 | The loop that appends either the decoded message or the error computes exactly `DecodeDetails`. |
| `Status.New` | internal/status/status.go:57-66 | An OK code gives a nil status. For a non-OK code, the status is non-nil exactly when the `DebugInfo` with the captured trace marshals. It then has code c, message msg and that one envelope as its only detail. |
| `Status.NewWithoutStacks` | internal/status/status.go:68-77 | The same as `New`, except that the message is `e.Error()` and the `DebugInfo` holds e's `%+v` text. |
| `Status.Err` | internal/status/status.go:89-92 | The result is nil exactly when the code is OK or the `DebugInfo` fails to marshal. Otherwise it is an `*Error` with code c, whose `Error()` and `Message()` are msg. |
| `Status.ErrorText` | internal/status/status.go:178-180 | `Error()` is the status message; the code is not included. |
| `Status.ErrorMessage` | internal/status/status.go:182-184 | `Message()` is the same text as `Error()`. |
| `Status.ErrorCode` | internal/status/status.go:186-188 | `Code()` is the wrapped status's code. |
| `Status.GRPCStatus` | internal/status/status.go:190-193 | Returns the wrapped status itself. It has the error's code and text, and for a non-OK code its `Err()` is this very error again. |
| `Status.Stacks` | internal/status/status.go:195-206 | The text is "" when there is no status or no detail. Otherwise it is `Unescape` of the first detail's text: each backslash-n becomes a newline, each backslash-t a tab, and every other character is kept. So it is never longer than that text, no backslash-n or backslash-t pair is left in it, and text with neither pair comes back unchanged. |
| `Status.Is` | internal/status/status.go:208-216 | The result is false when the target is not an `*Error`. For two errors with records, it is true exactly when code, message and the full detail lists are all equal. |
| `Stack.Capture` | internal/status/status.go:242-248 | At most 32 program counters are recorded. None are recorded when the chain has no more than the 5 skipped frames. Otherwise the count is min(32, chain length − 5), and entry i is chain element 5 + i. |
| `Stack.Callers` | internal/status/status.go:242-248 | The loop that fills the fixed 32-entry buffer and keeps the filled prefix computes exactly `Capture`. |
| `Stack.Frames` | internal/status/status.go:234-240 | There is one frame per program counter, in the same order. |
| `Stack.StackTrace` | internal/status/status.go:234-240 | The index loop that fills the frame array computes exactly `Frames`. |
| `Strings.ReplaceAll` | internal/status/status.go:203-204 | `strings.Replace(s, old, new, -1)`: a replacement no longer than the pattern never makes the text longer. |
| `Strings.ReplaceTwiceIsUnescape` | internal/status/status.go:203-204 | Replacing every backslash-n by a newline and then every backslash-t by a tab gives exactly the single-pass `Unescape`. |
| `Strings.UnescapeProperties` | internal/status/status.go:203-204 | After unescaping, no backslash-n or backslash-t pair is left, the text is no longer than before, and text with neither pair is unchanged. |
| `Strings.UnescapeEscape` | internal/status/status.go:203-204 | Unescaping undoes the escaping of newlines and tabs on text that holds no backslash. |
| `Strings.ReplaceAbsent` | internal/status/status.go:203-204 | Text in which the escape does not occur comes back unchanged. |
| `Strings.ReplacePairFree` | internal/status/status.go:203-204 | After the replacement, the escape no longer occurs. A pair that was already absent stays absent when the replacement character cannot form it. |
| `StatusProperties.CodeRoundTrip` | internal/status/status.go:100-105 | Storing a code as `int32` and reading it back as `codes.Code` is the identity in both directions. Only OK is stored as 0. |
| `StatusProperties.NilStatusAccessors` | internal/status/status.go:99-154 | A nil status, or one without a record, reports OK and "". `Details` gives nil, `Err` gives nil, and `Proto` of a nil status is nil. |
| `StatusProperties.ProtoRoundTrip` | internal/status/status.go:84-121 | `Proto(FromProto(p))` equals p. `FromProto(Proto(s))` equals s for any non-nil s. |
| `StatusProperties.ErrorNeverOk` | internal/status/status.go:26-27 | An OK code gives no error, and an error never carries OK. |
| `StatusProperties.ErrOkIsNil` | internal/status/status.go:89-92 | `Err(OK, msg)` is nil and `New(OK, msg)` is nil, whatever the message. |
| `StatusProperties.ErrNilOnMarshalFailure` | internal/status/status.go:57-66 | When the `DebugInfo` does not marshal, `New` with a non-OK code is nil and `Err` is nil. |
| `StatusProperties.DetailsAfterWithDetails` | internal/status/status.go:131-165 | Assume a codec whose unmarshal undoes its marshal. After a successful `WithDetails`, `Details` gives the old slots followed by the given messages, decoded, in order. |
| `StatusProperties.NewDetails` | internal/status/status.go:57-66 | For a non-OK code whose `DebugInfo` marshals, the status has code c and message msg, and its `Err()` is non-nil. The capture holds at most 32 frames, and `Details` gives exactly one slot: that `DebugInfo`. |
| `StatusProperties.IsReflexive` | internal/status/status.go:208-216 | Every error is `Is`-equivalent to itself. |
| `StatusProperties.IsSymmetric` | internal/status/status.go:208-216 | `Is` gives the same answer with its arguments swapped. |
| `StatusProperties.IsSeesCapturedTrace` | internal/status/status.go:208-216 | Take two errors from `Err` with the same code and message whose captured traces render differently. `Is` says they are not equivalent. |
| `Metadata.Equal` | internal/metadata/metadata.go:35-55 | A value that is not an `mdValue` is unequal. Otherwise the nested loop decides exactly `SameEntries`: the key counts are equal, and every key of the receiver reads the same list in the argument, a missing key reading as an empty list. |
| `Metadata.SameEntriesReflexive` | internal/metadata/metadata.go:40-54 | Every metadata map equals itself. |
| `Metadata.SameEntriesDetectsDifference` | internal/metadata/metadata.go:43-52 | Take a receiver key whose list in the argument differs in length or at some position. Then the two maps are unequal. |
| `Metadata.SameEntriesNotSymmetric` | internal/metadata/metadata.go:43-47 | `{a: []}` equals `{c: ["x"]}`, but `{c: ["x"]}` does not equal `{a: []}`. |
| `Metadata.SameEntriesIsEqualityWithoutEmptyLists` | internal/metadata/metadata.go:40-54 | When no key of the receiver holds an empty list, the comparison is exactly map equality. |
| `Metadata.Get` | internal/metadata/metadata.go:57-65 | An address with no attributes gives nil. Otherwise the result is the `mdValue` stored under the metadata key, or nil when that key is missing or holds another type. |
| `Metadata.Set` | internal/metadata/metadata.go:67-74 | `Get` of the result gives back md. The address fields and every other attribute are kept. |

## Left out

- `Newf` and `Errorf`: these are `New` and `Err` with a message built by `fmt.Sprintf`. Formatting is not modelled.
- The `%+v` rendering of frames (`stack.Format`, `perrors.Frame` symbolication) is the `formatTrace` parameter. `runtime.Callers` is modelled only as the call chain it reads.
- The text form of an `Any`, and marshalling and unmarshalling, are parameters (`Codec`). Their own failure conditions, such as invalid UTF-8, are not modelled.
- The unused `stack` fields of `Status` and `Error` are left out.
- Deep copying and immutability: statuses are Dafny values. `FromProto`, `Proto` and `WithDetails` therefore never share state with their inputs, and the receiver of `WithDetails` is unchanged by construction. Aliasing is not modelled.
- Concurrency is left out.
- `Status.Stacks` requires the wrapped status's record to be non-nil. For an `*Error` target, `Status.Is` requires the receiver's status and the target's status to be non-nil. In Go these cases dereference nil and panic. `Err` never builds such an error.
- `Strings.UnescapeEscape` covers only text without backslashes: the text form of an `Any` also escapes backslashes and quotes, and that escaping is part of the `Codec` parameter, so `Stacks` is not claimed to invert it in general.
- `Metadata.Set` and `Metadata.Get`: `resolver.Address` attribute storage (`WithValue`, `Value`) is not part of this model. Its semantics are assumed to be those of a map.
- An argument of `Equal` that is nil, or of any type other than `mdValue`, is represented by `OtherValue`.
