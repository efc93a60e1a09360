/** The gRPC status value (`Status`), its wire record, and the `Error`
    wrapper that presents a non-OK status as a Go `error`.

    A `*Status` is an `Option<Status>` (None is the nil pointer); a `Status`
    holds a possibly nil pointer to its wire record. Go's protobuf library
    (marshalling into and out of `Any` envelopes, and the text form of an
    `Any`) is the `Codec` parameter; cloning a record is the identity on
    values and `proto.Equal` is structural equality. */
module Status {
  import opened Wrappers
  import opened Stack
  import opened Strings

  type Uint32 = x: int | 0 <= x < 0x1_0000_0000
  type Int32 = x: int | -0x8000_0000 <= x < 0x8000_0000
  type Byte = x: int | 0 <= x < 0x100

  /** A status code, `codes.Code` (an unsigned 32-bit integer). */
  type StatusCode = Uint32

  const OK: StatusCode := 0

  /** `int32(c)`: how a code is stored in the wire record. */
  function ToInt32(c: StatusCode): Int32
  {
    if c < 0x8000_0000 then c else c - 0x1_0000_0000
  }

  /** `codes.Code(i)`: how a stored code is read back. */
  function ToCode(i: Int32): StatusCode
  {
    if i >= 0 then i else i + 0x1_0000_0000
  }

  /** A `google.protobuf.Any` envelope: a type URL and the marshalled bytes. */
  datatype Any = Any(typeUrl: string, value: seq<Byte>)

  /** The wire record `google.rpc.Status`. */
  datatype StatusProto = StatusProto(code: Int32, message: string, details: seq<Any>)

  /** The `Status` struct: a pointer, possibly nil, to its wire record. */
  datatype Status = Status(s: Option<StatusProto>)

  /** The detail messages this model tells apart: the `DebugInfo` that
      construction attaches, and any other message by its type and fields. */
  datatype ProtoMessage =
    | DebugInfo(stackEntries: seq<string>)
    | OtherMessage(typeName: string, fields: seq<Byte>)

  /** Go's protobuf library as seen from this package: `ptypes.MarshalAny`,
      `ptypes.UnmarshalAny` (into a `DynamicAny`) and `Any.String()`. */
  datatype Codec = Codec(
    marshalAny: ProtoMessage -> Result<Any, string>,
    unmarshalAny: Any -> Result<ProtoMessage, string>,
    anyText: Any -> string)

  /** One slot of the slice `Details` returns: the decoded message, or the
      error that decoding that envelope produced. */
  datatype Detail = Decoded(msg: ProtoMessage) | DecodeError(err: string)

  /** An `*Error`. Its status pointer is nil only in a zero `Error`, which
      this package never builds. */
  datatype Error = Error(s: Option<Status>)

  /** A Go `error` interface value as this package sees it: nil, an `*Error`,
      or an error of any other type. */
  datatype ErrorValue = NilError | StatusError(err: Error) | OtherError(text: string)

  /** An error being wrapped by `NewWithoutStacks`, by its two renderings:
      `e.Error()` and `fmt.Sprintf("%+v", e)`. */
  datatype SourceError = SourceError(text: string, verbose: string)

  /** The error `WithDetails` returns for a status whose code is OK. */
  const OkDetailsError: string := "no error details for status with code OK"

  /** `Status.Code`: nil-safe; a missing status or record reads as OK. */
  function Code(st: Option<Status>): (c: StatusCode)
    ensures st.None? || st.value.s.None? ==> c == OK
    ensures st.Some? && st.value.s.Some? ==> ToInt32(c) == st.value.s.value.code
    ensures c != OK ==> st.Some? && st.value.s.Some? && st.value.s.value.code != 0
  {
    if st.None? || st.value.s.None? then OK else ToCode(st.value.s.value.code)
  }

  /** `Status.Message`: nil-safe; a missing status or record reads as "". */
  function Message(st: Option<Status>): (m: string)
    ensures st.None? || st.value.s.None? ==> m == ""
    ensures st.Some? && st.value.s.Some? ==> m == st.value.s.value.message
  {
    if st.None? || st.value.s.None? then "" else st.value.s.value.message
  }

  /** The stored detail envelopes, empty for a missing status or record. */
  function Anys(st: Option<Status>): seq<Any>
  {
    if st.None? || st.value.s.None? then [] else st.value.s.value.details
  }

  /** `Status.Proto`: a copy of the wire record; nil for a nil status. */
  function Proto(st: Option<Status>): (p: Option<StatusProto>)
    ensures st.None? ==> p.None?
    ensures st.Some? ==> p == st.value.s
  {
    if st.None? then None else st.value.s
  }

  /** `FromProto`: a status holding a copy of the given record. */
  function FromProto(p: Option<StatusProto>): (st: Option<Status>)
    ensures st.Some? && st.value.s == p
  {
    Some(Status(p))
  }

  /** `Status.String`: the message alone. */
  function StatusString(st: Option<Status>): (text: string)
    ensures text == Message(st)
  {
    Message(st)
  }

  /** `Status.Err`: nil exactly for an OK code, otherwise an `*Error` over
      this very status. */
  function ErrOf(st: Option<Status>): (e: ErrorValue)
    ensures e.NilError? <==> Code(st) == OK
    ensures !e.OtherError?
    ensures e.StatusError? ==> e.err.s == st && ErrorCode(e.err) == Code(st) != OK
    ensures e.StatusError? ==> ErrorText(e.err) == ErrorMessage(e.err) == Message(st)
  {
    if Code(st) == OK then NilError else StatusError(Error(st))
  }

  /** `ptypes.MarshalAny` over a list of messages, stopping at the first
      failure. */
  function MarshalAll(codec: Codec, msgs: seq<ProtoMessage>): (r: Result<seq<Any>, string>)
    ensures r.Success? <==> forall i :: 0 <= i < |msgs| ==> codec.marshalAny(msgs[i]).Success?
    ensures r.Success? ==> |r.value| == |msgs|
    ensures r.Success? ==> forall i :: 0 <= i < |msgs| ==> codec.marshalAny(msgs[i]) == Success(r.value[i])
    ensures r.Failure? ==> exists k :: 0 <= k < |msgs| && codec.marshalAny(msgs[k]) == Failure(r.error)
                                       && forall j :: 0 <= j < k ==> codec.marshalAny(msgs[j]).Success?
    decreases |msgs|
  {
    if msgs == [] then Success([])
    else
      match codec.marshalAny(msgs[0])
      case Failure(err) => Failure(err)
      case Success(any) =>
        var rest := MarshalAll(codec, msgs[1..]);
        if rest.Failure? then
          assert exists k :: 0 <= k < |msgs| - 1 && codec.marshalAny(msgs[1..][k]) == Failure(rest.error)
                             && forall j :: 0 <= j < k ==> codec.marshalAny(msgs[1..][j]).Success?;
          var k :| 0 <= k < |msgs| - 1 && codec.marshalAny(msgs[1..][k]) == Failure(rest.error)
                   && forall j :: 0 <= j < k ==> codec.marshalAny(msgs[1..][j]).Success?;
          assert forall j :: 0 < j < k + 1 ==> msgs[j] == msgs[1..][j - 1];
          assert codec.marshalAny(msgs[k + 1]) == Failure(rest.error);
          Failure(rest.error)
        else
          Success([any] + rest.value)
  }

  /** What `Status.WithDetails` returns: an error for an OK code; the first
      marshalling error if a message fails to marshal; otherwise a new status
      with the same code and message whose details are the old ones followed
      by the marshalled messages, in order. */
  function AppendDetails(st: Option<Status>, codec: Codec, msgs: seq<ProtoMessage>): (r: Result<Status, string>)
    ensures Code(st) == OK ==> r == Failure(OkDetailsError)
    ensures Code(st) != OK ==>
              (r.Success? <==> forall i :: 0 <= i < |msgs| ==> codec.marshalAny(msgs[i]).Success?)
    ensures Code(st) != OK && r.Failure? ==>
              exists k :: 0 <= k < |msgs| && codec.marshalAny(msgs[k]) == Failure(r.error)
                          && forall j :: 0 <= j < k ==> codec.marshalAny(msgs[j]).Success?
    ensures r.Success? ==> r.value.s.Some? && Code(Some(r.value)) == Code(st) != OK
                           && Message(Some(r.value)) == Message(st)
    ensures r.Success? ==> |Anys(Some(r.value))| == |Anys(st)| + |msgs|
                           && Anys(Some(r.value))[..|Anys(st)|] == Anys(st)
    ensures r.Success? ==> forall i :: 0 <= i < |msgs| ==>
                             codec.marshalAny(msgs[i]) == Success(Anys(Some(r.value))[|Anys(st)| + i])
  {
    if Code(st) == OK then Failure(OkDetailsError)
    else
      var p := st.value.s.value;
      match MarshalAll(codec, msgs)
      case Failure(err) => Failure(err)
      case Success(anys) => Success(Status(Some(p.(details := p.details + anys))))
  }

  /** `Status.WithDetails`: clones the record and appends each marshalled
      message to its details, returning early on the first failure. */
  method WithDetails(st: Option<Status>, codec: Codec, msgs: seq<ProtoMessage>) returns (r: Result<Status, string>)
    ensures r == AppendDetails(st, codec, msgs)
  {
    if Code(st) == OK {
      return Failure(OkDetailsError);
    }
    var p := Proto(st).value;
    var details := p.details;
    for i := 0 to |msgs|
      invariant |details| == |p.details| + i
      invariant details[..|p.details|] == p.details
      invariant forall j :: 0 <= j < i ==> codec.marshalAny(msgs[j]) == Success(details[|p.details| + j])
    {
      var any := codec.marshalAny(msgs[i]);
      if any.Failure? {
        return Failure(any.error);
      }
      details := details + [any.value];
    }
    var anys := MarshalAll(codec, msgs).value;
    assert details == p.details + anys;
    return Success(Status(Some(p.(details := details))));
  }

  /** Decoding one envelope: its message, or the error in its place. */
  function DecodeOne(codec: Codec, any: Any): Detail
  {
    match codec.unmarshalAny(any)
    case Success(m) => Decoded(m)
    case Failure(err) => DecodeError(err)
  }

  /** Every envelope decoded on its own: one slot per envelope, in order,
      a failure in one slot leaving the others decoded. */
  function DecodeAll(codec: Codec, anys: seq<Any>): (ds: seq<Detail>)
    ensures |ds| == |anys|
    ensures forall i :: 0 <= i < |anys| ==> ds[i] == DecodeOne(codec, anys[i])
    decreases |anys|
  {
    if anys == [] then [] else [DecodeOne(codec, anys[0])] + DecodeAll(codec, anys[1..])
  }

  /** What `Status.Details` returns: nil for a missing status or record,
      otherwise one decoded slot per stored envelope. */
  function DecodeDetails(st: Option<Status>, codec: Codec): (r: Option<seq<Detail>>)
    ensures r.None? <==> st.None? || st.value.s.None?
    ensures r.Some? ==> |r.value| == |Anys(st)|
    ensures r.Some? ==> forall i :: 0 <= i < |Anys(st)| ==>
                          (r.value[i].DecodeError? <==> codec.unmarshalAny(Anys(st)[i]).Failure?)
    ensures r.Some? ==> forall i :: 0 <= i < |Anys(st)| ==> r.value[i] == DecodeOne(codec, Anys(st)[i])
  {
    if st.None? || st.value.s.None? then None else Some(DecodeAll(codec, st.value.s.value.details))
  }

  /** `Status.Details`: builds the result slice by appending in a loop. */
  method Details(st: Option<Status>, codec: Codec) returns (r: Option<seq<Detail>>)
    ensures r == DecodeDetails(st, codec)
  {
    if st.None? || st.value.s.None? {
      return None;
    }
    var anys := st.value.s.value.details;
    var details: seq<Detail> := [];
    for i := 0 to |anys|
      invariant |details| == i
      invariant forall j :: 0 <= j < i ==> details[j] == DecodeOne(codec, anys[j])
    {
      var decoded := codec.unmarshalAny(anys[i]);
      if decoded.Failure? {
        details := details + [DecodeError(decoded.error)];
        continue;
      }
      details := details + [Decoded(decoded.value)];
    }
    assert details == DecodeAll(codec, anys);
    return Some(details);
  }

  /** The text `New` puts in its `DebugInfo`: the `%+v` rendering
      (`formatTrace`) of the frames captured for the call chain `chain`. */
  function CapturedTrace(chain: seq<Uintptr>, formatTrace: seq<Frame> -> string): string
  {
    formatTrace(Frames(Capture(chain)))
  }

  /** `New`: a status with code c and message msg whose only detail is a
      `DebugInfo` holding the captured stack trace. The error of
      `WithDetails` is discarded, so an OK code or a failure to marshal the
      `DebugInfo` gives a nil status. */
  function New(c: StatusCode, msg: string, chain: seq<Uintptr>, formatTrace: seq<Frame> -> string, codec: Codec): (r: Option<Status>)
    ensures c == OK ==> r.None?
    ensures var debug := codec.marshalAny(DebugInfo([CapturedTrace(chain, formatTrace)]));
            c != OK ==> (r.Some? <==> debug.Success?)
    ensures var debug := codec.marshalAny(DebugInfo([CapturedTrace(chain, formatTrace)]));
            r.Some? ==> r.value.s.Some? && Code(r) == c && Message(r) == msg && Anys(r) == [debug.value]
  {
    var base := Some(Status(Some(StatusProto(ToInt32(c), msg, []))));
    match AppendDetails(base, codec, [DebugInfo([CapturedTrace(chain, formatTrace)])])
    case Success(st) => Some(st)
    case Failure(_) => None
  }

  /** `NewWithoutStacks`: like `New`, but the message is `e.Error()` and the
      `DebugInfo` holds e's own `%+v` rendering instead of a fresh capture. */
  function NewWithoutStacks(c: StatusCode, e: SourceError, codec: Codec): (r: Option<Status>)
    ensures c == OK ==> r.None?
    ensures c != OK ==> (r.Some? <==> codec.marshalAny(DebugInfo([e.verbose])).Success?)
    ensures r.Some? ==> r.value.s.Some? && Code(r) == c && Message(r) == e.text
                        && Anys(r) == [codec.marshalAny(DebugInfo([e.verbose])).value]
  {
    var base := Some(Status(Some(StatusProto(ToInt32(c), e.text, []))));
    match AppendDetails(base, codec, [DebugInfo([e.verbose])])
    case Success(st) => Some(st)
    case Failure(_) => None
  }

  /** `Err`: `New(c, msg).Err()`. Nil for an OK code, and also nil when the
      `DebugInfo` fails to marshal; otherwise an `*Error` with code c whose
      text is msg. */
  function Err(c: StatusCode, msg: string, chain: seq<Uintptr>, formatTrace: seq<Frame> -> string, codec: Codec): (e: ErrorValue)
    ensures e.NilError? <==>
            c == OK || codec.marshalAny(DebugInfo([CapturedTrace(chain, formatTrace)])).Failure?
    ensures !e.OtherError?
    ensures e.StatusError? ==> ErrorCode(e.err) == c && ErrorText(e.err) == msg && ErrorMessage(e.err) == msg
  {
    ErrOf(New(c, msg, chain, formatTrace, codec))
  }

  /** `Error.Error`: the status message only, never the code. */
  function ErrorText(e: Error): (text: string)
    ensures text == Message(e.s)
  {
    StatusString(e.s)
  }

  /** `Error.Message`: the same text as `Error.Error`. */
  function ErrorMessage(e: Error): (text: string)
    ensures text == ErrorText(e)
  {
    StatusString(e.s)
  }

  /** `Error.Code`: the code of the wrapped status. */
  function ErrorCode(e: Error): (c: StatusCode)
    ensures c == Code(e.s)
  {
    Code(e.s)
  }

  /** `Error.GRPCStatus`: the wrapped status itself, which converts back to
      this very error. */
  function GRPCStatus(e: Error): (st: Option<Status>)
    ensures st == e.s
    ensures Code(st) == ErrorCode(e) && Message(st) == ErrorText(e)
    ensures Code(st) != OK ==> ErrOf(st) == StatusError(e)
  {
    e.s
  }

  /** `Error.Stacks`: "" without a status or without details; otherwise the
      text form of the first detail with every two-character `\n` turned
      into a newline, then every `\t` into a tab, which is `Unescape` of that
      text. A wrapped status whose record is nil makes the Go code
      dereference nil, hence the requires. */
  function Stacks(e: Error, codec: Codec): (text: string)
    requires e.s.Some? ==> e.s.value.s.Some?
    ensures Anys(e.s) == [] ==> text == ""
    ensures Anys(e.s) != [] ==> text == Unescape(codec.anyText(Anys(e.s)[0]))
    ensures Anys(e.s) != [] ==> |text| <= |codec.anyText(Anys(e.s)[0])|
    ensures Anys(e.s) != [] ==> PairFree(text, '\\', 'n') && PairFree(text, '\\', 't')
    ensures Anys(e.s) != [] ==>
              (PairFree(codec.anyText(Anys(e.s)[0]), '\\', 'n') && PairFree(codec.anyText(Anys(e.s)[0]), '\\', 't')
               ==> text == codec.anyText(Anys(e.s)[0]))
  {
    if e.s.None? then ""
    else if |e.s.value.s.value.details| == 0 then ""
    else
      var raw := codec.anyText(e.s.value.s.value.details[0]);
      ReplaceTwiceIsUnescape(raw);
      UnescapeProperties(raw);
      ReplaceAll(ReplaceAll(raw, "\\n", "\n"), "\\t", "\t")
  }

  /** `Error.Is`: false unless the target is an `*Error`; otherwise
      `proto.Equal` of the two wire records, details included. Only for an
      `*Error` target are the receiver's and the target's statuses
      dereferenced, hence the requires. */
  function Is(e: Error, target: ErrorValue): (same: bool)
    requires target.StatusError? ==> e.s.Some? && target.err.s.Some?
    ensures !target.StatusError? ==> !same
    ensures target.StatusError? && e.s.value.s.Some? && target.err.s.value.s.Some? ==>
              (same <==> ErrorCode(e) == ErrorCode(target.err)
                         && ErrorMessage(e) == ErrorMessage(target.err)
                         && Anys(e.s) == Anys(target.err.s))
  {
    target.StatusError? && e.s.value.s == target.err.s.value.s
  }
}
