/** Properties of the status value and its error wrapper that relate
    several operations: the OK/nil invariant, the wire-record round trip,
    attaching details and decoding them again, and the strictness of `Is`. */
module StatusProperties {
  import opened Wrappers
  import opened Stack
  import opened Status

  /** A codec whose `UnmarshalAny` gives back every message that
      `MarshalAny` accepted. */
  ghost predicate RoundTrips(codec: Codec)
  {
    forall m :: codec.marshalAny(m).Success? ==> codec.unmarshalAny(codec.marshalAny(m).value) == Success(m)
  }

  /** The slots a successful decoding of `msgs` fills. */
  function DecodedAll(msgs: seq<ProtoMessage>): (ds: seq<Detail>)
    ensures |ds| == |msgs|
    ensures forall i :: 0 <= i < |msgs| ==> ds[i] == Decoded(msgs[i])
  {
    seq(|msgs|, i requires 0 <= i < |msgs| => Decoded(msgs[i]))
  }

  /** Storing a code in the wire record and reading it back is the identity,
      in both directions, and only OK is stored as 0. */
  lemma CodeRoundTrip(c: StatusCode, i: Int32)
    ensures ToCode(ToInt32(c)) == c && ToInt32(ToCode(i)) == i
    ensures ToInt32(c) == 0 <==> c == OK
  {
  }

  /** A nil status, or one without a record, reads as OK with an empty
      message, no details and no error. */
  lemma NilStatusAccessors(st: Option<Status>, codec: Codec)
    requires st.None? || st.value.s.None?
    ensures Code(st) == OK && Message(st) == "" && StatusString(st) == ""
    ensures DecodeDetails(st, codec).None?
    ensures ErrOf(st).NilError?
    ensures st.None? ==> Proto(st).None?
  {
  }

  /** `FromProto` followed by `Proto` gives back the record, and `Proto`
      followed by `FromProto` gives back a non-nil status. */
  lemma ProtoRoundTrip(p: Option<StatusProto>, st: Option<Status>)
    ensures Proto(FromProto(p)) == p
    ensures st.Some? ==> FromProto(Proto(st)) == st
  {
  }

  /** The OK/nil invariant: an error is produced exactly for a non-OK code,
      and an error never reports OK. */
  lemma ErrorNeverOk(st: Option<Status>)
    ensures ErrOf(st).NilError? <==> Code(st) == OK
    ensures ErrOf(st).StatusError? ==> ErrorCode(ErrOf(st).err) != OK
  {
  }

  /** `Err(OK, msg)` is nil whatever the message. */
  lemma ErrOkIsNil(msg: string, chain: seq<Uintptr>, formatTrace: seq<Frame> -> string, codec: Codec)
    ensures Err(OK, msg, chain, formatTrace, codec).NilError?
    ensures New(OK, msg, chain, formatTrace, codec).None?
  {
  }

  /** As written, `New` drops the marshalling error: when the `DebugInfo`
      does not marshal, even a non-OK code gives a nil status and `Err`
      gives a nil error. */
  lemma ErrNilOnMarshalFailure(c: StatusCode, msg: string, chain: seq<Uintptr>,
                               formatTrace: seq<Frame> -> string, codec: Codec)
    requires c != OK
    requires codec.marshalAny(DebugInfo([CapturedTrace(chain, formatTrace)])).Failure?
    ensures New(c, msg, chain, formatTrace, codec).None?
    ensures Err(c, msg, chain, formatTrace, codec).NilError?
  {
  }

  /** Details attached by `WithDetails` decode back to the messages given,
      after the decoding of the details that were already there. */
  lemma DetailsAfterWithDetails(st: Option<Status>, codec: Codec, msgs: seq<ProtoMessage>)
    requires RoundTrips(codec)
    requires AppendDetails(st, codec, msgs).Success?
    ensures DecodeDetails(Some(AppendDetails(st, codec, msgs).value), codec)
            == Some(DecodeAll(codec, Anys(st)) + DecodedAll(msgs))
  {
    var r := Some(AppendDetails(st, codec, msgs).value);
    var n := |Anys(st)|;
    var got := DecodeDetails(r, codec).value;
    var want := DecodeAll(codec, Anys(st)) + DecodedAll(msgs);
    assert |got| == |want|;
    forall i | 0 <= i < |got| ensures got[i] == want[i] {
      if i < n {
        assert Anys(r)[i] == Anys(r)[..n][i] == Anys(st)[i];
      } else {
        var m := msgs[i - n];
        assert codec.marshalAny(m) == Success(Anys(r)[i]);
        assert codec.unmarshalAny(Anys(r)[i]) == Success(m);
      }
    }
    assert got == want;
  }

  /** A status built by `New` with a non-OK code, when its `DebugInfo`
      marshals, has that code and message, converts to an error, carries a
      capture of at most `Depth` frames, and decodes to exactly one detail:
      that `DebugInfo`. */
  lemma NewDetails(c: StatusCode, msg: string, chain: seq<Uintptr>,
                   formatTrace: seq<Frame> -> string, codec: Codec)
    requires c != OK && RoundTrips(codec)
    requires codec.marshalAny(DebugInfo([CapturedTrace(chain, formatTrace)])).Success?
    ensures var st := New(c, msg, chain, formatTrace, codec);
            st.Some? && Code(st) == c && Message(st) == msg && ErrOf(st).StatusError?
            && DecodeDetails(st, codec) == Some([Decoded(DebugInfo([CapturedTrace(chain, formatTrace)]))])
    ensures |Capture(chain)| <= Depth
  {
    var st := New(c, msg, chain, formatTrace, codec);
    var debug := DebugInfo([CapturedTrace(chain, formatTrace)]);
    assert Anys(st) == [codec.marshalAny(debug).value];
    assert codec.unmarshalAny(Anys(st)[0]) == Success(debug);
    assert DecodeOne(codec, Anys(st)[0]) == Decoded(debug);
    assert DecodeDetails(st, codec).value == [Decoded(debug)];
  }

  /** `Is` is reflexive on every error it accepts as a receiver. */
  lemma IsReflexive(e: Error)
    requires e.s.Some?
    ensures Is(e, StatusError(e))
  {
  }

  /** `Is` is symmetric. */
  lemma IsSymmetric(e: Error, f: Error)
    requires e.s.Some? && f.s.Some?
    ensures Is(e, StatusError(f)) == Is(f, StatusError(e))
  {
  }

  /** Two errors built by `Err` with the same code and message but at call
      chains whose traces render differently are not equivalent: `Is`
      compares the `DebugInfo` detail as well. */
  lemma IsSeesCapturedTrace(c: StatusCode, msg: string, chain1: seq<Uintptr>, chain2: seq<Uintptr>,
                            formatTrace: seq<Frame> -> string, codec: Codec)
    requires c != OK && RoundTrips(codec)
    requires codec.marshalAny(DebugInfo([CapturedTrace(chain1, formatTrace)])).Success?
    requires codec.marshalAny(DebugInfo([CapturedTrace(chain2, formatTrace)])).Success?
    requires CapturedTrace(chain1, formatTrace) != CapturedTrace(chain2, formatTrace)
    ensures Err(c, msg, chain1, formatTrace, codec).StatusError?
    ensures Err(c, msg, chain2, formatTrace, codec).StatusError?
    ensures !Is(Err(c, msg, chain1, formatTrace, codec).err, Err(c, msg, chain2, formatTrace, codec))
  {
  }
}
