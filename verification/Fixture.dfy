// The messages of lang/go/integration as descriptions: every one of them is a
// message the general results speak of, and what they mean for each.

module Fixture {
  import opened Base
  import opened Schema
  import opened Records
  import opened Values
  import opened Encoder
  import opened Decoder
  import opened Typing
  import opened Canonical
  import opened Prescan
  import opened Reader
  import opened Resets
  import opened Matching
  import opened Forgetting
  import opened Reuse

  const INNER := 0
  const CONTAINER := 1
  const VALUE_CONTAINER := 2
  const TREE := 3
  const NUMERIC_ONLY := 4
  const PACKED_ZIGZAG := 5
  const MAP_HOLDER := 6
  const BOOL_MAP_HOLDER := 7
  const TIME_HOLDER := 8
  const EXTERNAL := 9
  const CROSS_CONTAINER := 10
  const ONEOF_PAYLOAD := 11

  const INNER_INFO := Info([Field(1, Singular(String), None), Field(2, Singular(Int64), None)], [])
  const CONTAINER_INFO := Info([
    Field(1, Singular(String), None),
    Field(2, Nested(INNER, true), None),
    Field(3, NestedList(INNER, true), None)], [])
  const VALUE_CONTAINER_INFO := Info([
    Field(1, Singular(String), None),
    Field(2, Nested(INNER, false), None),
    Field(3, NestedList(INNER, false), None)], [])
  const TREE_INFO := Info([Field(1, Singular(String), None), Field(2, NestedList(TREE, true), None)], [])
  const NUMERIC_ONLY_INFO := Info([
    Field(1, Singular(Uint32), None), Field(2, Singular(Uint64), None), Field(3, Singular(Int64), None),
    Field(4, Singular(Sfixed64), None), Field(5, Singular(Bool), None), Field(6, Singular(Sint32), None),
    Field(7, Singular(Sint64), None), Field(8, Optional(Int32), None), Field(9, Optional(Bool), None),
    Field(10, Optional(Sfixed64), None)], [])
  const PACKED_ZIGZAG_INFO := Info([Field(1, Repeated(Sint32), None), Field(2, Repeated(Sint64), None)], [])
  const MAP_HOLDER_INFO := Info([Field(1, Map(String, String), None), Field(2, Map(String, Int64), None)], [])
  const BOOL_MAP_HOLDER_INFO := Info([Field(1, Map(Bool, String), None)], [])
  const TIME_HOLDER_INFO := Info([Field(1, Timestamp, None), Field(2, Duration, None)], [])
  const EXTERNAL_INFO := Info([Field(1, Singular(String), None), Field(2, Singular(Int64), None)], [])
  const CROSS_CONTAINER_INFO := Info([
    Field(1, Singular(String), None),
    Field(2, Nested(EXTERNAL, true), None),
    Field(3, NestedList(EXTERNAL, false), None),
    Field(4, NestedList(EXTERNAL, true), None)], [])

  const ONEOF_PAYLOAD_INFO := Info([
    Field(1, Singular(String), None),
    Field(10, Singular(String), Some(0)),
    Field(11, Singular(Int64), Some(0)),
    Field(12, Nested(INNER, false), Some(0)),
    Field(13, Singular(Bytes), Some(0)),
    Field(14, Singular(Sfixed64), Some(0))], [[10, 11, 12, 13, 14]])

  const INTEGRATION: File := [
    INNER_INFO, CONTAINER_INFO, VALUE_CONTAINER_INFO, TREE_INFO, NUMERIC_ONLY_INFO, PACKED_ZIGZAG_INFO, MAP_HOLDER_INFO,
    BOOL_MAP_HOLDER_INFO, TIME_HOLDER_INFO, EXTERNAL_INFO, CROSS_CONTAINER_INFO, ONEOF_PAYLOAD_INFO]

  // ---------------------------------------------------------------- descriptions the emitters accept

  predicate Ascending(fields: seq<Field>) {
    forall i | 0 <= i < |fields| - 1 :: fields[i].num < fields[i + 1].num
  }

  lemma {:induction false} AscendingFrom(fields: seq<Field>, i: nat, j: nat)
    requires Ascending(fields) && i < j < |fields|
    ensures fields[i].num < fields[j].num
    decreases j - i
  {
    if i + 1 < j {
      AscendingFrom(fields, i, j - 1);
    }
  }

  lemma PlainInfo(owner: nat, info: Info)
    requires info.oneofs == [] && Ascending(info.fields)
    requires forall i | 0 <= i < |info.fields| :: info.fields[i].oneof == None && Supported(owner, info.fields[i])
    ensures ValidInfo(owner, info)
  {
    hide Supported, Ascending;
    forall i, j | 0 <= i < j < |info.fields|
      ensures info.fields[i].num != info.fields[j].num
    {
      AscendingFrom(info.fields, i, j);
    }
  }

  /** Every message of the fixture is one the emitters handle. */
  lemma IntegrationValid()
    ensures ValidFile(INTEGRATION)
  {
    hide ValidInfo;
    ScalarMessages();
    HolderMessages();
    NestingMessages();
    OneofPayloadValid();
  }

  lemma ScalarMessages()
    ensures ValidInfo(0, INNER_INFO) && ValidInfo(4, NUMERIC_ONLY_INFO)
    ensures ValidInfo(5, PACKED_ZIGZAG_INFO) && ValidInfo(9, EXTERNAL_INFO)
  {
    hide ValidInfo;
    assert ValidInfo(0, INNER_INFO) by { PlainInfo(0, INNER_INFO); }
    assert ValidInfo(4, NUMERIC_ONLY_INFO) by { PlainInfo(4, NUMERIC_ONLY_INFO); }
    assert ValidInfo(5, PACKED_ZIGZAG_INFO) by { PlainInfo(5, PACKED_ZIGZAG_INFO); }
    assert ValidInfo(9, EXTERNAL_INFO) by { PlainInfo(9, EXTERNAL_INFO); }
  }

  lemma HolderMessages()
    ensures ValidInfo(6, MAP_HOLDER_INFO) && ValidInfo(7, BOOL_MAP_HOLDER_INFO) && ValidInfo(8, TIME_HOLDER_INFO)
  {
    hide ValidInfo;
    assert ValidInfo(6, MAP_HOLDER_INFO) by { PlainInfo(6, MAP_HOLDER_INFO); }
    assert ValidInfo(7, BOOL_MAP_HOLDER_INFO) by { PlainInfo(7, BOOL_MAP_HOLDER_INFO); }
    assert ValidInfo(8, TIME_HOLDER_INFO) by { PlainInfo(8, TIME_HOLDER_INFO); }
  }

  lemma NestingMessages()
    ensures ValidInfo(1, CONTAINER_INFO) && ValidInfo(2, VALUE_CONTAINER_INFO)
    ensures ValidInfo(3, TREE_INFO) && ValidInfo(10, CROSS_CONTAINER_INFO)
  {
    hide ValidInfo;
    assert ValidInfo(1, CONTAINER_INFO) by { PlainInfo(1, CONTAINER_INFO); }
    assert ValidInfo(2, VALUE_CONTAINER_INFO) by { PlainInfo(2, VALUE_CONTAINER_INFO); }
    assert ValidInfo(3, TREE_INFO) by { PlainInfo(3, TREE_INFO); }
    assert ValidInfo(10, CROSS_CONTAINER_INFO) by { PlainInfo(10, CROSS_CONTAINER_INFO); }
  }

  lemma OneofPayloadValid()
    ensures ValidInfo(11, ONEOF_PAYLOAD_INFO)
  {
    assert Ascending(ONEOF_PAYLOAD_INFO.fields);
    forall i, j | 0 <= i < j < |ONEOF_PAYLOAD_INFO.fields|
      ensures ONEOF_PAYLOAD_INFO.fields[i].num != ONEOF_PAYLOAD_INFO.fields[j].num
    {
    }
    OneofPayloadAgrees();
  }

  lemma OneofPayloadAgrees()
    ensures OneofsAgree(ONEOF_PAYLOAD_INFO)
  {
    hide FindField;
    forall n | n in ONEOF_PAYLOAD_INFO.oneofs[0]
      ensures FindField(ONEOF_PAYLOAD_INFO.fields, n).Some?
    {
      assert ONEOF_PAYLOAD_INFO.fields[n - 9].num == n;
    }
  }

  // ---------------------------------------------------------------- what each of them forgets

  /** Pointers are pooled everywhere, and only Inner is held inline. */
  lemma AllLetGo(ref: nat)
    ensures LetsGo(INTEGRATION, ref)
  {
    AllPool(ref);
    InlineIsInner(ref);
    assert NoPointers(INTEGRATION, INNER);
    hide Pooling, NoPointers, INTEGRATION;
  }

  lemma InlineIsInner(ref: nat)
    ensures forall i | 0 <= i < |Fields(INTEGRATION, ref)| ::
              var shape := ShapeAt(INTEGRATION, ref, i); shape.Nested? && !shape.pointer ==> shape.ref == INNER
  {
  }

  lemma AllPool(ref: nat)
    ensures Pooling(Fields(INTEGRATION, ref))
  {
  }

  /** Receivers of any message are forgotten but for discriminators. */
  lemma AllForgetful(ref: nat)
    ensures Forgetful(INTEGRATION, ref)
  {
    hide LetsGo, Reaches;
    forall to: nat
      ensures LetsGo(INTEGRATION, to)
    {
      AllLetGo(to);
    }
  }

  lemma {:induction false} OneofPayloadApart(ref: nat, to: nat, n: nat)
    requires ref != ONEOF_PAYLOAD && Reaches(INTEGRATION, ref, to, false, n)
    ensures to != ONEOF_PAYLOAD
    decreases n
  {
    hide Refers;
    if n > 0 {
      var mid: nat :| Refers(INTEGRATION, ref, mid, false) && Reaches(INTEGRATION, mid, to, false, n - 1);
      ReferredTo(ref, mid);
      OneofPayloadApart(mid, to, n - 1);
    }
  }

  lemma ReferredTo(ref: nat, to: nat)
    requires Refers(INTEGRATION, ref, to, false)
    ensures to != ONEOF_PAYLOAD
  {
  }

  lemma PlainHasNoOneofs(ref: nat)
    requires ref != ONEOF_PAYLOAD
    ensures NoOneofs(INTEGRATION, ref)
  {
    hide Reaches;
    forall to: nat, n: nat | Reaches(INTEGRATION, ref, to, false, n)
      ensures Oneofs(INTEGRATION, to) == []
    {
      OneofPayloadApart(ref, to, n);
    }
  }

  /** No message remembers what it held before, but OneofPayload. */
  lemma PlainForgets(ref: nat, recv: Msg, data: bytes)
    requires ref != ONEOF_PAYLOAD && Typed(INTEGRATION, ref, recv)
    ensures Shown(Unmarshal(INTEGRATION, ref, recv, data)) == Shown(Unmarshal(INTEGRATION, ref, Fresh(INTEGRATION, ref), data))
  {
    hide Typed, Unmarshal, ValidFile, NoOneofs, Forgetful, Forgotten, ShadowOf, INTEGRATION, Visible;
    IntegrationValid();
    AllForgetful(ref);
    PlainHasNoOneofs(ref);
    QuietWithoutOneofs(INTEGRATION, ref, recv);
    QuietForgotten(INTEGRATION, ref, recv);
    PooledDecodeIsFreshDecode(INTEGRATION, ref, recv, data);
  }

  /** OneofPayload does: no bytes at all leave Kind as it was. */
  lemma OneofPayloadRemembers(recv: Msg)
    requires Typed(INTEGRATION, ONEOF_PAYLOAD, recv)
    ensures |recv.discs| == 1
    ensures Unmarshal(INTEGRATION, ONEOF_PAYLOAD, recv, []) == Ok(Decode(INTEGRATION, ONEOF_PAYLOAD, recv, []))
    ensures Decode(INTEGRATION, ONEOF_PAYLOAD, recv, []).discs == recv.discs
    ensures Decode(INTEGRATION, ONEOF_PAYLOAD, Fresh(INTEGRATION, ONEOF_PAYLOAD), []).discs == [0]
  {
    hide Pooled, ResetValue, TypedValue, FreshValue;
  }

  /** It forgets everything else: it does so for every wire exactly when Kind
      was unset. */
  lemma OneofPayloadForgetsIff(recv: Msg)
    requires Typed(INTEGRATION, ONEOF_PAYLOAD, recv)
    ensures (forall recs | RecsFit(INTEGRATION, ONEOF_PAYLOAD, recs, true) ::
               Visible(Decode(INTEGRATION, ONEOF_PAYLOAD, recv, recs))
               == Visible(Decode(INTEGRATION, ONEOF_PAYLOAD, Fresh(INTEGRATION, ONEOF_PAYLOAD), recs)))
       <==> recv.discs == [0]
  {
    IntegrationValid();
    ForgetsIff(INTEGRATION, ONEOF_PAYLOAD, recv);
    OneofPayloadForgotten(recv);
    hide ValidFile, Typed, Decode, RecsFit, Fresh, Forgotten, Visible;
  }

  lemma OneofPayloadForgotten(recv: Msg)
    requires Typed(INTEGRATION, ONEOF_PAYLOAD, recv)
    ensures Forgotten(INTEGRATION, ONEOF_PAYLOAD, recv) <==> recv.discs == [0]
  {
    hide ValidFile, Forgetful, TypedValue, ForgottenValue, Untied, ShadowValue;
    assert |recv.discs| == 1;
    if recv.discs == [0] {
      AllForgetful(ONEOF_PAYLOAD);
      PayloadQuiet(recv);
      QuietForgotten(INTEGRATION, ONEOF_PAYLOAD, recv);
    }
  }

  lemma PayloadQuiet(recv: Msg)
    requires Typed(INTEGRATION, ONEOF_PAYLOAD, recv) && recv.discs == [0]
    ensures ShadowOf(INTEGRATION, ONEOF_PAYLOAD, recv) == Quiet
  {
    hide ShadowValue, TypedValue;
    forall i | 0 <= i < |recv.vals|
      ensures ShadowValue(INTEGRATION, ShapeAt(INTEGRATION, ONEOF_PAYLOAD, i), recv.vals[i]) == Quiet
    {
      BranchQuiet(recv, i);
    }
  }

  lemma BranchQuiet(recv: Msg, i: nat)
    requires Typed(INTEGRATION, ONEOF_PAYLOAD, recv) && i < |recv.vals|
    ensures ShadowValue(INTEGRATION, ShapeAt(INTEGRATION, ONEOF_PAYLOAD, i), recv.vals[i]) == Quiet
  {
    hide InKind, ShadowOf, NoOneofs;
    assert TypedValue(INTEGRATION, ShapeAt(INTEGRATION, ONEOF_PAYLOAD, i), recv.vals[i]);
    if i == 3 && recv.vals[i].p.Some? {
      PlainHasNoOneofs(INNER);
      QuietWithoutOneofs(INTEGRATION, INNER, recv.vals[i].p.value);
    }
  }

  // ---------------------------------------------------------------- which of them are stable

  /** Only TimeHolder has a Timestamp field, and no message refers to it: for
      every other one a wire that decodes is stable from the first cycle on. */
  lemma StableButTimeHolder(ref: nat, data: bytes)
    requires ref != TIME_HOLDER && Unmarshal(INTEGRATION, ref, Fresh(INTEGRATION, ref), data).Ok?
    requires |Marshal(INTEGRATION, ref, Unmarshal(INTEGRATION, ref, Fresh(INTEGRATION, ref), data).value)| < MAX_LEN
    ensures var first := Unmarshal(INTEGRATION, ref, Fresh(INTEGRATION, ref), data).value;
            var second := Unmarshal(INTEGRATION, ref, Fresh(INTEGRATION, ref), Marshal(INTEGRATION, ref, first));
            second.Ok? && Marshal(INTEGRATION, ref, second.value) == Marshal(INTEGRATION, ref, first)
  {
    hide ValidFile, Decode, Fresh, ReadMessage, NoEpoch, Typed, RecsFit, Emit, MessageBytes, NoTimestampFields,
         INTEGRATION;
    IntegrationValid();
    UntimedButTimeHolder(ref);
    FreshTyped(INTEGRATION, ref);
    ReadFits(INTEGRATION, ref, data);
    var recs := ReadMessage(INTEGRATION, ref, data).value;
    DecodeTyped(INTEGRATION, ref, Fresh(INTEGRATION, ref), recs);
    NoEpochWithoutTimestamps(INTEGRATION, ref, Decode(INTEGRATION, ref, Fresh(INTEGRATION, ref), recs));
    WireStableIff(INTEGRATION, ref, data);
  }

  lemma UntimedButTimeHolder(ref: nat)
    requires ref != TIME_HOLDER
    ensures NoTimestampFields(INTEGRATION, ref)
  {
    hide Reaches, Untimed;
    forall to: nat, n: nat | Reaches(INTEGRATION, ref, to, true, n)
      ensures Untimed(INTEGRATION, to)
    {
      TimeHolderApart(ref, to, n);
      UntimedHere(to);
    }
  }

  lemma UntimedHere(ref: nat)
    requires ref != TIME_HOLDER
    ensures Untimed(INTEGRATION, ref)
  {
  }

  lemma {:induction false} TimeHolderApart(ref: nat, to: nat, n: nat)
    requires ref != TIME_HOLDER && Reaches(INTEGRATION, ref, to, true, n)
    ensures to != TIME_HOLDER
    decreases n
  {
    hide Refers;
    if n > 0 {
      var mid: nat :| Refers(INTEGRATION, ref, mid, true) && Reaches(INTEGRATION, mid, to, true, n - 1);
      TimeHolderUnused(ref, mid);
      TimeHolderApart(mid, to, n - 1);
    }
  }

  lemma TimeHolderUnused(ref: nat, to: nat)
    requires Refers(INTEGRATION, ref, to, true)
    ensures to != TIME_HOLDER
  {
  }

  // ---------------------------------------------------------------- slabs and slices

  /** The public wrapper passes no slab for these three. */
  lemma SlabUse(ref: nat)
    requires ref < |INTEGRATION|
    ensures NeedsSlab(INTEGRATION[ref].fields) <==> ref !in {NUMERIC_ONLY, PACKED_ZIGZAG, TIME_HOLDER}
  {
    assert ref in {INNER, CONTAINER, VALUE_CONTAINER, TREE, MAP_HOLDER, BOOL_MAP_HOLDER, EXTERNAL, CROSS_CONTAINER, ONEOF_PAYLOAD} ==>
             UsesSlab(INTEGRATION[ref].fields[0].shape);
  }

  /** Slices of messages are allocated once: no message here has both a packed
      field and a repeated message. */
  lemma NeverRegrown(ref: nat, data: bytes)
    requires exists i :: 0 <= i < |Fields(INTEGRATION, ref)| && ShapeAt(INTEGRATION, ref, i).NestedList?
    ensures RunsTight(INTEGRATION, ref, data)
  {
    assert NoPackedFields(Fields(INTEGRATION, ref));
    NoRuns(INTEGRATION, ref, data);
  }
}
