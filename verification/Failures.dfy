// The wires outside the grammar: which of them fails with which error.

module Failures {
  import opened Base
  import opened Wire
  import opened Wkt
  import opened Schema
  import opened Records
  import opened Maps
  import opened Format
  import opened Grammar

  // ---------------------------------------------------------------- payloads, scalars and fields to skip

  /** A length that cannot be read, or that says more than there is. */
  ghost predicate LengthFails(data: bytes, e: Error) {
    if NoVarintFirst(data) then e == InvalidVarint
    else e == BufferTooShort && exists t: nat, len: nat :: VarintFirst(data, t, len) && |data| < t + len
  }

  lemma LengthFailsIff(data: bytes, e: Error)
    ensures ReadLength(data) == Err(e) <==> LengthFails(data, e)
  {
    hide ReadVarint, VarintFirst, NoVarintFirst;
    NoVarintIff(data);
    if ReadVarint(data).Some? {
      VarintIff(data, ReadVarint(data).value.n, ReadVarint(data).value.v);
    }
    if t: nat, len: nat :| VarintFirst(data, t, len) && |data| < t + len {
      VarintIff(data, t, len);
    }
  }

  ghost predicate PayloadFails(data: bytes, wire: nat, e: Error) {
    if wire != 2 then e == InvalidWireType else LengthFails(data, e)
  }

  lemma PayloadFailsIff(data: bytes, wire: nat, e: Error)
    ensures ReadPayload(wire, data) == Err(e) <==> PayloadFails(data, wire, e)
  {
    hide ReadLength, LengthFails;
    LengthFailsIff(data, e);
  }

  /** A string of a fixed length is refused for its length before it is found to
      be cut short. */
  ghost predicate ScalarFails(data: bytes, k: Kind, e: Error) {
    if WireTypeOf(k) == 0 then e == InvalidVarint && NoVarintFirst(data)
    else if WireTypeOf(k) != 2 then e == BufferTooShort && |data| < if EightBytes(k) then 8 else 4
    else if WrongLength(data, k) then e == InvalidLength
    else LengthFails(data, e)
  }

  ghost predicate WrongLength(data: bytes, k: Kind) {
    k.FixedBytes? && exists t: nat, len: nat :: VarintFirst(data, t, len) && len != k.len
  }

  lemma WrongLengthIff(data: bytes, k: Kind)
    ensures WrongLength(data, k) <==> k.FixedBytes? && ReadVarint(data).Some? && ReadVarint(data).value.v != k.len
  {
    hide ReadVarint, VarintFirst;
    if ReadVarint(data).Some? {
      VarintIff(data, ReadVarint(data).value.n, ReadVarint(data).value.v);
    }
    if WrongLength(data, k) {
      var t: nat, len: nat :| VarintFirst(data, t, len) && len != k.len;
      VarintIff(data, t, len);
    }
  }

  lemma ScalarFailsIff(data: bytes, k: Kind, e: Error)
    ensures ReadScalar(k, data) == Err(e) <==> ScalarFails(data, k, e)
  {
    hide ReadVarint, LengthFails, WrongLength, NoVarintFirst;
    NoVarintIff(data);
    LengthFailsIff(data, e);
    WrongLengthIff(data, k);
  }

  ghost predicate SkipFails(data: bytes, wire: nat, e: Error) {
    if wire == 0 then e == InvalidVarint && NoVarintFirst(data)
    else if wire == 1 then e == BufferTooShort && |data| < 8
    else if wire == 2 then LengthFails(data, e)
    else if wire == 5 then e == BufferTooShort && |data| < 4
    else e == InvalidWireType
  }

  lemma SkipFailsIff(data: bytes, wire: nat, e: Error)
    ensures SkipField(data, wire) == Err(e) <==> SkipFails(data, wire, e)
  {
    hide ReadVarint, ReadLength, LengthFails, NoVarintFirst;
    NoVarintIff(data);
    LengthFailsIff(data, e);
  }

  // ---------------------------------------------------------------- packed runs

  ghost predicate ElementsFail(data: bytes, k: Kind, left: int, e: Error)
    decreases |data|
  {
    && left >= Least(k)
    && (|| ScalarFails(data, k, e)
        || exists n: nat, s: Scalar :: 0 < n <= |data| && ScalarFirst(data, n, k, s) && ElementsFail(data[n..], k, left - n, e))
  }

  lemma ElementsFailStep(data: bytes, k: Kind, left: int, e: Error)
    ensures ElementsFail(data, k, left, e) <==>
            && left >= Least(k)
            && (|| ScalarFails(data, k, e)
                || var x := ReadScalar(k, data); x.Ok? && ElementsFail(data[x.value.n..], k, left - x.value.n, e))
  {
    hide ReadScalar, ScalarFirst, ScalarFails, Least;
    if ReadScalar(k, data).Ok? {
      ScalarIff(data, ReadScalar(k, data).value.n, k, ReadScalar(k, data).value.v);
    }
    forall n: nat, s: Scalar | ScalarFirst(data, n, k, s)
      ensures ReadScalar(k, data) == Ok(Read(s, n))
    {
      ScalarIff(data, n, k, s);
    }
  }

  lemma {:induction false} ElementsFailIff(data: bytes, k: Kind, left: int, e: Error)
    requires WireTypeOf(k) != 2
    ensures ReadElements(k, data, left) == Err(e) <==> ElementsFail(data, k, left, e)
    decreases |data|
  {
    hide ReadScalar, ScalarFails, LeastElement, Least, WireTypeOf, ReadElements, ElementsFail;
    LeastSpelled(k);
    ElementsFailStep(data, k, left, e);
    if left >= LeastElement(k) {
      ElementsParts(k, data, left);
      ScalarFailsIff(data, k, e);
      if ReadScalar(k, data).Ok? {
        var n := ReadScalar(k, data).value.n;
        ElementsFailIff(data[n..], k, left - n, e);
      }
    } else {
      NoneLeft(k, data, left);
    }
  }

  ghost predicate RunFails(data: bytes, k: Kind, e: Error) {
    || LengthFails(data, e)
    || exists t: nat, len: nat :: VarintFirst(data, t, len) && t + len <= |data| && ElementsFail(data[t..], k, len, e)
  }

  lemma RunFailsIff(data: bytes, k: Kind, e: Error)
    requires WireTypeOf(k) != 2
    ensures ReadRun(k, 2, data) == Err(e) <==> RunFails(data, k, e)
  {
    hide ReadVarint, VarintFirst, LengthFails, ElementsFail, ReadElements, WireTypeOf;
    LengthFailsIff(data, e);
    if ReadLength(data).Ok? {
      var len := ReadLength(data).value;
      VarintIff(data, len.n, len.v);
      ElementsFailIff(data[len.n..], k, len.v, e);
    }
    if t: nat, len: nat :| VarintFirst(data, t, len) && t + len <= |data| && ElementsFail(data[t..], k, len, e) {
      VarintIff(data, t, len);
    }
  }

  // ---------------------------------------------------------------- map entries

  ghost predicate PartFails(data: bytes, m: Shape, e: Error)
    requires m.Map?
  {
    || (e == InvalidVarint && NoVarintFirst(data))
    || exists t: nat, tag: nat :: t <= |data| && VarintFirst(data, t, tag) && PartBodyFails(data[t..], m, tag, e)
  }

  ghost predicate PartBodyFails(rest: bytes, m: Shape, tag: nat, e: Error)
    requires m.Map?
  {
    if tag / 8 == 1 then ScalarFails(rest, EntryKind(m.key), e)
    else if tag / 8 == 2 then ScalarFails(rest, EntryKind(m.val), e)
    else SkipFails(rest, tag % 8, e)
  }

  lemma PartBodyFailsIff(rest: bytes, m: Shape, tag: nat, e: Error)
    requires m.Map?
    ensures ReadPartBody(m.key, m.val, tag, rest) == Err(e) <==> PartBodyFails(rest, m, tag, e)
  {
    hide ReadScalar, ScalarFails, SkipField, SkipFails, EntryKind;
    ScalarFailsIff(rest, EntryKind(m.key), e);
    ScalarFailsIff(rest, EntryKind(m.val), e);
    SkipFailsIff(rest, tag % 8, e);
  }

  lemma PartFailsIff(data: bytes, m: Shape, e: Error)
    requires m.Map?
    ensures ReadPart(m.key, m.val, data) == Err(e) <==> PartFails(data, m, e)
  {
    hide ReadVarint, VarintFirst, NoVarintFirst, ReadPartBody, PartBodyFails;
    NoVarintIff(data);
    if ReadVarint(data).Some? {
      var tag := ReadVarint(data).value;
      VarintIff(data, tag.n, tag.v);
      PartBodyFailsIff(data[tag.n..], m, tag.v, e);
    }
    forall t: nat, tag: nat | VarintFirst(data, t, tag)
      ensures ReadVarint(data) == Some(Read(tag, t))
    {
      VarintIff(data, t, tag);
    }
  }

  /** Sub-fields as in an entry, and then one that fails. */
  ghost predicate EntryFails(data: bytes, m: Shape, e: Error)
    requires m.Map?
    decreases |data|
  {
    && data != []
    && (|| PartFails(data, m, e)
        || exists n: nat, p: Part :: 0 < n <= |data| && PartFirst(data, n, m, p) && EntryFails(data[n..], m, e))
  }

  lemma {:induction false} PartsFailIff(data: bytes, m: Shape, e: Error)
    requires m.Map?
    ensures ReadParts(m.key, m.val, data) == Err(e) <==> EntryFails(data, m, e)
    decreases |data|
  {
    hide ReadPart, PartFirst, PartFails;
    if data != [] {
      PartFailsIff(data, m, e);
      if ReadPart(m.key, m.val, data).Ok? {
        var p := ReadPart(m.key, m.val, data).value;
        PartIff(data, p.n, m, p.v);
        PartsFailIff(data[p.n..], m, e);
      }
      if n: nat, p: Part :| 0 < n <= |data| && PartFirst(data, n, m, p) && EntryFails(data[n..], m, e) {
        PartIff(data, n, m, p);
      }
    }
  }

  lemma EntryFailsIff(data: bytes, m: Shape, e: Error)
    requires m.Map?
    ensures ReadEntry(m.key, m.val, EmptyEntry(m.key, m.val), data) == Err(e) <==> EntryFails(data, m, e)
  {
    hide ReadParts, ReadEntry, LastKey, LastVal, Default, EntryKind, EntryFails;
    EntryIsLastKeyAndValue(m.key, m.val, Default(EntryKind(m.key)), Default(EntryKind(m.val)), data);
    PartsFailIff(data, m, e);
  }

  // ---------------------------------------------------------------- Timestamp and Duration bodies

  ghost predicate StampPartFails(data: bytes, e: Error) {
    || (e == InvalidVarint && NoVarintFirst(data))
    || exists t: nat, tag: nat :: t <= |data| && VarintFirst(data, t, tag) && StampBodyFails(data[t..], tag, e)
  }

  ghost predicate StampBodyFails(rest: bytes, tag: nat, e: Error) {
    if tag / 8 in {1, 2} then e == InvalidVarint && NoVarintFirst(rest) else SkipFails(rest, tag % 8, e)
  }

  lemma StampPartFailsIff(data: bytes, s: Stamp, e: Error)
    ensures ReadStampField(s, data) == Err(e) <==> StampPartFails(data, e)
  {
    hide ReadVarint, VarintFirst, NoVarintFirst, SkipField, SkipFails, ToInt64, ToInt32;
    NoVarintIff(data);
    if ReadVarint(data).Some? {
      var tag := ReadVarint(data).value;
      VarintIff(data, tag.n, tag.v);
      NoVarintIff(data[tag.n..]);
      SkipFailsIff(data[tag.n..], tag.v % 8, e);
    }
    if t: nat, tag: nat :| t <= |data| && VarintFirst(data, t, tag) && StampBodyFails(data[t..], tag, e) {
      VarintIff(data, t, tag);
    }
  }

  ghost predicate StampFails(data: bytes, e: Error)
    decreases |data|
  {
    && data != []
    && (|| StampPartFails(data, e)
        || exists n: nat, s: Stamp, to: Stamp :: 0 < n <= |data| && StampPartFirst(data, n, s, to) && StampFails(data[n..], e))
  }

  lemma {:induction false} StampFailsIff(data: bytes, s: Stamp, e: Error)
    ensures ReadStamp(s, data) == Err(e) <==> StampFails(data, e)
    decreases |data|
  {
    hide ReadStampField, StampPartFirst, StampPartFails;
    if data != [] {
      StampPartFailsIff(data, s, e);
      if ReadStampField(s, data).Ok? {
        var r := ReadStampField(s, data).value;
        StampPartIff(data, r.n, s, r.v);
        StampFailsIff(data[r.n..], r.v, e);
      }
      if n: nat, a: Stamp, to: Stamp :| 0 < n <= |data| && StampPartFirst(data, n, a, to) && StampFails(data[n..], e) {
        StampPartIff(data, n, a, to);
        StampPartAlike(data, a, s);
      }
    }
  }

  /** Whether and how far a sub-field is read does not depend on what it changes. */
  lemma StampPartAlike(data: bytes, a: Stamp, b: Stamp)
    requires ReadStampField(a, data).Ok?
    ensures ReadStampField(b, data).Ok? && ReadStampField(b, data).value.n == ReadStampField(a, data).value.n
  {
    hide ReadVarint, SkipField, ToInt64, ToInt32;
  }

  // ---------------------------------------------------------------- records and messages

  ghost predicate OneFails(data: bytes, k: Kind, wire: nat, e: Error) {
    if wire != WireTypeOf(k) then e == InvalidWireType else ScalarFails(data, k, e)
  }

  ghost predicate ContentFails(file: File, shape: Shape, wire: nat, data: bytes, e: Error)
    decreases |data|, 3
  {
    if shape.Singular? || shape.Optional? then OneFails(data, shape.k, wire, e)
    else if shape.Repeated? then
      if wire == 2 && WireTypeOf(shape.k) != 2 then RunFails(data, shape.k, e) else OneFails(data, shape.k, wire, e)
    else
      || PayloadFails(data, wire, e)
      || (wire == 2 && exists n: nat, p: bytes :: |p| < |data| && PayloadFirst(data, n, p) && FramedFails(file, shape, p, e))
  }

  ghost predicate FramedFails(file: File, shape: Shape, p: bytes, e: Error)
    decreases |p|, 2
  {
    match shape
    case Map(_, _) => EntryFails(p, shape, e)
    case Nested(ref, _) => MessageFails(file, ref, p, e)
    case NestedList(ref, _) => MessageFails(file, ref, p, e)
    case _ => StampFails(p, e)
  }

  /** No tag, or one whose content fails. */
  ghost predicate RecordFails(file: File, ref: nat, data: bytes, e: Error)
    decreases |data|, 0
  {
    || (e == InvalidTag && NoVarintFirst(data))
    || exists t: nat, tag: nat :: 0 < t <= |data| && VarintFirst(data, t, tag) && RecordBodyFails(file, ref, data[t..], tag, e)
  }

  ghost predicate RecordBodyFails(file: File, ref: nat, rest: bytes, tag: nat, e: Error)
    decreases |rest|, 4
  {
    if forall i | 0 <= i < |Fields(file, ref)| :: Fields(file, ref)[i].num != tag / 8 then SkipFails(rest, tag % 8, e)
    else exists i :: 0 <= i < |Fields(file, ref)| && Fields(file, ref)[i].num == tag / 8
                     && ContentFails(file, Fields(file, ref)[i].shape, tag % 8, rest, e)
  }

  /** Records, and then one that fails. */
  ghost predicate MessageFails(file: File, ref: nat, data: bytes, e: Error)
    decreases |data|, 1
  {
    && data != []
    && (|| RecordFails(file, ref, data, e)
        || exists n: nat, r: Rec :: 0 < n <= |data| && RecordFirst(file, ref, data, n, r) && MessageFails(file, ref, data[n..], e))
  }

  lemma OneFailsIff(data: bytes, k: Kind, wire: nat, e: Error)
    ensures ReadSingle(k, wire, data) == Err(e) <==> OneFails(data, k, wire, e)
  {
    hide ReadScalar, ScalarFails, WireOf, WireTypeOf;
    WireTypes(k);
    ScalarFailsIff(data, k, e);
  }

  lemma ManyFailsIff(file: File, data: bytes, k: Kind, wire: nat, e: Error)
    ensures ReadMany(k, wire, data) == Err(e) <==> ContentFails(file, Repeated(k), wire, data, e)
  {
    hide ReadSingle, OneFails, ReadRun, RunFails, WireOf, WireTypeOf;
    WireTypes(k);
    if wire == 2 && WireTypeOf(k) != 2 {
      RunFailsIff(data, k, e);
    } else {
      SingleRun(k, wire, data);
      OneFailsIff(data, k, wire, e);
    }
  }

  lemma {:induction false} ContentFailsIff(file: File, shape: Shape, wire: nat, data: bytes, e: Error)
    requires ValidFile(file)
    ensures ReadDelta(file, shape, wire, data) == Err(e) <==> ContentFails(file, shape, wire, data, e)
    decreases |data|, 3
  {
    hide ValidFile, ReadSingle, OneFails, ReadMany, RunFails, ReadPayload, PayloadFirst, PayloadFails, ReadFramed, FramedFails;
    if shape.Singular? || shape.Optional? {
      OneFailsIff(data, shape.k, wire, e);
    } else if shape.Repeated? {
      ManyFailsIff(file, data, shape.k, wire, e);
    } else {
      PayloadFailsIff(data, wire, e);
      if ReadPayload(wire, data).Ok? {
        var p := ReadPayload(wire, data).value;
        PayloadIff(data, p.n, wire, p.v);
        FramedFailsIff(file, shape, p.v, e);
      }
      if n: nat, p: bytes :| |p| < |data| && PayloadFirst(data, n, p) && FramedFails(file, shape, p, e) {
        PayloadIff(data, n, wire, p);
      }
    }
  }

  lemma {:induction false} FramedFailsIff(file: File, shape: Shape, p: bytes, e: Error)
    requires ValidFile(file)
    ensures ReadFramed(file, shape, p) == Err(e) <==> FramedFails(file, shape, p, e)
    decreases |p|, 2
  {
    hide ValidFile, ReadEntry, EntryFails, ReadStamp, StampFails, EmptyEntry;
    if shape.Map? {
      EntryFailsIff(p, shape, e);
    } else if shape.Nested? || shape.NestedList? {
      MessageFailsIff(file, shape.ref, p, e);
    } else {
      StampFailsIff(p, Stamp(0, 0), e);
    }
  }

  lemma {:induction false} RecordBodyFailsIff(file: File, ref: nat, data: bytes, tag: Read<nat>, e: Error)
    requires ValidFile(file) && ReadVarint(data) == Some(tag)
    ensures ReadRecord(file, ref, data) == Err(e) <==> RecordBodyFails(file, ref, data[tag.n..], tag.v, e)
    decreases |data| - tag.n, 4
  {
    hide ValidFile, ReadVarint, ReadDelta, ContentFails, SkipField, SkipFails, FindField, ReadRecord;
    RecordParts(file, ref, data);
    var rest := data[tag.n..];
    match FindField(Fields(file, ref), tag.v / 8)
    case None => SkipFailsIff(rest, tag.v % 8, e);
    case Some(k) =>
      ContentFailsIff(file, Fields(file, ref)[k].shape, tag.v % 8, rest, e);
      forall i | 0 <= i < |Fields(file, ref)| && Fields(file, ref)[i].num == tag.v / 8
        ensures i == k
      {
        Declared(file, ref, i);
      }
  }

  lemma {:induction false} RecordFailsIff(file: File, ref: nat, data: bytes, e: Error)
    requires ValidFile(file)
    ensures ReadRecord(file, ref, data) == Err(e) <==> RecordFails(file, ref, data, e)
    decreases |data|, 0
  {
    hide ValidFile, ReadVarint, VarintFirst, NoVarintFirst, RecordBodyFails, ReadRecord;
    NoVarintIff(data);
    if ReadVarint(data).Some? {
      var tag := ReadVarint(data).value;
      VarintIff(data, tag.n, tag.v);
      RecordBodyFailsIff(file, ref, data, tag, e);
    } else {
      RecordParts(file, ref, data);
    }
    if t: nat, tag: nat :| 0 < t <= |data| && VarintFirst(data, t, tag) && RecordBodyFails(file, ref, data[t..], tag, e) {
      VarintIff(data, t, tag);
    }
  }

  /** A decode fails with the error of the first record that fails. */
  lemma {:induction false} MessageFailsIff(file: File, ref: nat, data: bytes, e: Error)
    requires ValidFile(file)
    ensures ReadMessage(file, ref, data) == Err(e) <==> MessageFails(file, ref, data, e)
    decreases |data|, 1
  {
    hide ValidFile, ReadRecord, RecordFirst, RecordFails;
    if data != [] {
      RecordFailsIff(file, ref, data, e);
      if ReadRecord(file, ref, data).Ok? {
        var r := ReadRecord(file, ref, data).value;
        RecordSpelled(file, ref, data);
        MessageFailsIff(file, ref, data[r.n..], e);
      }
      if n: nat, r: Rec :| 0 < n <= |data| && RecordFirst(file, ref, data, n, r) && MessageFails(file, ref, data[n..], e) {
        RecordRead(file, ref, data, n, r);
      }
    }
  }
}
