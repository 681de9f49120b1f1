// The capacity pre-scan (generateRepeatedMessagePrescan): a walk over the wire
// by wire type alone that counts the records of repeated messages.

module Prescan {
  import opened Base
  import opened Wire
  import opened Schema
  import opened Records
  import opened Values
  import opened Encoder
  import opened Decoder
  import opened RoundTrip
  import opened Typing

  /** One turn: the bytes passed over, and the field number when a whole
      length-delimited record was passed. A `break` inside the switch leaves
      the switch only, so after a short record the walk goes on behind its tag
      (and behind its length). */
  function Step(data: bytes): (r: Option<Read<Option<nat>>>)
    ensures r.Some? ==> 1 <= r.value.n <= |data|
  {
    match ReadVarint(data)
    case None => None
    case Some(tag) => Some(Body(tag, data[tag.n..]))
  }

  function Body(tag: Read<nat>, rest: bytes): (r: Read<Option<nat>>)
    ensures tag.n <= r.n <= tag.n + |rest|
  {
    var wire := tag.v % 8;
    if wire == 0 then
      match ReadVarint(rest)
      case None => Read(None, tag.n)
      case Some(v) => Read(None, tag.n + v.n)
    else if wire == 1 then Read(None, if |rest| < 8 then tag.n else tag.n + 8)
    else if wire == 2 then
      match ReadVarint(rest)
      case None => Read(None, tag.n)
      case Some(len) =>
        if len.v > |rest| - len.n then Read(None, tag.n + len.n)
        else Read(Some(tag.v / 8), tag.n + len.n + len.v)
    else if wire == 5 then Read(None, if |rest| < 4 then tag.n else tag.n + 4)
    else Read(None, tag.n)
  }

  /** How often the walk passes a record of field `num`. */
  function Count(data: bytes, num: nat): nat
    decreases |data|
  {
    if data == [] then 0
    else
      match Step(data)
      case None => 0
      case Some(s) => (if s.v == Some(num) then 1 else 0) + Count(data[s.n..], num)
  }

  /** The loop with one counter a field, as the emitted code has it. */
  method CountAll(data: bytes, nums: seq<nat>) returns (counts: seq<nat>)
    ensures |counts| == |nums|
    ensures forall k | 0 <= k < |nums| :: counts[k] == Count(data, nums[k])
  {
    hide Step;
    counts := seq(|nums|, k => 0);
    var pi: nat := 0;
    while pi < |data|
      invariant pi <= |data| && |counts| == |nums|
      invariant forall k | 0 <= k < |nums| :: counts[k] + Count(data[pi..], nums[k]) == Count(data, nums[k])
    {
      var s := StepAt(data, pi);
      if s.None? {
        break;
      }
      assert data[pi..][s.value.n..] == data[pi + s.value.n..];
      counts := Bump(counts, nums, s.value.v);
      pi := pi + s.value.n;
    }
  }

  /** One turn of the loop, switch and all. */
  method StepAt(data: bytes, at: nat) returns (r: Option<Read<Option<nat>>>)
    requires at <= |data|
    ensures r == Step(data[at..])
  {
    hide ReadVarint, Body;
    var ptag, pn := DecodeVarint(data[at..]);
    if pn < 0 {
      return None;
    }
    assert data[at..][pn..] == data[at + pn..];
    var body := BodyAt(ptag, pn, data, at + pn);
    return Some(body);
  }

  method BodyAt(ptag: nat, n: nat, data: bytes, start: nat) returns (r: Read<Option<nat>>)
    requires start <= |data|
    ensures r == Body(Read(ptag, n), data[start..])
  {
    hide ReadVarint;
    var l, pi, counted := |data|, start, None;
    var wire := ptag % 8;
    if wire == 0 {
      var _, pn := DecodeVarint(data[pi..]);
      if pn >= 0 {
        pi := pi + pn;
      }
    } else if wire == 1 {
      if pi + 8 <= l {
        pi := pi + 8;
      }
    } else if wire == 2 {
      var len, pn := DecodeVarint(data[pi..]);
      if pn >= 0 {
        pi := pi + pn;
        if len <= l - pi {
          pi := pi + len;
          counted := Some(ptag / 8);
        }
      }
    } else if wire == 5 {
      if pi + 4 <= l {
        pi := pi + 4;
      }
    }
    return Read(counted, n + pi - start);
  }

  function Bump(counts: seq<nat>, nums: seq<nat>, num: Option<nat>): (r: seq<nat>)
    requires |counts| == |nums|
    ensures |r| == |nums|
    ensures forall k | 0 <= k < |nums| :: r[k] == counts[k] + (if num == Some(nums[k]) then 1 else 0)
  {
    seq(|nums|, k requires 0 <= k < |nums| => counts[k] + (if num == Some(nums[k]) then 1 else 0))
  }

  // ---------------------------------------------------------------- exactness

  /** A field that is not packed is passed over by its wire type alone. */
  lemma ReadsLikeSkip(file: File, shape: Shape, wire: nat, data: bytes)
    requires ReadDelta(file, shape, wire, data).Ok?
    requires shape.Repeated? ==> !Packable(shape.k)
    ensures SkipField(data, wire) == Ok(ReadDelta(file, shape, wire, data).value.n)
  {
    hide ReadFramed, ReadVarint, FromVarint, FromFixed, FromLittleEndian;
    match shape
    case Singular(k) => ScalarLikeSkip(k, data);
    case Optional(k) => ScalarLikeSkip(k, data);
    case Repeated(k) => ScalarLikeSkip(k, data);
    case _ =>
  }

  lemma ScalarLikeSkip(k: Kind, data: bytes)
    requires ReadScalar(k, data).Ok?
    ensures SkipField(data, WireOf(k)) == Ok(ReadScalar(k, data).value.n)
  {
    hide ReadVarint, FromVarint, FromFixed, FromLittleEndian;
  }

  lemma StepLikeSkip(tag: Read<nat>, rest: bytes)
    requires SkipField(rest, tag.v % 8).Ok?
    ensures Body(tag, rest) == Read(if tag.v % 8 == 2 then Some(tag.v / 8) else None, tag.n + SkipField(rest, tag.v % 8).value)
  {
    hide ReadVarint;
  }

  predicate NoPackedFields(fields: seq<Field>) {
    forall i | 0 <= i < |fields| :: fields[i].shape.Repeated? ==> !Packable(fields[i].shape.k)
  }

  /** A packed run in front of `data` ends where it says: nothing is read past
      it and nothing in it is left unread. */
  predicate Tight(file: File, ref: nat, data: bytes) {
    match ReadVarint(data)
    case None => true
    case Some(tag) =>
      match FindField(Fields(file, ref), tag.v / 8)
      case None => true
      case Some(k) => TightRun(file, Fields(file, ref)[k].shape, tag.v % 8, data[tag.n..])
  }

  predicate TightRun(file: File, shape: Shape, wire: nat, data: bytes) {
    shape.Repeated? && Packable(shape.k) && wire == LEN_DELIMITED && ReadDelta(file, shape, wire, data).Ok? ==>
      SkipField(data, LEN_DELIMITED) == Ok(ReadDelta(file, shape, wire, data).value.n)
  }

  /** Every packed run the main loop reads ends where it says. */
  predicate RunsTight(file: File, ref: nat, data: bytes)
    decreases |data|
  {
    data != [] && ReadRecord(file, ref, data).Ok? ==>
      Tight(file, ref, data) && RunsTight(file, ref, data[ReadRecord(file, ref, data).value.n..])
  }

  /** The lengths of the records as the walk sees them. */
  function Strides(data: bytes): seq<nat>
    decreases |data|
  {
    if data == [] then []
    else
      match Step(data)
      case None => []
      case Some(s) => [s.n] + Strides(data[s.n..])
  }

  /** The lengths of the records as the main loop reads them. */
  function LoopStrides(file: File, ref: nat, data: bytes): seq<nat>
    decreases |data|
  {
    if data == [] then []
    else
      match ReadRecord(file, ref, data)
      case Err(_) => []
      case Ok(r) => [r.n] + LoopStrides(file, ref, data[r.n..])
  }

  lemma PackedSkips(k: Kind, data: bytes)
    requires ReadRun(k, LEN_DELIMITED, data).Ok?
    ensures SkipField(data, LEN_DELIMITED).Ok?
  {
    hide ReadElements, ReadLength;
  }

  /** A field and its skipping take the same bytes exactly when the run, if it
      is one, is tight. */
  lemma TightIff(file: File, shape: Shape, wire: nat, data: bytes)
    requires ReadDelta(file, shape, wire, data).Ok?
    ensures SkipField(data, wire).Ok?
    ensures SkipField(data, wire) == Ok(ReadDelta(file, shape, wire, data).value.n) <==> TightRun(file, shape, wire, data)
  {
    hide ReadRun, ReadFramed, ReadVarint, ReadScalar, SkipField, ReadPayload;
    if shape.Repeated? && Packable(shape.k) {
      if wire == LEN_DELIMITED {
        PackedSkips(shape.k, data);
      } else {
        SingleLikeSkip(shape.k, wire, data);
      }
    } else {
      ReadsLikeSkip(file, shape, wire, data);
    }
  }

  lemma SingleLikeSkip(k: Kind, wire: nat, data: bytes)
    requires Packable(k) && wire != LEN_DELIMITED && ReadMany(k, wire, data).Ok?
    ensures SkipField(data, wire) == Ok(ReadMany(k, wire, data).value.n)
  {
    hide ReadScalar, SkipField;
    ScalarLikeSkip(k, data);
  }

  /** The record the main loop reads, and what the walk makes of it. */
  lemma RecordStep(file: File, ref: nat, data: bytes)
    requires ReadRecord(file, ref, data).Ok?
    ensures Step(data).Some?
    ensures Step(data).value.n == ReadRecord(file, ref, data).value.n <==> Tight(file, ref, data)
  {
    hide ReadRecord, ReadVarint, ReadDelta, SkipField, Body, FindField, TightRun;
    RecordParts(file, ref, data);
    var tag := ReadVarint(data).value;
    var rest := data[tag.n..];
    match FindField(Fields(file, ref), tag.v / 8)
    case None => StepLikeSkip(tag, rest);
    case Some(k) =>
      TightIff(file, Fields(file, ref)[k].shape, tag.v % 8, rest);
      StepLikeSkip(tag, rest);
  }

  /** The walk counts the record for field `i` exactly when it is one. */
  lemma StepCounts(file: File, ref: nat, data: bytes, i: nat)
    requires DistinctNums(Fields(file, ref)) && i < |Fields(file, ref)| && ShapeAt(file, ref, i).NestedList?
    requires ReadRecord(file, ref, data).Ok?
    ensures Step(data).Some?
    ensures Step(data).value.v == Some(Fields(file, ref)[i].num) <==>
            ReadRecord(file, ref, data).value.v.Known? && ReadRecord(file, ref, data).value.v.idx == i
  {
    hide ReadRecord, ReadVarint, ReadDelta, SkipField, Body, TightRun;
    RecordParts(file, ref, data);
    var tag := ReadVarint(data).value;
    var rest := data[tag.n..];
    match FindField(Fields(file, ref), tag.v / 8)
    case None => StepLikeSkip(tag, rest);
    case Some(k) =>
      TightIff(file, ShapeAt(file, ref, k), tag.v % 8, rest);
      StepLikeSkip(tag, rest);
      if k == i {
        ListIsDelimited(file, ShapeAt(file, ref, i), tag.v % 8, rest);
      }
      assert k < i ==> Fields(file, ref)[k].num != Fields(file, ref)[i].num;
      assert i < k ==> Fields(file, ref)[i].num != Fields(file, ref)[k].num;
  }

  /** The walk sees the records the main loop reads exactly when every packed
      run ends where it says. */
  lemma {:induction false} SameBoundaries(file: File, ref: nat, data: bytes)
    requires ReadMessage(file, ref, data).Ok?
    ensures Strides(data) == LoopStrides(file, ref, data) <==> RunsTight(file, ref, data)
    decreases |data|
  {
    hide ReadRecord, Step, Tight;
    if data != [] {
      var n := ReadRecord(file, ref, data).value.n;
      RecordStep(file, ref, data);
      SameBoundaries(file, ref, data[n..]);
      var s := Step(data).value.n;
      assert Strides(data)[0] == s && Strides(data)[1..] == Strides(data[s..]);
      assert LoopStrides(file, ref, data)[0] == n && LoopStrides(file, ref, data)[1..] == LoopStrides(file, ref, data[n..]);
    }
  }

  lemma ListIsDelimited(file: File, shape: Shape, wire: nat, data: bytes)
    requires shape.NestedList? && ReadDelta(file, shape, wire, data).Ok?
    ensures wire == LEN_DELIMITED
  {
    hide ReadFramed, ReadLength;
  }

  /** Then the pre-scan counts exactly the records of each repeated message. */
  lemma {:induction false} CountIsExact(file: File, ref: nat, data: bytes, i: nat)
    requires DistinctNums(Fields(file, ref)) && i < |Fields(file, ref)| && ShapeAt(file, ref, i).NestedList?
    requires ReadMessage(file, ref, data).Ok? && RunsTight(file, ref, data)
    ensures Count(data, Fields(file, ref)[i].num) == |Deltas(ReadMessage(file, ref, data).value, i)|
    decreases |data|
  {
    hide ReadRecord, Step, DistinctNums, Tight;
    if data != [] {
      var r := ReadRecord(file, ref, data).value;
      RecordStep(file, ref, data);
      StepCounts(file, ref, data, i);
      CountIsExact(file, ref, data[r.n..], i);
    }
  }

  /** A message without packed fields has no run that could fail to. */
  lemma {:induction false} NoRuns(file: File, ref: nat, data: bytes)
    requires NoPackedFields(Fields(file, ref))
    ensures RunsTight(file, ref, data)
    decreases |data|
  {
    hide ReadRecord, ReadDelta, SkipField, ReadVarint, Packable;
    if data != [] && ReadRecord(file, ref, data).Ok? {
      NoRuns(file, ref, data[ReadRecord(file, ref, data).value.n..]);
    }
  }

  // ---------------------------------------------------------------- what the encoder writes

  lemma WrittenRunTight(file: File, ref: nat, r: Rec, suffix: bytes)
    requires ValidFile(file) && RecFits(file, ref, r, false) && |RecordBytes(file, ref, r)| < MAX_LEN
    ensures Tight(file, ref, RecordBytes(file, ref, r) + suffix)
  {
    hide ReadDelta, DeltaBytes, DeltaFits, WireOfShape, TagBytes, ValidFile, FindField, ReadVarint, TagValue, TightRun;
    var f := Fields(file, ref)[r.idx];
    var tag, body := TagBytes(f.num, WireOfShape(f.shape)), DeltaBytes(file, f.shape, r.d);
    Declared(file, ref, r.idx);
    TagRoundTrip(f.num, WireOfShape(f.shape), body + suffix);
    assert tag + body + suffix == tag + (body + suffix);
    DropAppend(tag, body + suffix, |tag|);
    assert tag[|tag|..] + (body + suffix) == body + suffix;
    WrittenBodyTight(file, f.shape, r.d, suffix);
  }

  lemma WrittenBodyTight(file: File, shape: Shape, d: Delta, suffix: bytes)
    requires ValidFile(file) && DeltaFits(file, shape, d, false) && |DeltaBytes(file, shape, d)| < MAX_LEN
    ensures TightRun(file, shape, WireOfShape(shape), DeltaBytes(file, shape, d) + suffix)
  {
    hide ReadDelta, ElementsBytes, InKind, Packable, DeltaFits, ReadVarint;
    DeltaRoundTrip(file, shape, d, suffix);
    if shape.Repeated? && Packable(shape.k) {
      assert d.Run? by { RunOfList(file, shape, d); }
      LengthRoundTrip(ElementsBytes(shape.k, d.es), suffix);
    }
  }

  lemma RunOfList(file: File, shape: Shape, d: Delta)
    requires shape.Repeated? && DeltaFits(file, shape, d, false)
    ensures d.Run?
  {
  }

  /** Whatever the encoder writes is tight. */
  lemma {:induction false} WrittenTight(file: File, ref: nat, recs: seq<Rec>)
    requires ValidFile(file) && RecsFit(file, ref, recs, false) && |MessageBytes(file, ref, recs)| < MAX_LEN
    ensures RunsTight(file, ref, MessageBytes(file, ref, recs))
    decreases |recs|
  {
    hide ReadRecord, RecordBytes, RecFits, Tight;
    if recs != [] {
      var head, tail := RecordBytes(file, ref, recs[0]), MessageBytes(file, ref, recs[1..]);
      RecordRoundTrip(file, ref, recs[0], tail);
      WrittenRunTight(file, ref, recs[0], tail);
      WrittenTight(file, ref, recs[1..]);
      assert (head + tail)[|head|..] == tail;
    }
  }

  /** The elements of a slice that are not nil. */
  function Present(ms: seq<Option<Msg>>): nat {
    if ms == [] then 0 else (if ms[0].Some? then 1 else 0) + Present(ms[1..])
  }

  lemma {:induction false} OneRecordEach(file: File, ref: nat, ms: seq<Option<Msg>>)
    ensures |EmitList(file, ref, ms)| == Present(ms)
    decreases |ms|
  {
    hide Emit;
    if ms != [] {
      OneRecordEach(file, ref, ms[1..]);
    }
  }

  /** On the encoder's own output the pre-scan counts the elements that are not
      nil, packed fields or not. */
  lemma CountOfMarshal(file: File, ref: nat, m: Msg, i: nat)
    requires ValidFile(file) && Typed(file, ref, m) && |Marshal(file, ref, m)| < MAX_LEN
    requires i < |m.vals| && ShapeAt(file, ref, i).NestedList?
    ensures m.vals[i].Subs? && Count(Marshal(file, ref, m), Fields(file, ref)[i].num) == Present(m.vals[i].ms)
  {
    hide TypedValue, Emit, RecsFit, MessageBytes, ReadMessage, RunsTight, EmitList, Deltas, Count, Supported;
    var recs := Emit(file, ref, m);
    assert TypedValue(file, ShapeAt(file, ref, i), m.vals[i]);
    ListIsSubs(file, ShapeAt(file, ref, i), m.vals[i]);
    assert ValidInfo(ref, file[ref]) && Supported(ref, Fields(file, ref)[i]);
    ListsAreNoBranches(file, ref, i);
    EmitFits(file, ref, m);
    MessageRoundTrip(file, ref, recs);
    WrittenTight(file, ref, recs);
    CountIsExact(file, ref, Marshal(file, ref, m), i);
    DeltasOfEmit(file, ref, m, i);
    OneRecordEach(file, ShapeAt(file, ref, i).ref, m.vals[i].ms);
  }

  lemma ListIsSubs(file: File, shape: Shape, v: Value)
    requires shape.NestedList? && TypedValue(file, shape, v)
    ensures v.Subs?
  {
  }

  lemma ListsAreNoBranches(file: File, ref: nat, i: nat)
    requires i < |Fields(file, ref)| && Supported(ref, Fields(file, ref)[i]) && ShapeAt(file, ref, i).NestedList?
    ensures !InOneof(file, ref, i)
  {
  }

  // ---------------------------------------------------------------- when a run is not tight

  /** A message with a packed field and a repeated message. */
  const PACKED_AND_NESTED: File := [Info([Field(1, Repeated(Uint32), None), Field(2, NestedList(0, true), None)], [])]

  /** A packed field can lead the walk astray: the decoder reads the last varint
      of this run past the end of the run and finds no nested record; the walk
      stops at the end of the run and counts one. */
  lemma PackedFieldMisleads()
    ensures var data: bytes := [0x0a, 0x01, 0x80, 0x12, 0x00, 0x00];
            && ReadMessage(PACKED_AND_NESTED, 0, data) == Ok([Known(0, Run([Num(0x900)])), Unknown])
            && Count(data, 2) == 1
  {
    var data: bytes := [0x0a, 0x01, 0x80, 0x12, 0x00, 0x00];
    MisledDecoder(data);
    MisledWalk(data);
  }

  lemma MisledDecoder(data: bytes)
    requires data == [0x0a, 0x01, 0x80, 0x12, 0x00, 0x00]
    ensures ReadMessage(PACKED_AND_NESTED, 0, data) == Ok([Known(0, Run([Num(0x900)])), Unknown])
  {
    hide ReadRecord, ReadMessage;
    var a: bytes, b: bytes, nothing: bytes := [0x0a, 0x01, 0x80, 0x12], [0x00, 0x00], [];
    assert data == a + b && b == b + nothing;
    MisledFirst(a + b);
    MisledSecond(b + nothing);
    NoBytes(PACKED_AND_NESTED, 0);
    ReadMessageStep(PACKED_AND_NESTED, 0, b, nothing, Unknown);
    ReadMessageStep(PACKED_AND_NESTED, 0, a, b, Known(0, Run([Num(0x900)])));
    assert [Known(0, Run([Num(0x900)]))] + ([Unknown] + []) == [Known(0, Run([Num(0x900)])), Unknown];
  }

  lemma NoBytes(file: File, ref: nat)
    ensures ReadMessage(file, ref, []) == Ok([])
  {
  }

  lemma MisledFirst(data: bytes)
    requires data == [0x0a, 0x01, 0x80, 0x12, 0x00, 0x00]
    ensures ReadRecord(PACKED_AND_NESTED, 0, data) == Ok(Read(Known(0, Run([Num(0x900)])), 4))
  {
    hide ReadMany;
    assert Fields(PACKED_AND_NESTED, 0) == [Field(1, Repeated(Uint32), None), Field(2, NestedList(0, true), None)];
    assert FindField(Fields(PACKED_AND_NESTED, 0), 1) == Some(0);
    assert ReadVarint(data) == Some(Read(0x0a, 1));
    assert data[1..] == [0x01, 0x80, 0x12, 0x00, 0x00];
    MisledRun(data[1..]);
  }

  lemma MisledSecond(data: bytes)
    requires data == [0x00, 0x00]
    ensures ReadRecord(PACKED_AND_NESTED, 0, data) == Ok(Read(Unknown, 2))
  {
    hide ReadDelta;
    assert Fields(PACKED_AND_NESTED, 0) == [Field(1, Repeated(Uint32), None), Field(2, NestedList(0, true), None)];
    assert FindField(Fields(PACKED_AND_NESTED, 0), 0) == None;
    assert data[1..] == [0x00];
  }

  lemma MisledRun(rest: bytes)
    requires rest == [0x01, 0x80, 0x12, 0x00, 0x00]
    ensures ReadMany(Uint32, 2, rest) == Ok(Read(Run([Num(0x900)]), 3))
  {
    hide ReadScalar, ReadElements, ReadLength;
    var run := rest[1..];
    assert run == [0x80, 0x12] + [0x00, 0x00];
    assert ReadLength(rest) == Ok(Read(1, 1)) by { LengthOne(rest); }
    MisledElement(run);
    ReadElementsStep(Uint32, [0x80, 0x12], [0x00, 0x00], 1, Num(0x900));
    assert ReadElements(Uint32, [0x00, 0x00], -1) == Ok(Read([], 0)) by { RunOver([0x00, 0x00]); }
    assert [Num(0x900)] + [] == [Num(0x900)];
  }

  lemma LengthOne(rest: bytes)
    requires |rest| == 5 && rest[0] == 1
    ensures ReadLength(rest) == Ok(Read(1, 1))
  {
  }

  lemma RunOver(data: bytes)
    ensures ReadElements(Uint32, data, -1) == Ok(Read([], 0))
  {
  }

  lemma MisledElement(run: bytes)
    requires run == [0x80, 0x12, 0x00, 0x00]
    ensures ReadScalar(Uint32, run) == Ok(Read(Num(0x900), 2))
  {
    assert run[1..] == [0x12, 0x00, 0x00];
    assert Groups(run[1..], 9) == Some(Read(0x12, 1));
    assert Groups(run, 10) == Some(Read(0x900, 2));
  }

  lemma MisledWalk(data: bytes)
    requires data == [0x0a, 0x01, 0x80, 0x12, 0x00, 0x00]
    ensures Count(data, 2) == 1
  {
    assert data[1..] == [0x01, 0x80, 0x12, 0x00, 0x00];
    assert Step(data) == Some(Read(Some(1), 3));
    var next := data[3..];
    assert next == [0x12, 0x00, 0x00] && next[1..] == [0x00, 0x00];
    assert Step(next) == Some(Read(Some(2), 2));
    var last := next[2..];
    assert last == [0x00] && last[1..] == [];
    assert Step(last) == Some(Read(None, 1));
    assert Count(last, 2) == 0;
  }
}
