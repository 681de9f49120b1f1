// Unknown fields at any depth: a field of an undeclared number, inserted into a
// wire, into a nested message anywhere in it, into a map entry or into the body
// of a Timestamp or Duration, with the lengths around it written anew.

module Insertions {
  import opened Base
  import opened Wire
  import opened Wkt
  import opened Schema
  import opened Records
  import opened Streams
  import opened Values
  import opened Decoder
  import opened Meaning

  /** Where the field is inserted: between `before` and `after` of the wire
      itself; between `head` and `tail` of the payload of field `i`, which is a
      map entry or a well-known type; or inside the nested message that is the
      payload of field `i`. */
  datatype Insertion =
    | Here(before: bytes, num: nat, wire: nat, body: bytes, after: bytes)
    | InPart(before: bytes, i: nat, head: bytes, num: nat, wire: nat, body: bytes, tail: bytes, after: bytes)
    | InMessage(before: bytes, i: nat, inner: Insertion, after: bytes)

  /** A record of field `i` with this payload. */
  function Record(file: File, ref: nat, i: nat, p: bytes): bytes
    requires i < |Fields(file, ref)|
  {
    TagBytes(Fields(file, ref)[i].num, LEN_DELIMITED) + Framed(p)
  }

  /** The fields named on the way are there. */
  predicate Located(file: File, ref: nat, x: Insertion)
    decreases x
  {
    match x
    case Here(_, _, _, _, _) => true
    case InPart(_, i, _, _, _, _, _, _) => i < |Fields(file, ref)| && Framing(ShapeAt(file, ref, i))
    case InMessage(_, i, inner, _) =>
      i < |Fields(file, ref)| && !Leaf(ShapeAt(file, ref, i)) && Located(file, ShapeAt(file, ref, i).ref, inner)
  }

  predicate Framing(shape: Shape) {
    shape.Map? || shape.Timestamp? || shape.Duration?
  }

  /** The wire as it is, or with the field inserted. */
  function Written(file: File, ref: nat, x: Insertion, padded: bool): bytes
    requires Located(file, ref, x)
    decreases x
  {
    match x
    case Here(before, num, wire, body, after) => before + (if padded then TagBytes(num, wire) + body else []) + after
    case InPart(before, i, head, num, wire, body, tail, after) =>
      before + Record(file, ref, i, head + (if padded then TagBytes(num, wire) + body else []) + tail) + after
    case InMessage(before, i, inner, after) =>
      before + Record(file, ref, i, Written(file, ShapeAt(file, ref, i).ref, inner, padded)) + after
  }

  /** A loop comes to stand where the field is inserted, and the field can be
      skipped. */
  predicate Standing(file: File, ref: nat, x: Insertion)
    requires Located(file, ref, x)
    decreases x
  {
    && Reached(file, ref, Written(file, ref, x, false), |x.before|)
    && match x
       case Here(_, num, wire, body, _) => Skippable(Fields(file, ref), num, wire, body)
       case InPart(_, i, head, num, wire, body, tail, _) =>
         && 2 < num < MAX_FIELD_NUM && wire < 8 && SkipField(body, wire) == Ok(|body|)
         && ReadFramed(file, ShapeAt(file, ref, i), head).Ok?
         && |head + (TagBytes(num, wire) + body) + tail| < MAX_LEN
       case InMessage(_, i, inner, _) =>
         && Standing(file, ShapeAt(file, ref, i).ref, inner)
         && |Written(file, ShapeAt(file, ref, i).ref, inner, true)| < MAX_LEN
  }

  // ---------------------------------------------------------------- one record with another payload

  lemma {:induction false} LengthMonotone(a: nat, b: nat)
    requires a <= b
    ensures |VarintBytes(a)| <= |VarintBytes(b)|
    decreases b
  {
    if b >= 0x80 {
      LengthMonotone(a / 0x80, b / 0x80);
    }
  }

  lemma FramedRecord(file: File, ref: nat, i: nat, p: bytes, rest: bytes)
    requires ValidFile(file) && i < |Fields(file, ref)| && |p| < MAX_LEN
    requires var shape := ShapeAt(file, ref, i); Framing(shape) || !Leaf(shape)
    ensures var d := ReadFramed(file, ShapeAt(file, ref, i), p);
            && Record(file, ref, i, p) != []
            && ReadRecord(file, ref, Record(file, ref, i, p) + rest) ==
               if d.Err? then Err(d.error) else Ok(Read(Known(i, d.value), |Record(file, ref, i, p)|))
  {
    hide ValidFile, ReadRecord, TagBytes, ReadPayload, ReadFramed, Framed, ReadVarint, TagValue, FindField;
    var num := Fields(file, ref)[i].num;
    var tag, w := TagBytes(num, LEN_DELIMITED), Record(file, ref, i, p);
    Declared(file, ref, i);
    FramedRoundTrip(p, rest);
    TagRoundTrip(num, LEN_DELIMITED, Framed(p) + rest);
    assert w + rest == tag + (Framed(p) + rest);
    assert (tag + (Framed(p) + rest))[|tag|..] == Framed(p) + rest;
    RecordParts(file, ref, w + rest);
  }

  /** What is read from the record on. */
  lemma FramedMessage(file: File, ref: nat, i: nat, p: bytes, rest: bytes)
    requires ValidFile(file) && i < |Fields(file, ref)| && |p| < MAX_LEN
    requires var shape := ShapeAt(file, ref, i); Framing(shape) || !Leaf(shape)
    ensures var d, rs := ReadFramed(file, ShapeAt(file, ref, i), p), ReadMessage(file, ref, rest);
            ReadMessage(file, ref, Record(file, ref, i, p) + rest) ==
            if d.Err? then Err(d.error) else if rs.Err? then rs else Ok([Known(i, d.value)] + rs.value)
  {
    hide ValidFile, ReadRecord, ReadFramed, Record;
    FramedRecord(file, ref, i, p, rest);
    if ReadFramed(file, ShapeAt(file, ref, i), p).Ok? {
      ReadMessageStep(file, ref, Record(file, ref, i, p), rest, Known(i, ReadFramed(file, ShapeAt(file, ref, i), p).value));
    }
  }

  /** Two payloads that fail alike or make the same of every value. */
  ghost predicate SamePayload(file: File, shape: Shape, p: bytes, q: bytes) {
    var d, e := ReadFramed(file, shape, p), ReadFramed(file, shape, q);
    if d.Err? then e == d else e.Ok? && forall v :: Update(file, shape, v, d.value) == Update(file, shape, v, e.value)
  }

  lemma SwapDelta(file: File, ref: nat, recv: Msg, a: seq<Rec>, i: nat, d: Delta, e: Delta, b: seq<Rec>)
    requires forall v :: Update(file, ShapeAt(file, ref, i), v, d) == Update(file, ShapeAt(file, ref, i), v, e)
    ensures Decode(file, ref, recv, a + ([Known(i, d)] + b)) == Decode(file, ref, recv, a + ([Known(i, e)] + b))
  {
    hide Update, Pooled, ResetValue, Deltas, Mark;
    var st, x, y := Start(file, ref, recv), a + ([Known(i, d)] + b), a + ([Known(i, e)] + b);
    ApplyConcat(file, ref, st, a, [Known(i, d)] + b);
    ApplyConcat(file, ref, st, a, [Known(i, e)] + b);
    assert ([Known(i, d)] + b)[1..] == b && ([Known(i, e)] + b)[1..] == b;
    forall k: nat
      ensures Deltas(x, k) == [] <==> Deltas(y, k) == []
    {
      SwapDeltas(a, i, d, e, b, k);
    }
    SwapApply(file, ref, ApplyAll(file, ref, st, a), i, d, e, b);
    var all := ApplyAll(file, ref, st, x);
    assert Finish(file, ref, all, x).vals == Finish(file, ref, all, y).vals;
  }

  lemma SwapApply(file: File, ref: nat, st: Msg, i: nat, d: Delta, e: Delta, b: seq<Rec>)
    requires forall v :: Update(file, ShapeAt(file, ref, i), v, d) == Update(file, ShapeAt(file, ref, i), v, e)
    ensures ApplyAll(file, ref, st, [Known(i, d)] + b) == ApplyAll(file, ref, st, [Known(i, e)] + b)
  {
    hide Update, Mark;
    assert ([Known(i, d)] + b)[1..] == b && ([Known(i, e)] + b)[1..] == b;
    if i < |st.vals| {
      assert Update(file, ShapeAt(file, ref, i), st.vals[i], d) == Update(file, ShapeAt(file, ref, i), st.vals[i], e);
    }
    assert Apply(file, ref, st, Known(i, d)) == Apply(file, ref, st, Known(i, e));
  }

  lemma SwapDeltas(a: seq<Rec>, i: nat, d: Delta, e: Delta, b: seq<Rec>, k: nat)
    ensures Deltas(a + ([Known(i, d)] + b), k) == [] <==> Deltas(a + ([Known(i, e)] + b), k) == []
  {
    DeltasConcat(a, [Known(i, d)] + b, k);
    DeltasConcat(a, [Known(i, e)] + b, k);
    assert ([Known(i, d)] + b)[1..] == b && ([Known(i, e)] + b)[1..] == b;
  }

  /** Then the whole wires decode alike. */
  lemma PayloadTransparent(file: File, ref: nat, recv: Msg, a: bytes, i: nat, p: bytes, q: bytes, b: bytes)
    requires ValidFile(file) && i < |Fields(file, ref)| && |p| <= |q| < MAX_LEN
    requires var shape := ShapeAt(file, ref, i); Framing(shape) || !Leaf(shape)
    requires Reached(file, ref, a + Record(file, ref, i, p) + b, |a|) && SamePayload(file, ShapeAt(file, ref, i), p, q)
    ensures Unmarshal(file, ref, recv, a + Record(file, ref, i, q) + b) == Unmarshal(file, ref, recv, a + Record(file, ref, i, p) + b)
  {
    hide ValidFile, ReadMessage, ReadFramed, Decode, Reached, Before, Record, Update;
    var s, t := Record(file, ref, i, p) + b, Record(file, ref, i, q) + b;
    assert a + Record(file, ref, i, p) + b == a + s && a + Record(file, ref, i, q) + b == a + t;
    RecordLonger(file, ref, i, p, q);
    ReachedWith(file, ref, a, s, s);
    ReachedWith(file, ref, a, s, t);
    FramedMessage(file, ref, i, p, b);
    FramedMessage(file, ref, i, q, b);
    var d, e := ReadFramed(file, ShapeAt(file, ref, i), p), ReadFramed(file, ShapeAt(file, ref, i), q);
    if d.Ok? && ReadMessage(file, ref, b).Ok? {
      SwapDelta(file, ref, recv, Before(file, ref, a + s, |a|), i, d.value, e.value, ReadMessage(file, ref, b).value);
    }
  }

  lemma RecordLonger(file: File, ref: nat, i: nat, p: bytes, q: bytes)
    requires i < |Fields(file, ref)| && |p| <= |q|
    ensures |Record(file, ref, i, p)| <= |Record(file, ref, i, q)|
  {
    hide TagBytes;
    LengthMonotone(|p|, |q|);
  }

  // ---------------------------------------------------------------- entries and bodies

  lemma {:induction false} StampOfConcat(s: Stamp, a: bytes, b: bytes)
    requires ReadStamp(s, a).Ok?
    ensures ReadStamp(s, a + b) == ReadStamp(ReadStamp(s, a).value, b)
    decreases |a|
  {
    hide ReadStampField;
    if a == [] {
      assert a + b == b;
    } else {
      var r := ReadStampField(s, a).value;
      StampFieldWith(s, a, b);
      DropAppend(a, b, r.n);
      StampOfConcat(r.v, a[r.n..], b);
    }
  }

  lemma StampFieldWith(s: Stamp, a: bytes, b: bytes)
    requires ReadStampField(s, a).Ok?
    ensures ReadStampField(s, a + b) == ReadStampField(s, a)
  {
    hide ReadVarint, SkipField;
    var n := ReadStampField(s, a).value.n;
    SameStartAppend(a, [], b);
    assert a + [] == a;
    var tag := ReadVarint(a).value;
    SameStartSlice(a, a + b, |a|, tag.n, tag.n);
    VarintPrefix(a, a + b);
    SameStartDrop(a, a + b, |a|, tag.n);
    var x, y := a[tag.n..], (a + b)[tag.n..];
    SameStartSlice(x, y, |x|, n - tag.n, n - tag.n);
    if tag.v / 8 == 1 || tag.v / 8 == 2 {
      VarintPrefix(x, y);
    } else {
      SkipPrefix(x, y, tag.v % 8);
    }
  }

  lemma StampSkips(s: Stamp, num: nat, wire: nat, body: bytes, rest: bytes)
    requires 2 < num < MAX_FIELD_NUM && wire < 8 && SkipField(body, wire) == Ok(|body|)
    ensures ReadStamp(s, TagBytes(num, wire) + body + rest) == ReadStamp(s, rest)
  {
    hide SkipField, ReadVarint, TagBytes, TagValue;
    var tag, u := TagBytes(num, wire), TagBytes(num, wire) + body;
    TagRoundTrip(num, wire, body + rest);
    assert u + rest == tag + (body + rest);
    assert (u + rest)[|tag|..] == body + rest;
    SkipWithSuffix(body, rest, wire);
    assert (u + rest)[|u|..] == rest;
  }

  lemma PartSame(file: File, shape: Shape, head: bytes, num: nat, wire: nat, body: bytes, tail: bytes)
    requires Framing(shape) && 2 < num < MAX_FIELD_NUM && wire < 8 && SkipField(body, wire) == Ok(|body|)
    requires ReadFramed(file, shape, head).Ok?
    ensures ReadFramed(file, shape, head + (TagBytes(num, wire) + body) + tail) == ReadFramed(file, shape, head + [] + tail)
  {
    hide ReadEntry, ReadStamp, SkipField, TagBytes, EmptyEntry;
    var u := TagBytes(num, wire) + body;
    assert head + [] + tail == head + tail && head + u + tail == head + (u + tail);
    if shape.Map? {
      UnknownInsertedInEntry(shape.key, shape.val, EmptyEntry(shape.key, shape.val), head, num, wire, body, tail);
    } else {
      StampOfConcat(Stamp(0, 0), head, tail);
      StampOfConcat(Stamp(0, 0), head, u + tail);
      StampSkips(ReadStamp(Stamp(0, 0), head).value, num, wire, body, tail);
    }
  }

  // ---------------------------------------------------------------- at any depth

  /** Nested payloads that decode alike into every receiver make the same of
      every value. */
  lemma NestedSame(file: File, shape: Shape, p: bytes, q: bytes)
    requires !Leaf(shape)
    requires forall x :: Unmarshal(file, shape.ref, x, p) == Unmarshal(file, shape.ref, x, q)
    ensures SamePayload(file, shape, p, q)
  {
    hide ReadMessage, Decode, Held, Next;
    var r := shape.ref;
    assert Unmarshal(file, r, Fresh(file, r), p) == Unmarshal(file, r, Fresh(file, r), q);
    hide Fresh;
    if ReadMessage(file, r, p).Ok? {
      var d, e := Tree(ReadMessage(file, r, p).value), Tree(ReadMessage(file, r, q).value);
      forall v
        ensures Update(file, shape, v, d) == Update(file, shape, v, e)
      {
        assert Unmarshal(file, r, Held(file, r, v), p) == Unmarshal(file, r, Held(file, r, v), q);
        assert Unmarshal(file, r, Next(file, r, v), p) == Unmarshal(file, r, Next(file, r, v), q);
      }
    }
  }

  lemma {:induction false} PaddedLonger(file: File, ref: nat, x: Insertion)
    requires Located(file, ref, x)
    ensures |Written(file, ref, x, false)| <= |Written(file, ref, x, true)|
    decreases x
  {
    hide TagBytes, Record;
    match x
    case Here(_, _, _, _, _) =>
    case InPart(_, i, head, num, wire, body, tail, _) =>
      RecordLonger(file, ref, i, head + [] + tail, head + (TagBytes(num, wire) + body) + tail);
    case InMessage(_, i, inner, _) =>
      var r := ShapeAt(file, ref, i).ref;
      PaddedLonger(file, r, inner);
      RecordLonger(file, ref, i, Written(file, r, inner, false), Written(file, r, inner, true));
  }

  /** The field changes neither the value nor the error of a decode, wherever it
      is inserted. */
  lemma {:induction false} InsertionTransparent(file: File, ref: nat, recv: Msg, x: Insertion)
    requires ValidFile(file) && Located(file, ref, x) && Standing(file, ref, x)
    ensures Unmarshal(file, ref, recv, Written(file, ref, x, true)) == Unmarshal(file, ref, recv, Written(file, ref, x, false))
    decreases x
  {
    hide ValidFile, Unmarshal, Reached, Record, TagBytes, SkipField, ReadFramed, SamePayload, Skippable;
    match x
    case Here(before, num, wire, body, after) =>
      assert before + [] + after == before + after;
      UnknownTransparent(file, ref, recv, before, num, wire, body, after);
    case InPart(before, i, head, num, wire, body, tail, after) =>
      var p, q := head + [] + tail, head + (TagBytes(num, wire) + body) + tail;
      PartSame(file, ShapeAt(file, ref, i), head, num, wire, body, tail);
      SameRead(file, ShapeAt(file, ref, i), p, q);
      PayloadTransparent(file, ref, recv, before, i, p, q, after);
    case InMessage(before, i, inner, after) =>
      var r := ShapeAt(file, ref, i).ref;
      var p, q := Written(file, r, inner, false), Written(file, r, inner, true);
      PaddedLonger(file, r, inner);
      forall y
        ensures Unmarshal(file, r, y, p) == Unmarshal(file, r, y, q)
      {
        InsertionTransparent(file, r, y, inner);
      }
      NestedSame(file, ShapeAt(file, ref, i), p, q);
      PayloadTransparent(file, ref, recv, before, i, p, q, after);
  }

  lemma SameRead(file: File, shape: Shape, p: bytes, q: bytes)
    requires ReadFramed(file, shape, p) == ReadFramed(file, shape, q)
    ensures SamePayload(file, shape, p, q)
  {
    hide ReadFramed, Update;
  }
}
