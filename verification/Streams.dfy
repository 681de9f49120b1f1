// How the decode loop behaves on concatenated input: records that were read
// stay read when bytes follow, so the records of a ++ b are those of a and
// then those of b, and a skipped field can stand between any two records.

module Streams {
  import opened Base
  import opened Wire
  import opened Schema
  import opened Records

  lemma {:induction false} ElementsPrefix(k: Kind, a: bytes, b: bytes, left: int)
    requires ReadElements(k, a, left).Ok? && SameStart(a, b, ReadElements(k, a, left).value.n)
    ensures ReadElements(k, b, left) == ReadElements(k, a, left)
    decreases |a|
  {
    hide ReadScalar, LeastElement;
    if left >= LeastElement(k) {
      hide ReadElements;
      ElementsParts(k, a, left);
      ElementsParts(k, b, left);
      var e, n := ReadScalar(k, a).value, ReadElements(k, a, left).value.n;
      SameStartSlice(a, b, n, e.n, e.n);
      ScalarPrefix(k, a, b);
      SameStartDrop(a, b, n, e.n);
      ElementsPrefix(k, a[e.n..], b[e.n..], left - e.n);
    }
  }

  lemma RunPrefix(k: Kind, wire: nat, a: bytes, b: bytes)
    requires ReadRun(k, wire, a).Ok? && SameStart(a, b, ReadRun(k, wire, a).value.n)
    ensures ReadRun(k, wire, b) == ReadRun(k, wire, a)
  {
    hide ReadElements, ReadScalar, ReadLength;
    if wire == LEN_DELIMITED {
      var len, n := ReadLength(a).value, ReadRun(k, wire, a).value.n;
      LengthPrefix(a, b, n);
      SameStartDrop(a, b, n, len.n);
      ElementsPrefix(k, a[len.n..], b[len.n..], len.v);
    } else {
      ScalarPrefix(k, a, b);
    }
  }

  lemma DeltaPrefix(file: File, shape: Shape, wire: nat, a: bytes, b: bytes)
    requires ReadDelta(file, shape, wire, a).Ok? && SameStart(a, b, ReadDelta(file, shape, wire, a).value.n)
    ensures ReadDelta(file, shape, wire, b) == ReadDelta(file, shape, wire, a)
  {
    hide ReadRun, ReadScalar, ReadFramed, ReadLength;
    match shape
    case Singular(k) => ScalarPrefix(k, a, b);
    case Optional(k) => ScalarPrefix(k, a, b);
    case Repeated(k) =>
      if Packable(k) {
        RunPrefix(k, wire, a, b);
      } else {
        ScalarPrefix(k, a, b);
      }
    case _ =>
      var len, n := ReadLength(a).value, ReadDelta(file, shape, wire, a).value.n;
      LengthPrefix(a, b, n);
      SameStartSlice(a, b, n, len.n, len.n + len.v);
  }

  /** A record depends on the bytes it takes only, as long as what follows does
      not get shorter: a packed fixed-width run may declare bytes it does not
      take. */
  lemma RecordPrefix(file: File, ref: nat, a: bytes, b: bytes)
    requires ReadRecord(file, ref, a).Ok? && SameStart(a, b, ReadRecord(file, ref, a).value.n)
    ensures ReadRecord(file, ref, b) == ReadRecord(file, ref, a)
  {
    hide ReadRecord, ReadDelta, SkipField, FindField, ReadVarint;
    var n := ReadRecord(file, ref, a).value.n;
    RecordParts(file, ref, a);
    RecordParts(file, ref, b);
    var tag := ReadVarint(a).value;
    SameStartSlice(a, b, n, tag.n, tag.n);
    VarintPrefix(a, b);
    SameStartDrop(a, b, n, tag.n);
    match FindField(Fields(file, ref), tag.v / 8)
    case None => SkipPrefix(a[tag.n..], b[tag.n..], tag.v % 8);
    case Some(i) => DeltaPrefix(file, Fields(file, ref)[i].shape, tag.v % 8, a[tag.n..], b[tag.n..]);
  }

  // ---------------------------------------------------------------- where the loop stands

  /** The main loop comes to stand at offset `k`. */
  predicate Reached(file: File, ref: nat, data: bytes, k: nat)
    decreases |data|
  {
    k == 0 ||
    (data != [] && ReadRecord(file, ref, data).Ok? && ReadRecord(file, ref, data).value.n <= k &&
     Reached(file, ref, data[ReadRecord(file, ref, data).value.n..], k - ReadRecord(file, ref, data).value.n))
  }

  /** The records read on the way there. */
  function Before(file: File, ref: nat, data: bytes, k: nat): seq<Rec>
    requires Reached(file, ref, data, k)
    decreases |data|
  {
    if k == 0 then []
    else
      var r := ReadRecord(file, ref, data).value;
      [r.v] + Before(file, ref, data[r.n..], k - r.n)
  }

  lemma RecordAlike(file: File, ref: nat, a: bytes, b: bytes, k: nat)
    requires SameStart(a, b, k) && ReadRecord(file, ref, a).Ok? && ReadRecord(file, ref, a).value.n <= k
    ensures ReadRecord(file, ref, b) == ReadRecord(file, ref, a) && b != []
  {
    hide ReadRecord;
    var n := ReadRecord(file, ref, a).value.n;
    SameStartSlice(a, b, k, n, n);
    RecordPrefix(file, ref, a, b);
  }

  /** Where the loop came to stand it stands whatever follows, if not shorter,
      after the same records, and the rest is read from there. */
  lemma {:induction false} ReachedAlike(file: File, ref: nat, a: bytes, b: bytes, k: nat)
    requires Reached(file, ref, a, k) && SameStart(a, b, k)
    ensures Reached(file, ref, b, k) && Before(file, ref, b, k) == Before(file, ref, a, k)
    decreases k
  {
    hide ReadRecord, SameStart;
    if k > 0 {
      var n := ReadRecord(file, ref, a).value.n;
      RecordAlike(file, ref, a, b, k);
      SameStartDrop(a, b, k, n);
      ReachedAlike(file, ref, a[n..], b[n..], k - n);
    }
  }

  lemma {:induction false} ReadFromReached(file: File, ref: nat, data: bytes, k: nat)
    requires Reached(file, ref, data, k) && k <= |data|
    ensures ReadMessage(file, ref, data) ==
            match ReadMessage(file, ref, data[k..])
            case Err(error) => Err(error)
            case Ok(rs) => Ok(Before(file, ref, data, k) + rs)
    decreases k
  {
    hide ReadRecord;
    var rest := ReadMessage(file, ref, data[k..]);
    if k == 0 {
      assert data[0..] == data;
      assert rest.Ok? ==> [] + rest.value == rest.value;
    } else {
      var r := ReadRecord(file, ref, data).value;
      assert data[r.n..][k - r.n..] == data[k..];
      ReadFromReached(file, ref, data[r.n..], k - r.n);
      assert rest.Ok? ==>
          [r.v] + (Before(file, ref, data[r.n..], k - r.n) + rest.value) == [r.v] + Before(file, ref, data[r.n..], k - r.n) + rest.value;
    }
  }

  lemma ReachedWith(file: File, ref: nat, a: bytes, s: bytes, t: bytes)
    requires Reached(file, ref, a + s, |a|) && |s| <= |t|
    ensures Reached(file, ref, a + t, |a|)
    ensures ReadMessage(file, ref, a + t) ==
            match ReadMessage(file, ref, t)
            case Err(error) => Err(error)
            case Ok(rs) => Ok(Before(file, ref, a + s, |a|) + rs)
  {
    hide Reached, Before, ReadMessage;
    SameStartAppend(a, s, t);
    ReachedAlike(file, ref, a + s, a + t, |a|);
    ReadFromReached(file, ref, a + t, |a|);
    assert (a + t)[|a|..] == t;
  }

  /** The end of input that decodes is reached, whatever follows. */
  lemma {:induction false} EndReached(file: File, ref: nat, a: bytes, b: bytes)
    requires ReadMessage(file, ref, a).Ok?
    ensures Reached(file, ref, a + b, |a|) && Before(file, ref, a + b, |a|) == ReadMessage(file, ref, a).value
    decreases |a|
  {
    hide ReadRecord;
    if a != [] {
      var r := ReadRecord(file, ref, a).value;
      SameStartAppend(a, [], b);
      assert a + [] == a;
      SameStartSlice(a, a + b, |a|, r.n, r.n);
      RecordPrefix(file, ref, a, a + b);
      DropAppend(a, b, r.n);
      EndReached(file, ref, a[r.n..], b);
    }
  }

  /** The records of `a ++ b`, when `a` decodes, are those of `a` followed by
      those of `b`; an error of `b` is the error of the whole. */
  lemma RecordsOfConcat(file: File, ref: nat, a: bytes, b: bytes)
    requires ReadMessage(file, ref, a).Ok?
    ensures ReadMessage(file, ref, a + b) ==
            match ReadMessage(file, ref, b)
            case Err(error) => Err(error)
            case Ok(rs) => Ok(ReadMessage(file, ref, a).value + rs)
  {
    hide ReadMessage, Reached, Before;
    EndReached(file, ref, a, b);
    ReachedWith(file, ref, a, b, b);
  }

  /** A field number the message does not declare, with a body SkipField accepts. */
  predicate Skippable(fields: seq<Field>, num: nat, wire: nat, body: bytes) {
    && num < MAX_FIELD_NUM && wire < 8
    && FindField(fields, num).None?
    && SkipField(body, wire) == Ok(|body|)
  }

  lemma SkipWithSuffix(body: bytes, rest: bytes, wire: nat)
    requires SkipField(body, wire) == Ok(|body|)
    ensures SkipField(body + rest, wire) == Ok(|body|)
  {
    hide SkipField;
    SameStartAppend(body, [], rest);
    assert body + [] == body;
    SkipPrefix(body, body + rest, wire);
  }

  lemma SkippedRecord(file: File, ref: nat, num: nat, wire: nat, body: bytes, rest: bytes)
    requires Skippable(Fields(file, ref), num, wire, body)
    ensures var u := TagBytes(num, wire) + body;
            u != [] && ReadRecord(file, ref, u + rest) == Ok(Read(Unknown, |u|))
  {
    hide SkipField, FindField, ReadVarint, TagBytes, TagValue;
    var tag := TagBytes(num, wire);
    TagRoundTrip(num, wire, body + rest);
    assert tag + body + rest == tag + (body + rest);
    assert (tag + (body + rest))[|tag|..] == body + rest;
    SkipWithSuffix(body, rest, wire);
  }

  /** Inserting an unknown field wherever the main loop comes to stand inserts
      one record that carries nothing, and changes no other record and no
      error. */
  lemma UnknownInserted(file: File, ref: nat, a: bytes, num: nat, wire: nat, body: bytes, b: bytes)
    requires Reached(file, ref, a + b, |a|)
    requires Skippable(Fields(file, ref), num, wire, body)
    ensures ReadMessage(file, ref, a + b) ==
            match ReadMessage(file, ref, b)
            case Err(error) => Err(error)
            case Ok(rs) => Ok(Before(file, ref, a + b, |a|) + rs)
    ensures ReadMessage(file, ref, a + (TagBytes(num, wire) + body) + b) ==
            match ReadMessage(file, ref, b)
            case Err(error) => Err(error)
            case Ok(rs) => Ok(Before(file, ref, a + b, |a|) + ([Unknown] + rs))
  {
    hide ReadMessage, Skippable, Reached, Before;
    var u := TagBytes(num, wire) + body;
    assert a + u + b == a + (u + b);
    ReachedWith(file, ref, a, b, b);
    ReachedWith(file, ref, a, b, u + b);
    SkippedRecord(file, ref, num, wire, body, b);
    ReadMessageStep(file, ref, u, b, Unknown);
  }

  lemma {:induction false} EntryOfConcat(kk: Kind, vk: Kind, e: Delta, a: bytes, b: bytes)
    requires e.Entry? && ReadEntry(kk, vk, e, a).Ok?
    ensures ReadEntry(kk, vk, e, a + b) == ReadEntry(kk, vk, ReadEntry(kk, vk, e, a).value, b)
    decreases |a|
  {
    hide ReadEntryField;
    if a == [] {
      assert a + b == b;
    } else {
      var r := ReadEntryField(kk, vk, e, a).value;
      SameStartAppend(a, [], b);
      assert a + [] == a;
      SameStartSlice(a, a + b, |a|, r.n, r.n);
      EntryFieldPrefix(kk, vk, e, a, a + b);
      EntryOfConcat(kk, vk, r.v, a[r.n..], b);
      assert a + b == a[..r.n] + (a[r.n..] + b);
      ReadEntryStep(kk, vk, e, a[..r.n], a[r.n..] + b, r.v);
    }
  }

  lemma EntryBodyPrefix(kk: Kind, vk: Kind, e: Delta, tag: nat, a: bytes, b: bytes)
    requires e.Entry? && ReadEntryBody(kk, vk, e, tag, a).Ok?
    requires SameStart(a, b, ReadEntryBody(kk, vk, e, tag, a).value.n)
    ensures ReadEntryBody(kk, vk, e, tag, b) == ReadEntryBody(kk, vk, e, tag, a)
  {
    hide ReadScalar, SkipField, EntryKind, ReadEntryBody;
    EntryBodyParts(kk, vk, e, tag, a);
    EntryBodyParts(kk, vk, e, tag, b);
    if tag / 8 == 1 {
      ScalarPrefix(EntryKind(kk), a, b);
    } else if tag / 8 == 2 {
      ScalarPrefix(EntryKind(vk), a, b);
    } else {
      SkipPrefix(a, b, tag % 8);
    }
  }

  lemma EntryFieldPrefix(kk: Kind, vk: Kind, e: Delta, a: bytes, b: bytes)
    requires e.Entry? && ReadEntryField(kk, vk, e, a).Ok? && SameStart(a, b, ReadEntryField(kk, vk, e, a).value.n)
    ensures ReadEntryField(kk, vk, e, b) == ReadEntryField(kk, vk, e, a)
  {
    hide ReadEntryField, ReadEntryBody, ReadVarint;
    var n := ReadEntryField(kk, vk, e, a).value.n;
    EntryFieldParts(kk, vk, e, a);
    EntryFieldParts(kk, vk, e, b);
    var tag := ReadVarint(a).value;
    SameStartSlice(a, b, n, tag.n, tag.n);
    VarintPrefix(a, b);
    SameStartDrop(a, b, n, tag.n);
    EntryBodyPrefix(kk, vk, e, tag.v, a[tag.n..], b[tag.n..]);
  }

  /** The same inside a map entry, between any two of its sub-fields. */
  lemma UnknownInsertedInEntry(kk: Kind, vk: Kind, e: Delta, a: bytes, num: nat, wire: nat, body: bytes, b: bytes)
    requires e.Entry? && ReadEntry(kk, vk, e, a).Ok?
    requires 2 < num < MAX_FIELD_NUM && wire < 8 && SkipField(body, wire) == Ok(|body|)
    ensures ReadEntry(kk, vk, e, a + (TagBytes(num, wire) + body) + b) == ReadEntry(kk, vk, e, a + b)
  {
    hide ReadEntry, SkipField, ReadVarint, TagBytes, TagValue;
    var tag, u := TagBytes(num, wire), TagBytes(num, wire) + body;
    assert a + u + b == a + (u + b);
    EntryOfConcat(kk, vk, e, a, u + b);
    EntryOfConcat(kk, vk, e, a, b);
    TagRoundTrip(num, wire, body + b);
    assert u + b == tag + (body + b);
    assert (u + b)[|tag|..] == body + b;
    SkipWithSuffix(body, b, wire);
    ReadEntryStep(kk, vk, ReadEntry(kk, vk, e, a).value, u, b, ReadEntry(kk, vk, e, a).value);
  }
}
