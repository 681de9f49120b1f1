// From bytes to maps (generateMapFieldUnmarshal): what an entry means whatever
// sub-fields it has, and what many entries make of a map.

module Maps {
  import opened Base
  import opened Wire
  import opened Schema
  import opened Records
  import opened Values
  import opened Decoder
  import opened Typing
  import opened Discriminators
  import opened Meaning

  // ---------------------------------------------------------------- one entry

  /** A sub-field of an entry, as the switch on its number takes it: a key, a
      value, or one to skip. The wire type of a key or value is not looked at. */
  datatype Part = KeyPart(s: Scalar) | ValPart(s: Scalar) | OtherPart

  function ReadPart(kk: Kind, vk: Kind, data: bytes): (r: Result<Read<Part>>)
    ensures r.Ok? ==> 1 <= r.value.n <= |data|
  {
    match ReadVarint(data)
    case None => Err(InvalidVarint)
    case Some(tag) =>
      var p :- ReadPartBody(kk, vk, tag.v, data[tag.n..]);
      Ok(Read(p.v, tag.n + p.n))
  }

  function ReadPartBody(kk: Kind, vk: Kind, tag: nat, data: bytes): (r: Result<Read<Part>>)
    ensures r.Ok? ==> 1 <= r.value.n <= |data|
  {
    if tag / 8 == 1 then
      var k :- ReadScalar(EntryKind(kk), data);
      Ok(Read(KeyPart(k.v), k.n))
    else if tag / 8 == 2 then
      var v :- ReadScalar(EntryKind(vk), data);
      Ok(Read(ValPart(v.v), v.n))
    else
      var n :- SkipField(data, tag % 8);
      Ok(Read(OtherPart, n))
  }

  function ReadParts(kk: Kind, vk: Kind, data: bytes): Result<seq<Part>>
    decreases |data|
  {
    if data == [] then Ok([])
    else
      var p :- ReadPart(kk, vk, data);
      var rest :- ReadParts(kk, vk, data[p.n..]);
      Ok([p.v] + rest)
  }

  /** The last key among the parts, or `key` when there is none. */
  function LastKey(ps: seq<Part>, key: Scalar): Scalar {
    if ps == [] then key
    else if ps[|ps| - 1].KeyPart? then ps[|ps| - 1].s
    else LastKey(ps[..|ps| - 1], key)
  }

  function LastVal(ps: seq<Part>, val: Scalar): Scalar {
    if ps == [] then val
    else if ps[|ps| - 1].ValPart? then ps[|ps| - 1].s
    else LastVal(ps[..|ps| - 1], val)
  }

  function AfterPart(e: Delta, p: Part): (r: Delta)
    requires e.Entry?
    ensures r.Entry?
  {
    match p
    case KeyPart(s) => e.(key := s)
    case ValPart(s) => e.(val := s)
    case OtherPart => e
  }

  lemma {:induction false} LastKeyFirst(ps: seq<Part>, key: Scalar, val: Scalar)
    requires ps != []
    ensures var e := AfterPart(Entry(key, val), ps[0]);
            LastKey(ps, key) == LastKey(ps[1..], e.key) && LastVal(ps, val) == LastVal(ps[1..], e.val)
    decreases |ps|
  {
    var n := |ps| - 1;
    if n == 0 {
      assert ps[..0] == [] && ps[1..] == [];
    } else {
      LastKeyFirst(ps[..n], key, val);
      assert ps[..n][1..] == ps[1..][..n - 1];
      assert ps[1..][n - 1] == ps[n];
    }
  }

  lemma FieldIsPart(kk: Kind, vk: Kind, e: Delta, data: bytes)
    requires e.Entry?
    ensures ReadPart(kk, vk, data).Err? ==> ReadEntryField(kk, vk, e, data) == Err(ReadPart(kk, vk, data).error)
    ensures ReadPart(kk, vk, data).Ok? ==>
              var part := ReadPart(kk, vk, data).value;
              ReadEntryField(kk, vk, e, data) == Ok(Read(AfterPart(e, part.v), part.n))
  {
    hide ReadEntryField, ReadEntryBody, ReadScalar, SkipField, ReadVarint, EntryKind;
    EntryFieldParts(kk, vk, e, data);
    if ReadVarint(data).Some? {
      var tag := ReadVarint(data).value;
      EntryBodyParts(kk, vk, e, tag.v, data[tag.n..]);
    }
  }

  /** Any entry reads as its last key and its last value, each what it was
      before when missing, whatever the order, the wire types, the length of
      the varints and whatever else is there; an entry that has no such reading
      fails alike. */
  lemma {:induction false} EntryIsLastKeyAndValue(kk: Kind, vk: Kind, key: Scalar, val: Scalar, data: bytes)
    ensures var parts := ReadParts(kk, vk, data);
            ReadEntry(kk, vk, Entry(key, val), data) ==
            if parts.Err? then Err(parts.error) else Ok(Entry(LastKey(parts.value, key), LastVal(parts.value, val)))
    decreases |data|
  {
    hide ReadPart, ReadEntryField;
    if data != [] {
      hide LastKey, LastVal, ReadParts, ReadEntry;
      EntryStep(kk, vk, Entry(key, val), data);
      if ReadPart(kk, vk, data).Ok? {
        var p := ReadPart(kk, vk, data).value;
        var e := AfterPart(Entry(key, val), p.v);
        EntryIsLastKeyAndValue(kk, vk, e.key, e.val, data[p.n..]);
        if ReadParts(kk, vk, data[p.n..]).Ok? {
          var rest := ReadParts(kk, vk, data[p.n..]).value;
          LastKeyFirst([p.v] + rest, key, val);
          assert ([p.v] + rest)[1..] == rest;
        }
      }
    }
  }

  lemma EntryStep(kk: Kind, vk: Kind, e: Delta, data: bytes)
    requires e.Entry? && data != []
    ensures ReadPart(kk, vk, data).Err? ==>
              var error := ReadPart(kk, vk, data).error;
              ReadParts(kk, vk, data) == Err(error) && ReadEntry(kk, vk, e, data) == Err(error)
    ensures ReadPart(kk, vk, data).Ok? ==>
              var part := ReadPart(kk, vk, data).value;
              var rest := ReadParts(kk, vk, data[part.n..]);
              && ReadEntry(kk, vk, e, data) == ReadEntry(kk, vk, AfterPart(e, part.v), data[part.n..])
              && ReadParts(kk, vk, data) == if rest.Err? then Err(rest.error) else Ok([part.v] + rest.value)
  {
    hide ReadPart, ReadEntryField;
    FieldIsPart(kk, vk, e, data);
  }

  // ---------------------------------------------------------------- many entries

  /** The value the last of these entries gives `key`. */
  function LastFor(ds: seq<Delta>, key: Scalar): Option<Scalar> {
    if ds == [] then None
    else
      match LastFor(ds[1..], key)
      case Some(v) => Some(v)
      case None => if ds[0].Entry? && ds[0].key == key then Some(ds[0].val) else None
  }

  /** It is that of an entry with the key after which there is none. */
  lemma {:induction false} LastForIff(ds: seq<Delta>, key: Scalar)
    ensures LastFor(ds, key).None? <==> forall k | 0 <= k < |ds| :: !(ds[k].Entry? && ds[k].key == key)
    ensures LastFor(ds, key).Some? ==>
              exists k :: 0 <= k < |ds| && ds[k] == Entry(key, LastFor(ds, key).value)
                && forall l | k < l < |ds| :: !(ds[l].Entry? && ds[l].key == key)
    decreases |ds|
  {
    if ds != [] {
      LastForIff(ds[1..], key);
      if LastFor(ds[1..], key).Some? {
        var k :| 0 <= k < |ds[1..]| && ds[1..][k] == Entry(key, LastFor(ds, key).value)
                 && forall l | k < l < |ds[1..]| :: !(ds[1..][l].Entry? && ds[1..][l].key == key);
        assert ds[k + 1] == Entry(key, LastFor(ds, key).value);
        assert forall l | k + 1 < l < |ds| :: ds[l] == ds[1..][l - 1];
      } else {
        assert forall l | 0 < l < |ds| :: ds[l] == ds[1..][l - 1];
        if LastFor(ds, key).Some? {
          assert ds[0] == Entry(key, LastFor(ds, key).value);
        }
      }
    }
  }

  /** What the map holds: the last entry of each key, else what was there. */
  ghost predicate LastWins(m: map<Scalar, Scalar>, was: map<Scalar, Scalar>, ds: seq<Delta>) {
    forall key ::
      && (key in m <==> LastFor(ds, key).Some? || key in was)
      && (key in m ==> m[key] == if LastFor(ds, key).Some? then LastFor(ds, key).value else was[key])
  }

  lemma {:induction false} EntriesUpdate(file: File, kk: Kind, vk: Kind, was: map<Scalar, Scalar>, ds: seq<Delta>)
    requires AllFit(file, Map(kk, vk), ds)
    ensures var v := Fold(file, Map(kk, vk), Table(was), ds); v.Table? && LastWins(v.m, was, ds)
    decreases |ds|
  {
    hide InKind, Update;
    if ds != [] {
      assert DeltaFits(file, Map(kk, vk), ds[0], true);
      EntryUpdates(file, kk, vk, was, ds[0]);
      EntriesUpdate(file, kk, vk, was[ds[0].key := ds[0].val], ds[1..]);
    }
  }

  lemma EntryUpdates(file: File, kk: Kind, vk: Kind, was: map<Scalar, Scalar>, d: Delta)
    requires DeltaFits(file, Map(kk, vk), d, true)
    ensures d.Entry? && Update(file, Map(kk, vk), Table(was), d) == Table(was[d.key := d.val])
  {
    hide InKind;
  }

  /** The payloads of the records of field `i`, as the main loop meets them. */
  function Payloads(file: File, ref: nat, data: bytes, i: nat): seq<bytes>
    decreases |data|
  {
    if data == [] || ReadRecord(file, ref, data).Err? then []
    else
      var r := ReadRecord(file, ref, data).value;
      (if r.v.Known? && r.v.idx == i then [PayloadOf(data)] else []) + Payloads(file, ref, data[r.n..], i)
  }

  /** What stands between the length of a record and its end. */
  function PayloadOf(data: bytes): bytes {
    match ReadVarint(data)
    case None => []
    case Some(tag) =>
      match ReadPayload(tag.v % 8, data[tag.n..])
      case Err(_) => []
      case Ok(p) => p.v
  }

  /** The entry a payload is. */
  function EntryOf(kk: Kind, vk: Kind, payload: bytes): seq<Delta> {
    match ReadParts(kk, vk, payload)
    case Err(_) => []
    case Ok(ps) => [Entry(LastKey(ps, Default(EntryKind(kk))), LastVal(ps, Default(EntryKind(vk))))]
  }

  function EntriesOf(kk: Kind, vk: Kind, payloads: seq<bytes>): seq<Delta> {
    if payloads == [] then [] else EntryOf(kk, vk, payloads[0]) + EntriesOf(kk, vk, payloads[1..])
  }

  lemma RecordIsEntry(file: File, ref: nat, data: bytes, i: nat, kk: Kind, vk: Kind)
    requires i < |Fields(file, ref)| && ShapeAt(file, ref, i) == Map(kk, vk)
    requires ReadRecord(file, ref, data).Ok? && ReadRecord(file, ref, data).value.v.Known? && ReadRecord(file, ref, data).value.v.idx == i
    ensures EntryOf(kk, vk, PayloadOf(data)) == [ReadRecord(file, ref, data).value.v.d]
  {
    hide ReadRecord, ReadVarint, ReadPayload, ReadParts, ReadEntry, FindField, LastKey, LastVal;
    RecordParts(file, ref, data);
    var tag := ReadVarint(data).value;
    var p := ReadPayload(tag.v % 8, data[tag.n..]).value.v;
    EntryIsLastKeyAndValue(kk, vk, Default(EntryKind(kk)), Default(EntryKind(vk)), p);
  }

  lemma {:induction false} DeltasAreEntries(file: File, ref: nat, data: bytes, i: nat, kk: Kind, vk: Kind)
    requires i < |Fields(file, ref)| && ShapeAt(file, ref, i) == Map(kk, vk) && ReadMessage(file, ref, data).Ok?
    ensures Deltas(ReadMessage(file, ref, data).value, i) == EntriesOf(kk, vk, Payloads(file, ref, data, i))
    decreases |data|
  {
    hide ReadRecord, PayloadOf, EntryOf;
    if data != [] {
      var r := ReadRecord(file, ref, data).value;
      DeltasAreEntries(file, ref, data[r.n..], i, kk, vk);
      if r.v.Known? && r.v.idx == i {
        RecordIsEntry(file, ref, data, i, kk, vk);
        assert Payloads(file, ref, data, i)[1..] == Payloads(file, ref, data[r.n..], i);
      } else {
        assert [] + Payloads(file, ref, data[r.n..], i) == Payloads(file, ref, data[r.n..], i);
        assert [] + Deltas(ReadMessage(file, ref, data[r.n..]).value, i) == Deltas(ReadMessage(file, ref, data[r.n..]).value, i);
      }
    }
  }

  /** From any bytes that decode to the map: for each key the value of the last
      entry with that key, an entry being the last key and the last value of its
      payload, whatever other fields stand between the entries. */
  lemma MapIsItsLastEntries(file: File, ref: nat, data: bytes, i: nat, kk: Kind, vk: Kind)
    requires ValidFile(file) && i < |Fields(file, ref)| && ShapeAt(file, ref, i) == Map(kk, vk)
    requires ReadMessage(file, ref, data).Ok?
    ensures var r := Unmarshal(file, ref, Fresh(file, ref), data);
            && r.Ok? && i < |r.value.vals| && r.value.vals[i].Table?
            && LastWins(r.value.vals[i].m, map[], EntriesOf(kk, vk, Payloads(file, ref, data, i)))
  {
    hide ValidFile, ReadMessage, Fresh, Decode, Fold, Deltas, Payloads, EntriesOf, RecsFit, DeltaFits, LastWins;
    var recs := ReadMessage(file, ref, data).value;
    ReadFits(file, ref, data);
    DeltasFitField(file, ref, recs, i);
    FreshDecodedField(file, ref, recs, i);
    DeltasAreEntries(file, ref, data, i, kk, vk);
    EntriesUpdate(file, kk, vk, map[], Deltas(recs, i));
  }

  // ---------------------------------------------------------------- entries laid out by hand

  /** One record an entry. */
  function EntriesWire(num: nat, payloads: seq<bytes>): bytes {
    if payloads == [] then [] else TagBytes(num, LEN_DELIMITED) + Framed(payloads[0]) + EntriesWire(num, payloads[1..])
  }

  lemma PayloadsStep(file: File, ref: nat, i: nat, head: bytes, tail: bytes, d: Delta)
    requires head != [] && ReadRecord(file, ref, head + tail) == Ok(Read(Known(i, d), |head|))
    ensures Payloads(file, ref, head + tail, i) == [PayloadOf(head + tail)] + Payloads(file, ref, tail, i)
  {
    hide ReadRecord, PayloadOf;
    assert (head + tail)[|head|..] == tail;
  }

  lemma {:induction false} EntriesRead(file: File, ref: nat, i: nat, kk: Kind, vk: Kind, payloads: seq<bytes>)
    requires ValidFile(file) && i < |Fields(file, ref)| && ShapeAt(file, ref, i) == Map(kk, vk)
    requires forall k | 0 <= k < |payloads| :: ReadParts(kk, vk, payloads[k]).Ok? && |payloads[k]| < MAX_LEN
    ensures var data := EntriesWire(Fields(file, ref)[i].num, payloads);
            ReadMessage(file, ref, data).Ok? && Payloads(file, ref, data, i) == payloads
    decreases |payloads|
  {
    hide ValidFile, ReadRecord, ReadParts, TagBytes, Framed, PayloadOf;
    if payloads != [] {
      var num := Fields(file, ref)[i].num;
      var head, tail := TagBytes(num, LEN_DELIMITED) + Framed(payloads[0]), EntriesWire(num, payloads[1..]);
      var d := EntryRecord(file, ref, i, kk, vk, payloads[0], tail);
      EntriesRead(file, ref, i, kk, vk, payloads[1..]);
      ReadMessageStep(file, ref, head, tail, Known(i, d));
      hide ReadMessage, Payloads;
      PayloadsStep(file, ref, i, head, tail, d);
      assert [payloads[0]] + payloads[1..] == payloads;
    }
  }

  /** Any payloads that read as entries, in any order, decode to the map in which
      the last entry of each key stands. */
  lemma EntriesDecode(file: File, ref: nat, i: nat, kk: Kind, vk: Kind, payloads: seq<bytes>)
    requires ValidFile(file) && i < |Fields(file, ref)| && ShapeAt(file, ref, i) == Map(kk, vk)
    requires forall k | 0 <= k < |payloads| :: ReadParts(kk, vk, payloads[k]).Ok? && |payloads[k]| < MAX_LEN
    ensures var r := Unmarshal(file, ref, Fresh(file, ref), EntriesWire(Fields(file, ref)[i].num, payloads));
            && r.Ok? && i < |r.value.vals| && r.value.vals[i].Table?
            && LastWins(r.value.vals[i].m, map[], EntriesOf(kk, vk, payloads))
  {
    hide ValidFile, ReadMessage, ReadParts, Fresh, Decode, LastWins, EntriesOf, EntriesWire, Payloads;
    EntriesRead(file, ref, i, kk, vk, payloads);
    MapIsItsLastEntries(file, ref, EntriesWire(Fields(file, ref)[i].num, payloads), i, kk, vk);
  }

  lemma EntryRecord(file: File, ref: nat, i: nat, kk: Kind, vk: Kind, p: bytes, suffix: bytes) returns (d: Delta)
    requires ValidFile(file) && i < |Fields(file, ref)| && ShapeAt(file, ref, i) == Map(kk, vk)
    requires ReadParts(kk, vk, p).Ok? && |p| < MAX_LEN
    ensures var w := TagBytes(Fields(file, ref)[i].num, LEN_DELIMITED) + Framed(p);
            && w != [] && ReadRecord(file, ref, w + suffix) == Ok(Read(Known(i, d), |w|))
            && PayloadOf(w + suffix) == p
  {
    hide ValidFile, ReadRecord, ReadParts, TagBytes, ReadPayload, ReadEntry, Framed, ReadVarint, TagValue, LastKey,
         LastVal;
    var num := Fields(file, ref)[i].num;
    var tag, body := TagBytes(num, LEN_DELIMITED), Framed(p);
    EntryIsLastKeyAndValue(kk, vk, Default(EntryKind(kk)), Default(EntryKind(vk)), p);
    FramedRoundTrip(p, suffix);
    d := ReadEntry(kk, vk, EmptyEntry(kk, vk), p).value;
    TaggedRecord(file, ref, i, LEN_DELIMITED, body, suffix, d);
    Declared(file, ref, i);
    TagRoundTrip(num, LEN_DELIMITED, body + suffix);
    assert tag + body + suffix == tag + (body + suffix);
    assert (tag + (body + suffix))[|tag|..] == body + suffix;
  }
}
