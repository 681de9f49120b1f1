// What the wire says about a message: the records the emitted decoders read
// (gen_unmarshal.go) and the bytes the emitted encoders write for each record
// (gen_marshal.go). Reading and writing records does not depend on the
// receiver; what records do to a receiver is in Decoder.dfy.

module Records {
  import opened Base
  import opened Wire
  import opened Wkt
  import opened Schema

  /** The content of one known record. */
  datatype Delta =
    | One(s: Scalar)                    // a singular or optional scalar
    | Run(es: seq<Scalar>)              // elements of a repeated scalar
    | Entry(key: Scalar, val: Scalar)   // a map entry
    | Body(stamp: Stamp)                // a Timestamp or Duration
    | Tree(recs: seq<Rec>)              // a nested message

  /** A record of the field at index `idx`, or one the decoder skips. */
  datatype Rec = Known(idx: nat, d: Delta) | Unknown

  // ---------------------------------------------------------------- reading

  function ReadSingle(k: Kind, wire: nat, data: bytes): (r: Result<Read<Scalar>>)
    ensures r.Ok? ==> 1 <= r.value.n <= |data|
  {
    if wire != WireOf(k) then Err(InvalidWireType) else ReadScalar(k, data)
  }

  /** A packed loop goes on while at least this many bytes of the run are left:
      `i < end` for varints, `i+8 <= end` and `i+4 <= end` for fixed widths. */
  function LeastElement(k: Kind): nat {
    if WireOf(k) == VARINT then 1 else FixedWidth(k)
  }

  /** The packed loop. Elements are read from all of `data`, not from the run
      alone, so the last varint may end past the run; fixed-width elements may
      leave a remainder unread. */
  function ReadElements(k: Kind, data: bytes, left: int): (r: Result<Read<seq<Scalar>>>)
    ensures r.Ok? ==> r.value.n <= |data|
    decreases |data|
  {
    if left < LeastElement(k) then Ok(Read([], 0))
    else
      var e :- ReadScalar(k, data);
      var rest :- ReadElements(k, data[e.n..], left - e.n);
      Ok(Read([e.v] + rest.v, e.n + rest.n))
  }

  /** A repeated scalar of a packable kind accepts a packed run or one element. */
  function ReadRun(k: Kind, wire: nat, data: bytes): (r: Result<Read<seq<Scalar>>>)
    ensures r.Ok? ==> 1 <= r.value.n <= |data|
  {
    if wire == LEN_DELIMITED then
      var len :- ReadLength(data);
      var run :- ReadElements(k, data[len.n..], len.v);
      Ok(Read(run.v, len.n + run.n))
    else
      var e :- ReadSingle(k, wire, data);
      Ok(Read([e.v], e.n))
  }

  /** A length-delimited payload, after the wire-type check. */
  function ReadPayload(wire: nat, data: bytes): (r: Result<Read<bytes>>)
    ensures r.Ok? ==> 1 <= r.value.n <= |data| && |r.value.v| < |data|
  {
    if wire != LEN_DELIMITED then Err(InvalidWireType)
    else
      var len :- ReadLength(data);
      Ok(Read(data[len.n..len.n + len.v], len.n + len.v))
  }

  /** One sub-field of a map entry. */
  function ReadEntryField(kk: Kind, vk: Kind, e: Delta, data: bytes): (r: Result<Read<Delta>>)
    requires e.Entry?
    ensures r.Ok? ==> 1 <= r.value.n <= |data| && r.value.v.Entry?
  {
    match ReadVarint(data)
    case None => Err(InvalidVarint)
    case Some(tag) =>
      var f :- ReadEntryBody(kk, vk, e, tag.v, data[tag.n..]);
      Ok(Read(f.v, tag.n + f.n))
  }

  /** The switch on the sub-field number; the wire types of key and value are
      not checked. */
  function ReadEntryBody(kk: Kind, vk: Kind, e: Delta, tag: nat, data: bytes): (r: Result<Read<Delta>>)
    requires e.Entry?
    ensures r.Ok? ==> 1 <= r.value.n <= |data| && r.value.v.Entry?
  {
    if tag / 8 == 1 then
      var k :- ReadScalar(EntryKind(kk), data);
      Ok(Read(e.(key := k.v), k.n))
    else if tag / 8 == 2 then
      var v :- ReadScalar(EntryKind(vk), data);
      Ok(Read(e.(val := v.v), v.n))
    else
      var n :- SkipField(data, tag % 8);
      Ok(Read(e, n))
  }

  /** The map-entry loop: the last key and the last value win. */
  function ReadEntry(kk: Kind, vk: Kind, e: Delta, data: bytes): (r: Result<Delta>)
    requires e.Entry?
    ensures r.Ok? ==> r.value.Entry?
    decreases |data|
  {
    if data == [] then Ok(e)
    else
      var f :- ReadEntryField(kk, vk, e, data);
      ReadEntry(kk, vk, f.v, data[f.n..])
  }

  function EmptyEntry(kk: Kind, vk: Kind): (e: Delta)
    ensures e.Entry?
  {
    Entry(Default(EntryKind(kk)), Default(EntryKind(vk)))
  }

  /** The case arm of one field. */
  function ReadDelta(file: File, shape: Shape, wire: nat, data: bytes): (r: Result<Read<Delta>>)
    ensures r.Ok? ==> 1 <= r.value.n <= |data|
    decreases |data|, 2
  {
    match shape
    case Singular(k) => ReadOne(k, wire, data)
    case Optional(k) => ReadOne(k, wire, data)
    case Repeated(k) => ReadMany(k, wire, data)
    case _ =>
      var p :- ReadPayload(wire, data);
      var d :- ReadFramed(file, shape, p.v);
      Ok(Read(d, p.n))
  }

  function ReadOne(k: Kind, wire: nat, data: bytes): (r: Result<Read<Delta>>)
    ensures r.Ok? ==> 1 <= r.value.n <= |data|
  {
    var e :- ReadSingle(k, wire, data);
    Ok(Read(One(e.v), e.n))
  }

  function ReadMany(k: Kind, wire: nat, data: bytes): (r: Result<Read<Delta>>)
    ensures r.Ok? ==> 1 <= r.value.n <= |data|
  {
    if Packable(k) then
      var run :- ReadRun(k, wire, data);
      Ok(Read(Run(run.v), run.n))
    else
      var e :- ReadSingle(k, wire, data);
      Ok(Read(Run([e.v]), e.n))
  }

  /** A payload that a map entry, a well-known type or a message fills exactly. */
  function ReadFramed(file: File, shape: Shape, p: bytes): Result<Delta>
    decreases |p|, 3
  {
    match shape
    case Map(kk, vk) => ReadEntry(kk, vk, EmptyEntry(kk, vk), p)
    case Nested(ref, _) =>
      var recs :- ReadMessage(file, ref, p);
      Ok(Tree(recs))
    case NestedList(ref, _) =>
      var recs :- ReadMessage(file, ref, p);
      Ok(Tree(recs))
    case _ =>
      var s :- ReadStamp(Stamp(0, 0), p);
      Ok(Body(s))
  }

  /** One turn of the main decode loop. */
  function ReadRecord(file: File, ref: nat, data: bytes): (r: Result<Read<Rec>>)
    ensures r.Ok? ==> 1 <= r.value.n <= |data|
    decreases |data|, 1
  {
    match ReadVarint(data)
    case None => Err(InvalidTag)
    case Some(tag) =>
      var rest := data[tag.n..];
      match FindField(Fields(file, ref), tag.v / 8)
      case None =>
        var n :- SkipField(rest, tag.v % 8);
        Ok(Read(Unknown, tag.n + n))
      case Some(i) =>
        var d :- ReadDelta(file, Fields(file, ref)[i].shape, tag.v % 8, rest);
        Ok(Read(Known(i, d.v), tag.n + d.n))
  }

  /** The main decode loop: every byte belongs to some record. */
  function ReadMessage(file: File, ref: nat, data: bytes): Result<seq<Rec>>
    decreases |data|, 2
  {
    if data == [] then Ok([])
    else
      var r :- ReadRecord(file, ref, data);
      var rest :- ReadMessage(file, ref, data[r.n..]);
      Ok([r.v] + rest)
  }

  // One turn of each loop, on input split after the part the turn consumes.

  lemma ReadElementsStep(k: Kind, a: bytes, b: bytes, left: int, e: Scalar)
    requires ReadScalar(k, a + b) == Ok(Read(e, |a|)) && left >= LeastElement(k)
    ensures ReadElements(k, a + b, left) ==
            match ReadElements(k, b, left - |a|)
            case Err(error) => Err(error)
            case Ok(r) => Ok(Read([e] + r.v, |a| + r.n))
  {
    hide ReadScalar, LeastElement;
    assert (a + b)[|a|..] == b;
  }

  lemma ReadEntryStep(kk: Kind, vk: Kind, e: Delta, a: bytes, b: bytes, e': Delta)
    requires e.Entry? && a != [] && ReadEntryField(kk, vk, e, a + b) == Ok(Read(e', |a|))
    ensures e'.Entry? && ReadEntry(kk, vk, e, a + b) == ReadEntry(kk, vk, e', b)
  {
    hide ReadEntryField;
    assert (a + b)[|a|..] == b;
  }

  lemma ReadMessageStep(file: File, ref: nat, a: bytes, b: bytes, r: Rec)
    requires a != [] && ReadRecord(file, ref, a + b) == Ok(Read(r, |a|))
    ensures ReadMessage(file, ref, a + b) ==
            match ReadMessage(file, ref, b)
            case Err(error) => Err(error)
            case Ok(rs) => Ok([r] + rs)
  {
    hide ReadRecord;
    assert (a + b)[|a|..] == b;
  }

  // The parts of a record and of a map entry, one level at a time.

  lemma RecordParts(file: File, ref: nat, data: bytes)
    ensures ReadVarint(data).None? ==> ReadRecord(file, ref, data) == Err(InvalidTag)
    ensures ReadVarint(data).Some? ==>
              var tag := ReadVarint(data).value;
              var rest := data[tag.n..];
              match FindField(Fields(file, ref), tag.v / 8)
              case None =>
                var n := SkipField(rest, tag.v % 8);
                ReadRecord(file, ref, data) == if n.Err? then Err(n.error) else Ok(Read(Unknown, tag.n + n.value))
              case Some(k) =>
                var d := ReadDelta(file, Fields(file, ref)[k].shape, tag.v % 8, rest);
                ReadRecord(file, ref, data) == if d.Err? then Err(d.error) else Ok(Read(Known(k, d.value.v), tag.n + d.value.n))
  {
    hide ReadVarint, SkipField, ReadDelta, FindField;
  }

  lemma ElementsParts(k: Kind, data: bytes, left: int)
    requires left >= LeastElement(k)
    ensures match ReadScalar(k, data)
            case Err(error) => ReadElements(k, data, left) == Err(error)
            case Ok(e) =>
              match ReadElements(k, data[e.n..], left - e.n)
              case Err(error) => ReadElements(k, data, left) == Err(error)
              case Ok(rest) => ReadElements(k, data, left) == Ok(Read([e.v] + rest.v, e.n + rest.n))
  {
    hide ReadScalar, LeastElement;
  }

  lemma EntryFieldParts(kk: Kind, vk: Kind, e: Delta, data: bytes)
    requires e.Entry?
    ensures ReadVarint(data).None? ==> ReadEntryField(kk, vk, e, data) == Err(InvalidVarint)
    ensures ReadVarint(data).Some? ==>
              var tag := ReadVarint(data).value;
              var f := ReadEntryBody(kk, vk, e, tag.v, data[tag.n..]);
              ReadEntryField(kk, vk, e, data) == if f.Err? then Err(f.error) else Ok(Read(f.value.v, tag.n + f.value.n))
  {
    hide ReadEntryBody, ReadVarint;
  }

  lemma EntryBodyParts(kk: Kind, vk: Kind, e: Delta, etag: nat, data: bytes)
    requires e.Entry?
    ensures etag / 8 == 1 ==>
              var k := ReadScalar(EntryKind(kk), data);
              ReadEntryBody(kk, vk, e, etag, data) == if k.Err? then Err(k.error) else Ok(Read(Entry(k.value.v, e.val), k.value.n))
    ensures etag / 8 == 2 ==>
              var v := ReadScalar(EntryKind(vk), data);
              ReadEntryBody(kk, vk, e, etag, data) == if v.Err? then Err(v.error) else Ok(Read(Entry(e.key, v.value.v), v.value.n))
    ensures etag / 8 != 1 && etag / 8 != 2 ==>
              var n := SkipField(data, etag % 8);
              ReadEntryBody(kk, vk, e, etag, data) == if n.Err? then Err(n.error) else Ok(Read(e, n.value))
  {
    hide ReadScalar, SkipField, EntryKind;
  }

  // ---------------------------------------------------------------- writing

  function ElementsBytes(k: Kind, es: seq<Scalar>): bytes {
    if es == [] then [] else ScalarBytes(k, es[0]) + ElementsBytes(k, es[1..])
  }

  function Framed(p: bytes): bytes {
    VarintBytes(|p|) + p
  }

  function EntryBytes(kk: Kind, vk: Kind, key: Scalar, val: Scalar): bytes {
    TagBytes(1, WireOf(kk)) + ScalarBytes(EntryKind(kk), key) +
    (TagBytes(2, WireOf(vk)) + ScalarBytes(EntryKind(vk), val))
  }

  /** The wire type an encoder gives the records of a field. */
  function WireOfShape(shape: Shape): (w: nat)
    ensures w < 8
  {
    match shape
    case Singular(k) => WireOf(k)
    case Optional(k) => WireOf(k)
    case _ => LEN_DELIMITED
  }

  /** A record after its tag. */
  function DeltaBytes(file: File, shape: Shape, d: Delta): bytes
    decreases d, 0
  {
    match d
    case One(s) =>
      (match shape
       case Singular(k) => ScalarBytes(k, s)
       case Optional(k) => ScalarBytes(k, s)
       case _ => [])
    case Run(es) =>
      (match shape
       case Repeated(k) => if Packable(k) then Framed(ElementsBytes(k, es)) else ElementsBytes(k, es)
       case _ => [])
    case Entry(key, val) =>
      (match shape
       case Map(kk, vk) => Framed(EntryBytes(kk, vk, key, val))
       case _ => [])
    case Body(s) => Framed(StampBytes(s))
    case Tree(recs) =>
      (match shape
       case Nested(ref, _) => Framed(MessageBytes(file, ref, recs))
       case NestedList(ref, _) => Framed(MessageBytes(file, ref, recs))
       case _ => [])
  }

  function RecordBytes(file: File, ref: nat, r: Rec): bytes
    decreases r, 1
  {
    match r
    case Unknown => []
    case Known(i, d) =>
      if i < |Fields(file, ref)| then
        var f := Fields(file, ref)[i];
        TagBytes(f.num, WireOfShape(f.shape)) + DeltaBytes(file, f.shape, d)
      else []
  }

  function MessageBytes(file: File, ref: nat, recs: seq<Rec>): bytes
    decreases recs, 2
  {
    if recs == [] then [] else RecordBytes(file, ref, recs[0]) + MessageBytes(file, ref, recs[1..])
  }

  // ---------------------------------------------------------------- well-formed records

  /** Records fit their message: values are of the field's kind and a repeated
      string or bytes element has a record of its own. `skips` says whether
      skipped fields may stand among them, at any depth. */
  predicate DeltaFits(file: File, shape: Shape, d: Delta, skips: bool)
    decreases d, 0
  {
    match d
    case One(s) =>
      (match shape
       case Singular(k) => InKind(k, s)
       case Optional(k) => InKind(k, s)
       case _ => false)
    case Run(es) =>
      (match shape
       case Repeated(k) => (forall e | e in es :: InKind(k, e)) && (Packable(k) || |es| == 1)
       case _ => false)
    case Entry(key, val) =>
      (match shape
       case Map(kk, vk) => InKind(EntryKind(kk), key) && InKind(EntryKind(vk), val)
       case _ => false)
    case Body(s) => shape.Timestamp? || shape.Duration?
    case Tree(recs) =>
      (match shape
       case Nested(ref, _) => RecsFit(file, ref, recs, skips)
       case NestedList(ref, _) => RecsFit(file, ref, recs, skips)
       case _ => false)
  }

  predicate RecFits(file: File, ref: nat, r: Rec, skips: bool)
    decreases r, 1
  {
    match r
    case Unknown => skips
    case Known(i, d) => i < |Fields(file, ref)| && DeltaFits(file, Fields(file, ref)[i].shape, d, skips)
  }

  predicate RecsFit(file: File, ref: nat, recs: seq<Rec>, skips: bool)
    decreases recs, 2
  {
    recs != [] ==> RecFits(file, ref, recs[0], skips) && RecsFit(file, ref, recs[1..], skips)
  }

  // ---------------------------------------------------------------- reading back what was written

  lemma FramedRoundTrip(p: bytes, suffix: bytes)
    requires |p| < MAX_LEN
    ensures ReadPayload(LEN_DELIMITED, Framed(p) + suffix) == Ok(Read(p, |Framed(p)|))
  {
    LengthRoundTrip(p, suffix);
  }

  lemma {:induction false} ElementsRoundTrip(k: Kind, es: seq<Scalar>, suffix: bytes)
    requires Packable(k) && forall e | e in es :: InKind(k, e)
    requires |ElementsBytes(k, es)| < MAX_LEN
    ensures ReadElements(k, ElementsBytes(k, es) + suffix, |ElementsBytes(k, es)|) == Ok(Read(es, |ElementsBytes(k, es)|))
  {
    hide ReadScalar, InKind, ScalarBytes;
    if es == [] {
      LeastElementPositive(k);
    } else {
      var head, tail := ScalarBytes(k, es[0]), ElementsBytes(k, es[1..]);
      assert head + tail + suffix == head + (tail + suffix);
      ScalarRoundTrip(k, es[0], tail + suffix);
      ElementsRoundTrip(k, es[1..], suffix);
      LeastElementLength(k, es[0]);
      ReadElementsStep(k, head, tail + suffix, |head + tail|, es[0]);
      assert [es[0]] + es[1..] == es;
    }
  }

  lemma LeastElementPositive(k: Kind)
    ensures LeastElement(k) > 0
  {
  }

  lemma LeastElementLength(k: Kind, s: Scalar)
    requires Packable(k) && InKind(k, s)
    ensures |ScalarBytes(k, s)| >= LeastElement(k)
  {
  }

  lemma EntryFieldRoundTrip(kk: Kind, vk: Kind, e: Delta, num: nat, s: Scalar, suffix: bytes)
    requires e.Entry? && 1 <= num <= 2
    requires InKind(EntryKind(if num == 1 then kk else vk), s)
    requires |ScalarBytes(EntryKind(if num == 1 then kk else vk), s)| < MAX_LEN
    ensures var k := if num == 1 then kk else vk;
            var w := TagBytes(num, WireOf(k)) + ScalarBytes(EntryKind(k), s);
            w != [] && ReadEntryField(kk, vk, e, w + suffix) == Ok(Read(if num == 1 then e.(key := s) else e.(val := s), |w|))
  {
    hide ReadScalar, InKind, ScalarBytes, EntryKind, TagBytes, ReadVarint, TagValue;
    var k := if num == 1 then kk else vk;
    var tag, body := TagBytes(num, WireOf(k)), ScalarBytes(EntryKind(k), s);
    TagRoundTrip(num, WireOf(k), body + suffix);
    assert tag + body + suffix == tag + (body + suffix);
    assert (tag + (body + suffix))[|tag|..] == body + suffix;
    ScalarRoundTrip(EntryKind(k), s, suffix);
  }

  lemma EntryRoundTrip(kk: Kind, vk: Kind, e: Delta, key: Scalar, val: Scalar)
    requires e.Entry? && InKind(EntryKind(kk), key) && InKind(EntryKind(vk), val)
    requires |EntryBytes(kk, vk, key, val)| < MAX_LEN
    ensures ReadEntry(kk, vk, e, EntryBytes(kk, vk, key, val)) == Ok(Entry(key, val))
  {
    hide ReadEntryField, InKind, EntryKind, ScalarBytes, TagBytes;
    var a := TagBytes(1, WireOf(kk)) + ScalarBytes(EntryKind(kk), key);
    var b := TagBytes(2, WireOf(vk)) + ScalarBytes(EntryKind(vk), val);
    EntryFieldRoundTrip(kk, vk, e, 1, key, b);
    ReadEntryStep(kk, vk, e, a, b, e.(key := key));
    EntryFieldRoundTrip(kk, vk, e.(key := key), 2, val, []);
    ReadEntryStep(kk, vk, e.(key := key), b, [], Entry(key, val));
    assert b + [] == b;
  }

  lemma RunRoundTrip(k: Kind, es: seq<Scalar>, suffix: bytes)
    requires (forall e | e in es :: InKind(k, e)) && (Packable(k) || |es| == 1)
    requires |DeltaBytes([], Repeated(k), Run(es))| < MAX_LEN
    ensures var w := DeltaBytes([], Repeated(k), Run(es));
            ReadMany(k, LEN_DELIMITED, w + suffix) == Ok(Read(Run(es), |w|))
  {
    if Packable(k) {
      PackedRoundTrip(k, es, suffix);
    } else {
      hide ReadScalar, InKind, ScalarBytes;
      assert es == [es[0]];
      assert ElementsBytes(k, es) == ScalarBytes(k, es[0]) by {
        assert ElementsBytes(k, es[1..]) == [];
      }
      ScalarRoundTrip(k, es[0], suffix);
    }
  }

  lemma PackedRoundTrip(k: Kind, es: seq<Scalar>, suffix: bytes)
    requires Packable(k) && forall e | e in es :: InKind(k, e)
    requires |ElementsBytes(k, es)| < MAX_LEN
    ensures var w := Framed(ElementsBytes(k, es));
            ReadMany(k, LEN_DELIMITED, w + suffix) == Ok(Read(Run(es), |w|))
  {
    hide ReadElements, InKind, ElementsBytes, ReadSingle;
    var p := ElementsBytes(k, es);
    ElementsRoundTrip(k, es, suffix);
    LengthRoundTrip(p, suffix);
    assert (Framed(p) + suffix)[|VarintBytes(|p|)|..] == p + suffix;
  }

  /** Writing a record's content and reading it as its field gives it back,
      whatever follows. */
  lemma {:induction false} DeltaRoundTrip(file: File, shape: Shape, d: Delta, suffix: bytes)
    requires ValidFile(file) && DeltaFits(file, shape, d, false)
    requires |DeltaBytes(file, shape, d)| < MAX_LEN
    ensures var w := DeltaBytes(file, shape, d);
            ReadDelta(file, shape, WireOfShape(shape), w + suffix) == Ok(Read(d, |w|))
    decreases d, 0
  {
    hide ReadPayload, ReadSingle, InKind;
    match d
    case One(s) => OneRoundTrip(shape, s, suffix);
    case Run(es) => RunRoundTrip(shape.k, es, suffix);
    case Entry(key, val) =>
      var p := EntryBytes(shape.key, shape.val, key, val);
      EntryRoundTrip(shape.key, shape.val, EmptyEntry(shape.key, shape.val), key, val);
      FramedRoundTrip(p, suffix);
    case Body(s) =>
      StampRoundTrip(s);
      FramedRoundTrip(StampBytes(s), suffix);
    case Tree(recs) =>
      var p := MessageBytes(file, shape.ref, recs);
      MessageRoundTrip(file, shape.ref, recs);
      FramedRoundTrip(p, suffix);
  }

  lemma OneRoundTrip(shape: Shape, s: Scalar, suffix: bytes)
    requires shape.Singular? || shape.Optional?
    requires InKind(shape.k, s) && |ScalarBytes(shape.k, s)| < MAX_LEN
    ensures ReadOne(shape.k, WireOfShape(shape), ScalarBytes(shape.k, s) + suffix) == Ok(Read(One(s), |ScalarBytes(shape.k, s)|))
  {
    ScalarRoundTrip(shape.k, s, suffix);
  }

  /** A tag in front of a field's content makes a record of that field. */
  lemma TaggedRecord(file: File, ref: nat, i: nat, wire: nat, body: bytes, suffix: bytes, d: Delta)
    requires ValidFile(file) && i < |Fields(file, ref)| && wire < 8
    requires ReadDelta(file, Fields(file, ref)[i].shape, wire, body + suffix) == Ok(Read(d, |body|))
    ensures var w := TagBytes(Fields(file, ref)[i].num, wire) + body;
            w != [] && ReadRecord(file, ref, w + suffix) == Ok(Read(Known(i, d), |w|))
  {
    hide ReadDelta, FindField, TagBytes, ReadVarint, TagValue, ValidFile;
    var num := Fields(file, ref)[i].num;
    var tag := TagBytes(num, wire);
    Declared(file, ref, i);
    TagRoundTrip(num, wire, body + suffix);
    assert tag + body + suffix == tag + (body + suffix);
    DropAppend(tag, body + suffix, |tag|);
    assert tag[|tag|..] + (body + suffix) == body + suffix;
  }

  lemma Declared(file: File, ref: nat, i: nat)
    requires ValidFile(file) && i < |Fields(file, ref)|
    ensures var num := Fields(file, ref)[i].num; num < MAX_FIELD_NUM && FindField(Fields(file, ref), num) == Some(i)
  {
    hide FindField;
    assert ValidInfo(ref, file[ref]) && Supported(ref, Fields(file, ref)[i]);
    FieldAt(Fields(file, ref), i);
  }

  lemma RecordRoundTrip(file: File, ref: nat, r: Rec, suffix: bytes)
    requires ValidFile(file) && RecFits(file, ref, r, false)
    requires |RecordBytes(file, ref, r)| < MAX_LEN
    ensures var w := RecordBytes(file, ref, r);
            |w| >= 1 && ReadRecord(file, ref, w + suffix) == Ok(Read(r, |w|))
    decreases r, 1
  {
    hide ReadDelta, DeltaBytes, DeltaFits, WireOfShape, TagBytes, ValidFile, ReadRecord;
    var f := Fields(file, ref)[r.idx];
    DeltaRoundTrip(file, f.shape, r.d, suffix);
    TaggedRecord(file, ref, r.idx, WireOfShape(f.shape), DeltaBytes(file, f.shape, r.d), suffix, r.d);
  }

  /** Reading what was written for well-formed records gives the records. */
  lemma {:induction false} MessageRoundTrip(file: File, ref: nat, recs: seq<Rec>)
    requires ValidFile(file) && RecsFit(file, ref, recs, false)
    requires |MessageBytes(file, ref, recs)| < MAX_LEN
    ensures ReadMessage(file, ref, MessageBytes(file, ref, recs)) == Ok(recs)
    decreases recs, 2
  {
    hide ReadRecord, RecordBytes, RecFits;
    if recs != [] {
      var head, tail := RecordBytes(file, ref, recs[0]), MessageBytes(file, ref, recs[1..]);
      RecordRoundTrip(file, ref, recs[0], tail);
      MessageRoundTrip(file, ref, recs[1..]);
      ReadMessageStep(file, ref, head, tail, recs[0]);
      assert [recs[0]] + recs[1..] == recs;
    }
  }

  /** Records take bytes. */
  lemma EmptyIff(file: File, ref: nat, recs: seq<Rec>)
    requires RecsFit(file, ref, recs, false)
    ensures MessageBytes(file, ref, recs) == [] <==> recs == []
  {
    hide DeltaBytes, DeltaFits;
  }
}
