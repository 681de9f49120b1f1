// Decoding the fields that hold no message (gen_unmarshal.go, gen_map.go): the
// cursor moves through the message's own bytes, strings are cut out of the slab
// all messages of one decode share.

module Reader {
  import opened Base
  import opened Wire
  import opened Wkt
  import opened Schema
  import opened Records
  import opened Values
  import opened Decoder

  // ---------------------------------------------------------------- the slab

  /** `slab` holds the bytes of this message from `off` on. */
  predicate Slabbed(data: bytes, slab: bytes, off: nat) {
    off + |data| <= |slab| && slab[off..off + |data|] == data
  }

  lemma SlabCut(data: bytes, slab: bytes, off: nat, a: nat, b: nat)
    requires Slabbed(data, slab, off) && a <= b <= |data|
    ensures slab[off + a..off + b] == data[a..b]
    ensures Slabbed(data[a..b], slab, off + a)
  {
    SliceSlice(slab, off, off + |data|, a, b);
  }

  /** Whether decoding a field looks at the slab. */
  predicate UsesSlab(shape: Shape) {
    match shape
    case Singular(k) => k == String
    case Optional(k) => k == String
    case Repeated(k) => k == String
    case Map(kk, vk) => kk == String || vk == String
    case Nested(_, _) => true
    case NestedList(_, _) => true
    case _ => false
  }

  /** messageNeedsSlab. */
  predicate NeedsSlab(fields: seq<Field>) {
    exists i | 0 <= i < |fields| :: UsesSlab(fields[i].shape)
  }

  /** Strings can be read in fields and map entries that hold them, and below
      fields that hold messages. */
  lemma NeedsSlabIff(fields: seq<Field>)
    ensures NeedsSlab(fields) <==>
            exists i | 0 <= i < |fields| ::
              var shape := fields[i].shape;
              || shape.Nested? || shape.NestedList?
              || shape in {Singular(String), Optional(String), Repeated(String)}
              || (shape.Map? && String in {shape.key, shape.val})
  {
  }

  // ---------------------------------------------------------------- scalars

  /** A scalar at `data[i..end]`; `end` is the end of the message or of a map
      entry. */
  method ScalarAt(k: Kind, data: bytes, i: nat, end: nat, slab: bytes, off: nat) returns (r: Result<Read<Scalar>>)
    requires i <= end <= |data| && (k == String ==> Slabbed(data, slab, off))
    ensures r == ReadScalar(k, data[i..end])
  {
    if WireOf(k) == VARINT {
      var v, n := DecodeVarint(data[i..end]);
      if n < 0 {
        return Err(InvalidVarint);
      }
      return Ok(Read(Num(FromVarint(k, v)), n));
    } else if WireOf(k) == LEN_DELIMITED {
      r := TextAt(k, data, i, end, slab, off);
    } else {
      if end - i < FixedWidth(k) {
        return Err(BufferTooShort);
      }
      SliceSlice(data, i, end, 0, FixedWidth(k));
      return Ok(Read(Num(FromFixed(k, FromLittleEndian(data[i..i + FixedWidth(k)]))), FixedWidth(k)));
    }
  }

  method TextAt(k: Kind, data: bytes, i: nat, end: nat, slab: bytes, off: nat) returns (r: Result<Read<Scalar>>)
    requires i <= end <= |data| && (k == String ==> Slabbed(data, slab, off))
    ensures r == ReadText(k, data[i..end])
  {
    hide Slabbed, ReadVarint;
    var len, n := DecodeVarint(data[i..end]);
    if n < 0 {
      return Err(InvalidVarint);
    }
    if k.FixedBytes? && len != k.len {
      return Err(InvalidLength);
    }
    if end - (i + n) < len {
      return Err(BufferTooShort);
    }
    SliceSlice(data, i, end, n, n + len);
    var t := CutText(k, data, i + n, len, slab, off);
    return Ok(Read(Text(t), n + len));
  }

  /** Strings share the slab, bytes are copied out of the message. */
  method CutText(k: Kind, data: bytes, a: nat, len: nat, slab: bytes, off: nat) returns (t: bytes)
    requires a + len <= |data| && (k == String ==> Slabbed(data, slab, off))
    ensures t == data[a..a + len]
  {
    if k == String {
      SlabCut(data, slab, off, a, a + len);
      t := slab[off + a..off + a + len];
    } else {
      t := data[a..a + len];
    }
  }

  /** A length prefix whose payload must end within the message. */
  method LengthAt(data: bytes, i: nat) returns (r: Result<Read<nat>>)
    requires i <= |data|
    ensures r == ReadLength(data[i..])
  {
    var len, n := DecodeVarint(data[i..]);
    if n < 0 {
      return Err(InvalidVarint);
    }
    if |data| - (i + n) < len {
      return Err(BufferTooShort);
    }
    return Ok(Read(len, n));
  }

  /** The start of a length-delimited payload, and the bytes up to its end. */
  method PayloadAt(wire: nat, data: bytes, i: nat) returns (r: Result<Read<nat>>)
    requires i <= |data|
    ensures match ReadPayload(wire, data[i..])
            case Err(e) => r == Err(e)
            case Ok(p) => && r.Ok? && r.value.n == p.n && i < r.value.v <= i + p.n <= |data|
                          && data[r.value.v..i + p.n] == p.v
  {
    hide ReadLength;
    if wire != LEN_DELIMITED {
      return Err(InvalidWireType);
    }
    var len :- LengthAt(data, i);
    SliceSlice(data, i, |data|, len.n, len.n + len.v);
    assert data[i..|data|] == data[i..];
    return Ok(Read(i + len.n, len.n + len.v));
  }

  // ---------------------------------------------------------------- repeated scalars

  /** The packed loop: it stops at `end`, but each element is decoded from the
      rest of the message. */
  method PackedAt(k: Kind, data: bytes, start: nat, end: nat, was: seq<Scalar>) returns (r: Result<Read<seq<Scalar>>>)
    requires Packable(k) && start <= end <= |data|
    ensures match ReadElements(k, data[start..], end - start)
            case Err(e) => r == Err(e)
            case Ok(run) => r == Ok(Read(was + run.v, run.n))
  {
    hide ReadScalar, LeastElement, Packable, ReadElements, Ahead;
    ghost var all := ReadElements(k, data[start..], end - start);
    ghost var done: seq<Scalar> := [];
    var es, i := was, start;
    NothingYet(all);
    while end - i >= LeastElement(k)
      invariant start <= i <= |data| && es == was + done
      invariant Ahead(all, ReadElements(k, data[i..], end - i), done, i - start)
      decreases |data| - i
    {
      NotText(k);
      var e := ScalarAt(k, data, i, |data|, [], 0);
      assert data[i..|data|] == data[i..];
      PackedStep(k, data, i, end, all, done, i - start);
      if e.Err? {
        return Err(e.error);
      }
      es := es + [e.value.v];
      done := done + [e.value.v];
      i := i + e.value.n;
    }
    PackedEnd(k, data[i..], end - i, all, done, i - start);
    return Ok(Read(es, i - start));
  }

  lemma NotText(k: Kind)
    requires Packable(k)
    ensures k != String
  {
  }

  /** `done` has been read over `n` bytes and `rest` is still to come. */
  ghost predicate Ahead(all: Result<Read<seq<Scalar>>>, rest: Result<Read<seq<Scalar>>>, done: seq<Scalar>, n: nat) {
    match rest
    case Err(e) => all == Err(e)
    case Ok(r) => all == Ok(Read(done + r.v, n + r.n))
  }

  lemma NothingYet(all: Result<Read<seq<Scalar>>>)
    ensures Ahead(all, all, [], 0)
  {
    if all.Ok? {
      assert [] + all.value.v == all.value.v;
    }
  }

  lemma PackedEnd(k: Kind, rest: bytes, left: int, all: Result<Read<seq<Scalar>>>, done: seq<Scalar>, n: nat)
    requires left < LeastElement(k) && Ahead(all, ReadElements(k, rest, left), done, n)
    ensures all == Ok(Read(done, n))
  {
    assert done + [] == done;
  }

  lemma PackedStep(k: Kind, data: bytes, i: nat, end: nat, all: Result<Read<seq<Scalar>>>, done: seq<Scalar>, n: nat)
    requires i <= |data| && end - i >= LeastElement(k) && Ahead(all, ReadElements(k, data[i..], end - i), done, n)
    ensures match ReadScalar(k, data[i..])
            case Err(e) => all == Err(e)
            case Ok(e) => Ahead(all, ReadElements(k, data[i + e.n..], end - i - e.n), done + [e.v], n + e.n)
  {
    hide ReadScalar, LeastElement, Ahead;
    var e := ReadScalar(k, data[i..]);
    if e.Ok? {
      assert data[i..][e.value.n..] == data[i + e.value.n..];
      OneAhead(all, ReadElements(k, data[i + e.value.n..], end - i - e.value.n), done, n, e.value);
    } else {
      FailedAhead(all, e.error, done, n);
    }
  }

  lemma OneAhead(all: Result<Read<seq<Scalar>>>, rest: Result<Read<seq<Scalar>>>, done: seq<Scalar>, n: nat, e: Read<Scalar>)
    requires if rest.Err? then Ahead(all, Err(rest.error), done, n)
             else Ahead(all, Ok(Read([e.v] + rest.value.v, e.n + rest.value.n)), done, n)
    ensures Ahead(all, rest, done + [e.v], n + e.n)
  {
    if rest.Ok? {
      assert done + ([e.v] + rest.value.v) == done + [e.v] + rest.value.v;
    }
  }

  lemma FailedAhead(all: Result<Read<seq<Scalar>>>, error: Error, done: seq<Scalar>, n: nat)
    requires Ahead(all, Err(error), done, n)
    ensures all == Err(error)
  {
  }

  /** A packed run or one element, appended to what is there. */
  method RunAt(k: Kind, wire: nat, data: bytes, i: nat, was: seq<Scalar>) returns (r: Result<Read<seq<Scalar>>>)
    requires Packable(k) && i <= |data|
    ensures match ReadRun(k, wire, data[i..])
            case Err(e) => r == Err(e)
            case Ok(run) => r == Ok(Read(was + run.v, run.n))
  {
    hide ReadScalar, ReadElements, ReadLength;
    NotText(k);
    if wire == LEN_DELIMITED {
      var len :- LengthAt(data, i);
      assert data[i..][len.n..] == data[i + len.n..];
      var run :- PackedAt(k, data, i + len.n, i + len.n + len.v, was);
      return Ok(Read(run.v, len.n + run.n));
    } else if wire == WireOf(k) {
      assert data[i..|data|] == data[i..];
      var e :- ScalarAt(k, data, i, |data|, [], 0);
      return Ok(Read(was + [e.v], e.n));
    } else {
      return Err(InvalidWireType);
    }
  }

  // ---------------------------------------------------------------- map entries

  /** The map-entry loop over `data[start..end]`. */
  method EntryAt(kk: Kind, vk: Kind, data: bytes, start: nat, end: nat, slab: bytes, off: nat) returns (r: Result<Delta>)
    requires start <= end <= |data|
    requires kk == String || vk == String ==> Slabbed(data, slab, off)
    ensures r == ReadEntry(kk, vk, EmptyEntry(kk, vk), data[start..end])
  {
    hide ReadEntryField, Slabbed, EntryKind;
    var e, i := EmptyEntry(kk, vk), start;
    while i < end
      invariant start <= i <= end && e.Entry?
      invariant ReadEntry(kk, vk, EmptyEntry(kk, vk), data[start..end]) == ReadEntry(kk, vk, e, data[i..end])
      decreases end - i
    {
      var f := EntryFieldAt(kk, vk, e, data, i, end, slab, off);
      if f.Err? {
        return Err(f.error);
      }
      SliceDrop(data, i, end, f.value.n);
      e, i := f.value.v, i + f.value.n;
    }
    assert i == end;
    return Ok(e);
  }

  method EntryFieldAt(kk: Kind, vk: Kind, e: Delta, data: bytes, i: nat, end: nat, slab: bytes, off: nat)
    returns (r: Result<Read<Delta>>)
    requires e.Entry? && i <= end <= |data|
    requires kk == String || vk == String ==> Slabbed(data, slab, off)
    ensures r == ReadEntryField(kk, vk, e, data[i..end])
  {
    hide ReadEntryField, ReadEntryBody, Slabbed, ReadVarint;
    var etag, en := DecodeVarint(data[i..end]);
    EntryFieldParts(kk, vk, e, data[i..end]);
    if en < 0 {
      return Err(InvalidVarint);
    }
    SliceDrop(data, i, end, en);
    var f := EntryBodyAt(kk, vk, e, etag, data, i + en, end, slab, off);
    if f.Err? {
      return Err(f.error);
    }
    return Ok(Read(f.value.v, en + f.value.n));
  }

  lemma EntryKindText(k: Kind)
    ensures EntryKind(k) == String <==> k == String
  {
  }

  method EntryBodyAt(kk: Kind, vk: Kind, e: Delta, etag: nat, data: bytes, i: nat, end: nat, slab: bytes, off: nat)
    returns (r: Result<Read<Delta>>)
    requires e.Entry? && i <= end <= |data|
    requires kk == String || vk == String ==> Slabbed(data, slab, off)
    ensures r == ReadEntryBody(kk, vk, e, etag, data[i..end])
  {
    EntryKindText(kk);
    EntryKindText(vk);
    hide ReadScalar, Slabbed, SkipField, EntryKind, ReadEntryBody;
    EntryBodyParts(kk, vk, e, etag, data[i..end]);
    if etag / 8 == 1 {
      var k := ScalarAt(EntryKind(kk), data, i, end, slab, off);
      r := if k.Err? then Err(k.error) else Ok(Read(Entry(k.value.v, e.val), k.value.n));
    } else if etag / 8 == 2 {
      var v := ScalarAt(EntryKind(vk), data, i, end, slab, off);
      r := if v.Err? then Err(v.error) else Ok(Read(Entry(e.key, v.value.v), v.value.n));
    } else {
      var n := SkipField(data[i..end], etag % 8);
      r := if n.Err? then Err(n.error) else Ok(Read(e, n.value));
    }
  }

  // ---------------------------------------------------------------- any field that holds no message

  method SingleAt(k: Kind, wire: nat, data: bytes, i: nat, slab: bytes, off: nat) returns (r: Result<Read<Scalar>>)
    requires i <= |data| && (k == String ==> Slabbed(data, slab, off))
    ensures r == ReadSingle(k, wire, data[i..])
  {
    hide ReadScalar, Slabbed;
    if wire != WireOf(k) {
      return Err(InvalidWireType);
    }
    assert data[i..|data|] == data[i..];
    r := ScalarAt(k, data, i, |data|, slab, off);
  }

  method ListAt(file: File, k: Kind, wire: nat, data: bytes, i: nat, slab: bytes, off: nat, v: Value)
    returns (r: Result<Read<Value>>)
    requires i <= |data| && (k == String ==> Slabbed(data, slab, off))
    ensures ReadMany(k, wire, data[i..]).Err? ==> r == Err(ReadMany(k, wire, data[i..]).error)
    ensures ReadMany(k, wire, data[i..]).Ok? ==>
              var many := ReadMany(k, wire, data[i..]).value;
              r == Ok(Read(Update(file, Repeated(k), v, many.v), many.n))
  {
    hide ReadScalar, Slabbed, ReadRun, ReadSingle;
    var was := if v.List? then v.es else [];
    if Packable(k) {
      var run :- RunAt(k, wire, data, i, was);
      return Ok(Read(List(run.v), run.n));
    } else {
      var e :- SingleAt(k, wire, data, i, slab, off);
      return Ok(Read(List(was + [e.v]), e.n));
    }
  }

  /** Maps and well-known types, in the payload `data[a..b]`. */
  method FramedAt(file: File, shape: Shape, v: Value, data: bytes, a: nat, b: nat, slab: bytes, off: nat)
    returns (r: Result<Value>)
    requires shape.Map? || shape.Timestamp? || shape.Duration?
    requires a <= b <= |data| && (UsesSlab(shape) ==> Slabbed(data, slab, off))
    ensures ReadFramed(file, shape, data[a..b]).Err? ==> r == Err(ReadFramed(file, shape, data[a..b]).error)
    ensures ReadFramed(file, shape, data[a..b]).Ok? ==> r == Ok(Update(file, shape, v, ReadFramed(file, shape, data[a..b]).value))
  {
    hide ReadEntry, ReadStamp, Slabbed, StampToTimestamp, StampToDuration, EmptyEntry;
    if shape.Map? {
      var e :- EntryAt(shape.key, shape.val, data, a, b, slab, off);
      var m := if v.Table? then v.m else map[];
      return Ok(Table(m[e.key := e.val]));
    } else {
      var s :- DecodeStamp(data[a..b]);
      return Ok(if shape.Timestamp? then Time(StampToTimestamp(s)) else Span(StampToDuration(s)));
    }
  }

  /** The case arm of one field: the value it leaves in the receiver. */
  method DecodeLeaf(file: File, shape: Shape, v: Value, wire: nat, data: bytes, i: nat, slab: bytes, off: nat)
    returns (r: Result<Read<Value>>)
    requires Leaf(shape) && i <= |data| && (UsesSlab(shape) ==> Slabbed(data, slab, off))
    ensures ReadDelta(file, shape, wire, data[i..]).Err? ==> r == Err(ReadDelta(file, shape, wire, data[i..]).error)
    ensures ReadDelta(file, shape, wire, data[i..]).Ok? ==>
              var read := ReadDelta(file, shape, wire, data[i..]).value;
              r == Ok(Read(Update(file, shape, v, read.v), read.n))
  {
    hide ReadSingle, ReadMany, ReadFramed, ReadLength, Slabbed;
    if shape.Singular? || shape.Optional? {
      var e :- SingleAt(shape.k, wire, data, i, slab, off);
      return Ok(Read(if shape.Optional? then Opt(Some(e.v)) else Plain(e.v), e.n));
    } else if shape.Repeated? {
      r := ListAt(file, shape.k, wire, data, i, slab, off, v);
    } else {
      var p :- PayloadAt(wire, data, i);
      var w :- FramedAt(file, shape, v, data, p.v, i + p.n, slab, off);
      return Ok(Read(w, p.n));
    }
  }
}
