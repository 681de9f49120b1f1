// Packed and unpacked elements of one field in any mixture, and how far a
// packed loop reads.

module Elements {
  import opened Base
  import opened Wire
  import opened Schema
  import opened Records
  import opened Values
  import opened Decoder
  import opened RoundTrip
  import opened Meaning

  // ---------------------------------------------------------------- packed and unpacked

  /** One record of a repeated scalar: a packed run, or a single element. */
  datatype Chunk = Packed(es: seq<Scalar>) | Single(e: Scalar)

  function Elems(c: Chunk): seq<Scalar> {
    match c
    case Packed(es) => es
    case Single(e) => [e]
  }

  function ChunkWire(k: Kind, c: Chunk): (w: nat)
    ensures w < 8
  {
    if c.Packed? then LEN_DELIMITED else WireOf(k)
  }

  function ChunkPayload(k: Kind, c: Chunk): bytes {
    match c
    case Packed(es) => Framed(ElementsBytes(k, es))
    case Single(e) => ScalarBytes(k, e)
  }

  function ChunkBytes(num: nat, k: Kind, c: Chunk): bytes {
    TagBytes(num, ChunkWire(k, c)) + ChunkPayload(k, c)
  }

  function ChunksBytes(num: nat, k: Kind, cs: seq<Chunk>): bytes {
    if cs == [] then [] else ChunkBytes(num, k, cs[0]) + ChunksBytes(num, k, cs[1..])
  }

  function AllElems(cs: seq<Chunk>): seq<Scalar> {
    if cs == [] then [] else Elems(cs[0]) + AllElems(cs[1..])
  }

  function ChunkRecs(i: nat, cs: seq<Chunk>): seq<Rec> {
    if cs == [] then [] else [Known(i, Run(Elems(cs[0])))] + ChunkRecs(i, cs[1..])
  }

  lemma ChunkRead(k: Kind, c: Chunk, suffix: bytes)
    requires Packable(k) && (forall e | e in Elems(c) :: InKind(k, e)) && |ChunkPayload(k, c)| < MAX_LEN
    ensures ReadMany(k, ChunkWire(k, c), ChunkPayload(k, c) + suffix) == Ok(Read(Run(Elems(c)), |ChunkPayload(k, c)|))
  {
    hide InKind, ElementsBytes, ScalarBytes, ReadScalar, ReadElements, ReadLength;
    if c.Packed? {
      PackedRoundTrip(k, c.es, suffix);
    } else {
      assert c.e in Elems(c);
      ScalarRoundTrip(k, c.e, suffix);
    }
  }

  lemma ChunkRecord(file: File, ref: nat, i: nat, k: Kind, c: Chunk, suffix: bytes)
    requires ValidFile(file) && i < |Fields(file, ref)| && ShapeAt(file, ref, i) == Repeated(k) && Packable(k)
    requires forall e | e in Elems(c) :: InKind(k, e)
    requires |ChunkBytes(Fields(file, ref)[i].num, k, c)| < MAX_LEN
    ensures var w := ChunkBytes(Fields(file, ref)[i].num, k, c);
            w != [] && ReadRecord(file, ref, w + suffix) == Ok(Read(Known(i, Run(Elems(c))), |w|))
  {
    hide InKind, ReadMany, ChunkPayload, ChunkWire, TagBytes, ValidFile, ReadRecord;
    ChunkRead(k, c, suffix);
    TaggedRecord(file, ref, i, ChunkWire(k, c), ChunkPayload(k, c), suffix, Run(Elems(c)));
  }

  lemma {:induction false} ChunksRead(file: File, ref: nat, i: nat, k: Kind, cs: seq<Chunk>)
    requires ValidFile(file) && i < |Fields(file, ref)| && ShapeAt(file, ref, i) == Repeated(k) && Packable(k)
    requires forall c | c in cs :: forall e | e in Elems(c) :: InKind(k, e)
    requires |ChunksBytes(Fields(file, ref)[i].num, k, cs)| < MAX_LEN
    ensures ReadMessage(file, ref, ChunksBytes(Fields(file, ref)[i].num, k, cs)) == Ok(ChunkRecs(i, cs))
    decreases |cs|
  {
    hide ValidFile, InKind, ReadRecord, ChunkBytes;
    if cs != [] {
      var num := Fields(file, ref)[i].num;
      var head, tail := ChunkBytes(num, k, cs[0]), ChunksBytes(num, k, cs[1..]);
      ChunkRecord(file, ref, i, k, cs[0], tail);
      ChunksRead(file, ref, i, k, cs[1..]);
      ReadMessageStep(file, ref, head, tail, Known(i, Run(Elems(cs[0]))));
    }
  }

  lemma {:induction false} ChunksFold(file: File, k: Kind, i: nat, was: seq<Scalar>, cs: seq<Chunk>)
    ensures Fold(file, Repeated(k), List(was), Deltas(ChunkRecs(i, cs), i)) == List(was + AllElems(cs))
    decreases |cs|
  {
    if cs == [] {
      assert was + [] == was;
    } else {
      var rest := Deltas(ChunkRecs(i, cs[1..]), i);
      assert ChunkRecs(i, cs)[1..] == ChunkRecs(i, cs[1..]);
      assert Deltas(ChunkRecs(i, cs), i) == [Run(Elems(cs[0]))] + rest;
      FoldConcat(file, Repeated(k), List(was), [Run(Elems(cs[0]))], rest);
      FoldOne(file, Repeated(k), List(was), Run(Elems(cs[0])));
      ChunksFold(file, k, i, was + Elems(cs[0]), cs[1..]);
      assert was + Elems(cs[0]) + AllElems(cs[1..]) == was + AllElems(cs);
    }
  }

  /** Packed runs and single elements of one field, in any mixture, decode to
      their elements in order. */
  lemma PackedUnpackedDuality(file: File, ref: nat, i: nat, k: Kind, cs: seq<Chunk>)
    requires ValidFile(file) && i < |Fields(file, ref)| && ShapeAt(file, ref, i) == Repeated(k) && Packable(k)
    requires forall c | c in cs :: forall e | e in Elems(c) :: InKind(k, e)
    requires |ChunksBytes(Fields(file, ref)[i].num, k, cs)| < MAX_LEN
    ensures var r := Unmarshal(file, ref, Fresh(file, ref), ChunksBytes(Fields(file, ref)[i].num, k, cs));
            r.Ok? && i < |r.value.vals| && r.value.vals[i] == List(AllElems(cs))
  {
    hide ValidFile, InKind, ReadMessage, ChunksBytes, Fresh, Decode, ChunkRecs, Fold, Deltas, AllElems;
    ChunksRead(file, ref, i, k, cs);
    FreshDecodedField(file, ref, ChunkRecs(i, cs), i);
    ChunksFold(file, k, i, [], cs);
    assert [] + AllElems(cs) == AllElems(cs);
  }

  /** How far a packed loop reads on arbitrary input: a varint run is read to
      its end and at most nine bytes past it, a fixed-width run up to the last
      whole element. */
  lemma {:induction false} PackedReach(k: Kind, data: bytes, left: int)
    requires Packable(k) && left >= 0 && ReadElements(k, data, left).Ok?
    ensures var n := ReadElements(k, data, left).value.n;
            if WireOf(k) == VARINT then left <= n <= left + 9 else n == left - left % FixedWidth(k)
    decreases |data|
  {
    hide ReadScalar, ReadElements;
    if left < LeastElement(k) {
      NothingLeft(k, data, left);
    } else {
      var e, rest := NextElement(k, data, left);
      ElementReach(k, data);
      if left >= e {
        PackedReach(k, data[e..], left - e);
        if WireOf(k) != VARINT {
          OneWidthLess(left, FixedWidth(k));
        }
      } else {
        NothingLeft(k, data[e..], left - e);
      }
    }
  }

  lemma NothingLeft(k: Kind, data: bytes, left: int)
    requires left < LeastElement(k)
    ensures ReadElements(k, data, left) == Ok(Read([], 0))
  {
  }

  lemma NextElement(k: Kind, data: bytes, left: int) returns (e: nat, rest: Read<seq<Scalar>>)
    requires left >= LeastElement(k) && ReadElements(k, data, left).Ok?
    ensures ReadScalar(k, data).Ok? && e == ReadScalar(k, data).value.n && e <= |data|
    ensures ReadElements(k, data[e..], left - e) == Ok(rest) && ReadElements(k, data, left).value.n == e + rest.n
  {
    hide ReadScalar;
    e := ReadScalar(k, data).value.n;
    rest := ReadElements(k, data[e..], left - e).value;
  }

  lemma ElementReach(k: Kind, data: bytes)
    requires Packable(k) && ReadScalar(k, data).Ok?
    ensures var n := ReadScalar(k, data).value.n; if WireOf(k) == VARINT then 1 <= n <= 10 else n == FixedWidth(k)
  {
    hide FromVarint, FromFixed, FromLittleEndian;
  }

  lemma OneWidthLess(left: nat, w: nat)
    requires w <= left && (w == 4 || w == 8)
    ensures (left - w) % w == left % w
  {
    assert w == 4 ==> (left - 4) % 4 == left % 4;
  }
}
