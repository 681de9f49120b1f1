// The language the emitted decoders accept, as a grammar: which bytes spell
// which records. Every wire that is in it is read as it says, and no other is
// read at all (ReadIff). The predicates use no reader: they are stated by
// digits, wire types and lengths.

module Grammar {
  import opened Base
  import opened Wire
  import opened Wkt
  import opened Schema
  import opened Records
  import opened Maps
  import opened Format

  // ---------------------------------------------------------------- varints and payloads

  /** The first `n` bytes are a varint for `v`. */
  ghost predicate VarintFirst(data: bytes, n: nat, v: nat) {
    1 <= n <= 10 && n <= |data| && EndsAt(data, n - 1) && v == Positional(data, n) % U64
  }

  ghost predicate NoVarintFirst(data: bytes) {
    forall j: nat | j < 10 :: !EndsAt(data, j)
  }

  lemma VarintIff(data: bytes, n: nat, v: nat)
    ensures ReadVarint(data) == Some(Read(v, n)) <==> VarintFirst(data, n, v)
  {
    hide ReadVarint, Positional;
    VarintDigits(data);
    if ReadVarint(data).Some? {
      var j: nat :| j < 10 && EndsAt(data, j);
    }
  }

  lemma NoVarintIff(data: bytes)
    ensures ReadVarint(data) == None <==> NoVarintFirst(data)
  {
    hide ReadVarint, Positional;
    VarintDigits(data);
  }

  /** The first `n` bytes are the length of `p` and `p` itself. */
  ghost predicate PayloadFirst(data: bytes, n: nat, p: bytes) {
    n <= |data| && exists t: nat :: t <= n && VarintFirst(data, t, |p|) && data[t..n] == p
  }

  lemma PayloadIff(data: bytes, n: nat, wire: nat, p: bytes)
    ensures ReadPayload(wire, data) == Ok(Read(p, n)) <==> wire == 2 && PayloadFirst(data, n, p)
  {
    hide ReadVarint, VarintFirst;
    if ReadPayload(wire, data) == Ok(Read(p, n)) {
      var len := ReadLength(data).value;
      VarintIff(data, len.n, len.v);
    }
    if PayloadFirst(data, n, p) {
      var t: nat :| t <= n && VarintFirst(data, t, |p|) && data[t..n] == p;
      VarintIff(data, t, |p|);
    }
  }

  // ---------------------------------------------------------------- scalars

  function Zigzag(n: int): nat {
    if n >= 0 then 2 * n else -2 * n - 1
  }

  /** A varint `v` stands for `n`: the value of the kind that agrees with it in
      the low bits. */
  predicate Stands(k: Kind, v: nat, n: int) {
    && InKind(k, Num(n))
    && if k == Bool then n == 1 <==> v > 0
       else if k == Sint32 then (Zigzag(n) - v) % U32 == 0
       else if k == Sint64 then Zigzag(n) == v
       else if k == Int64 || k == Uint64 then (n - v) % U64 == 0
       else (n - v) % U32 == 0
  }

  lemma Alone(a: int, b: int, v: int)
    ensures (a - v) % U32 == 0 && (b - v) % U32 == 0 && -U32 < a - b < U32 ==> a == b
    ensures (a - v) % U64 == 0 && (b - v) % U64 == 0 && -U64 < a - b < U64 ==> a == b
  {
    if (a - v) % U32 == 0 && (b - v) % U32 == 0 {
      assert a - b == U32 * ((a - v) / U32 - (b - v) / U32);
    }
    if (a - v) % U64 == 0 && (b - v) % U64 == 0 {
      assert a - b == U64 * ((a - v) / U64 - (b - v) / U64);
    }
  }

  lemma StandsAlone(k: Kind, v: nat, a: int, b: int)
    requires WireTypeOf(k) == 0 && Stands(k, v, a) && Stands(k, v, b)
    ensures a == b
  {
    Alone(a, b, v);
    Alone(Zigzag(a), Zigzag(b), v);
  }

  lemma StandsIff(k: Kind, v: uint64, n: int)
    requires WireTypeOf(k) == 0
    ensures FromVarint(k, v) == n <==> Stands(k, v, n)
  {
    hide FromVarint;
    VarintMeaning(k, v);
    assert Stands(k, v, FromVarint(k, v)) by {
      assert (v - v) % U64 == 0;
    }
    if Stands(k, v, n) {
      StandsAlone(k, v, n, FromVarint(k, v));
    }
  }

  /** The first `n` bytes are the scalar `s` as kind `k` writes it, in a varint of
      any length. */
  ghost predicate ScalarFirst(data: bytes, n: nat, k: Kind, s: Scalar) {
    match s
    case Text(t) => WireTypeOf(k) == 2 && (k.FixedBytes? ==> |t| == k.len) && PayloadFirst(data, n, t)
    case Num(x) =>
      if WireTypeOf(k) == 0 then exists v: nat :: VarintFirst(data, n, v) && Stands(k, v, x)
      else InKind(k, s) && n <= |data| &&
           data[..n] == if EightBytes(k) then LittleEndian(Word(x, U64), 8) else LittleEndian(Word(x, U32), 4)
  }

  lemma ScalarIff(data: bytes, n: nat, k: Kind, s: Scalar)
    ensures ReadScalar(k, data) == Ok(Read(s, n)) <==> ScalarFirst(data, n, k, s)
  {
    if WireTypeOf(k) == 0 {
      if s.Num? {
        VarintScalarIff(data, n, k, s.n);
      }
    } else if WireTypeOf(k) == 2 {
      TextIff(data, n, k, s);
    } else {
      WordIff(data, n, k, s);
    }
  }

  lemma VarintScalarIff(data: bytes, n: nat, k: Kind, x: int)
    requires WireTypeOf(k) == 0
    ensures ReadScalar(k, data) == Ok(Read(Num(x), n)) <==> ScalarFirst(data, n, k, Num(x))
  {
    hide ReadVarint, VarintFirst, FromVarint, Stands;
    if ReadVarint(data).Some? {
      var r := ReadVarint(data).value;
      VarintIff(data, r.n, r.v);
      StandsIff(k, r.v, x);
    }
    if ScalarFirst(data, n, k, Num(x)) {
      var v: nat :| VarintFirst(data, n, v) && Stands(k, v, x);
      VarintIff(data, n, v);
      StandsIff(k, v, x);
    }
  }

  lemma TextIff(data: bytes, n: nat, k: Kind, s: Scalar)
    requires WireTypeOf(k) == 2
    ensures ReadScalar(k, data) == Ok(Read(s, n)) <==> ScalarFirst(data, n, k, s)
  {
    hide ReadVarint, PayloadFirst, ReadVarintScalar, FromFixed, FromLittleEndian, LittleEndian, Stands;
    if s.Text? {
      PayloadIff(data, n, 2, s.s);
    }
  }

  lemma {:induction false} WordSpelled(s: bytes)
    ensures LittleEndian(FromLittleEndian(s), |s|) == s
  {
    if s != [] {
      WordSpelled(s[1..]);
      assert FromLittleEndian(s) % 256 == s[0] && FromLittleEndian(s) / 256 == FromLittleEndian(s[1..]);
      assert s == [s[0]] + s[1..];
    }
  }

  lemma WordIff(data: bytes, n: nat, k: Kind, s: Scalar)
    requires WireTypeOf(k) == 1 || WireTypeOf(k) == 5
    ensures ReadScalar(k, data) == Ok(Read(s, n)) <==> ScalarFirst(data, n, k, s)
  {
    hide FromLittleEndian, LittleEndian, FromFixed, ToFixed, InKind;
    if ReadScalar(k, data) == Ok(Read(s, n)) {
      WordRead(data, k);
    }
    if ScalarFirst(data, n, k, s) {
      NumberFormat(k, s.n);
      FixedRoundTrip(k, s.n, data[n..]);
      assert data[..n] + data[n..] == data;
    }
  }

  lemma WordRead(data: bytes, k: Kind)
    requires (WireTypeOf(k) == 1 || WireTypeOf(k) == 5) && FixedWidth(k) <= |data|
    ensures var x := FromFixed(k, FromLittleEndian(data[..FixedWidth(k)]));
            && InKind(k, Num(x))
            && data[..FixedWidth(k)] == LittleEndian(Word(x, if EightBytes(k) then U64 else U32), FixedWidth(k))
  {
    hide FromLittleEndian, LittleEndian;
    var p := data[..FixedWidth(k)];
    Pow256Widths();
    FromLittleEndianBound(p);
    WordSpelled(p);
  }

  // ---------------------------------------------------------------- fields to skip

  /** The first `n` bytes are some content of the given wire type. */
  ghost predicate SkippedFirst(data: bytes, n: nat, wire: nat) {
    if wire == 0 then exists v: nat :: VarintFirst(data, n, v)
    else if wire == 1 then n == 8 <= |data|
    else if wire == 2 then exists p: bytes :: PayloadFirst(data, n, p)
    else wire == 5 && n == 4 <= |data|
  }

  lemma SkippedIff(data: bytes, n: nat, wire: nat)
    ensures SkipField(data, wire) == Ok(n) <==> SkippedFirst(data, n, wire)
  {
    hide ReadVarint, VarintFirst, PayloadFirst;
    if wire == 0 {
      if ReadVarint(data).Some? {
        VarintIff(data, ReadVarint(data).value.n, ReadVarint(data).value.v);
      }
      if v: nat :| VarintFirst(data, n, v) {
        VarintIff(data, n, v);
      }
    } else if wire == 2 {
      if ReadPayload(2, data).Ok? {
        PayloadIff(data, ReadPayload(2, data).value.n, 2, ReadPayload(2, data).value.v);
      }
      if p: bytes :| PayloadFirst(data, n, p) {
        PayloadIff(data, n, 2, p);
      }
    }
  }

  // ---------------------------------------------------------------- packed runs

  /** The first `n` bytes are the elements a loop reads that still has `left`
      bytes of the run to go: it goes on while an element could fit, and the last
      varint may end past the run. */
  ghost predicate ElementsFirst(data: bytes, n: nat, k: Kind, es: seq<Scalar>, left: int)
    decreases es
  {
    if es == [] then n == 0 && left < Least(k)
    else left >= Least(k) && exists e: nat :: e <= n && e <= |data| && ScalarFirst(data, e, k, es[0])
                                              && ElementsFirst(data[e..], n - e, k, es[1..], left - e)
  }

  function Least(k: Kind): nat {
    if EightBytes(k) then 8 else if FourBytes(k) then 4 else 1
  }

  lemma LeastSpelled(k: Kind)
    requires WireTypeOf(k) != 2
    ensures LeastElement(k) == Least(k)
  {
  }

  lemma {:induction false} ElementsSpelled(data: bytes, k: Kind, left: int)
    requires WireTypeOf(k) != 2 && ReadElements(k, data, left).Ok?
    ensures var r := ReadElements(k, data, left).value; ElementsFirst(data, r.n, k, r.v, left)
    decreases |data|
  {
    hide ReadScalar, ScalarFirst, LeastElement, Least, WireTypeOf, ReadElements;
    LeastSpelled(k);
    if left >= LeastElement(k) {
      ElementsParts(k, data, left);
      var e := ReadScalar(k, data).value;
      ScalarIff(data, e.n, k, e.v);
      ElementsSpelled(data[e.n..], k, left - e.n);
      var rest := ReadElements(k, data[e.n..], left - e.n).value;
      ElementFirst(data, e.n, k, e.v, rest.n, rest.v, left);
    } else {
      NoneLeft(k, data, left);
    }
  }

  lemma NoneLeft(k: Kind, data: bytes, left: int)
    requires left < LeastElement(k)
    ensures ReadElements(k, data, left) == Ok(Read([], 0))
  {
  }

  lemma ElementFirst(data: bytes, e: nat, k: Kind, x: Scalar, n: nat, es: seq<Scalar>, left: int)
    requires left >= Least(k) && e <= |data| && ScalarFirst(data, e, k, x) && ElementsFirst(data[e..], n, k, es, left - e)
    ensures ElementsFirst(data, e + n, k, [x] + es, left)
  {
    hide ScalarFirst, Least;
    assert ([x] + es)[1..] == es && ([x] + es)[0] == x;
    assert ElementsFirst(data[e..], e + n - e, k, ([x] + es)[1..], left - e);
  }

  lemma {:induction false} ElementsRead(data: bytes, n: nat, k: Kind, es: seq<Scalar>, left: int)
    requires WireTypeOf(k) != 2 && ElementsFirst(data, n, k, es, left)
    ensures ReadElements(k, data, left) == Ok(Read(es, n))
    decreases es
  {
    hide ReadScalar, ScalarFirst, LeastElement, WireTypeOf, ReadElements, Least;
    LeastSpelled(k);
    if es != [] {
      var e: nat :| e <= n && e <= |data| && ScalarFirst(data, e, k, es[0]) && ElementsFirst(data[e..], n - e, k, es[1..], left - e);
      ScalarIff(data, e, k, es[0]);
      ElementsRead(data[e..], n - e, k, es[1..], left - e);
      ElementsParts(k, data, left);
      assert [es[0]] + es[1..] == es;
    } else {
      NoneLeft(k, data, left);
    }
  }

  /** A run: its length, which must be there, and the elements read from there. */
  ghost predicate RunFirst(data: bytes, n: nat, k: Kind, es: seq<Scalar>) {
    exists t: nat, len: nat :: VarintFirst(data, t, len) && t + len <= |data| && t <= n
                               && ElementsFirst(data[t..], n - t, k, es, len)
  }

  lemma RunIff(data: bytes, n: nat, k: Kind, es: seq<Scalar>)
    requires WireTypeOf(k) != 2
    ensures ReadRun(k, 2, data) == Ok(Read(es, n)) <==> RunFirst(data, n, k, es)
  {
    hide ReadVarint, VarintFirst, ReadElements, ElementsFirst, WireTypeOf;
    if ReadRun(k, 2, data) == Ok(Read(es, n)) {
      var len := ReadLength(data).value;
      VarintIff(data, len.n, len.v);
      ElementsSpelled(data[len.n..], k, len.v);
    }
    if t: nat, len: nat :| VarintFirst(data, t, len) && t + len <= |data| && t <= n && ElementsFirst(data[t..], n - t, k, es, len) {
      VarintIff(data, t, len);
      ElementsRead(data[t..], n - t, k, es, len);
    }
  }

  // ---------------------------------------------------------------- map entries

  /** The first `n` bytes are a sub-field of an entry; the wire type of a key or
      value does not matter. */
  ghost predicate PartFirst(data: bytes, n: nat, m: Shape, p: Part)
    requires m.Map?
  {
    n <= |data| && exists t: nat, tag: nat :: t <= n && VarintFirst(data, t, tag) && PartBody(data[t..], n - t, m, p, tag)
  }

  ghost predicate PartBody(rest: bytes, n: nat, m: Shape, p: Part, tag: nat)
    requires m.Map?
  {
    match p
    case KeyPart(s) => tag / 8 == 1 && ScalarFirst(rest, n, EntryKind(m.key), s)
    case ValPart(s) => tag / 8 == 2 && ScalarFirst(rest, n, EntryKind(m.val), s)
    case OtherPart => tag / 8 !in {1, 2} && SkippedFirst(rest, n, tag % 8)
  }

  lemma PartIff(data: bytes, n: nat, m: Shape, p: Part)
    requires m.Map?
    ensures ReadPart(m.key, m.val, data) == Ok(Read(p, n)) <==> PartFirst(data, n, m, p)
  {
    hide ReadVarint, VarintFirst, ReadPartBody, PartBody;
    if ReadPart(m.key, m.val, data) == Ok(Read(p, n)) {
      var tag := ReadVarint(data).value;
      VarintIff(data, tag.n, tag.v);
      PartBodyIff(data[tag.n..], n - tag.n, m, p, tag.v);
    }
    if PartFirst(data, n, m, p) {
      var t: nat, tag: nat :| t <= n && VarintFirst(data, t, tag) && PartBody(data[t..], n - t, m, p, tag);
      VarintIff(data, t, tag);
      PartBodyIff(data[t..], n - t, m, p, tag);
    }
  }

  lemma PartBodyIff(rest: bytes, n: nat, m: Shape, p: Part, tag: nat)
    requires m.Map?
    ensures ReadPartBody(m.key, m.val, tag, rest) == Ok(Read(p, n)) <==> PartBody(rest, n, m, p, tag)
  {
    hide ReadScalar, ScalarFirst, SkipField, SkippedFirst, EntryKind;
    match p
    case KeyPart(s) => ScalarIff(rest, n, EntryKind(m.key), s);
    case ValPart(s) => ScalarIff(rest, n, EntryKind(m.val), s);
    case OtherPart => SkippedIff(rest, n, tag % 8);
  }

  ghost predicate AreParts(data: bytes, m: Shape, ps: seq<Part>)
    requires m.Map?
    decreases ps
  {
    if ps == [] then data == []
    else exists n: nat :: n <= |data| && PartFirst(data, n, m, ps[0]) && AreParts(data[n..], m, ps[1..])
  }

  lemma {:induction false} PartsSpelled(data: bytes, m: Shape)
    requires m.Map?
    requires ReadParts(m.key, m.val, data).Ok?
    ensures AreParts(data, m, ReadParts(m.key, m.val, data).value)
    decreases |data|
  {
    hide ReadPart, PartFirst;
    if data != [] {
      var p := ReadPart(m.key, m.val, data).value;
      PartIff(data, p.n, m, p.v);
      PartsSpelled(data[p.n..], m);
      var rest := ReadParts(m.key, m.val, data[p.n..]).value;
      assert ([p.v] + rest)[1..] == rest;
    }
  }

  lemma PartsIff(data: bytes, m: Shape)
    requires m.Map?
    ensures forall ps: seq<Part> :: AreParts(data, m, ps) <==> ReadParts(m.key, m.val, data) == Ok(ps)
  {
    hide ReadParts, AreParts;
    if ReadParts(m.key, m.val, data).Ok? {
      PartsSpelled(data, m);
    }
    forall ps: seq<Part> | AreParts(data, m, ps)
      ensures ReadParts(m.key, m.val, data) == Ok(ps)
    {
      PartsRead(data, m, ps);
    }
  }

  lemma {:induction false} PartsRead(data: bytes, m: Shape, ps: seq<Part>)
    requires m.Map?
    requires AreParts(data, m, ps)
    ensures ReadParts(m.key, m.val, data) == Ok(ps)
    decreases ps
  {
    hide ReadPart, PartFirst;
    if ps != [] {
      var n: nat :| n <= |data| && PartFirst(data, n, m, ps[0]) && AreParts(data[n..], m, ps[1..]);
      PartIff(data, n, m, ps[0]);
      PartsRead(data[n..], m, ps[1..]);
      assert [ps[0]] + ps[1..] == ps;
    }
  }

  /** An entry: its last key and its last value, or zeros. */
  ghost predicate IsEntry(data: bytes, m: Shape, key: Scalar, val: Scalar)
    requires m.Map?
  {
    exists ps: seq<Part> :: AreParts(data, m, ps)
      && key == LastKey(ps, Default(EntryKind(m.key))) && val == LastVal(ps, Default(EntryKind(m.val)))
  }

  lemma EntryIff(data: bytes, m: Shape, key: Scalar, val: Scalar)
    requires m.Map?
    ensures ReadEntry(m.key, m.val, EmptyEntry(m.key, m.val), data) == Ok(Entry(key, val)) <==> IsEntry(data, m, key, val)
  {
    hide ReadParts, AreParts, ReadEntry, LastKey, LastVal, Default, EntryKind;
    EntryIsLastKeyAndValue(m.key, m.val, Default(EntryKind(m.key)), Default(EntryKind(m.val)), data);
    PartsIff(data, m);
  }

  // ---------------------------------------------------------------- Timestamp and Duration bodies

  /** The first `n` bytes are a sub-field that turns `s` into `to`; the wire types
      of seconds and nanoseconds do not matter. */
  ghost predicate StampPartFirst(data: bytes, n: nat, s: Stamp, to: Stamp) {
    n <= |data| && exists t: nat, tag: nat :: t <= n && VarintFirst(data, t, tag) && StampBody(data[t..], n - t, s, to, tag)
  }

  ghost predicate StampBody(rest: bytes, n: nat, s: Stamp, to: Stamp, tag: nat) {
    if tag / 8 == 1 then to.nanos == s.nanos && ScalarFirst(rest, n, Int64, Num(to.secs))
    else if tag / 8 == 2 then to.secs == s.secs && ScalarFirst(rest, n, Int32, Num(to.nanos))
    else to == s && SkippedFirst(rest, n, tag % 8)
  }

  lemma StampPartIff(data: bytes, n: nat, s: Stamp, to: Stamp)
    ensures ReadStampField(s, data) == Ok(Read(to, n)) <==> StampPartFirst(data, n, s, to)
  {
    hide ReadVarint, VarintFirst, ReadStampField, StampBody;
    if ReadStampField(s, data) == Ok(Read(to, n)) {
      StampHasTag(data, s);
      var tag := ReadVarint(data).value;
      VarintIff(data, tag.n, tag.v);
      StampBodyIff(data, n, s, to, tag);
    }
    if StampPartFirst(data, n, s, to) {
      var t: nat, tag: nat :| t <= n && VarintFirst(data, t, tag) && StampBody(data[t..], n - t, s, to, tag);
      VarintIff(data, t, tag);
      StampBodyIff(data, n, s, to, Read(tag, t));
    }
  }

  lemma StampHasTag(data: bytes, s: Stamp)
    requires ReadStampField(s, data).Ok?
    ensures ReadVarint(data).Some? && ReadVarint(data).value.n <= ReadStampField(s, data).value.n
  {
    hide ReadVarint, SkipField;
  }

  lemma StampBodyIff(data: bytes, n: nat, s: Stamp, to: Stamp, tag: Read<nat>)
    requires ReadVarint(data) == Some(tag) && tag.n <= n
    ensures ReadStampField(s, data) == Ok(Read(to, n)) <==> StampBody(data[tag.n..], n - tag.n, s, to, tag.v)
  {
    hide ReadVarint, ScalarFirst, SkipField, SkippedFirst, ToInt64, ToInt32;
    var rest := data[tag.n..];
    ScalarIff(rest, n - tag.n, Int64, Num(to.secs));
    ScalarIff(rest, n - tag.n, Int32, Num(to.nanos));
    SkippedIff(rest, n - tag.n, tag.v % 8);
  }

  /** A body that turns `s` into `to`. */
  ghost predicate IsStamp(data: bytes, s: Stamp, to: Stamp)
    decreases |data|
  {
    if data == [] then to == s
    else exists n: nat, mid: Stamp :: 0 < n <= |data| && StampPartFirst(data, n, s, mid) && IsStamp(data[n..], mid, to)
  }

  lemma {:induction false} StampIff(data: bytes, s: Stamp, to: Stamp)
    ensures ReadStamp(s, data) == Ok(to) <==> IsStamp(data, s, to)
    decreases |data|
  {
    hide ReadStampField, StampPartFirst;
    if data != [] {
      if ReadStampField(s, data).Ok? {
        var r := ReadStampField(s, data).value;
        StampPartIff(data, r.n, s, r.v);
        StampIff(data[r.n..], r.v, to);
      }
      if n: nat, mid: Stamp :| 0 < n <= |data| && StampPartFirst(data, n, s, mid) && IsStamp(data[n..], mid, to) {
        StampPartIff(data, n, s, mid);
        StampIff(data[n..], mid, to);
      }
    }
  }

  // ---------------------------------------------------------------- records and messages

  /** The first `n` bytes are the content `d` of a field, under a tag of the given
      wire type. */
  ghost predicate ContentFirst(file: File, shape: Shape, wire: nat, data: bytes, n: nat, d: Delta)
    decreases d, 1
  {
    match d
    case One(s) => (shape.Singular? || shape.Optional?) && OneFirst(data, n, shape.k, wire, s)
    case Run(es) =>
      && shape.Repeated?
      && if wire == 2 && WireTypeOf(shape.k) != 2 then RunFirst(data, n, shape.k, es)
         else |es| == 1 && OneFirst(data, n, shape.k, wire, es[0])
    case _ => wire == 2 && exists p: bytes :: PayloadFirst(data, n, p) && IsContent(file, shape, p, d)
  }

  /** A scalar on its own, under its own wire type. */
  ghost predicate OneFirst(data: bytes, n: nat, k: Kind, wire: nat, s: Scalar) {
    wire == WireTypeOf(k) && ScalarFirst(data, n, k, s)
  }

  /** The whole payload is a map entry, a well-known type or a message. */
  ghost predicate IsContent(file: File, shape: Shape, p: bytes, d: Delta)
    decreases d, 0
  {
    match d
    case Entry(key, val) => shape.Map? && IsEntry(p, shape, key, val)
    case Body(s) => (shape.Timestamp? || shape.Duration?) && IsStamp(p, Stamp(0, 0), s)
    case Tree(recs) => (shape.Nested? || shape.NestedList?) && IsMessage(file, shape.ref, p, recs)
    case _ => false
  }

  /** The first `n` bytes are the record `r`: a tag, and the content of the field
      it names or, if there is none, of its wire type. */
  ghost predicate RecordFirst(file: File, ref: nat, data: bytes, n: nat, r: Rec)
    decreases r, 1
  {
    n <= |data| && exists t: nat, tag: nat :: t <= n && VarintFirst(data, t, tag) && RecordBody(file, ref, data[t..], n - t, r, tag)
  }

  ghost predicate RecordBody(file: File, ref: nat, rest: bytes, n: nat, r: Rec, tag: nat)
    decreases r, 0
  {
    match r
    case Known(i, d) =>
      && i < |Fields(file, ref)| && Fields(file, ref)[i].num == tag / 8
      && ContentFirst(file, Fields(file, ref)[i].shape, tag % 8, rest, n, d)
    case Unknown =>
      && (forall i | 0 <= i < |Fields(file, ref)| :: Fields(file, ref)[i].num != tag / 8)
      && SkippedFirst(rest, n, tag % 8)
  }

  /** The data is these records, one after another. */
  ghost predicate IsMessage(file: File, ref: nat, data: bytes, recs: seq<Rec>)
    decreases recs, 2
  {
    if recs == [] then data == []
    else exists n: nat :: 0 < n <= |data| && RecordFirst(file, ref, data, n, recs[0]) && IsMessage(file, ref, data[n..], recs[1..])
  }

  // What is read is spelled.

  lemma OneIff(data: bytes, n: nat, k: Kind, wire: nat, s: Scalar)
    ensures ReadSingle(k, wire, data) == Ok(Read(s, n)) <==> OneFirst(data, n, k, wire, s)
  {
    hide ReadScalar, ScalarFirst, WireOf, WireTypeOf;
    WireTypes(k);
    ScalarIff(data, n, k, s);
  }

  lemma ManyIff(file: File, data: bytes, n: nat, k: Kind, wire: nat, es: seq<Scalar>)
    ensures ReadMany(k, wire, data) == Ok(Read(Run(es), n)) <==> ContentFirst(file, Repeated(k), wire, data, n, Run(es))
  {
    hide ReadSingle, OneFirst, ReadRun, RunFirst, WireOf, WireTypeOf;
    WireTypes(k);
    if wire == 2 && WireTypeOf(k) != 2 {
      RunIff(data, n, k, es);
    } else {
      SingleRun(k, wire, data);
      if |es| == 1 {
        OneIff(data, n, k, wire, es[0]);
        assert es == [es[0]];
      }
    }
  }

  lemma SingleRun(k: Kind, wire: nat, data: bytes)
    requires wire != 2 || WireTypeOf(k) == 2
    ensures var e := ReadSingle(k, wire, data);
            ReadMany(k, wire, data) == if e.Err? then Err(e.error) else Ok(Read(Run([e.value.v]), e.value.n))
  {
    hide ReadSingle;
  }

  lemma ManyIsRun(k: Kind, wire: nat, data: bytes)
    requires ReadMany(k, wire, data).Ok?
    ensures ReadMany(k, wire, data).value.v.Run?
  {
    hide ReadSingle, ReadRun;
  }

  lemma {:induction false} ContentSpelled(file: File, shape: Shape, wire: nat, data: bytes)
    requires ReadDelta(file, shape, wire, data).Ok?
    ensures var r := ReadDelta(file, shape, wire, data).value; ContentFirst(file, shape, wire, data, r.n, r.v)
    decreases |data|, 2
  {
    hide ReadSingle, OneFirst, ReadMany, ReadPayload, PayloadFirst, IsContent, ReadFramed;
    var r := ReadDelta(file, shape, wire, data).value;
    if shape.Singular? || shape.Optional? {
      OneIff(data, r.n, shape.k, wire, r.v.s);
    } else if shape.Repeated? {
      ManyIsRun(shape.k, wire, data);
      ManyIff(file, data, r.n, shape.k, wire, r.v.es);
    } else {
      var p := ReadPayload(wire, data).value;
      PayloadIff(data, p.n, wire, p.v);
      FramedSpelled(file, shape, p.v);
    }
  }

  lemma {:induction false} FramedSpelled(file: File, shape: Shape, p: bytes)
    requires !shape.Singular? && !shape.Optional? && !shape.Repeated?
    requires ReadFramed(file, shape, p).Ok?
    ensures var d := ReadFramed(file, shape, p).value; !d.One? && !d.Run? && IsContent(file, shape, p, d)
    decreases |p|, 3
  {
    hide ReadEntry, IsEntry, ReadStamp, IsStamp, EmptyEntry;
    if shape.Map? {
      var e := ReadEntry(shape.key, shape.val, EmptyEntry(shape.key, shape.val), p).value;
      EntryIff(p, shape, e.key, e.val);
    } else if shape.Nested? || shape.NestedList? {
      MessageSpelled(file, shape.ref, p);
    } else {
      StampIff(p, Stamp(0, 0), ReadStamp(Stamp(0, 0), p).value);
    }
  }

  lemma {:induction false} RecordSpelled(file: File, ref: nat, data: bytes)
    requires ReadRecord(file, ref, data).Ok?
    ensures var r := ReadRecord(file, ref, data).value; RecordFirst(file, ref, data, r.n, r.v)
    decreases |data|, 1
  {
    hide ReadVarint, VarintFirst, ReadDelta, ContentFirst, SkipField, SkippedFirst, FindField, ReadRecord;
    RecordParts(file, ref, data);
    var tag := ReadVarint(data).value;
    var rest := data[tag.n..];
    VarintIff(data, tag.n, tag.v);
    match FindField(Fields(file, ref), tag.v / 8)
    case None => SkippedIff(rest, SkipField(rest, tag.v % 8).value, tag.v % 8);
    case Some(i) => ContentSpelled(file, Fields(file, ref)[i].shape, tag.v % 8, rest);
  }

  lemma {:induction false} MessageSpelled(file: File, ref: nat, data: bytes)
    requires ReadMessage(file, ref, data).Ok?
    ensures IsMessage(file, ref, data, ReadMessage(file, ref, data).value)
    decreases |data|, 2
  {
    hide ReadRecord, RecordFirst;
    if data != [] {
      var r := ReadRecord(file, ref, data).value;
      RecordSpelled(file, ref, data);
      MessageSpelled(file, ref, data[r.n..]);
      var rest := ReadMessage(file, ref, data[r.n..]).value;
      assert ([r.v] + rest)[1..] == rest;
    }
  }

  // And what is spelled is read.

  lemma {:induction false} ContentRead(file: File, shape: Shape, wire: nat, data: bytes, n: nat, d: Delta)
    requires ValidFile(file) && ContentFirst(file, shape, wire, data, n, d)
    ensures ReadDelta(file, shape, wire, data) == Ok(Read(d, n))
    decreases d, 1
  {
    hide ValidFile, ReadSingle, OneFirst, ReadMany, ReadPayload, PayloadFirst, IsContent, ReadFramed;
    match d
    case One(s) => OneIff(data, n, shape.k, wire, s);
    case Run(es) => ManyIff(file, data, n, shape.k, wire, es);
    case _ =>
      var p: bytes :| PayloadFirst(data, n, p) && IsContent(file, shape, p, d);
      PayloadIff(data, n, 2, p);
      FramedRead(file, shape, p, d);
  }

  lemma {:induction false} FramedRead(file: File, shape: Shape, p: bytes, d: Delta)
    requires ValidFile(file) && IsContent(file, shape, p, d)
    ensures !shape.Singular? && !shape.Optional? && !shape.Repeated? && ReadFramed(file, shape, p) == Ok(d)
    decreases d, 0
  {
    hide ValidFile, ReadEntry, IsEntry, ReadStamp, IsStamp, EmptyEntry;
    match d
    case Entry(key, val) => EntryIff(p, shape, key, val);
    case Body(s) => StampIff(p, Stamp(0, 0), s);
    case Tree(recs) => MessageRead(file, shape.ref, p, recs);
  }

  lemma {:induction false} RecordRead(file: File, ref: nat, data: bytes, n: nat, r: Rec)
    requires ValidFile(file) && RecordFirst(file, ref, data, n, r)
    ensures ReadRecord(file, ref, data) == Ok(Read(r, n))
    decreases r, 1
  {
    hide ValidFile, ReadVarint, VarintFirst, ReadDelta, ContentFirst, SkipField, SkippedFirst, FindField, ReadRecord;
    var t: nat, tag: nat :| t <= n && VarintFirst(data, t, tag) && RecordBody(file, ref, data[t..], n - t, r, tag);
    VarintIff(data, t, tag);
    RecordParts(file, ref, data);
    if r.Known? {
      Declared(file, ref, r.idx);
      ContentRead(file, Fields(file, ref)[r.idx].shape, tag % 8, data[t..], n - t, r.d);
    } else {
      SkippedIff(data[t..], n - t, tag % 8);
    }
  }

  lemma {:induction false} MessageRead(file: File, ref: nat, data: bytes, recs: seq<Rec>)
    requires ValidFile(file) && IsMessage(file, ref, data, recs)
    ensures ReadMessage(file, ref, data) == Ok(recs)
    decreases recs, 2
  {
    hide ValidFile, ReadRecord, RecordFirst;
    if recs != [] {
      var n: nat :| 0 < n <= |data| && RecordFirst(file, ref, data, n, recs[0]) && IsMessage(file, ref, data[n..], recs[1..]);
      RecordRead(file, ref, data, n, recs[0]);
      MessageRead(file, ref, data[n..], recs[1..]);
      assert [recs[0]] + recs[1..] == recs;
    }
  }

  /** The decoders read exactly the wires of the grammar, each as the one sequence
      of records it spells. */
  lemma ReadIff(file: File, ref: nat, data: bytes, recs: seq<Rec>)
    requires ValidFile(file)
    ensures ReadMessage(file, ref, data) == Ok(recs) <==> IsMessage(file, ref, data, recs)
  {
    hide ValidFile, ReadMessage, IsMessage;
    if ReadMessage(file, ref, data).Ok? {
      MessageSpelled(file, ref, data);
    }
    if IsMessage(file, ref, data, recs) {
      MessageRead(file, ref, data, recs);
    }
  }
}
