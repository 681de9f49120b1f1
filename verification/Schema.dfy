// Message descriptions (internal/core/analysis.go) and the scalar kinds the
// emitters support, with what one scalar looks like on the wire.

module Schema {
  import opened Base
  import opened Wire

  datatype Kind =
    | Bool
    | Int32 | Int64 | Uint32 | Uint64 | Sint32 | Sint64 | Enum
    | Fixed32 | Sfixed32 | Fixed64 | Sfixed64
    | String | Bytes
    | FixedBytes(len: nat)

  const VARINT := 0
  const FIXED64 := 1
  const LEN_DELIMITED := 2
  const FIXED32 := 5

  /** WireKindOf. */
  function WireOf(k: Kind): (w: nat)
    ensures w < 8
  {
    match k
    case Fixed64 | Sfixed64 => FIXED64
    case Fixed32 | Sfixed32 => FIXED32
    case String | Bytes | FixedBytes(_) => LEN_DELIMITED
    case _ => VARINT
  }

  /** Repeated varint and fixed-width kinds are packed. */
  predicate Packable(k: Kind) {
    WireOf(k) != LEN_DELIMITED
  }

  /** What the emitters dispatch a field on. A `Nested` field is a singular
      message, held by pointer or inline; `ref` is its index in the file. */
  datatype Shape =
    | Singular(k: Kind)
    | Optional(k: Kind)
    | Repeated(k: Kind)
    | Map(key: Kind, val: Kind)
    | Timestamp
    | Duration
    | Nested(ref: nat, pointer: bool)
    | NestedList(ref: nat, pointer: bool)

  /** Fields whose value holds no message. */
  predicate Leaf(shape: Shape) {
    !shape.Nested? && !shape.NestedList?
  }

  /** `oneof` is the index of the non-synthetic oneof the field is a branch of. */
  datatype Field = Field(num: nat, shape: Shape, oneof: Option<nat>)

  /** A message: its fields, and the branch field numbers of each oneof. */
  datatype Info = Info(fields: seq<Field>, oneofs: seq<seq<nat>>)

  /** The messages of a file; references are indices. */
  type File = seq<Info>

  function Fields(file: File, ref: nat): seq<Field> {
    if ref < |file| then file[ref].fields else []
  }

  function Oneofs(file: File, ref: nat): seq<seq<nat>> {
    if ref < |file| then file[ref].oneofs else []
  }

  /** findBranchField, and the dispatch of the decoder's switch. */
  function FindField(fields: seq<Field>, num: nat): (r: Option<nat>)
    ensures r.Some? ==> r.value < |fields| && fields[r.value].num == num
    ensures r.None? <==> forall i | 0 <= i < |fields| :: fields[i].num != num
  {
    if fields == [] then None
    else if fields[0].num == num then Some(0)
    else
      match FindField(fields[1..], num)
      case None =>
        assert forall i | 1 <= i < |fields| :: fields[i] == fields[1..][i - 1];
        None
      case Some(i) => Some(i + 1)
  }

  predicate DistinctNums(fields: seq<Field>) {
    forall i, j | 0 <= i < j < |fields| :: fields[i].num != fields[j].num
  }

  const MAX_FIELD_NUM := 0x2000_0000

  /** A length of 0 means there is no fixed length. */
  predicate FixedLength(k: Kind) {
    k.FixedBytes? ==> k.len > 0
  }

  /** The kinds and combinations the emitters handle soundly. */
  predicate Supported(owner: nat, f: Field) {
    && 1 <= f.num < MAX_FIELD_NUM
    && (match f.shape
        case Singular(k) => FixedLength(k)
        case Optional(k) => Packable(k)
        case Repeated(k) => k != Bool && FixedLength(k)
        case Map(kk, vk) => !kk.FixedBytes? && !vk.FixedBytes?
        case Timestamp | Duration => true
        case Nested(ref, pointer) => pointer || ref < owner
        case NestedList(_, _) => true)
    && (f.oneof.Some? ==>
          match f.shape
          case Singular(_) | Timestamp | Duration => true
          case Nested(_, pointer) => !pointer
          case _ => false)
  }

  /** A field belongs to oneof `j` exactly when its number is listed there. */
  predicate OneofsAgree(info: Info) {
    && (forall i | 0 <= i < |info.fields| ::
          match info.fields[i].oneof
          case None => forall j | 0 <= j < |info.oneofs| :: info.fields[i].num !in info.oneofs[j]
          case Some(j) => j < |info.oneofs| && info.fields[i].num in info.oneofs[j])
    && (forall i, j | 0 <= i < |info.fields| && 0 <= j < |info.oneofs| && info.fields[i].num in info.oneofs[j] ::
          info.fields[i].oneof == Some(j))
    && (forall j, n | 0 <= j < |info.oneofs| && n in info.oneofs[j] :: FindField(info.fields, n).Some?)
  }

  predicate ValidInfo(owner: nat, info: Info) {
    && DistinctNums(info.fields)
    && (forall i | 0 <= i < |info.fields| :: Supported(owner, info.fields[i]))
    && OneofsAgree(info)
  }

  /** A file the emitters accept. Messages held inline refer to earlier ones:
      Go has no infinite struct. */
  predicate ValidFile(file: File) {
    forall ref | 0 <= ref < |file| :: ValidInfo(ref, file[ref])
  }

  lemma FieldAt(fields: seq<Field>, i: nat)
    requires DistinctNums(fields) && i < |fields|
    ensures FindField(fields, fields[i].num) == Some(i)
  {
    var f := fields[i];
    var r := FindField(fields, f.num);
  }

  // ---------------------------------------------------------------- tags

  /** TagValue: uint64(fieldNum)<<3 | uint64(wire); the three low bits are free. */
  function TagValue(num: nat, wire: nat): nat {
    8 * num + wire
  }

  function TagBytes(num: nat, wire: nat): bytes {
    VarintBytes(TagValue(num, wire))
  }

  /** The loop of TagSize, on the field number alone. */
  method TagSize(num: nat) returns (n: nat)
    requires 1 <= num < MAX_FIELD_NUM
    ensures forall wire: nat | wire < 8 :: |TagBytes(num, wire)| == n
    ensures 1 <= n <= 5
  {
    var v: nat := 8 * num;
    n := 1;
    while v >= 0x80
      invariant |VarintBytes(8 * num)| == n - 1 + |VarintBytes(v)|
      invariant 1 <= n
    {
      n := n + 1;
      v := v / 0x80;
    }
    forall wire: nat | wire < 8
      ensures |TagBytes(num, wire)| == n
    {
      LowBitsKeepLength(8 * num, wire);
    }
    TagLength(8 * num);
  }

  /** TagBytes of analysis.go: the loop of EncodeVarint, on a local buffer that
      ten bytes suffice for. */
  method EncodeTag(num: nat, wire: nat) returns (s: bytes)
    requires TagValue(num, wire) < U64
    ensures s == TagBytes(num, wire)
  {
    VarintRoundTrip(TagValue(num, wire), []);
    var buf := new byte[MAX_VARINT_LEN];
    var n := EncodeVarint(buf, 0, TagValue(num, wire));
    s := buf[..n];
  }

  /** SovLocal: the length counted in a loop agrees with the closed form. */
  method SovLocal(x: nat) returns (n: nat)
    requires x < U64
    ensures n == |VarintBytes(x)| == SizeVarint(x)
  {
    var v := x;
    n := 1;
    while v >= 0x80
      invariant |VarintBytes(x)| == n - 1 + |VarintBytes(v)|
      invariant 1 <= n
    {
      n := n + 1;
      v := v / 0x80;
    }
  }

  lemma {:induction false} LowBitsKeepLength(v: nat, wire: nat)
    requires v % 8 == 0 && wire < 8
    ensures |VarintBytes(v + wire)| == |VarintBytes(v)|
  {
    assert v + wire >= 0x80 <==> v >= 0x80;
    if v >= 0x80 {
      assert (v + wire) / 0x80 == v / 0x80;
    }
  }

  lemma TagLength(v: nat)
    requires v < U32
    ensures |VarintBytes(v)| <= 5
  {
    var a := v / 0x80;
    var b := a / 0x80;
    var c := b / 0x80;
    var d := c / 0x80;
    assert d < 0x80;
    assert |VarintBytes(c)| <= 2;
    assert |VarintBytes(b)| <= 3;
    assert |VarintBytes(a)| <= 4;
  }

  lemma TagRoundTrip(num: nat, wire: nat, suffix: bytes)
    requires num < MAX_FIELD_NUM && wire < 8
    ensures ReadVarint(TagBytes(num, wire) + suffix) == Some(Read(TagValue(num, wire), |TagBytes(num, wire)|))
    ensures TagValue(num, wire) / 8 == num && TagValue(num, wire) % 8 == wire
  {
    VarintRoundTrip(TagValue(num, wire), suffix);
  }

  // ---------------------------------------------------------------- scalars

  /** A Go scalar: an integer or bool (0 or 1), or a string or byte slice. */
  datatype Scalar = Num(n: int) | Text(s: bytes)

  predicate InKind(k: Kind, s: Scalar) {
    match k
    case Bool => s.Num? && 0 <= s.n <= 1
    case Int32 | Sint32 | Sfixed32 => s.Num? && -0x8000_0000 <= s.n < 0x8000_0000
    case Int64 | Sint64 | Sfixed64 => s.Num? && -0x8000_0000_0000_0000 <= s.n < 0x8000_0000_0000_0000
    case Uint32 | Enum | Fixed32 => s.Num? && 0 <= s.n < U32
    case Uint64 | Fixed64 => s.Num? && 0 <= s.n < U64
    case String | Bytes => s.Text?
    case FixedBytes(len) => s.Text? && |s.s| == len
  }

  /** Go's zero value of the kind. */
  function Default(k: Kind): (s: Scalar)
    ensures InKind(k, s)
  {
    match k
    case String | Bytes => Text([])
    case FixedBytes(len) => Text(seq(len, i => 0))
    case _ => Num(0)
  }

  /** The uint64 a varint kind is encoded as. */
  function ToVarint(k: Kind, n: int): uint64 {
    match k
    case Sint32 => ZigzagEncode32(ToInt32(n))
    case Sint64 => ZigzagEncode64(ToInt64(n))
    case _ => ToUint64(n)
  }

  /** The conversion applied to a decoded varint. */
  function FromVarint(k: Kind, v: uint64): int {
    match k
    case Bool => if v != 0 then 1 else 0
    case Int32 => ToInt32(v)
    case Int64 => ToInt64(v)
    case Uint32 | Enum => v % U32
    case Sint32 => ZigzagDecode32(v % U32)
    case Sint64 => ZigzagDecode64(v)
    case _ => v
  }

  function FixedWidth(k: Kind): nat {
    if WireOf(k) == FIXED64 then 8 else 4
  }

  /** The conversion applied to a decoded fixed-width word. */
  function FromFixed(k: Kind, v: nat): int {
    match k
    case Sfixed32 => ToInt32(v)
    case Sfixed64 => ToInt64(v)
    case _ => v
  }

  /** The unsigned word a fixed-width kind is stored as. */
  function ToFixed(k: Kind, n: int): nat {
    if WireOf(k) == FIXED64 then n % U64 else n % U32
  }

  /** A scalar after its tag. */
  function ScalarBytes(k: Kind, s: Scalar): bytes {
    match s
    case Num(n) =>
      if WireOf(k) == VARINT then VarintBytes(ToVarint(k, n)) else LittleEndian(ToFixed(k, n), FixedWidth(k))
    case Text(t) => VarintBytes(|t|) + t
  }

  /** Reading a scalar after its tag and the wire-type check. */
  function ReadScalar(k: Kind, data: bytes): (r: Result<Read<Scalar>>)
    ensures r.Ok? ==> 1 <= r.value.n <= |data|
  {
    if WireOf(k) == VARINT then ReadVarintScalar(k, data)
    else if WireOf(k) == LEN_DELIMITED then ReadText(k, data)
    else if |data| < FixedWidth(k) then Err(BufferTooShort)
    else Ok(Read(Num(FromFixed(k, FromLittleEndian(data[..FixedWidth(k)]))), FixedWidth(k)))
  }

  function ReadVarintScalar(k: Kind, data: bytes): (r: Result<Read<Scalar>>)
    ensures r.Ok? ==> 1 <= r.value.n <= |data|
  {
    match ReadVarint(data)
    case None => Err(InvalidVarint)
    case Some(v) => Ok(Read(Num(FromVarint(k, v.v)), v.n))
  }

  /** Strings and bytes; a fixed-length field checks its length before the bound. */
  function ReadText(k: Kind, data: bytes): (r: Result<Read<Scalar>>)
    ensures r.Ok? ==> 1 <= r.value.n <= |data|
  {
    match ReadVarint(data)
    case None => Err(InvalidVarint)
    case Some(v) =>
      if k.FixedBytes? && v.v != k.len then Err(InvalidLength)
      else if |data| - v.n < v.v then Err(BufferTooShort)
      else Ok(Read(Text(data[v.n..v.n + v.v]), v.n + v.v))
  }

  /** Conversion to a word and back keeps every value that fits. */
  lemma WrapRoundTrip(n: int)
    ensures -0x8000_0000 <= n < 0x8000_0000 ==> ToInt32(n % U64) == n && ToInt32(n % U32) == n && ToInt32(n) == n
    ensures -0x8000_0000_0000_0000 <= n < 0x8000_0000_0000_0000 ==> ToInt64(n % U64) == n && ToInt64(n) == n
    ensures 0 <= n < U32 ==> n % U64 == n && n % U32 == n
    ensures 0 <= n < U64 ==> n % U64 == n
  {
    Wrapped(n, U32);
    Wrapped(n, U64);
    if n < 0 && -U32 <= n {
      Wrapped(n + U64 - U32 * (U32 - 1), U32);
    }
  }

  lemma Wrapped(n: int, w: nat)
    requires w > 0
    ensures 0 <= n < w ==> n % w == n
    ensures n < 0 <= n + w ==> n % w == n + w
  {
  }

  /** What any varint, written by whoever, means for each kind: the value of the
      kind that agrees with it in the low bits, zigzagged for sint. */
  lemma VarintMeaning(k: Kind, v: uint64)
    requires WireOf(k) == VARINT
    ensures InKind(k, Num(FromVarint(k, v)))
    ensures var n := FromVarint(k, v);
            match k
            case Bool => n == 1 <==> v > 0
            case Int32 => (n - v) % U32 == 0
            case Uint32 => (n - v) % U32 == 0
            case Enum => (n - v) % U32 == 0
            case Int64 => (n - v) % U64 == 0
            case Uint64 => n == v
            case Sint32 => ((if n >= 0 then 2 * n else -2 * n - 1) - v) % U32 == 0
            case Sint64 => (if n >= 0 then 2 * n else -2 * n - 1) == v
            case _ => true
  {
    if k == Int64 {
      assert v % U64 == v;
    } else if k == Sint32 || k == Uint32 || k == Int32 || k == Enum {
      Congruent(v);
      if k == Sint32 { ZigzagBijection32(0, v % U32); }
    } else if k == Sint64 {
      ZigzagBijection64(0, v);
    }
  }

  lemma Congruent(v: nat)
    ensures (v % U32 - v) % U32 == 0 && (v % U32 - U32 - v) % U32 == 0
  {
    var q := v / U32;
    assert v % U32 - v == -q * U32;
    assert v % U32 - U32 - v == (-q - 1) * U32;
  }

  lemma ZigzagKindRoundTrip(k: Kind, n: int)
    requires k == Sint32 || k == Sint64
    requires InKind(k, Num(n))
    ensures FromVarint(k, ToVarint(k, n)) == n
  {
    WrapRoundTrip(n);
    if k == Sint32 {
      WrapRoundTrip(ZigzagEncode32(n));
      ZigzagBijection32(n, 0);
    } else {
      ZigzagBijection64(n, 0);
    }
  }

  lemma VarintValueRoundTrip(k: Kind, n: int)
    requires WireOf(k) == VARINT && InKind(k, Num(n))
    ensures FromVarint(k, ToVarint(k, n)) == n
  {
    hide ToInt32, ToInt64, ZigzagEncode32, ZigzagEncode64, ZigzagDecode32, ZigzagDecode64;
    if k == Sint32 || k == Sint64 {
      ZigzagKindRoundTrip(k, n);
    } else {
      WrapRoundTrip(n);
    }
  }

  lemma FixedValueRoundTrip(k: Kind, n: int)
    requires WireOf(k) == FIXED32 || WireOf(k) == FIXED64
    requires InKind(k, Num(n))
    ensures FromFixed(k, ToFixed(k, n)) == n
    ensures FromLittleEndian(LittleEndian(ToFixed(k, n), FixedWidth(k))) == ToFixed(k, n)
  {
    hide ToInt32, ToInt64;
    WrapRoundTrip(n);
    Pow256Widths();
    LittleEndianRoundTrip(ToFixed(k, n), FixedWidth(k));
  }

  lemma FixedRoundTrip(k: Kind, n: int, suffix: bytes)
    requires WireOf(k) == FIXED32 || WireOf(k) == FIXED64
    requires InKind(k, Num(n))
    ensures ReadScalar(k, ScalarBytes(k, Num(n)) + suffix) == Ok(Read(Num(n), FixedWidth(k)))
  {
    FixedValueRoundTrip(k, n);
    hide FromFixed, ToFixed, FromLittleEndian, LittleEndian, InKind;
    var word := LittleEndian(ToFixed(k, n), FixedWidth(k));
    assert (word + suffix)[..FixedWidth(k)] == word;
  }

  lemma TextRoundTrip(k: Kind, t: bytes, suffix: bytes)
    requires WireOf(k) == LEN_DELIMITED && InKind(k, Text(t)) && |t| < MAX_LEN
    ensures ReadText(k, ScalarBytes(k, Text(t)) + suffix) == Ok(Read(Text(t), |ScalarBytes(k, Text(t))|))
  {
    LengthRoundTrip(t, suffix);
    VarintRoundTrip(|t|, t + suffix);
    assert VarintBytes(|t|) + t + suffix == VarintBytes(|t|) + (t + suffix);
  }

  /** Every scalar of every kind reads back as written, whatever follows it. */
  lemma ScalarRoundTrip(k: Kind, s: Scalar, suffix: bytes)
    requires InKind(k, s) && |ScalarBytes(k, s)| < MAX_LEN
    ensures ReadScalar(k, ScalarBytes(k, s) + suffix) == Ok(Read(s, |ScalarBytes(k, s)|))
  {
    match s
    case Text(t) => TextRoundTrip(k, t, suffix);
    case Num(n) =>
      if WireOf(k) == VARINT {
        VarintRoundTrip(ToVarint(k, n), suffix);
        VarintValueRoundTrip(k, n);
      } else {
        FixedRoundTrip(k, n, suffix);
      }
  }

  /** A scalar depends on the bytes it takes only. */
  lemma ScalarPrefix(k: Kind, a: bytes, b: bytes)
    requires ReadScalar(k, a).Ok? && SameStart(a, b, ReadScalar(k, a).value.n)
    ensures ReadScalar(k, b) == ReadScalar(k, a)
  {
    hide ReadVarint, FromVarint, FromFixed, FromLittleEndian, ReadText;
    if WireOf(k) == VARINT {
      VarintPrefix(a, b);
    } else if WireOf(k) == LEN_DELIMITED {
      TextPrefix(k, a, b);
    }
  }

  lemma TextPrefix(k: Kind, a: bytes, b: bytes)
    requires ReadText(k, a).Ok? && SameStart(a, b, ReadText(k, a).value.n)
    ensures ReadText(k, b) == ReadText(k, a)
  {
    hide ReadVarint;
    var v := ReadVarint(a).value;
    SameStartSlice(a, b, v.n + v.v, v.n, v.n + v.v);
    VarintPrefix(a, b);
  }

  /** Whatever is read belongs to the kind. */
  lemma ScalarInKind(k: Kind, data: bytes)
    requires ReadScalar(k, data).Ok?
    ensures InKind(k, ReadScalar(k, data).value.v)
  {
    if WireOf(k) == FIXED32 || WireOf(k) == FIXED64 {
      Pow256Widths();
      FromLittleEndianBound(data[..FixedWidth(k)]);
    }
  }

  /** Map keys and values: emitScalarWrite and emitScalarRead treat sint as a
      plain varint, so it is not zigzagged there. */
  function EntryKind(k: Kind): Kind {
    match k
    case Sint32 => Int32
    case Sint64 => Int64
    case _ => k
  }
}
