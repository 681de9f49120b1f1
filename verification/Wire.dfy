// Wire primitives (lang/go/codec/wire.go): varints, zigzag, fixed-width
// integers and skipping.

module Wire {
  import opened Base

  const MAX_VARINT_LEN := 10

  // ---------------------------------------------------------------- varints

  /** The base-128 encoding of `x`, least significant group first. */
  function VarintBytes(x: nat): (s: bytes)
    ensures |s| >= 1
  {
    if x < 0x80 then [x] else [x % 0x80 + 0x80] + VarintBytes(x / 0x80)
  }

  /** The groups of a varint that ends within `budget` bytes, unreduced. */
  function Groups(data: bytes, budget: nat): (r: Option<Read<nat>>)
    ensures r.Some? ==> 1 <= r.value.n <= |data| && r.value.n <= budget
    decreases budget
  {
    if data == [] || budget == 0 then None
    else if data[0] < 0x80 then Some(Read(data[0], 1))
    else
      match Groups(data[1..], budget - 1)
      case None => None
      case Some(r) => Some(Read(data[0] - 0x80 + 0x80 * r.v, r.n + 1))
  }

  /** The varint at the start of `data`; bits past the 64th are dropped. */
  function ReadVarint(data: bytes): (r: Option<Read<nat>>)
    ensures r.Some? ==> 1 <= r.value.n <= |data| && r.value.n <= MAX_VARINT_LEN && r.value.v < U64
  {
    match Groups(data, MAX_VARINT_LEN)
    case None => None
    case Some(r) => Some(Read(r.v % U64, r.n))
  }

  function Pow(b: nat, e: nat): (p: nat)
    requires b >= 1
    ensures p >= 1
  {
    if e == 0 then 1 else b * Pow(b, e - 1)
  }

  lemma Pow128Ten()
    ensures Pow(0x80, 10) == 0x40 * U64
  {
    assert Pow(0x80, 2) == 0x4000;
    assert Pow(0x80, 4) == 0x80 * 0x80 * Pow(0x80, 2);
    assert Pow(0x80, 6) == 0x80 * 0x80 * Pow(0x80, 4);
    assert Pow(0x80, 8) == 0x80 * 0x80 * Pow(0x80, 6);
    assert Pow(0x80, 10) == 0x80 * 0x80 * Pow(0x80, 8);
  }

  lemma {:induction false} GroupsOfVarint(x: nat, suffix: bytes, budget: nat)
    requires budget >= 1 && x < Pow(0x80, budget)
    ensures |VarintBytes(x)| <= budget
    ensures Groups(VarintBytes(x) + suffix, budget) == Some(Read(x, |VarintBytes(x)|))
  {
    if x >= 0x80 {
      assert Pow(0x80, 1) == 0x80;
      GroupsOfVarint(x / 0x80, suffix, budget - 1);
      assert (VarintBytes(x) + suffix)[1..] == VarintBytes(x / 0x80) + suffix;
    }
  }

  /** Decoding inverts encoding, whatever follows. */
  lemma VarintRoundTrip(x: nat, suffix: bytes)
    requires x < U64
    ensures |VarintBytes(x)| <= MAX_VARINT_LEN
    ensures ReadVarint(VarintBytes(x) + suffix) == Some(Read(x, |VarintBytes(x)|))
  {
    Pow128Ten();
    GroupsOfVarint(x, suffix, MAX_VARINT_LEN);
  }

  lemma {:induction false} GroupsPrefix(a: bytes, b: bytes, budget: nat)
    requires Groups(a, budget).Some? && SameStart(a, b, Groups(a, budget).value.n)
    ensures Groups(b, budget) == Groups(a, budget)
    decreases budget
  {
    assert a[0] == a[..1][0] && b[0] == b[..1][0];
    var n := Groups(a, budget).value.n;
    SameStartSlice(a, b, n, 0, 1);
    if a[0] >= 0x80 {
      SameStartDrop(a, b, n, 1);
      GroupsPrefix(a[1..], b[1..], budget - 1);
    }
  }

  /** A varint depends on the bytes it takes only. */
  lemma VarintPrefix(a: bytes, b: bytes)
    requires ReadVarint(a).Some? && SameStart(a, b, ReadVarint(a).value.n)
    ensures ReadVarint(b) == ReadVarint(a)
  {
    GroupsPrefix(a, b, MAX_VARINT_LEN);
  }

  lemma {:induction false} VarintShortest(x: nat, data: bytes, budget: nat)
    requires Groups(data, budget).Some?
    requires x <= Groups(data, budget).value.v
    ensures |VarintBytes(x)| <= Groups(data, budget).value.n
    decreases budget
  {
    if data[0] >= 0x80 && x >= 0x80 {
      VarintShortest(x / 0x80, data[1..], budget - 1);
    }
  }

  /** Re-encoding a decoded varint never takes more bytes than were read. */
  lemma ReencodeNeverLonger(data: bytes)
    requires ReadVarint(data).Some?
    ensures |VarintBytes(ReadVarint(data).value.v)| <= ReadVarint(data).value.n
  {
    VarintShortest(ReadVarint(data).value.v, data, MAX_VARINT_LEN);
  }

  /** math/bits.Len64. */
  function BitLen(x: nat): nat {
    if x == 0 then 0 else 1 + BitLen(x / 2)
  }

  lemma BitLenShift3(x: nat)
    requires x >= 8
    ensures BitLen(x) == 3 + BitLen(x / 8)
  {
    assert x / 2 / 2 == x / 4 && x / 4 / 2 == x / 8;
    assert BitLen(x / 4) == 1 + BitLen(x / 8);
  }

  lemma BitLenShift7(x: nat)
    requires x >= 0x80
    ensures BitLen(x) == 7 + BitLen(x / 0x80)
  {
    BitLenShift3(x);
    BitLenShift3(x / 8);
    assert x / 8 / 8 == x / 64 && x / 64 / 2 == x / 0x80;
  }

  lemma {:induction false} BitLenOfVarint(x: nat)
    ensures |VarintBytes(x)| == (BitLen(x - x % 2 + 1) + 6) / 7
  {
    var y := x - x % 2 + 1;
    if x < 0x80 {
      assert BitLen(y) == 1 + BitLen(y / 2);
      assert BitLen(y / 2) <= 6 by { SmallBitLen(y / 2); }
    } else {
      BitLenShift7(y);
      BitLenOddShift(x);
      BitLenOfVarint(x / 0x80);
    }
  }

  lemma SmallBitLen(x: nat)
    requires x < 0x40
    ensures BitLen(x) <= 6
  {
    if x >= 8 {
      BitLenShift3(x);
    }
    assert forall y: nat | y < 8 :: BitLen(y) <= 3 by { TinyBitLen(); }
  }

  lemma TinyBitLen()
    ensures forall y: nat | y < 8 :: BitLen(y) <= 3
  {
    forall y: nat | y < 8
      ensures BitLen(y) <= 3
    {
      assert BitLen(y) <= 1 + BitLen(y / 2);
      assert BitLen(y / 2) <= 1 + BitLen(y / 4);
    }
  }

  lemma HighPart(x: nat)
    ensures (x - x % 2 + 1) / 0x80 == x / 0x80
  {
    var q, r := x / 0x80, x % 0x80;
    assert x == 0x80 * q + r;
    assert x % 2 == r % 2;
    assert r - r % 2 + 1 < 0x80;
  }

  lemma BitLenOddShift(x: nat)
    requires x >= 0x80
    ensures BitLen((x - x % 2 + 1) / 0x80) == BitLen(x / 0x80 - x / 0x80 % 2 + 1)
  {
    var q := x / 0x80;
    HighPart(x);
    assert BitLen(q) == 1 + BitLen(q / 2);
    assert (q - q % 2 + 1) / 2 == q / 2;
  }

  /** The closed form of wire.go: (bits.Len64(x|1) + 6) / 7. */
  function SizeVarint(x: nat): (n: nat)
    requires x < U64
    ensures n == |VarintBytes(x)|
  {
    BitLenOfVarint(x);
    (BitLen(x - x % 2 + 1) + 6) / 7
  }

  method EncodeVarint(buf: array<byte>, at: nat, x: nat) returns (n: nat)
    requires x < U64
    requires at + |VarintBytes(x)| <= buf.Length
    modifies buf
    ensures n == |VarintBytes(x)|
    ensures buf[..] == Splice(old(buf[..]), at, VarintBytes(x))
  {
    var i: nat, rest: nat := 0, x;
    ghost var done: bytes := [];
    SpliceNothing(buf[..], at);
    while rest >= 0x80
      invariant |done| == i && VarintBytes(x) == done + VarintBytes(rest)
      invariant buf[..] == Splice(old(buf[..]), at, done)
    {
      SplicePut(old(buf[..]), at, done, rest % 0x80 + 0x80);
      buf[at + i] := rest % 0x80 + 0x80;
      done := done + [rest % 0x80 + 0x80];
      rest := rest / 0x80;
      i := i + 1;
    }
    SplicePut(old(buf[..]), at, done, rest);
    buf[at + i] := rest;
    n := i + 1;
  }

  /** uint64(b) << 7*i: bits shifted past the 64th are lost. */
  function ShiftGroup(b: byte, i: nat): uint64 {
    b * Pow(0x80, i) % U64
  }

  /** The bits or-ed into `x` at each step lie above those already present, so
      the loop's `|` is `+`. */
  method DecodeVarint(data: bytes) returns (x: nat, n: int)
    ensures ReadVarint(data) == if n < 0 then None else Some(Read(x, n))
    ensures n < 0 ==> x == 0 && n == -1
  {
    hide ShiftGroup, Decoding, ReadVarint, Groups, Pow;
    FirstGroup(data);
    if |data| > 0 && data[0] < 0x80 {
      return data[0], 1;
    }
    var i: nat := 0;
    x := 0;
    while i < |data| && i < MAX_VARINT_LEN
      invariant i <= |data| && i <= MAX_VARINT_LEN && Decoding(data, i, x)
    {
      var b := data[i];
      if b < 0x80 {
        LastGroup(data, i, x);
        return x + ShiftGroup(b, i), i + 1;
      }
      NextGroup(data, i, x);
      x := x + ShiftGroup(b - 0x80, i);
      i := i + 1;
    }
    NoGroup(data, i, x);
    return 0, -1;
  }

  /** After `i` groups: `x` holds them and the rest of the varint is still ahead. */
  ghost predicate Decoding(data: bytes, i: nat, x: nat) {
    && i <= |data| && i <= MAX_VARINT_LEN
    && (i < MAX_VARINT_LEN ==> x < Pow(0x80, i))
    && Groups(data, MAX_VARINT_LEN) == Shifted(Groups(data[i..], MAX_VARINT_LEN - i), x, i)
  }

  /** The groups still to come, `i` places up, on top of `x`. */
  ghost function Shifted(r: Option<Read<nat>>, x: nat, i: nat): Option<Read<nat>> {
    match r
    case None => None
    case Some(r) => Some(Read(x + Pow(0x80, i) * r.v, r.n + i))
  }

  lemma FirstGroup(data: bytes)
    ensures Decoding(data, 0, 0)
    ensures |data| > 0 && data[0] < 0x80 ==> ReadVarint(data) == Some(Read(data[0], 1))
  {
  }

  lemma PowersInRange(i: nat)
    requires i < MAX_VARINT_LEN
    ensures i < 9 ==> Pow(0x80, i) <= U64 / 0x100
    ensures i == 9 ==> Pow(0x80, i) == U64 / 2
    decreases 10 - i
  {
    if i < 9 {
      PowersInRange(i + 1);
    } else {
      Pow128Ten();
    }
  }

  lemma Reduced(n: nat, q: nat)
    requires n < U64
    ensures (n + q * U64) % U64 == n
  {
  }

  lemma MulMonotone(a: nat, b: nat, c: nat)
    requires a <= b
    ensures 0 <= a * c <= b * c
  {
    assert b * c == a * c + (b - a) * c;
  }

  lemma LowSum(x: nat, unit: nat, b: byte)
    requires x < unit <= U64 / 0x100
    ensures 0 <= b * unit <= x + b * unit < U64
  {
    MulMonotone(b, 0xff, unit);
  }

  lemma TopGroup(x: nat, b: byte)
    requires x < U64 / 2
    ensures b * (U64 / 2) % U64 == b % 2 * (U64 / 2)
    ensures (x + U64 / 2 * b) % U64 == x + b % 2 * (U64 / 2)
  {
    assert b * (U64 / 2) == b % 2 * (U64 / 2) + b / 2 * U64;
    Reduced(b % 2 * (U64 / 2), b / 2);
    Reduced(x + b % 2 * (U64 / 2), b / 2);
  }

  lemma NoGroup(data: bytes, i: nat, x: nat)
    requires Decoding(data, i, x)
    requires i == |data| || i == MAX_VARINT_LEN
    ensures ReadVarint(data) == None
  {
  }

  lemma ShiftedLast(x: nat, b: byte, i: nat)
    requires i < MAX_VARINT_LEN && x < Pow(0x80, i) && b < 0x80
    ensures x + ShiftGroup(b, i) == (x + Pow(0x80, i) * b) % U64
  {
    if i < 9 {
      hide Pow, ShiftGroup;
      MiddleGroup(x, i, b);
      Reduced(x + ShiftGroup(b, i), 0);
    } else {
      hide Pow;
      PowersInRange(i);
      TopGroup(x, b);
    }
  }

  lemma LastGroup(data: bytes, i: nat, x: nat)
    requires i < |data| && i < MAX_VARINT_LEN && data[i] < 0x80 && Decoding(data, i, x)
    ensures ReadVarint(data) == Some(Read(x + ShiftGroup(data[i], i), i + 1))
  {
    ShiftedLast(x, data[i], i);
  }

  lemma NextGroup(data: bytes, i: nat, x: nat)
    requires i < |data| && i < MAX_VARINT_LEN && data[i] >= 0x80 && Decoding(data, i, x)
    ensures Decoding(data, i + 1, x + ShiftGroup(data[i] - 0x80, i))
  {
    hide Pow, ShiftGroup;
    assert data[i..][1..] == data[i + 1..];
    if i < 9 {
      MiddleGroup(x, i, data[i] - 0x80);
      ShiftedGroup(Groups(data[i + 1..], MAX_VARINT_LEN - i - 1), x, data[i] - 0x80, i);
    }
  }

  lemma ShiftedGroup(r: Option<Read<nat>>, x: nat, g: nat, i: nat)
    ensures match r
            case None => true
            case Some(r) =>
              Shifted(Some(Read(g + 0x80 * r.v, r.n + 1)), x, i) == Shifted(Some(r), x + g * Pow(0x80, i), i + 1)
  {
    if r.Some? {
      Regroup(x, Pow(0x80, i), g, r.value.v);
    }
  }

  lemma MiddleGroup(x: nat, i: nat, g: byte)
    requires i < 9 && x < Pow(0x80, i) && g < 0x80
    ensures ShiftGroup(g, i) == g * Pow(0x80, i)
    ensures x + ShiftGroup(g, i) < Pow(0x80, i + 1)
    ensures x + ShiftGroup(g, i) < U64
  {
    PowersInRange(i);
    LowSum(x, Pow(0x80, i), g);
    Reduced(g * Pow(0x80, i), 0);
    Carry(x, Pow(0x80, i), g);
  }

  lemma Carry(x: nat, unit: nat, g: nat)
    requires x < unit && g <= 0x7f
    ensures x + g * unit < 0x80 * unit
  {
    MulMonotone(g, 0x7f, unit);
  }

  lemma Regroup(x: nat, unit: nat, g: nat, v: nat)
    ensures x + unit * (g + 0x80 * v) == x + g * unit + 0x80 * unit * v
  {
  }

  // ---------------------------------------------------------------- zigzag

  type int32 = n: int | -0x8000_0000 <= n < 0x8000_0000
  type int64 = n: int | -0x8000_0000_0000_0000 <= n < 0x8000_0000_0000_0000
  type uint32 = n: int | 0 <= n < U32
  type uint64 = n: int | 0 <= n < U64

  /** Go's conversion to int32: keep 32 bits, read them in two's complement. */
  function ToInt32(n: int): int32 {
    var u := n % U32; if u < U32 / 2 then u else u - U32
  }

  function ToInt64(n: int): int64 {
    var u := n % U64; if u < U64 / 2 then u else u - U64
  }

  function ToUint64(n: int): uint64 {
    n % U64
  }

  /** uint32(v<<1) ^ uint32(v>>31): the arithmetic shift is 0 or all ones, and
      xor with all ones is the complement. */
  function ZigzagEncode32(v: int32): (u: uint32)
    ensures u == if v >= 0 then 2 * v else -2 * v - 1
  {
    var doubled := 2 * v % U32; if v < 0 then U32 - 1 - doubled else doubled
  }

  function ZigzagEncode64(v: int64): (u: uint64)
    ensures u == if v >= 0 then 2 * v else -2 * v - 1
  {
    var doubled := 2 * v % U64; if v < 0 then U64 - 1 - doubled else doubled
  }

  /** int32(v>>1) ^ -int32(v&1). */
  function ZigzagDecode32(u: uint32): int32 {
    if u % 2 == 1 then -1 - u / 2 else u / 2
  }

  function ZigzagDecode64(u: uint64): int64 {
    if u % 2 == 1 then -1 - u / 2 else u / 2
  }

  lemma ZigzagBijection32(v: int32, u: uint32)
    ensures ZigzagDecode32(ZigzagEncode32(v)) == v
    ensures ZigzagEncode32(ZigzagDecode32(u)) == u
  {
    assert (2 * v + 1) / 2 == v;
  }

  lemma ZigzagBijection64(v: int64, u: uint64)
    ensures ZigzagDecode64(ZigzagEncode64(v)) == v
    ensures ZigzagEncode64(ZigzagDecode64(u)) == u
  {
    assert (2 * v + 1) / 2 == v;
  }

  // ---------------------------------------------------------------- fixed width

  /** binary.LittleEndian.PutUint32/PutUint64, as `w` bytes. */
  function LittleEndian(n: nat, w: nat): (s: bytes)
    ensures |s| == w
  {
    if w == 0 then [] else [n % 256] + LittleEndian(n / 256, w - 1)
  }

  function FromLittleEndian(s: bytes): nat {
    if s == [] then 0 else s[0] + 256 * FromLittleEndian(s[1..])
  }

  lemma {:induction false} LittleEndianRoundTrip(n: nat, w: nat)
    requires n < Pow(256, w)
    ensures FromLittleEndian(LittleEndian(n, w)) == n
  {
    if w > 0 {
      LittleEndianRoundTrip(n / 256, w - 1);
    }
  }

  lemma {:induction false} FromLittleEndianBound(s: bytes)
    ensures FromLittleEndian(s) < Pow(256, |s|)
  {
    if s != [] {
      FromLittleEndianBound(s[1..]);
    }
  }

  lemma Pow256Widths()
    ensures Pow(256, 4) == U32 && Pow(256, 8) == U64
  {
    assert Pow(256, 2) == 0x1_0000;
    assert Pow(256, 4) == 256 * 256 * Pow(256, 2);
    assert Pow(256, 6) == 256 * 256 * Pow(256, 4);
    assert Pow(256, 8) == 256 * 256 * Pow(256, 6);
  }

  method PutFixed(buf: array<byte>, at: nat, n: nat, w: nat)
    requires at + w <= buf.Length
    modifies buf
    ensures buf[..] == Splice(old(buf[..]), at, LittleEndian(n, w))
  {
    var i: nat, rest: nat := 0, n;
    ghost var done: bytes := [];
    SpliceNothing(buf[..], at);
    while i < w
      invariant |done| == i <= w && LittleEndian(n, w) == done + LittleEndian(rest, w - i)
      invariant buf[..] == Splice(old(buf[..]), at, done)
    {
      SplicePut(old(buf[..]), at, done, rest % 256);
      buf[at + i] := rest % 256;
      done := done + [rest % 256];
      rest := rest / 256;
      i := i + 1;
    }
  }

  // ---------------------------------------------------------------- length-delimited and skipping

  /** A length prefix whose payload is present: the payload starts at `n` and
      is `v` bytes long. */
  function ReadLength(data: bytes): (r: Result<Read<nat>>)
    ensures r.Ok? ==> 1 <= r.value.n && r.value.n + r.value.v <= |data|
  {
    match ReadVarint(data)
    case None => Err(InvalidVarint)
    case Some(r) => if |data| - r.n < r.v then Err(BufferTooShort) else Ok(r)
  }

  lemma LengthRoundTrip(payload: bytes, suffix: bytes)
    requires |payload| < MAX_LEN
    ensures var len := VarintBytes(|payload|); var all := len + payload + suffix;
            && ReadLength(all) == Ok(Read(|payload|, |len|))
            && all[|len|..|len| + |payload|] == payload
  {
    var len := VarintBytes(|payload|);
    VarintRoundTrip(|payload|, payload + suffix);
    assert len + payload + suffix == len + (payload + suffix);
  }

  lemma LengthPrefix(a: bytes, b: bytes, n: nat)
    requires ReadLength(a).Ok? && ReadLength(a).value.n <= n && SameStart(a, b, n)
    ensures ReadLength(b) == ReadLength(a)
  {
    hide ReadVarint;
    SameStartSlice(a, b, n, ReadLength(a).value.n, ReadLength(a).value.n);
    VarintPrefix(a, b);
  }

  /** SkipField: the number of bytes of a field of the given wire type. */
  function SkipField(data: bytes, wireType: nat): (r: Result<nat>)
    ensures r.Ok? ==> 1 <= r.value <= |data|
  {
    if wireType == 0 then
      match ReadVarint(data)
      case None => Err(InvalidVarint)
      case Some(r) => Ok(r.n)
    else if wireType == 1 then
      if |data| < 8 then Err(BufferTooShort) else Ok(8)
    else if wireType == 2 then
      var r :- ReadLength(data);
      Ok(r.n + r.v)
    else if wireType == 5 then
      if |data| < 4 then Err(BufferTooShort) else Ok(4)
    else
      Err(InvalidWireType)
  }

  /** A skipped field depends on the bytes it takes only. */
  lemma SkipPrefix(a: bytes, b: bytes, wireType: nat)
    requires SkipField(a, wireType).Ok? && SameStart(a, b, SkipField(a, wireType).value)
    ensures SkipField(b, wireType) == SkipField(a, wireType)
  {
    hide ReadVarint, ReadLength;
    if wireType == 0 {
      VarintPrefix(a, b);
    } else if wireType == 2 {
      LengthPrefix(a, b, SkipField(a, wireType).value);
    }
  }
}
