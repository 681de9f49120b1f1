// The bytes themselves, in the terms of the Protocol Buffers Encoding guide and
// not of the functions that compute them: digits, words, wire types, zeros.

module Format {
  import opened Base
  import opened Wire
  import opened Wkt
  import opened Schema
  import opened Records

  // ---------------------------------------------------------------- digits

  /** The first `n` bytes as base-128 digits, the lowest first. */
  ghost function Positional(data: bytes, n: nat): nat
    requires n <= |data|
  {
    if n == 0 then 0 else Positional(data, n - 1) + data[n - 1] % 0x80 * Pow(0x80, n - 1)
  }

  /** Byte `j` is the first whose top bit is clear. */
  ghost predicate EndsAt(data: bytes, j: nat) {
    j < |data| && data[j] < 0x80 && forall i | 0 <= i < j :: data[i] >= 0x80
  }

  lemma {:induction false} PositionalFirst(data: bytes, n: nat)
    requires 1 <= n <= |data|
    ensures Positional(data, n) == data[0] % 0x80 + 0x80 * Positional(data[1..], n - 1)
    decreases n
  {
    if n > 1 {
      PositionalFirst(data, n - 1);
      assert data[1..][n - 2] == data[n - 1];
      Shift(data[n - 1] % 0x80, Pow(0x80, n - 2));
    } else {
      assert Positional(data, 0) == 0 && Pow(0x80, 0) == 1;
    }
  }

  lemma Shift(d: nat, p: nat)
    ensures d * (0x80 * p) == 0x80 * (d * p)
  {
  }

  lemma {:induction false} GroupsPositional(data: bytes, budget: nat, j: nat)
    requires EndsAt(data, j) && j < budget
    ensures Groups(data, budget) == Some(Read(Positional(data, j + 1), j + 1))
    decreases budget
  {
    hide Positional;
    PositionalFirst(data, j + 1);
    if j > 0 {
      GroupsPositional(data[1..], budget - 1, j - 1);
    } else {
      NoDigits(data[1..]);
    }
  }

  lemma NoDigits(data: bytes)
    ensures Positional(data, 0) == 0
  {
  }

  lemma {:induction false} GroupsUnended(data: bytes, budget: nat)
    requires forall j: nat | j < budget :: !EndsAt(data, j)
    ensures Groups(data, budget) == None
    decreases budget
  {
    if data != [] && budget > 0 {
      assert !EndsAt(data, 0);
      forall j: nat | j < budget - 1
        ensures !EndsAt(data[1..], j)
      {
        assert !EndsAt(data, j + 1);
      }
      GroupsUnended(data[1..], budget - 1);
    }
  }

  /** A varint is the first ten bytes up to one whose top bit is clear, read as
      digits, modulo 2^64; without such a byte there is none. */
  lemma VarintDigits(data: bytes)
    ensures forall j: nat | j < 10 && EndsAt(data, j) :: ReadVarint(data) == Some(Read(Positional(data, j + 1) % U64, j + 1))
    ensures (forall j: nat | j < 10 :: !EndsAt(data, j)) ==> ReadVarint(data) == None
  {
    hide Groups, Positional;
    forall j: nat | j < 10 && EndsAt(data, j)
      ensures ReadVarint(data) == Some(Read(Positional(data, j + 1) % U64, j + 1))
    {
      GroupsPositional(data, 10, j);
    }
    if forall j: nat | j < 10 :: !EndsAt(data, j) {
      GroupsUnended(data, 10);
    }
  }

  /** Its written form is the shortest: it ends where its top digit is. */
  lemma {:induction false} WrittenDigits(x: nat)
    ensures EndsAt(VarintBytes(x), |VarintBytes(x)| - 1) && Positional(VarintBytes(x), |VarintBytes(x)|) == x
    ensures |VarintBytes(x)| > 1 ==> VarintBytes(x)[|VarintBytes(x)| - 1] > 0
    decreases x
  {
    hide Positional;
    var s := VarintBytes(x);
    PositionalFirst(s, |s|);
    if x >= 0x80 {
      WrittenDigits(x / 0x80);
      assert s[1..] == VarintBytes(x / 0x80);
    } else {
      NoDigits(s[1..]);
    }
  }

  /** Fixed-width words have the lowest byte first. */
  lemma {:induction false} WordDigits(n: nat, w: nat, i: nat)
    requires i < w
    ensures LittleEndian(n, w)[i] == n / Pow(256, i) % 256
    decreases w
  {
    if i > 0 {
      WordDigits(n / 256, w - 1, i - 1);
      DivTwice(n, Pow(256, i - 1));
    } else {
      assert Pow(256, 0) == 1;
    }
  }

  lemma DivTwice(n: nat, p: nat)
    requires p >= 1
    ensures n / 256 / p == n / (256 * p)
  {
    var q, r := n / 256 / p, n / 256 % p;
    Divided(n / 256, p);
    Shift256(q, p);
    Quotient(256 * p, q, 256 * r + n % 256);
  }

  lemma Divided(n: nat, d: nat)
    requires d >= 1
    ensures n == n / d * d + n % d && 0 <= n % d < d
  {
  }

  lemma Shift256(q: nat, p: nat)
    ensures 256 * (q * p) == q * (256 * p)
  {
  }

  lemma Quotient(d: nat, q: nat, r: nat)
    requires r < d
    ensures (q * d + r) / d == q
  {
    var k := (q * d + r) / d;
    Divided(q * d + r, d);
    Step(k, q, d);
    Step(q, k, d);
  }

  /** A smaller multiple is smaller by one step at least. */
  lemma Step(a: nat, b: nat, d: nat)
    ensures a < b ==> a * d + d <= b * d
  {
    if a < b {
      MulMonotone(a + 1, b, d);
    }
  }

  // ---------------------------------------------------------------- scalars

  /** Two's complement in a word of so many values. */
  function Word(n: int, values: nat): int {
    if n >= 0 then n else values + n
  }

  predicate PlainVarint(k: Kind) {
    k == Bool || k == Int32 || k == Int64 || k == Uint32 || k == Uint64 || k == Enum
  }

  predicate Zigzagged(k: Kind) {
    k == Sint32 || k == Sint64
  }

  predicate FourBytes(k: Kind) {
    k == Fixed32 || k == Sfixed32
  }

  predicate EightBytes(k: Kind) {
    k == Fixed64 || k == Sfixed64
  }

  /** Wire types of the guide. */
  function WireTypeOf(k: Kind): nat {
    if PlainVarint(k) || Zigzagged(k) then 0
    else if EightBytes(k) then 1
    else if FourBytes(k) then 5
    else 2
  }

  lemma WireTypes(k: Kind)
    ensures WireOf(k) == WireTypeOf(k) && (Packable(k) <==> WireTypeOf(k) != 2)
    ensures WireOf(EntryKind(k)) == WireTypeOf(k)
  {
  }

  /** A number: a varint sign-extended to 64 bits, zigzagged for sint, or a word
      of its width. */
  lemma NumberFormat(k: Kind, n: int)
    requires InKind(k, Num(n))
    ensures PlainVarint(k) ==> ScalarBytes(k, Num(n)) == VarintBytes(Word(n, 0x1_0000_0000_0000_0000))
    ensures Zigzagged(k) ==> ScalarBytes(k, Num(n)) == VarintBytes(if n >= 0 then 2 * n else -2 * n - 1)
    ensures FourBytes(k) ==> ScalarBytes(k, Num(n)) == LittleEndian(Word(n, 0x1_0000_0000), 4)
    ensures EightBytes(k) ==> ScalarBytes(k, Num(n)) == LittleEndian(Word(n, 0x1_0000_0000_0000_0000), 8)
  {
    hide VarintBytes, LittleEndian, InKind, ToVarint, ToFixed;
    NumberRange(k, n);
    if PlainVarint(k) || Zigzagged(k) {
      VarintFormat(k, n);
    } else {
      FixedFormat(k, n);
    }
  }

  lemma NumberRange(k: Kind, n: int)
    requires InKind(k, Num(n))
    ensures WireTypeOf(k) != 2 && -0x8000_0000_0000_0000 <= n < 0x1_0000_0000_0000_0000
    ensures FourBytes(k) ==> -0x8000_0000 <= n < 0x1_0000_0000
  {
  }

  lemma VarintFormat(k: Kind, n: int)
    requires InKind(k, Num(n)) && WireTypeOf(k) == 0
    ensures ToVarint(k, n) == if Zigzagged(k) then if n >= 0 then 2 * n else -2 * n - 1 else Word(n, U64)
  {
    hide ToInt32, ToInt64;
    Wrapped(n, U64);
    WrapRoundTrip(n);
  }

  lemma FixedFormat(k: Kind, n: int)
    requires InKind(k, Num(n)) && (FourBytes(k) || EightBytes(k))
    ensures ToFixed(k, n) == Word(n, if EightBytes(k) then U64 else U32)
  {
    Wrapped(n, U64);
    Wrapped(n, U32);
  }

  lemma TextFormat(k: Kind, t: bytes)
    ensures ScalarBytes(k, Text(t)) == VarintBytes(|t|) + t
  {
  }

  /** So a negative int32 takes as many bytes as a negative int64: ten. */
  lemma NegativeTakesTen(k: Kind, n: int)
    requires (k == Int32 || k == Int64) && InKind(k, Num(n)) && n < 0
    ensures |ScalarBytes(k, Num(n))| == 10
  {
    NumberFormat(k, n);
    Wrapped(n, U64);
    PowersInRange(9);
    Pow128Ten();
    DigitCount(Word(n, U64), 10);
  }

  lemma {:induction false} DigitCount(x: nat, n: nat)
    requires 2 <= n && Pow(0x80, n - 1) <= x < Pow(0x80, n)
    ensures |VarintBytes(x)| == n
    decreases n
  {
    assert Pow(0x80, 1) == 0x80 && Pow(0x80, n) == 0x80 * Pow(0x80, n - 1);
    if n > 2 {
      HighPart(x, Pow(0x80, n - 2));
      DigitCount(x / 0x80, n - 1);
    }
  }

  lemma HighPart(x: nat, p: nat)
    ensures 0x80 * p <= x ==> p <= x / 0x80
    ensures x < 0x80 * (0x80 * p) ==> x / 0x80 < 0x80 * p
  {
  }

  /** One half of a map entry: sint is no exception there, its numbers are plain
      varints. */
  function PartBytes(num: nat, k: Kind, s: Scalar): bytes
    requires num < 16 && InKind(EntryKind(k), s)
  {
    [8 * num + WireTypeOf(k)] +
    match s
    case Text(t) => VarintBytes(|t|) + t
    case Num(n) =>
      if FourBytes(k) then LittleEndian(Word(n, 0x1_0000_0000), 4)
      else if EightBytes(k) then LittleEndian(Word(n, 0x1_0000_0000_0000_0000), 8)
      else VarintBytes(Word(n, 0x1_0000_0000_0000_0000))
  }

  /** A map entry is its key as field 1 and its value as field 2. */
  lemma EntryFormat(kk: Kind, vk: Kind, key: Scalar, val: Scalar)
    requires InKind(EntryKind(kk), key) && InKind(EntryKind(vk), val)
    ensures EntryBytes(kk, vk, key, val) == PartBytes(1, kk, key) + PartBytes(2, vk, val)
  {
    hide ScalarBytes, WireOf;
    HalfFormat(1, kk, key);
    HalfFormat(2, vk, val);
  }

  lemma HalfFormat(num: nat, k: Kind, s: Scalar)
    requires num < 16 && InKind(EntryKind(k), s)
    ensures TagBytes(num, WireOf(k)) + ScalarBytes(EntryKind(k), s) == PartBytes(num, k, s)
  {
    hide ScalarBytes;
    WireTypes(k);
    match s
    case Text(t) => TextFormat(EntryKind(k), t);
    case Num(n) => NumberFormat(EntryKind(k), n);
  }

  /** A Timestamp or Duration body is its seconds as field 1 and its nanoseconds
      as field 2, each when it is not 0. */
  lemma StampFormat(s: Stamp)
    ensures StampBytes(s) ==
            (if s.secs == 0 then [] else PartBytes(1, Int64, Num(s.secs))) +
            (if s.nanos == 0 then [] else PartBytes(2, Int32, Num(s.nanos)))
  {
    hide VarintBytes;
    Wrapped(s.secs, U64);
    Wrapped(s.nanos, U64);
  }
}
