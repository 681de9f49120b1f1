// google.protobuf.Timestamp and Duration bodies (lang/go/codec/wkt.go).

module Wkt {
  import opened Base
  import opened Wire

  const NANOS := 1_000_000_000

  /** A time.Time without its location: Unix seconds and nanoseconds. */
  datatype Instant = Instant(secs: int64, nanos: int32)

  predicate IsInstant(t: Instant) {
    0 <= t.nanos < NANOS
  }

  /** time.Time{}: midnight, 1 January of year 1. */
  const ZERO_TIME := Instant(-62135596800, 0)
  const EPOCH := Instant(0, 0)

  /** The two fields of a Timestamp or Duration body. */
  datatype Stamp = Stamp(secs: int64, nanos: int32)

  function StampBytes(s: Stamp): bytes {
    (if s.secs != 0 then [0x08] + VarintBytes(ToUint64(s.secs)) else []) +
    (if s.nanos != 0 then [0x10] + VarintBytes(ToUint64(s.nanos)) else [])
  }

  /** One field of a body: the sub-fields are read without a wire-type check. */
  function ReadStampField(s: Stamp, data: bytes): (r: Result<Read<Stamp>>)
    ensures r.Ok? ==> 1 <= r.value.n <= |data|
  {
    match ReadVarint(data)
    case None => Err(InvalidVarint)
    case Some(tag) =>
      var rest := data[tag.n..];
      if tag.v / 8 == 1 then
        match ReadVarint(rest)
        case None => Err(InvalidVarint)
        case Some(v) => Ok(Read(s.(secs := ToInt64(v.v)), tag.n + v.n))
      else if tag.v / 8 == 2 then
        match ReadVarint(rest)
        case None => Err(InvalidVarint)
        case Some(v) => Ok(Read(s.(nanos := ToInt32(v.v)), tag.n + v.n))
      else
        var n :- SkipField(rest, tag.v % 8);
        Ok(Read(s, tag.n + n))
  }

  function ReadStamp(s: Stamp, data: bytes): Result<Stamp>
    decreases |data|
  {
    if data == [] then Ok(s)
    else
      var r :- ReadStampField(s, data);
      ReadStamp(r.v, data[r.n..])
  }

  lemma StampFieldRoundTrip(s: Stamp, tag: byte, x: uint64, suffix: bytes)
    requires tag == 0x08 || tag == 0x10
    ensures ReadStampField(s, [tag] + VarintBytes(x) + suffix)
         == Ok(Read(if tag == 0x08 then s.(secs := ToInt64(x)) else s.(nanos := ToInt32(x)), 1 + |VarintBytes(x)|))
  {
    var data := [tag] + VarintBytes(x) + suffix;
    VarintRoundTrip(tag, VarintBytes(x) + suffix);
    assert data == VarintBytes(tag) + (VarintBytes(x) + suffix);
    assert data[1..] == VarintBytes(x) + suffix;
    VarintRoundTrip(x, suffix);
  }

  lemma SignExtension(secs: int64, nanos: int32)
    ensures ToInt64(ToUint64(secs)) == secs && ToInt32(ToUint64(nanos)) == nanos
  {
    assert U64 % U32 == 0;
    assert ToUint64(nanos) % U32 == nanos % U32;
  }

  lemma NanosRoundTrip(s: Stamp, nanos: int32)
    requires nanos != 0
    ensures ReadStamp(s, [0x10] + VarintBytes(ToUint64(nanos))) == Ok(s.(nanos := nanos))
  {
    var field := [0x10] + VarintBytes(ToUint64(nanos));
    StampFieldRoundTrip(s, 0x10, ToUint64(nanos), []);
    SignExtension(0, nanos);
    assert field + [] == field;
    assert field[|field|..] == [];
  }

  /** Every pair of seconds and nanoseconds round-trips through a body. */
  lemma StampRoundTrip(s: Stamp)
    ensures ReadStamp(Stamp(0, 0), StampBytes(s)) == Ok(s)
  {
    var tail: bytes := if s.nanos != 0 then [0x10] + VarintBytes(ToUint64(s.nanos)) else [];
    SignExtension(s.secs, s.nanos);
    if s.nanos != 0 {
      NanosRoundTrip(Stamp(s.secs, 0), s.nanos);
    }
    if s.secs != 0 {
      var head := [0x08] + VarintBytes(ToUint64(s.secs));
      StampFieldRoundTrip(Stamp(0, 0), 0x08, ToUint64(s.secs), tail);
      assert StampBytes(s) == head + tail;
      assert (head + tail)[|head|..] == tail;
    } else {
      assert StampBytes(s) == tail;
    }
  }

  lemma StampLength(s: Stamp)
    ensures |StampBytes(s)| <= 22
  {
    VarintRoundTrip(ToUint64(s.secs), []);
    VarintRoundTrip(ToUint64(s.nanos), []);
  }

  // ---------------------------------------------------------------- methods

  method SizeStamp(s: Stamp) returns (n: nat)
    ensures n == |StampBytes(s)|
  {
    n := 0;
    if s.secs != 0 {
      n := n + 1 + SizeVarint(ToUint64(s.secs));
    }
    if s.nanos != 0 {
      n := n + 1 + SizeVarint(ToUint64(s.nanos));
    }
  }

  method EncodeStamp(buf: array<byte>, at: nat, s: Stamp) returns (n: nat)
    requires at + |StampBytes(s)| <= buf.Length
    modifies buf
    ensures n == |StampBytes(s)|
    ensures buf[..] == Splice(old(buf[..]), at, StampBytes(s))
  {
    n := 0;
    ghost var was := buf[..];
    ghost var done: bytes := [];
    SpliceNothing(was, at);
    if s.secs != 0 {
      n := PutTagged(buf, at, 0x08, ToUint64(s.secs));
      done := [0x08] + VarintBytes(ToUint64(s.secs));
    }
    if s.nanos != 0 {
      SpliceSplice(was, at, done, [0x10] + VarintBytes(ToUint64(s.nanos)));
      var k := PutTagged(buf, at + n, 0x10, ToUint64(s.nanos));
      n := n + k;
      done := done + ([0x10] + VarintBytes(ToUint64(s.nanos)));
    }
    assert done == StampBytes(s);
  }

  method PutTagged(buf: array<byte>, at: nat, tag: byte, x: uint64) returns (n: nat)
    requires at + 1 + |VarintBytes(x)| <= buf.Length
    modifies buf
    ensures n == 1 + |VarintBytes(x)|
    ensures buf[..] == Splice(old(buf[..]), at, [tag] + VarintBytes(x))
  {
    ghost var was := buf[..];
    buf[at] := tag;
    assert buf[..] == Splice(was, at, [tag]);
    SpliceSplice(was, at, [tag], VarintBytes(x));
    var k := EncodeVarint(buf, at + 1, x);
    n := 1 + k;
  }

  method DecodeStamp(data: bytes) returns (r: Result<Stamp>)
    ensures r == ReadStamp(Stamp(0, 0), data)
  {
    hide ReadStampField;
    var s, i: nat := Stamp(0, 0), 0;
    while i < |data|
      invariant 0 <= i <= |data|
      invariant ReadStamp(Stamp(0, 0), data) == ReadStamp(s, data[i..])
    {
      var field := DecodeStampField(s, data[i..]);
      if field.Err? {
        return Err(field.error);
      }
      assert data[i..][field.value.n..] == data[i + field.value.n..];
      s, i := field.value.v, i + field.value.n;
    }
    return Ok(s);
  }

  /** One turn of the loop. */
  method DecodeStampField(s: Stamp, data: bytes) returns (r: Result<Read<Stamp>>)
    ensures r == ReadStampField(s, data)
  {
    hide ReadVarint, SkipField, ToInt64, ToInt32;
    var tag, tn := DecodeVarint(data);
    if tn < 0 {
      return Err(InvalidVarint);
    }
    var rest := data[tn..];
    if tag / 8 == 1 || tag / 8 == 2 {
      var v, vn := DecodeVarint(rest);
      if vn < 0 {
        return Err(InvalidVarint);
      }
      return Ok(Read(if tag / 8 == 1 then s.(secs := ToInt64(v)) else s.(nanos := ToInt32(v)), tn + vn));
    }
    var sn := SkipField(rest, tag % 8);
    if sn.Err? {
      return Err(sn.error);
    }
    return Ok(Read(s, tn + sn.value));
  }

  // ---------------------------------------------------------------- Timestamp

  /** time.Unix(secs, nanos): nanoseconds outside [0, 1e9) carry into the seconds. */
  function Unix(s: Stamp): (t: Instant)
    ensures IsInstant(t)
  {
    Instant(ToInt64(s.secs + s.nanos / NANOS), s.nanos % NANOS)
  }

  /** The body EncodeTimestamp writes; the zero time has an empty one. */
  function TimestampStamp(t: Instant): Stamp {
    if t == ZERO_TIME then Stamp(0, 0) else Stamp(t.secs, t.nanos)
  }

  function StampToTimestamp(s: Stamp): (t: Instant)
    ensures IsInstant(t)
  {
    if s == Stamp(0, 0) then ZERO_TIME else Unix(s)
  }

  /** A Timestamp comes back unchanged exactly when it is not the Unix epoch,
      which comes back as the zero time. */
  lemma TimestampRoundTrip(t: Instant)
    requires IsInstant(t)
    ensures StampToTimestamp(TimestampStamp(t)) == if t == EPOCH then ZERO_TIME else t
    ensures StampToTimestamp(TimestampStamp(t)) == t <==> t != EPOCH
  {
    assert ToInt64(t.secs) == t.secs;
  }

  /** Carrying moves no instant, for every body whose seconds do not overflow. */
  lemma UnixKeepsTime(s: Stamp)
    requires -0x8000_0000_0000_0000 <= s.secs + s.nanos / NANOS < 0x8000_0000_0000_0000
    ensures Unix(s).secs * NANOS + Unix(s).nanos == s.secs * NANOS + s.nanos
  {
    assert ToInt64(s.secs + s.nanos / NANOS) == s.secs + s.nanos / NANOS;
  }

  /** And for the others the seconds wrap: the instant is kept modulo 2^64 seconds. */
  lemma UnixWraps(s: Stamp)
    ensures (Unix(s).secs * NANOS + Unix(s).nanos - (s.secs * NANOS + s.nanos)) % (U64 * NANOS) == 0
  {
    hide ToInt64;
    var q := Wrap64(s.secs + s.nanos / NANOS);
    assert s.nanos == s.nanos / NANOS * NANOS + s.nanos % NANOS;
    assert Unix(s).secs * NANOS + Unix(s).nanos - (s.secs * NANOS + s.nanos) == q * (U64 * NANOS);
    WholeTurns(q);
  }

  lemma WholeTurns(q: int)
    ensures q * (U64 * NANOS) % (U64 * NANOS) == 0
  {
  }

  /** Carrying can turn a non-zero body into the epoch, which then encodes as
      an empty body and is lost. */
  lemma EpochFromCarry()
    ensures StampToTimestamp(Stamp(1, -1_000_000_000)) == EPOCH
    ensures StampToTimestamp(TimestampStamp(EPOCH)) == ZERO_TIME
  {
  }

  function LeapYear(year: nat): bool {
    year % 4 == 0 && (year % 100 == 0 ==> year % 400 == 0)
  }

  /** Days from the first day of year 1 to the first day of `year`. */
  function DaysBefore(year: nat): nat {
    if year <= 1 then 0 else DaysBefore(year - 1) + if LeapYear(year - 1) then 366 else 365
  }

  lemma {:induction false} DaysClosed(year: nat)
    requires year >= 1
    ensures var y := year - 1; DaysBefore(year) == 365 * y + y / 4 - y / 100 + y / 400
  {
    if year > 1 {
      DaysClosed(year - 1);
      LeapStep(year - 1);
    }
  }

  lemma LeapStep(y: nat)
    requires y >= 1
    ensures y / 4 - y / 100 + y / 400 == (y - 1) / 4 - (y - 1) / 100 + (y - 1) / 400 + if LeapYear(y) then 1 else 0
  {
    NextQuotient(y, 4);
    NextQuotient(y, 100);
    NextQuotient(y, 400);
    assert y == 100 * (y / 100) + y % 100;
    assert y == 400 * (y / 400) + y % 400;
  }

  lemma NextQuotient(y: nat, d: nat)
    requires y >= 1 && (d == 4 || d == 100 || d == 400)
    ensures y / d == (y - 1) / d + if y % d == 0 then 1 else 0
  {
  }

  /** The zero time lies the days of the years 1 to 1969 before the epoch. */
  lemma ZeroTimeIsYearOne()
    ensures ZERO_TIME.secs == -86400 * DaysBefore(1970) && ZERO_TIME.nanos == 0
  {
    DaysClosed(1970);
  }

  /** What is written names the instant itself, with its nanoseconds in
      [0, 1e9), and nothing for the zero time. */
  lemma TimestampParts(t: Instant)
    requires IsInstant(t)
    ensures var s := TimestampStamp(t);
            && 0 <= s.nanos < NANOS
            && (t != ZERO_TIME ==> s.secs * NANOS + s.nanos == t.secs * NANOS + t.nanos)
            && (t == ZERO_TIME ==> StampBytes(s) == [])
  {
  }

  // ---------------------------------------------------------------- Duration

  /** Go's division truncates toward zero. */
  function TruncatedDiv(n: int, d: int): int
    requires d > 0
  {
    if n >= 0 then n / d else -(-n / d)
  }

  function Seconds(d: int64): int64 {
    TruncatedDiv(d, NANOS)
  }

  function Remainder(d: int64): int32 {
    d - TruncatedDiv(d, NANOS) * NANOS
  }

  /** Both parts have the sign of the duration: the fraction is cut off. */
  lemma DurationParts(d: int64)
    ensures Seconds(d) * NANOS + Remainder(d) == d && -NANOS < Remainder(d) < NANOS
    ensures d >= 0 ==> Seconds(d) >= 0 && Remainder(d) >= 0
    ensures d <= 0 ==> Seconds(d) <= 0 && Remainder(d) <= 0
  {
  }

  function DurationStamp(d: int64): Stamp {
    Stamp(Seconds(d), Remainder(d))
  }

  /** time.Duration(secs)*time.Second + time.Duration(nanos), in 64 bits. */
  function StampToDuration(s: Stamp): int64 {
    ToInt64(ToInt64(s.secs * NANOS) + s.nanos)
  }

  /** Any body means its seconds and nanoseconds together, in 64 bits. */
  lemma DurationMeaning(s: Stamp)
    ensures (StampToDuration(s) - (s.secs * NANOS + s.nanos)) % U64 == 0
  {
    hide ToInt64;
    var a := s.secs * NANOS;
    var q := Wrap64(a);
    var r := Wrap64(ToInt64(a) + s.nanos);
    assert StampToDuration(s) - (a + s.nanos) == (q + r) * U64;
    Multiple(q + r);
  }

  lemma Multiple(q: int)
    ensures (q * U64) % U64 == 0
  {
  }

  lemma Wrap64(n: int) returns (q: int)
    ensures ToInt64(n) == n + q * U64
  {
    q := if n % U64 < U64 / 2 then -(n / U64) else -(n / U64) - 1;
    assert n % U64 == n - n / U64 * U64;
  }

  /** Every Duration comes back unchanged. */
  lemma DurationRoundTrip(d: int64)
    ensures StampToDuration(DurationStamp(d)) == d
  {
    assert Seconds(d) * NANOS + Remainder(d) == d;
    assert ToInt64(Seconds(d) * NANOS) == Seconds(d) * NANOS;
  }
}
