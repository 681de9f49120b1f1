// Sizing and writing the fields that hold no message (gen_size.go,
// gen_marshal.go, gen_map.go). Sizes are computed apart from the bytes, and
// the writers put bytes without checking bounds: each is shown to write what
// its size says and nothing else.

module Writer {
  import opened Base
  import opened Wire
  import opened Wkt
  import opened Schema
  import opened Records
  import opened Values
  import opened Encoder
  import opened Typing

  /** Go's copy(buf[at:], s): as much as there is room for. */
  method Copy(buf: array<byte>, at: nat, s: bytes) returns (n: nat)
    requires at <= buf.Length
    modifies buf
    ensures n == if |s| <= buf.Length - at then |s| else buf.Length - at
    ensures buf[..] == Splice(old(buf[..]), at, s[..n])
  {
    n := if |s| <= buf.Length - at then |s| else buf.Length - at;
    forall k | 0 <= k < n {
      buf[at + k] := s[k];
    }
  }

  // ---------------------------------------------------------------- scalars

  /** scalarSizeExpr and the scalar arms of generateFieldSize. */
  function SizeScalar(k: Kind, s: Scalar): (n: nat)
    requires InKind(k, s) && (s.Text? ==> |s.s| < U64)
    ensures n == |ScalarBytes(k, s)|
  {
    match s
    case Text(t) => SizeVarint(|t|) + |t|
    case Num(x) =>
      if k == Bool then 1
      else if WireOf(k) == VARINT then SizeVarint(ToVarint(k, x))
      else FixedWidth(k)
  }

  method PutScalar(buf: array<byte>, at: nat, k: Kind, s: Scalar) returns (n: nat)
    requires InKind(k, s) && (s.Text? ==> |s.s| < U64)
    requires at + |ScalarBytes(k, s)| <= buf.Length
    modifies buf
    ensures n == |ScalarBytes(k, s)|
    ensures buf[..] == Splice(old(buf[..]), at, ScalarBytes(k, s))
  {
    match s {
      case Text(t) => n := PutText(buf, at, t);
      case Num(x) =>
        if k == Bool {
          buf[at] := x;
          n := 1;
        } else if WireOf(k) == VARINT {
          n := EncodeVarint(buf, at, ToVarint(k, x));
        } else {
          PutFixed(buf, at, ToFixed(k, x), FixedWidth(k));
          n := FixedWidth(k);
        }
    }
  }

  method PutText(buf: array<byte>, at: nat, t: bytes) returns (n: nat)
    requires |t| < U64 && at + |VarintBytes(|t|)| + |t| <= buf.Length
    modifies buf
    ensures n == |VarintBytes(|t|) + t|
    ensures buf[..] == Splice(old(buf[..]), at, VarintBytes(|t|) + t)
  {
    hide Splice;
    ghost var was := buf[..];
    n := EncodeVarint(buf, at, |t|);
    var c := Copy(buf, at + n, t);
    assert t[..c] == t;
    SpliceSplice(was, at, VarintBytes(|t|), t);
    n := n + c;
  }

  /** emitTag: the bytes of a tag are known when the code is generated. */
  method PutTag(buf: array<byte>, at: nat, num: nat, wire: nat) returns (n: nat)
    requires at + |TagBytes(num, wire)| <= buf.Length
    modifies buf
    ensures n == |TagBytes(num, wire)|
    ensures buf[..] == Splice(old(buf[..]), at, TagBytes(num, wire))
  {
    hide Splice;
    n := Copy(buf, at, TagBytes(num, wire));
    assert TagBytes(num, wire)[..n] == TagBytes(num, wire);
  }

  // ---------------------------------------------------------------- one field

  /** The records of one field, one after another. */
  ghost function FieldBytes(file: File, f: Field, ds: seq<Delta>): bytes {
    if ds == [] then []
    else TagBytes(f.num, WireOfShape(f.shape)) + DeltaBytes(file, f.shape, ds[0]) + FieldBytes(file, f, ds[1..])
  }

  lemma {:induction false} FieldBytesOf(file: File, ref: nat, i: nat, ds: seq<Delta>)
    requires i < |Fields(file, ref)|
    ensures MessageBytes(file, ref, Of(i, ds)) == FieldBytes(file, Fields(file, ref)[i], ds)
    decreases |ds|
  {
    hide DeltaBytes, TagBytes, WireOfShape;
    if ds != [] {
      FieldBytesOf(file, ref, i, ds[1..]);
      assert Of(i, ds)[1..] == Of(i, ds[1..]);
    }
  }

  lemma {:induction false} MessageBytesConcat(file: File, ref: nat, a: seq<Rec>, b: seq<Rec>)
    ensures MessageBytes(file, ref, a + b) == MessageBytes(file, ref, a) + MessageBytes(file, ref, b)
    decreases |a|
  {
    hide RecordBytes;
    if a == [] {
      assert a + b == b;
    } else {
      assert (a + b)[1..] == a[1..] + b;
      MessageBytesConcat(file, ref, a[1..], b);
    }
  }

  lemma FieldBytesOne(file: File, f: Field, d: Delta)
    ensures FieldBytes(file, f, [d]) == TagBytes(f.num, WireOfShape(f.shape)) + DeltaBytes(file, f.shape, d)
  {
    hide DeltaBytes, TagBytes, WireOfShape;
    assert [d][1..] == [];
  }

  // ---------------------------------------------------------------- repeated scalars

  /** The length of a packed run: summed for varints, multiplied out for fixed
      widths. */
  method SizeElements(k: Kind, es: seq<Scalar>) returns (l: nat)
    requires Packable(k) && forall e | e in es :: InKind(k, e)
    ensures l == |ElementsBytes(k, es)|
  {
    FixedOrVarint(k);
    hide InKind, WireOf, FixedWidth, Packable, ElementsBytes;
    if WireOf(k) == VARINT {
      l := SumElements(k, es);
    } else {
      FixedElements(k, es);
      l := |es| * FixedWidth(k);
    }
  }

  method SumElements(k: Kind, es: seq<Scalar>) returns (l: nat)
    requires Packable(k) && forall e | e in es :: InKind(k, e)
    ensures l == |ElementsBytes(k, es)|
  {
    hide InKind, ScalarBytes, Packable, ElementsBytes;
    assert es[0..] == es;
    l := 0;
    for idx := 0 to |es|
      invariant l + |ElementsBytes(k, es[idx..])| == |ElementsBytes(k, es)|
    {
      ElementsFrom(k, es, idx);
      PackableIsNumber(k, es[idx]);
      var n := SizeScalar(k, es[idx]);
      l := l + n;
    }
    assert es[|es|..] == [];
    NoElements(k);
  }

  lemma FixedOrVarint(k: Kind)
    requires Packable(k)
    ensures WireOf(k) == VARINT || WireOf(k) == FIXED32 || WireOf(k) == FIXED64
  {
  }

  lemma ElementsFrom(k: Kind, es: seq<Scalar>, idx: nat)
    requires idx < |es|
    ensures ElementsBytes(k, es[idx..]) == ScalarBytes(k, es[idx]) + ElementsBytes(k, es[idx + 1..])
  {
    hide ScalarBytes;
    assert es[idx..][1..] == es[idx + 1..];
  }

  lemma NoElements(k: Kind)
    ensures ElementsBytes(k, []) == []
  {
  }

  lemma PackableIsNumber(k: Kind, e: Scalar)
    requires Packable(k) && InKind(k, e)
    ensures e.Num?
  {
  }

  lemma {:induction false} FixedElements(k: Kind, es: seq<Scalar>)
    requires WireOf(k) == FIXED32 || WireOf(k) == FIXED64
    requires forall e | e in es :: InKind(k, e)
    ensures |ElementsBytes(k, es)| == |es| * FixedWidth(k)
  {
    hide InKind, ScalarBytes, WireOf;
    if es != [] {
      FixedElements(k, es[1..]);
      FixedScalar(k, es[0]);
      assert (1 + |es[1..]|) * FixedWidth(k) == FixedWidth(k) + |es[1..]| * FixedWidth(k);
    }
  }

  lemma FixedScalar(k: Kind, e: Scalar)
    requires WireOf(k) == FIXED32 || WireOf(k) == FIXED64
    requires InKind(k, e)
    ensures |ScalarBytes(k, e)| == FixedWidth(k)
  {
  }

  method PutElements(buf: array<byte>, at: nat, k: Kind, es: seq<Scalar>) returns (n: nat)
    requires Packable(k) && forall e | e in es :: InKind(k, e)
    requires at + |ElementsBytes(k, es)| <= buf.Length
    modifies buf
    ensures n == |ElementsBytes(k, es)|
    ensures buf[..] == Splice(old(buf[..]), at, ElementsBytes(k, es))
  {
    hide InKind, ScalarBytes, Splice;
    ghost var was := buf[..];
    ghost var done: bytes := [];
    SpliceNothing(was, at);
    n := 0;
    var idx := 0;
    while idx < |es|
      invariant 0 <= idx <= |es| && |done| == n
      invariant done + ElementsBytes(k, es[idx..]) == ElementsBytes(k, es)
      invariant buf[..] == Splice(was, at, done)
    {
      assert es[idx..][1..] == es[idx + 1..];
      PackableIsNumber(k, es[idx]);
      SpliceSplice(was, at, done, ScalarBytes(k, es[idx]));
      var c := PutScalar(buf, at + n, k, es[idx]);
      done := done + ScalarBytes(k, es[idx]);
      n := n + c;
      idx := idx + 1;
    }
    assert es[idx..] == [] && done + [] == done;
  }

  // ---------------------------------------------------------------- map entries

  /** entrySz: both sub-fields always take part. */
  method SizeEntry(kk: Kind, vk: Kind, key: Scalar, val: Scalar) returns (n: nat)
    requires InKind(EntryKind(kk), key) && InKind(EntryKind(vk), val)
    requires |EntryBytes(kk, vk, key, val)| < MAX_LEN
    ensures n == |EntryBytes(kk, vk, key, val)|
  {
    hide InKind, EntryKind, TagBytes;
    TextWithin(EntryKind(kk), key);
    TextWithin(EntryKind(vk), val);
    hide ScalarBytes;
    var a := TagSize(1);
    var b := TagSize(2);
    n := a + SizeScalar(EntryKind(kk), key) + b + SizeScalar(EntryKind(vk), val);
  }

  lemma TextWithin(k: Kind, s: Scalar)
    ensures s.Text? ==> |s.s| <= |ScalarBytes(k, s)|
  {
  }

  method PutEntry(buf: array<byte>, at: nat, kk: Kind, vk: Kind, key: Scalar, val: Scalar) returns (n: nat)
    requires InKind(EntryKind(kk), key) && InKind(EntryKind(vk), val)
    requires |EntryBytes(kk, vk, key, val)| < MAX_LEN
    requires at + |EntryBytes(kk, vk, key, val)| <= buf.Length
    modifies buf
    ensures n == |EntryBytes(kk, vk, key, val)|
    ensures buf[..] == Splice(old(buf[..]), at, EntryBytes(kk, vk, key, val))
  {
    hide InKind, EntryKind, TagBytes, ScalarBytes, Splice, WireOf;
    TextWithin(EntryKind(kk), key);
    TextWithin(EntryKind(vk), val);
    ghost var was := buf[..];
    n := PutTagged(buf, at, 1, kk, EntryKind(kk), key);
    ghost var a := TagBytes(1, WireOf(kk)) + ScalarBytes(EntryKind(kk), key);
    ghost var b := TagBytes(2, WireOf(vk)) + ScalarBytes(EntryKind(vk), val);
    SpliceSplice(was, at, a, b);
    var c := PutTagged(buf, at + n, 2, vk, EntryKind(vk), val);
    n := n + c;
  }

  /** emitScalarWrite: a tag and a scalar. */
  method PutTagged(buf: array<byte>, at: nat, num: nat, tagKind: Kind, k: Kind, s: Scalar) returns (n: nat)
    requires InKind(k, s) && (s.Text? ==> |s.s| < U64)
    requires at + |TagBytes(num, WireOf(tagKind)) + ScalarBytes(k, s)| <= buf.Length
    modifies buf
    ensures n == |TagBytes(num, WireOf(tagKind)) + ScalarBytes(k, s)|
    ensures buf[..] == Splice(old(buf[..]), at, TagBytes(num, WireOf(tagKind)) + ScalarBytes(k, s))
  {
    hide InKind, TagBytes, ScalarBytes, Splice, WireOf;
    ghost var was := buf[..];
    n := PutTag(buf, at, num, WireOf(tagKind));
    SpliceSplice(was, at, TagBytes(num, WireOf(tagKind)), ScalarBytes(k, s));
    var c := PutScalar(buf, at + n, k, s);
    n := n + c;
  }

  // ---------------------------------------------------------------- map keys

  /** The bytes the records of these keys take. */
  ghost function EntriesLength(file: File, f: Field, m: map<Scalar, Scalar>, keys: seq<Scalar>): nat {
    if keys == [] then 0 else EntryLength(file, f, m, keys[0]) + EntriesLength(file, f, m, keys[1..])
  }

  ghost function EntryLength(file: File, f: Field, m: map<Scalar, Scalar>, key: Scalar): nat {
    if key in m then |TagBytes(f.num, WireOfShape(f.shape)) + DeltaBytes(file, f.shape, Entry(key, m[key]))| else 0
  }

  lemma {:induction false} EntriesLengthOf(file: File, f: Field, m: map<Scalar, Scalar>, keys: seq<Scalar>)
    requires forall x | x in keys :: x in m
    ensures |FieldBytes(file, f, Entries(m, keys))| == EntriesLength(file, f, m, keys)
    decreases |keys|
  {
    hide DeltaBytes, TagBytes, WireOfShape;
    if keys != [] {
      EntriesLengthOf(file, f, m, keys[1..]);
      EntriesFirst(file, f, m, keys);
    }
  }

  /** The sizes of a map's entries add up the same in whatever order the map is
      ranged over. */
  lemma {:induction false} EntriesPermuted(file: File, f: Field, m: map<Scalar, Scalar>, a: seq<Scalar>, b: seq<Scalar>)
    requires Distinct(a) && Distinct(b) && forall x :: x in a <==> x in b
    ensures EntriesLength(file, f, m, a) == EntriesLength(file, f, m, b)
    decreases |a|
  {
    hide EntryLength, Distinct;
    if b != [] {
      assert b[0] in b;
    }
    if a != [] {
      assert a[0] in b;
      var j :| 0 <= j < |b| && b[j] == a[0];
      var before, after := b[..j], b[j + 1..];
      SameWithout(a, b, j);
      EntriesPermuted(file, f, m, a[1..], before + after);
      EntriesSplit(file, f, m, before, after);
      assert b == before + b[j..] && b[j..][1..] == after;
      EntriesSplit(file, f, m, before, b[j..]);
    }
  }

  predicate Distinct(s: seq<Scalar>) {
    forall i, j | 0 <= i < j < |s| :: s[i] != s[j]
  }

  lemma SameWithout(a: seq<Scalar>, b: seq<Scalar>, j: nat)
    requires a != [] && j < |b| && b[j] == a[0] && Distinct(a) && Distinct(b) && forall x :: x in a <==> x in b
    ensures Distinct(a[1..]) && Distinct(b[..j] + b[j + 1..])
    ensures forall x :: x in a[1..] <==> x in b[..j] + b[j + 1..]
  {
    var rest := b[..j] + b[j + 1..];
    forall x
      ensures x in a[1..] <==> x in rest
    {
      assert x in a[1..] <==> x in a && x != a[0] by {
        assert a == [a[0]] + a[1..];
        assert forall k | 1 <= k < |a| :: a[k] != a[0];
      }
      assert x in rest <==> x in b && x != b[j] by {
        assert b == b[..j] + [b[j]] + b[j + 1..];
        assert forall k | 0 <= k < |b| && k != j :: b[k] != b[j];
      }
    }
  }

  lemma {:induction false} EntriesSplit(file: File, f: Field, m: map<Scalar, Scalar>, a: seq<Scalar>, b: seq<Scalar>)
    ensures EntriesLength(file, f, m, a + b) == EntriesLength(file, f, m, a) + EntriesLength(file, f, m, b)
    decreases |a|
  {
    hide EntryLength;
    if a == [] {
      assert a + b == b;
    } else {
      assert (a + b)[1..] == a[1..] + b;
      EntriesSplit(file, f, m, a[1..], b);
    }
  }

  lemma EntriesFirst(file: File, f: Field, m: map<Scalar, Scalar>, keys: seq<Scalar>)
    requires keys != [] && forall x | x in keys :: x in m
    ensures FieldBytes(file, f, Entries(m, keys)) ==
            TagBytes(f.num, WireOfShape(f.shape)) + DeltaBytes(file, f.shape, Entry(keys[0], m[keys[0]])) +
            FieldBytes(file, f, Entries(m, keys[1..]))
  {
    hide DeltaBytes, TagBytes, WireOfShape;
    assert Entries(m, keys)[1..] == Entries(m, keys[1..]);
  }

  /** slices.Sort of the collected keys. */
  method SortKeys(s: set<Scalar>) returns (keys: seq<Scalar>)
    ensures keys == SortedKeys(s)
  {
    hide Less;
    keys := [];
    var rest := s;
    while rest != {}
      invariant rest <= s && Sorted(keys)
      invariant forall x :: x in keys <==> x in s - rest
      decreases |rest|
    {
      var k :| k in rest;
      keys := InsertKey(keys, k);
      rest := rest - {k};
    }
    SortedKeysUnique(s, keys);
  }

  function InsertKey(keys: seq<Scalar>, k: Scalar): (r: seq<Scalar>)
    requires Sorted(keys) && k !in keys
    ensures Sorted(r) && forall x :: x in r <==> x == k || x in keys
  {
    if keys == [] then [k]
    else if Less(k, keys[0]) then
      FirstKey(k, keys);
      [k] + keys
    else
      LessOrder(k, keys[0], k);
      var rest := InsertKey(keys[1..], k);
      LaterKeys(keys, k, rest);
      [keys[0]] + rest
  }

  lemma FirstKey(k: Scalar, keys: seq<Scalar>)
    requires keys != [] && Sorted(keys) && Less(k, keys[0])
    ensures Sorted([k] + keys)
  {
    hide Less;
    var r := [k] + keys;
    forall i, j | 0 <= i < j < |r|
      ensures Less(r[i], r[j])
    {
      if i == 0 && j > 1 {
        LessOrder(k, keys[0], keys[j - 1]);
      }
    }
  }

  lemma LaterKeys(keys: seq<Scalar>, k: Scalar, rest: seq<Scalar>)
    requires keys != [] && Sorted(keys) && Sorted(rest) && Less(keys[0], k)
    requires forall x :: x in rest <==> x == k || x in keys[1..]
    ensures Sorted([keys[0]] + rest)
    ensures forall x :: x in [keys[0]] + rest <==> x == k || x in keys
  {
    hide Less;
    var r := [keys[0]] + rest;
    assert keys == [keys[0]] + keys[1..];
    forall i, j | 0 <= i < j < |r|
      ensures Less(r[i], r[j])
    {
      if i == 0 {
        assert r[j] in rest;
      }
    }
  }

  // ---------------------------------------------------------------- fields

  /** A field is written by its own presence rule, or as the active branch of
      its oneof. */
  ghost function Emitted(file: File, shape: Shape, v: Value, branch: bool): seq<Delta> {
    if branch then EmitBranch(file, shape, v) else EmitField(file, shape, v)
  }

  ghost predicate Writable(file: File, f: Field, v: Value, branch: bool) {
    && 1 <= f.num < MAX_FIELD_NUM && TypedValue(file, f.shape, v)
    && |FieldBytes(file, f, Emitted(file, f.shape, v, branch))| < MAX_LEN
  }

  method SizeOne(file: File, f: Field, k: Kind, s: Scalar) returns (n: nat)
    requires 1 <= f.num < MAX_FIELD_NUM && (f.shape == Singular(k) || f.shape == Optional(k)) && InKind(k, s)
    requires |FieldBytes(file, f, [One(s)])| < MAX_LEN
    ensures n == |FieldBytes(file, f, [One(s)])|
  {
    hide InKind, TagBytes;
    FieldBytesOne(file, f, One(s));
    TextWithin(k, s);
    hide ScalarBytes, FieldBytes;
    n := TagSize(f.num);
    n := n + SizeScalar(k, s);
  }

  method PutOne(buf: array<byte>, at: nat, file: File, f: Field, k: Kind, s: Scalar) returns (n: nat)
    requires (f.shape == Singular(k) || f.shape == Optional(k)) && InKind(k, s)
    requires |FieldBytes(file, f, [One(s)])| < MAX_LEN && at + |FieldBytes(file, f, [One(s)])| <= buf.Length
    modifies buf
    ensures n == |FieldBytes(file, f, [One(s)])|
    ensures buf[..] == Splice(old(buf[..]), at, FieldBytes(file, f, [One(s)]))
  {
    hide InKind, TagBytes;
    FieldBytesOne(file, f, One(s));
    TextWithin(k, s);
    hide ScalarBytes, FieldBytes, WireOf;
    n := PutTagged(buf, at, f.num, k, k, s);
  }

  /** The records of a repeated string or bytes field, from the element `idx` on. */
  ghost function SingleRecords(f: Field, k: Kind, es: seq<Scalar>, idx: nat): bytes
    decreases |es| - idx
  {
    if idx >= |es| then []
    else TagBytes(f.num, LEN_DELIMITED) + ScalarBytes(k, es[idx]) + SingleRecords(f, k, es, idx + 1)
  }

  lemma {:induction false} SingleRecordsOf(file: File, f: Field, es: seq<Scalar>, idx: nat)
    requires f.shape.Repeated? && !Packable(f.shape.k) && idx <= |es|
    ensures FieldBytes(file, f, Singles(es[idx..])) == SingleRecords(f, f.shape.k, es, idx)
    decreases |es| - idx
  {
    hide TagBytes, ScalarBytes;
    if idx < |es| {
      SingleRecordsOf(file, f, es, idx + 1);
      assert es[idx..][1..] == es[idx + 1..];
      assert Singles(es[idx..])[1..] == Singles(es[idx + 1..]);
      OneElement(f.shape.k, es[idx]);
    }
  }

  lemma OneElement(k: Kind, e: Scalar)
    ensures ElementsBytes(k, [e]) == ScalarBytes(k, e)
  {
    assert [e][1..] == [];
  }

  lemma AllSingleRecords(file: File, f: Field, es: seq<Scalar>)
    requires f.shape.Repeated? && !Packable(f.shape.k)
    ensures FieldBytes(file, f, Singles(es)) == SingleRecords(f, f.shape.k, es, 0)
  {
    SingleRecordsOf(file, f, es, 0);
    assert es[0..] == es;
  }

  method SizeSingles(f: Field, k: Kind, es: seq<Scalar>) returns (n: nat)
    requires 1 <= f.num < MAX_FIELD_NUM && forall e | e in es :: InKind(k, e)
    requires |SingleRecords(f, k, es, 0)| < MAX_LEN
    ensures n == |SingleRecords(f, k, es, 0)|
  {
    hide InKind, TagBytes, ScalarBytes;
    var ts := TagSize(f.num);
    n := 0;
    var idx := 0;
    while idx < |es|
      invariant 0 <= idx <= |es| && n + |SingleRecords(f, k, es, idx)| == |SingleRecords(f, k, es, 0)|
    {
      TextWithin(k, es[idx]);
      n := n + ts + SizeScalar(k, es[idx]);
      idx := idx + 1;
    }
  }

  method PutSingles(buf: array<byte>, at: nat, f: Field, k: Kind, es: seq<Scalar>) returns (n: nat)
    requires WireOf(k) == LEN_DELIMITED && forall e | e in es :: InKind(k, e)
    requires |SingleRecords(f, k, es, 0)| < MAX_LEN && at + |SingleRecords(f, k, es, 0)| <= buf.Length
    modifies buf
    ensures n == |SingleRecords(f, k, es, 0)|
    ensures buf[..] == Splice(old(buf[..]), at, SingleRecords(f, k, es, 0))
  {
    hide InKind, TagBytes, ScalarBytes, Splice, WireOf;
    ghost var was := buf[..];
    ghost var done: bytes := [];
    ghost var total := SingleRecords(f, k, es, 0);
    SpliceNothing(was, at);
    n := 0;
    var idx := 0;
    while idx < |es|
      invariant 0 <= idx <= |es| && |done| == n
      invariant done + SingleRecords(f, k, es, idx) == total
      invariant buf[..] == Splice(was, at, done)
    {
      TextWithin(k, es[idx]);
      ghost var w := TagBytes(f.num, LEN_DELIMITED) + ScalarBytes(k, es[idx]);
      Advance(total, done, w, SingleRecords(f, k, es, idx + 1));
      SpliceSplice(was, at, done, w);
      var c := PutTagged(buf, at + n, f.num, k, k, es[idx]);
      done := done + w;
      n := n + c;
      idx := idx + 1;
    }
    assert done + [] == done;
  }

  /** The next part moves from what is to come to what is done. */
  lemma Advance(total: bytes, done: bytes, w: bytes, tail: bytes)
    requires done + (w + tail) == total
    ensures (done + w) + tail == total && |done| + |w| <= |total|
  {
  }

  lemma TextIsDelimited(k: Kind)
    requires !Packable(k)
    ensures WireOf(k) == LEN_DELIMITED
  {
  }

  /** A tag and a length prefix. */
  method PutHeader(buf: array<byte>, at: nat, num: nat, len: nat) returns (n: nat)
    requires len < U64 && at + |TagBytes(num, LEN_DELIMITED)| + |VarintBytes(len)| <= buf.Length
    modifies buf
    ensures n == |TagBytes(num, LEN_DELIMITED)| + |VarintBytes(len)|
    ensures buf[..] == Splice(old(buf[..]), at, TagBytes(num, LEN_DELIMITED) + VarintBytes(len))
  {
    hide TagBytes, Splice;
    ghost var was := buf[..];
    n := PutTag(buf, at, num, LEN_DELIMITED);
    SpliceSplice(was, at, TagBytes(num, LEN_DELIMITED), VarintBytes(len));
    var c := EncodeVarint(buf, at + n, len);
    n := n + c;
  }

  lemma RunBytes(file: File, f: Field, es: seq<Scalar>)
    requires f.shape.Repeated? && Packable(f.shape.k)
    ensures FieldBytes(file, f, [Run(es)]) ==
            TagBytes(f.num, LEN_DELIMITED) + VarintBytes(|ElementsBytes(f.shape.k, es)|) + ElementsBytes(f.shape.k, es)
  {
    hide TagBytes, ElementsBytes;
    FieldBytesOne(file, f, Run(es));
  }

  /** The length of the run is computed for the size and once more here. */
  method PutRun(buf: array<byte>, at: nat, file: File, f: Field, k: Kind, es: seq<Scalar>) returns (n: nat)
    requires f.shape == Repeated(k) && Packable(k) && forall e | e in es :: InKind(k, e)
    requires |FieldBytes(file, f, [Run(es)])| < MAX_LEN && at + |FieldBytes(file, f, [Run(es)])| <= buf.Length
    modifies buf
    ensures n == |FieldBytes(file, f, [Run(es)])|
    ensures buf[..] == Splice(old(buf[..]), at, FieldBytes(file, f, [Run(es)]))
  {
    hide InKind, TagBytes, FieldBytes, ElementsBytes, Packable, Splice;
    RunBytes(file, f, es);
    ghost var was := buf[..];
    var l := SizeElements(k, es);
    n := PutHeader(buf, at, f.num, l);
    SpliceSplice(was, at, TagBytes(f.num, LEN_DELIMITED) + VarintBytes(l), ElementsBytes(k, es));
    var c := PutElements(buf, at + n, k, es);
    n := n + c;
  }

  lemma BodyBytes(file: File, f: Field, s: Stamp)
    requires f.shape.Timestamp? || f.shape.Duration?
    ensures FieldBytes(file, f, [Body(s)]) == TagBytes(f.num, LEN_DELIMITED) + VarintBytes(|StampBytes(s)|) + StampBytes(s)
  {
    hide TagBytes, StampBytes;
    FieldBytesOne(file, f, Body(s));
  }

  method PutBody(buf: array<byte>, at: nat, file: File, f: Field, s: Stamp) returns (n: nat)
    requires f.shape.Timestamp? || f.shape.Duration?
    requires at + |FieldBytes(file, f, [Body(s)])| <= buf.Length
    modifies buf
    ensures n == |FieldBytes(file, f, [Body(s)])|
    ensures buf[..] == Splice(old(buf[..]), at, FieldBytes(file, f, [Body(s)]))
  {
    hide TagBytes, FieldBytes, StampBytes, Splice;
    BodyBytes(file, f, s);
    StampLength(s);
    ghost var was := buf[..];
    var l := SizeStamp(s);
    n := PutHeader(buf, at, f.num, l);
    SpliceSplice(was, at, TagBytes(f.num, LEN_DELIMITED) + VarintBytes(l), StampBytes(s));
    var c := EncodeStamp(buf, at + n, s);
    n := n + c;
  }

  /** One entry as a record. */
  ghost function EntryRecord(f: Field, kk: Kind, vk: Kind, m: map<Scalar, Scalar>, key: Scalar): bytes {
    if key in m then
      var e := EntryBytes(kk, vk, key, m[key]);
      TagBytes(f.num, LEN_DELIMITED) + VarintBytes(|e|) + e
    else []
  }

  /** The entries of `keys` from the index `idx` on. */
  ghost function EntryRecords(f: Field, kk: Kind, vk: Kind, m: map<Scalar, Scalar>, keys: seq<Scalar>, idx: nat): bytes
    decreases |keys| - idx
  {
    if idx >= |keys| then [] else EntryRecord(f, kk, vk, m, keys[idx]) + EntryRecords(f, kk, vk, m, keys, idx + 1)
  }

  lemma {:induction false} EntryRecordsOf(file: File, f: Field, m: map<Scalar, Scalar>, keys: seq<Scalar>, idx: nat)
    requires f.shape.Map? && idx <= |keys| && forall x | x in keys :: x in m
    ensures FieldBytes(file, f, Entries(m, keys[idx..])) == EntryRecords(f, f.shape.key, f.shape.val, m, keys, idx)
    decreases |keys| - idx
  {
    hide TagBytes, EntryBytes;
    if idx < |keys| {
      EntryRecordsOf(file, f, m, keys, idx + 1);
      EntriesFirst(file, f, m, keys[idx..]);
      assert keys[idx..][1..] == keys[idx + 1..];
    }
  }

  lemma AllEntryRecords(file: File, f: Field, m: map<Scalar, Scalar>, keys: seq<Scalar>)
    requires f.shape.Map? && forall x | x in keys :: x in m
    ensures FieldBytes(file, f, Entries(m, keys)) == EntryRecords(f, f.shape.key, f.shape.val, m, keys, 0)
  {
    EntryRecordsOf(file, f, m, keys, 0);
    assert keys[0..] == keys;
  }

  /** The entries in key order. */
  method PutTable(buf: array<byte>, at: nat, file: File, f: Field, kk: Kind, vk: Kind, m: map<Scalar, Scalar>) returns (n: nat)
    requires f.shape == Map(kk, vk) && TypedValue(file, f.shape, Table(m))
    requires var w := FieldBytes(file, f, Entries(m, SortedKeys(m.Keys))); |w| < MAX_LEN && at + |w| <= buf.Length
    modifies buf
    ensures n == |FieldBytes(file, f, Entries(m, SortedKeys(m.Keys)))|
    ensures buf[..] == Splice(old(buf[..]), at, FieldBytes(file, f, Entries(m, SortedKeys(m.Keys))))
  {
    hide InKind, FieldBytes, Entries, EntryRecords, Splice, EntryKind;
    AllEntryRecords(file, f, m, SortedKeys(m.Keys));
    var keys: seq<Scalar>;
    if kk == Bool {
      keys := (if Num(0) in m then [Num(0)] else []) + (if Num(1) in m then [Num(1)] else []);
      FalseBeforeTrue(file, f, m, keys);
    } else {
      keys := SortKeys(m.Keys);
    }
    n := PutEntries(buf, at, f, kk, vk, m, keys);
  }

  /** Bool keys need no sorting. */
  lemma FalseBeforeTrue(file: File, f: Field, m: map<Scalar, Scalar>, keys: seq<Scalar>)
    requires f.shape.Map? && f.shape.key == Bool && TypedValue(file, f.shape, Table(m))
    requires keys == (if Num(0) in m then [Num(0)] else []) + (if Num(1) in m then [Num(1)] else [])
    ensures keys == SortedKeys(m.Keys)
  {
    forall key
      ensures key in keys <==> key in m.Keys
    {
      assert key in m ==> InKind(Bool, key);
    }
    SortedKeysUnique(m.Keys, keys);
  }

  method PutEntries(buf: array<byte>, at: nat, f: Field, kk: Kind, vk: Kind, m: map<Scalar, Scalar>, keys: seq<Scalar>)
    returns (n: nat)
    requires forall k | 0 <= k < |keys| :: keys[k] in m && InKind(EntryKind(kk), keys[k]) && InKind(EntryKind(vk), m[keys[k]])
    requires var w := EntryRecords(f, kk, vk, m, keys, 0); |w| < MAX_LEN && at + |w| <= buf.Length
    modifies buf
    ensures n == |EntryRecords(f, kk, vk, m, keys, 0)|
    ensures buf[..] == Splice(old(buf[..]), at, EntryRecords(f, kk, vk, m, keys, 0))
  {
    hide InKind, EntryRecord, Splice, EntryKind;
    ghost var was := buf[..];
    ghost var done: bytes := [];
    ghost var total := EntryRecords(f, kk, vk, m, keys, 0);
    SpliceNothing(was, at);
    n := 0;
    var idx := 0;
    while idx < |keys|
      invariant 0 <= idx <= |keys| && |done| == n
      invariant done + EntryRecords(f, kk, vk, m, keys, idx) == total
      invariant buf[..] == Splice(was, at, done)
    {
      ghost var w := EntryRecord(f, kk, vk, m, keys[idx]);
      Advance(total, done, w, EntryRecords(f, kk, vk, m, keys, idx + 1));
      var c := PutTableEntry(buf, at + n, f, kk, vk, m, keys[idx]);
      SpliceSplice(was, at, done, w);
      done := done + w;
      n := n + c;
      idx := idx + 1;
    }
    assert done + [] == done;
  }

  method PutTableEntry(buf: array<byte>, at: nat, f: Field, kk: Kind, vk: Kind, m: map<Scalar, Scalar>, key: Scalar)
    returns (n: nat)
    requires key in m && InKind(EntryKind(kk), key) && InKind(EntryKind(vk), m[key])
    requires |EntryRecord(f, kk, vk, m, key)| < MAX_LEN && at + |EntryRecord(f, kk, vk, m, key)| <= buf.Length
    modifies buf
    ensures n == |EntryRecord(f, kk, vk, m, key)|
    ensures buf[..] == Splice(old(buf[..]), at, EntryRecord(f, kk, vk, m, key))
  {
    hide InKind, TagBytes, EntryBytes, Splice, EntryKind;
    ghost var was := buf[..];
    var l := SizeEntry(kk, vk, key, m[key]);
    n := PutHeader(buf, at, f.num, l);
    SpliceSplice(was, at, TagBytes(f.num, LEN_DELIMITED) + VarintBytes(l), EntryBytes(kk, vk, key, m[key]));
    var c := PutEntry(buf, at + n, kk, vk, key, m[key]);
    n := n + c;
  }

  /** The map is ranged over in no particular order. */
  method SizeTable(file: File, f: Field, kk: Kind, vk: Kind, m: map<Scalar, Scalar>) returns (n: nat)
    requires 1 <= f.num < MAX_FIELD_NUM && f.shape == Map(kk, vk) && TypedValue(file, f.shape, Table(m))
    requires |FieldBytes(file, f, Entries(m, SortedKeys(m.Keys)))| < MAX_LEN
    ensures n == |FieldBytes(file, f, Entries(m, SortedKeys(m.Keys)))|
  {
    NoKeys(file, f, m);
    hide InKind, TagBytes, FieldBytes, Entries, EntryBytes, EntryKind, EntryLength, EntriesLength, Distinct;
    n := 0;
    var rest := m.Keys;
    ghost var visited: seq<Scalar> := [];
    var ts := TagSize(f.num);
    while rest != {}
      invariant rest <= m.Keys && Distinct(visited)
      invariant forall x :: x in visited <==> x in m.Keys - rest
      invariant n == EntriesLength(file, f, m, visited)
      decreases |rest|
    {
      var k :| k in rest;
      EntryWithin(file, f, m, k);
      var e := SizeEntry(kk, vk, k, m[k]);
      n := n + ts + SizeVarint(e) + e;
      OneMoreKey(file, f, m, visited, k);
      visited := [k] + visited;
      rest := rest - {k};
    }
    SortedDistinct(m.Keys);
    EntriesPermuted(file, f, m, visited, SortedKeys(m.Keys));
    EntriesLengthOf(file, f, m, SortedKeys(m.Keys));
  }

  lemma NoKeys(file: File, f: Field, m: map<Scalar, Scalar>)
    ensures Distinct([]) && EntriesLength(file, f, m, []) == 0
  {
  }

  lemma OneMoreKey(file: File, f: Field, m: map<Scalar, Scalar>, keys: seq<Scalar>, k: Scalar)
    requires Distinct(keys) && k !in keys
    ensures Distinct([k] + keys)
    ensures EntriesLength(file, f, m, [k] + keys) == EntryLength(file, f, m, k) + EntriesLength(file, f, m, keys)
  {
    hide EntryLength;
    assert ([k] + keys)[1..] == keys;
  }

  lemma SortedDistinct(s: set<Scalar>)
    ensures Distinct(SortedKeys(s))
  {
    hide Less;
    SortedKeysSorted(s);
    forall i, j | 0 <= i < j < |SortedKeys(s)|
      ensures SortedKeys(s)[i] != SortedKeys(s)[j]
    {
      LessOrder(SortedKeys(s)[i], SortedKeys(s)[j], SortedKeys(s)[i]);
    }
  }

  /** One entry is no longer than all of them. */
  lemma {:induction false} EntryWithinKeys(file: File, f: Field, m: map<Scalar, Scalar>, keys: seq<Scalar>, k: Scalar)
    requires k in keys
    ensures EntryLength(file, f, m, k) <= EntriesLength(file, f, m, keys)
    decreases |keys|
  {
    hide EntryLength;
    if k != keys[0] {
      EntryWithinKeys(file, f, m, keys[1..], k);
    }
  }

  lemma EntryWithin(file: File, f: Field, m: map<Scalar, Scalar>, k: Scalar)
    requires f.shape.Map? && k in m && |FieldBytes(file, f, Entries(m, SortedKeys(m.Keys)))| < MAX_LEN
    ensures var e := EntryBytes(f.shape.key, f.shape.val, k, m[k]);
            && |e| < MAX_LEN
            && EntryLength(file, f, m, k) == |TagBytes(f.num, LEN_DELIMITED)| + |VarintBytes(|e|)| + |e|
  {
    hide EntryBytes, TagBytes, FieldBytes, Entries, EntriesLength;
    EntriesLengthOf(file, f, m, SortedKeys(m.Keys));
    EntryWithinKeys(file, f, m, SortedKeys(m.Keys), k);
  }

  // ---------------------------------------------------------------- any field that holds no message

  method SizeBody(file: File, f: Field, s: Stamp) returns (n: nat)
    requires 1 <= f.num < MAX_FIELD_NUM && (f.shape.Timestamp? || f.shape.Duration?)
    ensures n == |FieldBytes(file, f, [Body(s)])|
  {
    hide TagBytes, FieldBytes, StampBytes;
    BodyBytes(file, f, s);
    StampLength(s);
    var ts := TagSize(f.num);
    var l := SizeStamp(s);
    n := ts + SizeVarint(l) + l;
  }

  method SizeList(file: File, f: Field, k: Kind, es: seq<Scalar>) returns (n: nat)
    requires 1 <= f.num < MAX_FIELD_NUM && f.shape == Repeated(k) && forall e | e in es :: InKind(k, e)
    requires |FieldBytes(file, f, EmitField(file, f.shape, List(es)))| < MAX_LEN
    ensures n == |FieldBytes(file, f, EmitField(file, f.shape, List(es)))|
  {
    hide InKind, TagBytes, ElementsBytes, Singles, SingleRecords;
    NoSingles(file, f, []);
    if es == [] {
      n := 0;
    } else if Packable(k) {
      RunBytes(file, f, es);
      hide FieldBytes;
      var ts := TagSize(f.num);
      var l := SizeElements(k, es);
      n := ts + SizeVarint(l) + l;
    } else {
      AllSingleRecords(file, f, es);
      n := SizeSingles(f, k, es);
    }
  }

  lemma NoSingles(file: File, f: Field, es: seq<Scalar>)
    requires es == []
    ensures FieldBytes(file, f, Singles(es)) == [] && FieldBytes(file, f, []) == []
  {
  }

  method PutList(buf: array<byte>, at: nat, file: File, f: Field, k: Kind, es: seq<Scalar>) returns (n: nat)
    requires f.shape == Repeated(k) && forall e | e in es :: InKind(k, e)
    requires var w := FieldBytes(file, f, EmitField(file, f.shape, List(es))); |w| < MAX_LEN && at + |w| <= buf.Length
    modifies buf
    ensures n == |FieldBytes(file, f, EmitField(file, f.shape, List(es)))|
    ensures buf[..] == Splice(old(buf[..]), at, FieldBytes(file, f, EmitField(file, f.shape, List(es))))
  {
    hide InKind, TagBytes, ElementsBytes, Singles, SingleRecords, FieldBytes, Splice;
    NoSingles(file, f, []);
    if es == [] {
      SpliceNothing(buf[..], at);
      n := 0;
    } else if Packable(k) {
      n := PutRun(buf, at, file, f, k, es);
    } else {
      TextIsDelimited(k);
      AllSingleRecords(file, f, es);
      n := PutSingles(buf, at, f, k, es);
    }
  }

  method SizeLeaf(file: File, f: Field, v: Value, branch: bool) returns (n: nat)
    requires Leaf(f.shape) && Writable(file, f, v, branch)
    ensures n == |FieldBytes(file, f, Emitted(file, f.shape, v, branch))|
  {
    NoSingles(file, f, []);
    hide InKind, FieldBytes, Entries, SortedKeys;
    n := 0;
    match v {
      case Plain(s) =>
        if branch || s != Default(f.shape.k) {
          n := SizeOne(file, f, f.shape.k, s);
        }
      case Opt(o) =>
        if !branch && o.Some? {
          n := SizeOne(file, f, f.shape.k, o.value);
        }
      case List(es) =>
        if !branch {
          n := SizeList(file, f, f.shape.k, es);
        }
      case Table(m) =>
        if !branch {
          n := SizeTable(file, f, f.shape.key, f.shape.val, m);
        }
      case Time(t) =>
        if branch || t != ZERO_TIME {
          n := SizeBody(file, f, TimestampStamp(t));
        }
      case Span(d) =>
        if branch || d != 0 {
          n := SizeBody(file, f, DurationStamp(d));
        }
    }
  }

  method PutLeaf(buf: array<byte>, at: nat, file: File, f: Field, v: Value, branch: bool) returns (n: nat)
    requires Leaf(f.shape) && Writable(file, f, v, branch)
    requires at + |FieldBytes(file, f, Emitted(file, f.shape, v, branch))| <= buf.Length
    modifies buf
    ensures n == |FieldBytes(file, f, Emitted(file, f.shape, v, branch))|
    ensures buf[..] == Splice(old(buf[..]), at, FieldBytes(file, f, Emitted(file, f.shape, v, branch)))
  {
    NoSingles(file, f, []);
    hide InKind, FieldBytes, Entries, SortedKeys, Splice;
    SpliceNothing(buf[..], at);
    n := 0;
    match v {
      case Plain(s) =>
        if branch || s != Default(f.shape.k) {
          n := PutOne(buf, at, file, f, f.shape.k, s);
        }
      case Opt(o) =>
        if !branch && o.Some? {
          n := PutOne(buf, at, file, f, f.shape.k, o.value);
        }
      case List(es) =>
        if !branch {
          n := PutList(buf, at, file, f, f.shape.k, es);
        }
      case Table(m) =>
        if !branch {
          n := PutTable(buf, at, file, f, f.shape.key, f.shape.val, m);
        }
      case Time(t) =>
        if branch || t != ZERO_TIME {
          n := PutBody(buf, at, file, f, TimestampStamp(t));
        }
      case Span(d) =>
        if branch || d != 0 {
          n := PutBody(buf, at, file, f, DurationStamp(d));
        }
    }
  }

  // ---------------------------------------------------------------- nested messages

  lemma {:induction false} FieldBytesConcat(file: File, f: Field, a: seq<Delta>, b: seq<Delta>)
    ensures FieldBytes(file, f, a + b) == FieldBytes(file, f, a) + FieldBytes(file, f, b)
    decreases |a|
  {
    hide DeltaBytes, TagBytes, WireOfShape;
    if a == [] {
      assert a + b == b;
    } else {
      assert (a + b)[1..] == a[1..] + b;
      FieldBytesConcat(file, f, a[1..], b);
    }
  }

  /** A nested message as a record: its tag, its size and itself. */
  ghost function SubRecord(file: File, f: Field, r: nat, m: Msg): bytes {
    var p := Marshal(file, r, m);
    TagBytes(f.num, LEN_DELIMITED) + VarintBytes(|p|) + p
  }

  lemma SubBytes(file: File, f: Field, m: Msg)
    requires f.shape.Nested? || f.shape.NestedList?
    ensures FieldBytes(file, f, [Tree(Emit(file, f.shape.ref, m))]) == SubRecord(file, f, f.shape.ref, m)
  {
    hide TagBytes, Emit, MessageBytes;
    FieldBytesOne(file, f, Tree(Emit(file, f.shape.ref, m)));
  }

  /** A singular message takes part when its size is not 0. */
  lemma PointerBytes(file: File, f: Field, p: Option<Msg>)
    requires ValidFile(file) && f.shape.Nested? && TypedPointer(file, f.shape.ref, f.shape.pointer, p)
    ensures FieldBytes(file, f, EmitPointer(file, f.shape.ref, p)) ==
            if p.Some? && |Marshal(file, f.shape.ref, p.value)| > 0 then SubRecord(file, f, f.shape.ref, p.value) else []
  {
    hide TagBytes, Emit, FieldBytes, ValidFile, SubRecord, Typed;
    NoSingles(file, f, []);
    if p.Some? {
      SubBytes(file, f, p.value);
      EmitFits(file, f.shape.ref, p.value);
      EmptyIff(file, f.shape.ref, Emit(file, f.shape.ref, p.value));
    }
  }

  /** The elements of a slice from the index `idx` on; null elements have no
      record. */
  ghost function SubRecords(file: File, f: Field, r: nat, ms: seq<Option<Msg>>, idx: nat): bytes
    decreases |ms| - idx
  {
    if idx >= |ms| then [] else SubElement(file, f, r, ms[idx]) + SubRecords(file, f, r, ms, idx + 1)
  }

  ghost function SubElement(file: File, f: Field, r: nat, p: Option<Msg>): bytes {
    if p.None? then [] else SubRecord(file, f, r, p.value)
  }

  lemma SubElementLength(file: File, f: Field, r: nat, p: Option<Msg>)
    ensures |SubElement(file, f, r, p)| ==
            if p.None? then 0
            else |TagBytes(f.num, LEN_DELIMITED)| + |VarintBytes(|Marshal(file, r, p.value)|)| + |Marshal(file, r, p.value)|
  {
    hide TagBytes, VarintBytes, Marshal;
  }

  lemma ElementBytes(file: File, f: Field, p: Option<Msg>)
    requires f.shape.Nested? || f.shape.NestedList?
    ensures FieldBytes(file, f, EmitElement(file, f.shape.ref, p)) == SubElement(file, f, f.shape.ref, p)
  {
    hide TagBytes, Emit, FieldBytes, SubRecord;
    NoSingles(file, f, []);
    if p.Some? {
      SubBytes(file, f, p.value);
    }
  }

  lemma {:induction false} SubRecordsOf(file: File, f: Field, ms: seq<Option<Msg>>, idx: nat)
    requires f.shape.NestedList? && idx <= |ms|
    ensures FieldBytes(file, f, EmitList(file, f.shape.ref, ms[idx..])) == SubRecords(file, f, f.shape.ref, ms, idx)
    decreases |ms| - idx
  {
    hide FieldBytes, EmitElement, SubElement;
    if idx == |ms| {
      NoSingles(file, f, []);
    } else {
      ElementBytes(file, f, ms[idx]);
      SubRecordsOf(file, f, ms, idx + 1);
      assert ms[idx..][1..] == ms[idx + 1..];
      FieldBytesConcat(file, f, EmitElement(file, f.shape.ref, ms[idx]), EmitList(file, f.shape.ref, ms[idx + 1..]));
    }
  }

  lemma AllSubRecords(file: File, f: Field, ms: seq<Option<Msg>>)
    requires f.shape.NestedList?
    ensures FieldBytes(file, f, EmitList(file, f.shape.ref, ms)) == SubRecords(file, f, f.shape.ref, ms, 0)
  {
    SubRecordsOf(file, f, ms, 0);
    assert ms[0..] == ms;
  }

  // ---------------------------------------------------------------- the whole message

  /** What is still to be written from field `i` on, the oneofs included. */
  ghost function FieldsFrom(file: File, ref: nat, m: Msg, i: nat): bytes
    decreases |m.vals| - i
  {
    if i >= |m.vals| then OneofsFrom(file, ref, m, 0)
    else FieldAlone(file, ref, m, i) + FieldsFrom(file, ref, m, i + 1)
  }

  ghost function FieldAlone(file: File, ref: nat, m: Msg, i: nat): bytes {
    if i >= |m.vals| || i >= |Fields(file, ref)| || InOneof(file, ref, i) then []
    else FieldBytes(file, Fields(file, ref)[i], Emitted(file, ShapeAt(file, ref, i), m.vals[i], false))
  }

  ghost function OneofsFrom(file: File, ref: nat, m: Msg, j: nat): bytes
    decreases |m.discs| - j
  {
    if j >= |m.discs| then [] else OneofAlone(file, ref, m, j) + OneofsFrom(file, ref, m, j + 1)
  }

  ghost function OneofAlone(file: File, ref: nat, m: Msg, j: nat): bytes {
    match Active(file, ref, m.discs, j)
    case None => []
    case Some(i) =>
      if i >= |m.vals| then []
      else FieldBytes(file, Fields(file, ref)[i], Emitted(file, ShapeAt(file, ref, i), m.vals[i], true))
  }

  lemma {:induction false} OneofsFromOf(file: File, ref: nat, m: Msg, j: nat)
    ensures MessageBytes(file, ref, EmitOneofs(file, ref, m.vals, m.discs, j)) == OneofsFrom(file, ref, m, j)
    decreases |m.discs| - j
  {
    hide MessageBytes, FieldBytes, EmitBranch, Of, Active;
    NoRecords(file, ref);
    if j < |m.discs| {
      match Active(file, ref, m.discs, j) {
        case None =>
        case Some(i) =>
          if i < |m.vals| {
            FieldBytesOf(file, ref, i, EmitBranch(file, ShapeAt(file, ref, i), m.vals[i]));
          }
      }
      OneofsFromOf(file, ref, m, j + 1);
      MessageBytesConcat(file, ref, EmitOneof(file, ref, m.vals, m.discs, j), EmitOneofs(file, ref, m.vals, m.discs, j + 1));
    }
  }

  lemma NoRecords(file: File, ref: nat)
    ensures MessageBytes(file, ref, []) == []
  {
  }

  lemma {:induction false} FieldsFromOf(file: File, ref: nat, m: Msg, i: nat)
    requires |m.vals| == |Fields(file, ref)|
    ensures MessageBytes(file, ref, EmitFields(file, ref, m.vals, i)) + OneofsFrom(file, ref, m, 0) == FieldsFrom(file, ref, m, i)
    decreases |m.vals| - i
  {
    hide MessageBytes, FieldBytes, EmitField, Of, OneofsFrom;
    NoRecords(file, ref);
    if i < |m.vals| {
      FieldBytesOf(file, ref, i, EmitField(file, ShapeAt(file, ref, i), m.vals[i]));
      FieldsFromOf(file, ref, m, i + 1);
      MessageBytesConcat(file, ref, EmitAt(file, ref, m.vals, i), EmitFields(file, ref, m.vals, i + 1));
    }
  }

  lemma MarshalOf(file: File, ref: nat, m: Msg)
    requires |m.vals| == |Fields(file, ref)|
    ensures Marshal(file, ref, m) == FieldsFrom(file, ref, m, 0)
  {
    hide MessageBytes, FieldsFrom, OneofsFrom, EmitFields, EmitOneofs;
    FieldsFromOf(file, ref, m, 0);
    OneofsFromOf(file, ref, m, 0);
    MessageBytesConcat(file, ref, EmitFields(file, ref, m.vals, 0), EmitOneofs(file, ref, m.vals, m.discs, 0));
  }
}
