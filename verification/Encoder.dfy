// What the emitted encoders put on the wire (gen_marshal.go, gen_oneof.go,
// gen_map.go): which records, in which order.

module Encoder {
  import opened Base
  import opened Wkt
  import opened Schema
  import opened Records
  import opened Values

  // ---------------------------------------------------------------- map keys in sorted order

  /** Byte-wise order of Go strings. */
  predicate TextLess(a: bytes, b: bytes) {
    b != [] && (a == [] || a[0] < b[0] || (a[0] == b[0] && TextLess(a[1..], b[1..])))
  }

  /** The order of slices.Sort; false before true for bool keys. */
  predicate Less(a: Scalar, b: Scalar) {
    match (a, b)
    case (Num(x), Num(y)) => x < y
    case (Text(s), Text(t)) => TextLess(s, t)
    case (Num(_), Text(_)) => true
    case (Text(_), Num(_)) => false
  }

  lemma {:induction false} TextLessOrder(a: bytes, b: bytes, c: bytes)
    ensures !TextLess(a, a)
    ensures a == b || TextLess(a, b) || TextLess(b, a)
    ensures TextLess(a, b) && TextLess(b, c) ==> TextLess(a, c)
    decreases |a|
  {
    if a != [] && b != [] {
      TextLessOrder(a[1..], b[1..], if c == [] then [] else c[1..]);
      assert a[0] == b[0] && a[1..] == b[1..] ==> a == b by {
        assert a == [a[0]] + a[1..] && b == [b[0]] + b[1..];
      }
    } else if a != [] {
      TextLessOrder(a[1..], a[1..], a[1..]);
    }
  }

  /** The first byte that differs decides; else the shorter string is less. */
  lemma {:induction false} TextLessIff(a: bytes, b: bytes)
    ensures TextLess(a, b) <==>
            exists k :: 0 <= k <= |a| && k < |b| && a[..k] == b[..k] && (k == |a| || a[k] < b[k])
    decreases |a|
  {
    if a != [] && b != [] && a[0] == b[0] {
      TextLessIff(a[1..], b[1..]);
      if TextLess(a, b) {
        var k :| 0 <= k <= |a| - 1 && k < |b| - 1 && a[1..][..k] == b[1..][..k] && (k == |a| - 1 || a[1..][k] < b[1..][k]);
        assert a[..k + 1] == [a[0]] + a[1..][..k] && b[..k + 1] == [b[0]] + b[1..][..k];
      }
      if k :| 0 <= k <= |a| && k < |b| && a[..k] == b[..k] && (k == |a| || a[k] < b[k]) {
        assert k > 0;
        assert a[1..][..k - 1] == a[..k][1..] && b[1..][..k - 1] == b[..k][1..];
      }
    } else if b != [] && (a == [] || a[0] < b[0]) {
      assert a[..0] == b[..0];
    } else if k :| 0 <= k <= |a| && k < |b| && a[..k] == b[..k] && (k == |a| || a[k] < b[k]) {
      SamePrefix(a, b, k);
    }
  }

  lemma SamePrefix(a: bytes, b: bytes, k: nat)
    requires k <= |a| && k <= |b| && a[..k] == b[..k]
    ensures forall j | 0 <= j < k :: a[j] == b[j]
  {
    assert forall j | 0 <= j < k :: a[j] == a[..k][j] && b[j] == b[..k][j];
  }

  lemma LessOrder(a: Scalar, b: Scalar, c: Scalar)
    ensures !Less(a, a)
    ensures a == b || Less(a, b) || Less(b, a)
    ensures Less(a, b) && Less(b, c) ==> Less(a, c)
  {
    hide TextLess;
    var s, t, u := if a.Text? then a.s else [], if b.Text? then b.s else [], if c.Text? then c.s else [];
    TextLessOrder(s, t, u);
  }

  /** Strictly ascending. */
  predicate Sorted(keys: seq<Scalar>) {
    forall i, j | 0 <= i < j < |keys| :: Less(keys[i], keys[j])
  }

  ghost predicate Least(s: set<Scalar>, x: Scalar) {
    x in s && forall y | y in s :: x == y || Less(x, y)
  }

  lemma {:induction false} LeastExists(s: set<Scalar>) returns (x: Scalar)
    requires s != {}
    ensures Least(s, x)
    decreases |s|
  {
    hide Less;
    var y :| y in s;
    if s == {y} {
      x := y;
    } else {
      var z := LeastExists(s - {y});
      LessOrder(y, z, z);
      x := if Less(y, z) then y else z;
      forall w | w in s
        ensures x == w || Less(x, w)
      {
        assert w == y || w in s - {y};
        LessOrder(y, z, w);
      }
    }
  }

  /** The keys of a map in the order they are written. */
  ghost function SortedKeys(s: set<Scalar>): (keys: seq<Scalar>)
    ensures forall x :: x in keys <==> x in s
    decreases |s|
  {
    if s == {} then []
    else
      assert exists x :: Least(s, x) by { var x := LeastExists(s); }
      var x :| Least(s, x);
      [x] + SortedKeys(s - {x})
  }

  lemma {:induction false} SortedKeysSorted(s: set<Scalar>)
    ensures Sorted(SortedKeys(s))
    ensures |SortedKeys(s)| == |s|
    decreases |s|
  {
    hide Less;
    if s != {} {
      var x := SortedKeys(s)[0];
      SortedKeysSorted(s - {x});
      FirstIsLeast(x, s, SortedKeys(s - {x}));
      assert SortedKeys(s) == [x] + SortedKeys(s - {x});
    }
  }

  lemma FirstIsLeast(x: Scalar, s: set<Scalar>, rest: seq<Scalar>)
    requires Least(s, x) && Sorted(rest) && forall y :: y in rest <==> y in s - {x}
    ensures Sorted([x] + rest)
  {
    hide Less;
    forall j | 0 <= j < |rest|
      ensures Less(x, rest[j])
    {
      assert rest[j] in rest;
    }
  }

  /** Numeric keys are written in ascending order. */
  lemma NumbersAscending(s: set<Scalar>, i: nat, j: nat)
    requires (forall x | x in s :: x.Num?) && i < j < |SortedKeys(s)|
    ensures SortedKeys(s)[i].Num? && SortedKeys(s)[j].Num? && SortedKeys(s)[i].n < SortedKeys(s)[j].n
  {
    SortedKeysSorted(s);
    assert SortedKeys(s)[i] in s && SortedKeys(s)[j] in s;
  }

  /** Whatever order a map is visited in, sorting gives this one sequence. */
  lemma {:induction false} SortedKeysUnique(s: set<Scalar>, keys: seq<Scalar>)
    requires Sorted(keys) && forall x :: x in keys <==> x in s
    ensures keys == SortedKeys(s)
    decreases |s|
  {
    hide Less;
    if keys == [] {
      assert s == {};
    } else {
      assert keys[0] in s;
      var x := SortedKeys(s)[0];
      assert x in keys;
      assert keys[0] in keys;
      assert x == keys[0] by {
        var j :| 0 <= j < |keys| && keys[j] == x;
        LessOrder(x, keys[0], x);
      }
      forall y
        ensures y in keys[1..] <==> y in s - {x}
      {
        if y in keys[1..] {
          var j :| 1 <= j < |keys| && keys[j] == y;
          LessOrder(x, x, x);
        }
        if y in s - {x} {
          assert y in keys;
        }
      }
      SortedKeysUnique(s - {x}, keys[1..]);
      assert keys == [x] + keys[1..];
    }
  }

  // ---------------------------------------------------------------- records of a value

  function Entries(m: map<Scalar, Scalar>, keys: seq<Scalar>): seq<Delta>
    requires forall key | key in keys :: key in m
  {
    if keys == [] then [] else [Entry(keys[0], m[keys[0]])] + Entries(m, keys[1..])
  }

  function Singles(es: seq<Scalar>): seq<Delta> {
    if es == [] then [] else [Run([es[0]])] + Singles(es[1..])
  }

  /** A field outside any oneof: written when its presence rule says so. */
  ghost function EmitField(file: File, shape: Shape, v: Value): seq<Delta>
    decreases v, 0
  {
    match v
    case Plain(s) => if shape.Singular? && s == Default(shape.k) then [] else [One(s)]
    case Opt(o) => (match o case None => [] case Some(s) => [One(s)])
    case List(es) =>
      if !shape.Repeated? || es == [] then []
      else if Packable(shape.k) then [Run(es)]
      else Singles(es)
    case Table(m) => Entries(m, SortedKeys(m.Keys))
    case Time(t) => if t == ZERO_TIME then [] else [Body(TimestampStamp(t))]
    case Span(d) => if d == 0 then [] else [Body(DurationStamp(d))]
    case Sub(p) => if shape.Nested? then EmitPointer(file, shape.ref, p) else []
    case Subs(ms, _) => if shape.NestedList? then EmitList(file, shape.ref, ms) else []
  }

  /** A singular message is absent when nil or of size 0. */
  ghost function EmitPointer(file: File, ref: nat, p: Option<Msg>): seq<Delta>
    decreases p, 0
  {
    match p
    case None => []
    case Some(m) => var recs := Emit(file, ref, m); if recs == [] then [] else [Tree(recs)]
  }

  /** Every element that is not nil has a record, empty or not. */
  ghost function EmitList(file: File, ref: nat, ms: seq<Option<Msg>>): seq<Delta>
    decreases ms, 1
  {
    if ms == [] then [] else EmitElement(file, ref, ms[0]) + EmitList(file, ref, ms[1..])
  }

  ghost function EmitElement(file: File, ref: nat, p: Option<Msg>): seq<Delta>
    decreases p, 0
  {
    match p
    case None => []
    case Some(m) => [Tree(Emit(file, ref, m))]
  }

  /** The active branch of a oneof is written even when it holds its zero value. */
  ghost function EmitBranch(file: File, shape: Shape, v: Value): seq<Delta>
    decreases v, 0
  {
    match v
    case Plain(s) => [One(s)]
    case Time(t) => [Body(TimestampStamp(t))]
    case Span(d) => [Body(DurationStamp(d))]
    case Sub(p) => if shape.Nested? then EmitElement(file, shape.ref, p) else []
    case _ => []
  }

  /** The branch the discriminator of oneof `j` selects: the switch has a case
      for each listed number that is a field. */
  function Active(file: File, ref: nat, discs: seq<nat>, j: nat): (r: Option<nat>)
    ensures r.Some? ==> r.value < |Fields(file, ref)|
  {
    if j < |discs| && j < |Oneofs(file, ref)| && discs[j] in Oneofs(file, ref)[j]
    then FindField(Fields(file, ref), discs[j])
    else None
  }

  /** The records of the field at index `i`. */
  function Of(i: nat, ds: seq<Delta>): seq<Rec> {
    if ds == [] then [] else [Known(i, ds[0])] + Of(i, ds[1..])
  }

  predicate InOneof(file: File, ref: nat, i: nat) {
    i < |Fields(file, ref)| && Fields(file, ref)[i].oneof.Some?
  }

  ghost function EmitAt(file: File, ref: nat, vals: seq<Value>, i: nat): seq<Rec>
    requires i < |vals|
    decreases vals, 1
  {
    if InOneof(file, ref, i) then [] else Of(i, EmitField(file, ShapeAt(file, ref, i), vals[i]))
  }

  ghost function EmitFields(file: File, ref: nat, vals: seq<Value>, i: nat): seq<Rec>
    decreases vals, 2, |vals| - i
  {
    if i >= |vals| then [] else EmitAt(file, ref, vals, i) + EmitFields(file, ref, vals, i + 1)
  }

  /** The switch on the discriminator of oneof `j`. */
  ghost function EmitOneof(file: File, ref: nat, vals: seq<Value>, discs: seq<nat>, j: nat): seq<Rec>
    decreases vals, 1
  {
    match Active(file, ref, discs, j)
    case None => []
    case Some(i) => if i < |vals| then Of(i, EmitBranch(file, ShapeAt(file, ref, i), vals[i])) else []
  }

  ghost function EmitOneofs(file: File, ref: nat, vals: seq<Value>, discs: seq<nat>, j: nat): seq<Rec>
    decreases vals, 2, |discs| - j
  {
    if j >= |discs| then [] else EmitOneof(file, ref, vals, discs, j) + EmitOneofs(file, ref, vals, discs, j + 1)
  }

  /** MarshalCodecInternal: fields in declaration order, then the oneofs. */
  ghost function Emit(file: File, ref: nat, m: Msg): seq<Rec>
    decreases m, 3
  {
    EmitFields(file, ref, m.vals, 0) + EmitOneofs(file, ref, m.vals, m.discs, 0)
  }

  /** MarshalCodec, and what SizeCodec measures. */
  ghost function Marshal(file: File, ref: nat, m: Msg): bytes {
    MessageBytes(file, ref, Emit(file, ref, m))
  }
}
