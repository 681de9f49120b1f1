// What the emitted UnmarshalCodecInternal (gen_unmarshal.go) makes of a
// receiver: reset at the top, one assignment per record, nil-out at the end.

module Decoder {
  import opened Base
  import opened Wkt
  import opened Schema
  import opened Records
  import opened Values

  /** isPoolableOptional: the fields whose pointer survives into the decode. */
  predicate Poolable(shape: Shape) {
    match shape
    case Optional(_) => true
    case Nested(_, pointer) => pointer
    case _ => false
  }

  /** A message pools its pointers when every poolable number fits the bitmap. */
  predicate Pooling(fields: seq<Field>) {
    forall i | 0 <= i < |fields| :: Poolable(fields[i].shape) ==> fields[i].num <= 63
  }

  predicate Pooled(file: File, ref: nat, i: nat) {
    Pooling(Fields(file, ref)) && Poolable(ShapeAt(file, ref, i))
  }

  /** The receiver when the loop starts: pooled pointers are kept, the rest is
      reset, and discriminators are left as they were. */
  function Start(file: File, ref: nat, recv: Msg): Msg {
    Msg(seq(|recv.vals|, i requires 0 <= i < |recv.vals| =>
          if Pooled(file, ref, i) then recv.vals[i] else ResetValue(file, ShapeAt(file, ref, i), recv.vals[i])),
        recv.discs)
  }

  /** What the records say about the field at index `i`, in order. */
  function Deltas(recs: seq<Rec>, i: nat): seq<Delta> {
    if recs == [] then []
    else (if recs[0].Known? && recs[0].idx == i then [recs[0].d] else []) + Deltas(recs[1..], i)
  }

  /** The nil pointer of a poolable field. */
  function Nil(shape: Shape): Value {
    if shape.Optional? then Opt(None) else Sub(None)
  }

  /** The nil-out pass: a pooled field no record mentioned becomes nil. */
  function Finish(file: File, ref: nat, st: Msg, recs: seq<Rec>): Msg {
    Msg(seq(|st.vals|, i requires 0 <= i < |st.vals| =>
          if Pooled(file, ref, i) && Deltas(recs, i) == [] then Nil(ShapeAt(file, ref, i)) else st.vals[i]),
        st.discs)
  }

  /** The message a nested record is decoded into: the one already there, or a
      new one. */
  function Held(file: File, ref: nat, v: Value): Msg {
    if v.Sub? && v.p.Some? then v.p.value else Fresh(file, ref)
  }

  /** The message the next element of a slice is decoded into: what stands in its
      place, or a new one. */
  function Next(file: File, ref: nat, v: Value): Msg {
    if v.Subs? && |v.ms| in v.spare then v.spare[|v.ms|] else Fresh(file, ref)
  }

  /** The assignment one record of a field makes. */
  function Update(file: File, shape: Shape, v: Value, d: Delta): Value
    decreases d, 0
  {
    match d
    case One(s) => if shape.Optional? then Opt(Some(s)) else Plain(s)
    case Run(es) => List((if v.List? then v.es else []) + es)
    case Entry(key, val) => Table((if v.Table? then v.m else map[])[key := val])
    case Body(s) => if shape.Timestamp? then Time(StampToTimestamp(s)) else Span(StampToDuration(s))
    case Tree(recs) =>
      match shape
      case Nested(ref, _) => Sub(Some(Decode(file, ref, Held(file, ref, v), recs)))
      case NestedList(ref, _) =>
        var x := Some(Decode(file, ref, Next(file, ref, v), recs));
        if v.Subs? then Subs(v.ms + [x], v.spare - {|v.ms|}) else Subs([x], map[])
      case _ => v
  }

  /** A branch record also writes the discriminator. */
  function Mark(f: Field, discs: seq<nat>): (r: seq<nat>)
    ensures |r| == |discs|
  {
    match f.oneof
    case None => discs
    case Some(j) => if j < |discs| then discs[j := f.num] else discs
  }

  function Apply(file: File, ref: nat, st: Msg, r: Rec): Msg
    decreases r, 1
  {
    match r
    case Unknown => st
    case Known(i, d) =>
      if i < |Fields(file, ref)| && i < |st.vals| then
        var f := Fields(file, ref)[i];
        Msg(st.vals[i := Update(file, f.shape, st.vals[i], d)], Mark(f, st.discs))
      else st
  }

  function ApplyAll(file: File, ref: nat, st: Msg, recs: seq<Rec>): Msg
    decreases recs, 2
  {
    if recs == [] then st else ApplyAll(file, ref, Apply(file, ref, st, recs[0]), recs[1..])
  }

  /** Decoding the records of a message into a receiver. */
  function Decode(file: File, ref: nat, recv: Msg, recs: seq<Rec>): Msg
    decreases recs, 3
  {
    Finish(file, ref, ApplyAll(file, ref, Start(file, ref, recv), recs), recs)
  }

  /** UnmarshalCodec. */
  function Unmarshal(file: File, ref: nat, recv: Msg, data: bytes): Result<Msg> {
    var recs :- ReadMessage(file, ref, data);
    Ok(Decode(file, ref, recv, recs))
  }

  /** What a caller sees of a decode. */
  function Shown(r: Result<Msg>): Result<Msg> {
    if r.Ok? then Ok(Visible(r.value)) else r
  }

  // ---------------------------------------------------------------- records one after another

  lemma {:induction false} ApplyConcat(file: File, ref: nat, st: Msg, a: seq<Rec>, b: seq<Rec>)
    ensures ApplyAll(file, ref, st, a + b) == ApplyAll(file, ref, ApplyAll(file, ref, st, a), b)
    decreases a
  {
    hide Apply;
    if a == [] {
      assert a + b == b;
    } else {
      assert (a + b)[1..] == a[1..] + b;
      ApplyConcat(file, ref, Apply(file, ref, st, a[0]), a[1..], b);
    }
  }

  lemma {:induction false} DeltasConcat(a: seq<Rec>, b: seq<Rec>, i: nat)
    ensures Deltas(a + b, i) == Deltas(a, i) + Deltas(b, i)
  {
    if a == [] {
      assert a + b == b;
    } else {
      assert (a + b)[1..] == a[1..] + b;
      DeltasConcat(a[1..], b, i);
    }
  }

  lemma {:induction false} ApplyShape(file: File, ref: nat, st: Msg, recs: seq<Rec>)
    ensures |ApplyAll(file, ref, st, recs).vals| == |st.vals|
    ensures |ApplyAll(file, ref, st, recs).discs| == |st.discs|
    decreases recs
  {
    hide Update, Mark;
    if recs != [] {
      ApplyShape(file, ref, Apply(file, ref, st, recs[0]), recs[1..]);
    }
  }

  // ---------------------------------------------------------------- field by field

  /** A field under its own records alone. */
  function Fold(file: File, shape: Shape, v: Value, ds: seq<Delta>): Value
    decreases |ds|
  {
    if ds == [] then v else Fold(file, shape, Update(file, shape, v, ds[0]), ds[1..])
  }

  lemma {:induction false} FoldConcat(file: File, shape: Shape, v: Value, a: seq<Delta>, b: seq<Delta>)
    ensures Fold(file, shape, v, a + b) == Fold(file, shape, Fold(file, shape, v, a), b)
    decreases a
  {
    hide Update;
    if a == [] {
      assert a + b == b;
    } else {
      assert (a + b)[1..] == a[1..] + b;
      FoldConcat(file, shape, Update(file, shape, v, a[0]), a[1..], b);
    }
  }

  /** Fields do not interfere: each depends on its own records only, whatever
      records of other fields stand between them. */
  lemma {:induction false} ApplyFieldwise(file: File, ref: nat, st: Msg, recs: seq<Rec>, i: nat)
    requires i < |st.vals| && i < |Fields(file, ref)|
    ensures i < |ApplyAll(file, ref, st, recs).vals|
    ensures ApplyAll(file, ref, st, recs).vals[i] == Fold(file, ShapeAt(file, ref, i), st.vals[i], Deltas(recs, i))
    decreases recs
  {
    hide Update, Mark;
    if recs != [] {
      var next := Apply(file, ref, st, recs[0]);
      ApplyFieldwise(file, ref, next, recs[1..], i);
      if recs[0].Known? && recs[0].idx == i {
        FoldConcat(file, ShapeAt(file, ref, i), st.vals[i], [recs[0].d], Deltas(recs[1..], i));
        assert [recs[0].d][1..] == [];
      } else {
        assert [] + Deltas(recs[1..], i) == Deltas(recs[1..], i);
      }
    }
  }

  /** The discriminator of oneof `j`: the number of the last branch received,
      or `d` when there was none. */
  function LastBranch(file: File, ref: nat, recs: seq<Rec>, j: nat, d: nat): nat {
    if recs == [] then d
    else
      var here := recs[0].Known? && recs[0].idx < |Fields(file, ref)| && Fields(file, ref)[recs[0].idx].oneof == Some(j);
      LastBranch(file, ref, recs[1..], j, if here then Fields(file, ref)[recs[0].idx].num else d)
  }

  lemma {:induction false} LastBranchConcat(file: File, ref: nat, a: seq<Rec>, b: seq<Rec>, j: nat, d: nat)
    ensures LastBranch(file, ref, a + b, j, d) == LastBranch(file, ref, b, j, LastBranch(file, ref, a, j, d))
    decreases a
  {
    if a == [] {
      assert a + b == b;
    } else {
      assert (a + b)[1..] == a[1..] + b;
      var here := a[0].Known? && a[0].idx < |Fields(file, ref)| && Fields(file, ref)[a[0].idx].oneof == Some(j);
      LastBranchConcat(file, ref, a[1..], b, j, if here then Fields(file, ref)[a[0].idx].num else d);
    }
  }

  lemma {:induction false} ApplyDiscs(file: File, ref: nat, st: Msg, recs: seq<Rec>, j: nat)
    requires j < |st.discs| && |st.vals| == |Fields(file, ref)|
    ensures j < |ApplyAll(file, ref, st, recs).discs|
    ensures ApplyAll(file, ref, st, recs).discs[j] == LastBranch(file, ref, recs, j, st.discs[j])
    decreases recs
  {
    hide Update;
    if recs != [] {
      ApplyDiscs(file, ref, Apply(file, ref, st, recs[0]), recs[1..], j);
    }
  }

  /** What a decode leaves in field `i`. */
  lemma DecodedField(file: File, ref: nat, recv: Msg, recs: seq<Rec>, i: nat)
    requires i < |recv.vals| && i < |Fields(file, ref)|
    ensures i < |Decode(file, ref, recv, recs).vals|
    ensures Decode(file, ref, recv, recs).vals[i] ==
            if Pooled(file, ref, i) && Deltas(recs, i) == [] then Nil(ShapeAt(file, ref, i))
            else Fold(file, ShapeAt(file, ref, i), Start(file, ref, recv).vals[i], Deltas(recs, i))
  {
    hide Pooled, ResetValue, Fold;
    ApplyFieldwise(file, ref, Start(file, ref, recv), recs, i);
  }

  /** And in discriminator `j`. */
  lemma DecodedDisc(file: File, ref: nat, recv: Msg, recs: seq<Rec>, j: nat)
    requires j < |recv.discs| && |recv.vals| == |Fields(file, ref)|
    ensures j < |Decode(file, ref, recv, recs).discs|
    ensures Decode(file, ref, recv, recs).discs[j] == LastBranch(file, ref, recs, j, recv.discs[j])
  {
    hide Pooled, ResetValue, LastBranch;
    ApplyDiscs(file, ref, Start(file, ref, recv), recs, j);
  }

  lemma DecodedShape(file: File, ref: nat, recv: Msg, recs: seq<Rec>)
    ensures |Decode(file, ref, recv, recs).vals| == |recv.vals|
    ensures |Decode(file, ref, recv, recs).discs| == |recv.discs|
  {
    hide Pooled, ResetValue;
    ApplyShape(file, ref, Start(file, ref, recv), recs);
  }
}
