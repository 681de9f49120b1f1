// The records an encoder writes fit their fields, the records a decoder reads
// fit theirs, and decoding keeps a receiver well-typed.

module Typing {
  import opened Base
  import opened Wire
  import opened Schema
  import opened Records
  import opened Values
  import opened Encoder
  import opened Decoder

  predicate DeltasFit(file: File, shape: Shape, ds: seq<Delta>) {
    forall k | 0 <= k < |ds| :: DeltaFits(file, shape, ds[k], false)
  }

  lemma {:induction false} RecsFitConcat(file: File, ref: nat, a: seq<Rec>, b: seq<Rec>, skips: bool)
    requires RecsFit(file, ref, a, skips) && RecsFit(file, ref, b, skips)
    ensures RecsFit(file, ref, a + b, skips)
  {
    hide RecFits;
    if a == [] {
      assert a + b == b;
    } else {
      assert (a + b)[1..] == a[1..] + b;
      RecsFitConcat(file, ref, a[1..], b, skips);
    }
  }

  lemma {:induction false} OfFits(file: File, ref: nat, i: nat, ds: seq<Delta>)
    requires i < |Fields(file, ref)| && DeltasFit(file, ShapeAt(file, ref, i), ds)
    ensures RecsFit(file, ref, Of(i, ds), false)
    decreases |ds|
  {
    hide DeltaFits;
    if ds != [] {
      OfFits(file, ref, i, ds[1..]);
      assert Of(i, ds)[1..] == Of(i, ds[1..]);
    }
  }

  // ---------------------------------------------------------------- what is written

  lemma {:induction false} SinglesFit(file: File, k: Kind, es: seq<Scalar>)
    requires !Packable(k) && forall e | e in es :: InKind(k, e)
    ensures DeltasFit(file, Repeated(k), Singles(es))
  {
    hide InKind;
    if es != [] {
      SinglesFit(file, k, es[1..]);
    }
  }

  lemma {:induction false} EntriesFit(file: File, shape: Shape, m: map<Scalar, Scalar>, keys: seq<Scalar>)
    requires shape.Map? && (forall key | key in keys :: key in m) && TypedValue(file, shape, Table(m))
    ensures DeltasFit(file, shape, Entries(m, keys))
    decreases |keys|
  {
    hide InKind;
    if keys != [] {
      assert keys[0] in m;
      EntriesFit(file, shape, m, keys[1..]);
    }
  }

  lemma FieldFits(file: File, shape: Shape, v: Value)
    requires ValidFile(file) && TypedValue(file, shape, v)
    ensures DeltasFit(file, shape, EmitField(file, shape, v))
    decreases v, 1
  {
    hide ValidFile, InKind, SortedKeys, Emit, Typed;
    match shape
    case Repeated(k) => if !Packable(k) { SinglesFit(file, k, v.es); }
    case Map(_, _) => EntriesFit(file, shape, v.m, SortedKeys(v.m.Keys));
    case Nested(ref, pointer) => PointerFits(file, shape, v.p);
    case NestedList(ref, pointer) => ElementsFit(file, shape, v.ms);
    case _ =>
  }

  lemma PointerFits(file: File, shape: Shape, p: Option<Msg>)
    requires ValidFile(file) && (shape.Nested? || shape.NestedList?) && TypedPointer(file, shape.ref, shape.pointer, p)
    ensures DeltasFit(file, shape, EmitPointer(file, shape.ref, p))
    ensures DeltasFit(file, shape, EmitElement(file, shape.ref, p))
    decreases p, 1
  {
    hide ValidFile, Emit, Typed;
    if p.Some? {
      EmitFits(file, shape.ref, p.value);
    }
  }

  lemma {:induction false} ElementsFit(file: File, shape: Shape, ms: seq<Option<Msg>>)
    requires ValidFile(file) && shape.NestedList? && TypedList(file, shape.ref, shape.pointer, ms)
    ensures DeltasFit(file, shape, EmitList(file, shape.ref, ms))
    decreases ms, 2
  {
    hide ValidFile, EmitElement, DeltaFits, TypedPointer;
    if ms != [] {
      PointerFits(file, shape, ms[0]);
      ElementsFit(file, shape, ms[1..]);
    }
  }

  lemma BranchFits(file: File, shape: Shape, v: Value)
    requires ValidFile(file) && TypedValue(file, shape, v)
    ensures DeltasFit(file, shape, EmitBranch(file, shape, v))
    decreases v, 1
  {
    hide ValidFile, InKind, Emit, Typed;
    if shape.Nested? {
      PointerFits(file, shape, v.p);
    }
  }

  lemma {:induction false} FieldsFit(file: File, ref: nat, m: Msg, vals: seq<Value>, from: nat)
    requires ValidFile(file) && Typed(file, ref, m) && vals == m.vals
    ensures RecsFit(file, ref, EmitFields(file, ref, vals, from), false)
    decreases m, 1, |vals| - from
  {
    hide ValidFile, EmitField, TypedValue, DeltasFit, RecsFit, Of;
    if from < |vals| {
      var shape := ShapeAt(file, ref, from);
      assert TypedValue(file, shape, m.vals[from]);
      assert m.vals[from] < m;
      FieldFits(file, shape, m.vals[from]);
      OfFits(file, ref, from, EmitField(file, shape, vals[from]));
      FieldsFit(file, ref, m, vals, from + 1);
      NoneFit(file, ref);
      RecsFitConcat(file, ref, EmitAt(file, ref, vals, from), EmitFields(file, ref, vals, from + 1), false);
    } else {
      NoneFit(file, ref);
    }
  }

  lemma NoneFit(file: File, ref: nat)
    ensures RecsFit(file, ref, [], false)
  {
  }

  lemma {:induction false} OneofsFit(file: File, ref: nat, m: Msg, from: nat)
    requires ValidFile(file) && Typed(file, ref, m)
    ensures RecsFit(file, ref, EmitOneofs(file, ref, m.vals, m.discs, from), false)
    decreases m, 1, |m.discs| - from
  {
    hide ValidFile, EmitBranch, TypedValue, DeltasFit, RecsFit, Of, Active;
    NoneFit(file, ref);
    if from < |m.discs| {
      match Active(file, ref, m.discs, from) {
        case None =>
        case Some(i) =>
          assert TypedValue(file, ShapeAt(file, ref, i), m.vals[i]);
          assert m.vals[i] < m;
          BranchFits(file, ShapeAt(file, ref, i), m.vals[i]);
          OfFits(file, ref, i, EmitBranch(file, ShapeAt(file, ref, i), m.vals[i]));
      }
      OneofsFit(file, ref, m, from + 1);
      RecsFitConcat(file, ref, EmitOneof(file, ref, m.vals, m.discs, from), EmitOneofs(file, ref, m.vals, m.discs, from + 1), false);
    }
  }

  /** A well-typed value is written as well-formed records. */
  lemma EmitFits(file: File, ref: nat, m: Msg)
    requires ValidFile(file) && Typed(file, ref, m)
    ensures RecsFit(file, ref, Emit(file, ref, m), false)
    decreases m, 2
  {
    hide ValidFile, EmitFields, EmitOneofs, Typed, RecsFit;
    FieldsFit(file, ref, m, m.vals, 0);
    OneofsFit(file, ref, m, 0);
    RecsFitConcat(file, ref, EmitFields(file, ref, m.vals, 0), EmitOneofs(file, ref, m.vals, m.discs, 0), false);
  }

  // ---------------------------------------------------------------- what is read

  lemma {:induction false} ElementsInKind(k: Kind, data: bytes, left: int)
    requires ReadElements(k, data, left).Ok?
    ensures forall e | e in ReadElements(k, data, left).value.v :: InKind(k, e)
    decreases |data|
  {
    hide ReadScalar, InKind, LeastElement;
    if left >= LeastElement(k) {
      var e := ReadScalar(k, data).value;
      ScalarInKind(k, data);
      ElementsInKind(k, data[e.n..], left - e.n);
    }
  }

  lemma ManyFits(file: File, k: Kind, wire: nat, data: bytes)
    requires ReadMany(k, wire, data).Ok?
    ensures DeltaFits(file, Repeated(k), ReadMany(k, wire, data).value.v, true)
  {
    hide ReadScalar, InKind, ReadElements, ReadLength;
    if Packable(k) && wire == LEN_DELIMITED {
      var len := ReadLength(data).value;
      ElementsInKind(k, data[len.n..], len.v);
    } else {
      ScalarInKind(k, data);
    }
  }

  lemma {:induction false} EntryInKind(kk: Kind, vk: Kind, e: Delta, data: bytes)
    requires e.Entry? && InKind(EntryKind(kk), e.key) && InKind(EntryKind(vk), e.val)
    requires ReadEntry(kk, vk, e, data).Ok?
    ensures var r := ReadEntry(kk, vk, e, data).value; InKind(EntryKind(kk), r.key) && InKind(EntryKind(vk), r.val)
    decreases |data|
  {
    hide InKind, EntryKind, ReadEntryField;
    if data != [] {
      var f := ReadEntryField(kk, vk, e, data).value;
      EntryFieldInKind(kk, vk, e, data);
      EntryInKind(kk, vk, f.v, data[f.n..]);
    }
  }

  lemma EntryFieldInKind(kk: Kind, vk: Kind, e: Delta, data: bytes)
    requires e.Entry? && InKind(EntryKind(kk), e.key) && InKind(EntryKind(vk), e.val)
    requires ReadEntryField(kk, vk, e, data).Ok?
    ensures var r := ReadEntryField(kk, vk, e, data).value.v; InKind(EntryKind(kk), r.key) && InKind(EntryKind(vk), r.val)
  {
    hide InKind, EntryKind, ReadScalar, SkipField, ReadVarint;
    var tag := ReadVarint(data).value;
    if tag.v / 8 == 1 {
      ScalarInKind(EntryKind(kk), data[tag.n..]);
    } else if tag.v / 8 == 2 {
      ScalarInKind(EntryKind(vk), data[tag.n..]);
    }
  }

  lemma FramedFits(file: File, shape: Shape, p: bytes)
    requires shape.Map? || shape.Timestamp? || shape.Duration? || shape.Nested? || shape.NestedList?
    requires ReadFramed(file, shape, p).Ok?
    ensures DeltaFits(file, shape, ReadFramed(file, shape, p).value, true)
    decreases |p|, 3
  {
    hide ReadMessage, RecsFit, InKind;
    match shape
    case Map(kk, vk) => EntryInKind(kk, vk, EmptyEntry(kk, vk), p);
    case Nested(ref, _) => ReadFits(file, ref, p);
    case NestedList(ref, _) => ReadFits(file, ref, p);
    case _ =>
  }

  lemma RecordFits(file: File, ref: nat, data: bytes)
    requires ReadRecord(file, ref, data).Ok?
    ensures RecFits(file, ref, ReadRecord(file, ref, data).value.v, true)
    decreases |data|, 1
  {
    hide ReadVarint, SkipField, InKind, FindField, ReadMany, ReadScalar, ReadPayload, ReadFramed;
    var tag := ReadVarint(data).value;
    match FindField(Fields(file, ref), tag.v / 8)
    case None =>
    case Some(i) =>
      DeltaReadFits(file, Fields(file, ref)[i].shape, tag.v % 8, data[tag.n..]);
  }

  lemma DeltaReadFits(file: File, shape: Shape, wire: nat, data: bytes)
    requires ReadDelta(file, shape, wire, data).Ok?
    ensures DeltaFits(file, shape, ReadDelta(file, shape, wire, data).value.v, true)
    decreases |data|, 2
  {
    hide InKind, ReadMany, ReadScalar, ReadLength, ReadFramed;
    match shape
    case Singular(k) => ScalarInKind(k, data);
    case Optional(k) => ScalarInKind(k, data);
    case Repeated(k) => ManyFits(file, k, wire, data);
    case _ => FramedFits(file, shape, ReadPayload(wire, data).value.v);
  }

  /** Whatever decodes is a sequence of well-formed records. */
  lemma {:induction false} ReadFits(file: File, ref: nat, data: bytes)
    requires ReadMessage(file, ref, data).Ok?
    ensures RecsFit(file, ref, ReadMessage(file, ref, data).value, true)
    decreases |data|, 2
  {
    hide ReadRecord, RecFits;
    if data != [] {
      var r := ReadRecord(file, ref, data).value;
      RecordFits(file, ref, data);
      ReadFits(file, ref, data[r.n..]);
    }
  }

  // ---------------------------------------------------------------- what a decode leaves

  lemma {:induction false} TypedAppend(file: File, ref: nat, pointer: bool, ms: seq<Option<Msg>>, m: Msg)
    requires TypedList(file, ref, pointer, ms) && Typed(file, ref, m)
    ensures TypedList(file, ref, pointer, ms + [Some(m)])
    decreases |ms|
  {
    hide Typed;
    if ms == [] {
      assert ms + [Some(m)] == [Some(m)];
    } else {
      TypedAppend(file, ref, pointer, ms[1..], m);
      assert (ms + [Some(m)])[1..] == ms[1..] + [Some(m)];
    }
  }

  lemma UpdateTyped(file: File, shape: Shape, v: Value, d: Delta)
    requires ValidFile(file) && TypedValue(file, shape, v) && DeltaFits(file, shape, d, true)
    ensures TypedValue(file, shape, Update(file, shape, v, d))
    decreases d, 0
  {
    hide ValidFile, InKind, Typed, Decode, Fresh, ShadowOf;
    match d
    case Tree(recs) =>
      FreshTypedHere(file, shape.ref);
      DecodeTyped(file, shape.ref, if shape.Nested? then Held(file, shape.ref, v) else Next(file, shape.ref, v), recs);
      if shape.NestedList? {
        TypedAppend(file, shape.ref, shape.pointer, v.ms, Decode(file, shape.ref, Next(file, shape.ref, v), recs));
      }
    case _ =>
  }

  lemma FreshTypedHere(file: File, ref: nat)
    requires ValidFile(file)
    ensures Typed(file, ref, Fresh(file, ref))
  {
    FreshTyped(file, ref);
  }

  lemma {:induction false} ApplyTyped(file: File, ref: nat, st: Msg, recs: seq<Rec>)
    requires ValidFile(file) && Typed(file, ref, st) && RecsFit(file, ref, recs, true)
    ensures Typed(file, ref, ApplyAll(file, ref, st, recs))
    decreases recs, 2
  {
    hide ValidFile, Typed, Apply, RecFits;
    if recs != [] {
      ApplyOneTyped(file, ref, st, recs[0]);
      ApplyTyped(file, ref, Apply(file, ref, st, recs[0]), recs[1..]);
    }
  }

  lemma ApplyOneTyped(file: File, ref: nat, st: Msg, r: Rec)
    requires ValidFile(file) && Typed(file, ref, st) && RecFits(file, ref, r, true)
    ensures Typed(file, ref, Apply(file, ref, st, r))
    decreases r, 1
  {
    hide ValidFile, TypedValue, Update, DeltaFits;
    match r
    case Unknown =>
    case Known(i, d) =>
      assert TypedValue(file, ShapeAt(file, ref, i), st.vals[i]);
      UpdateTyped(file, ShapeAt(file, ref, i), st.vals[i], d);
  }

  lemma StartTyped(file: File, ref: nat, recv: Msg)
    requires Typed(file, ref, recv)
    ensures Typed(file, ref, Start(file, ref, recv))
  {
    hide TypedValue, ResetValue, Pooled;
    forall i | 0 <= i < |recv.vals|
      ensures TypedValue(file, ShapeAt(file, ref, i), Start(file, ref, recv).vals[i])
    {
      assert TypedValue(file, ShapeAt(file, ref, i), recv.vals[i]);
      ResetValueTyped(file, ShapeAt(file, ref, i), recv.vals[i]);
    }
  }

  lemma FinishTyped(file: File, ref: nat, st: Msg, recs: seq<Rec>)
    requires Typed(file, ref, st)
    ensures Typed(file, ref, Finish(file, ref, st, recs))
  {
    hide TypedValue, Deltas, Pooling;
    forall i | 0 <= i < |st.vals|
      ensures TypedValue(file, ShapeAt(file, ref, i), Finish(file, ref, st, recs).vals[i])
    {
      assert TypedValue(file, ShapeAt(file, ref, i), st.vals[i]);
      NilTyped(file, ShapeAt(file, ref, i));
    }
  }

  lemma NilTyped(file: File, shape: Shape)
    ensures Poolable(shape) ==> TypedValue(file, shape, Nil(shape))
  {
  }

  /** A decode keeps its receiver well-typed. */
  lemma DecodeTyped(file: File, ref: nat, recv: Msg, recs: seq<Rec>)
    requires ValidFile(file) && Typed(file, ref, recv) && RecsFit(file, ref, recs, true)
    ensures Typed(file, ref, Decode(file, ref, recv, recs))
    decreases recs, 3
  {
    hide ValidFile, Typed, Start, Finish, RecsFit, ApplyAll;
    StartTyped(file, ref, recv);
    ApplyTyped(file, ref, Start(file, ref, recv), recs);
    FinishTyped(file, ref, ApplyAll(file, ref, Start(file, ref, recv), recs), recs);
  }
}
