// What becomes of the discriminators. Decoding does not reset them, so what a
// decode leaves depends on the receiver through them: this says how, exactly.

module Discriminators {
  import opened Base
  import opened Schema
  import opened Records
  import opened Values
  import opened Encoder
  import opened Decoder
  import opened RoundTrip
  import opened Typing
  import opened Canonical
  import opened Resets

  // ---------------------------------------------------------------- fields of typed messages and their records

  lemma TypedAt(file: File, ref: nat, m: Msg, i: nat)
    requires Typed(file, ref, m) && i < |m.vals|
    ensures |m.vals| == |Fields(file, ref)| && TypedValue(file, ShapeAt(file, ref, i), m.vals[i])
  {
    hide TypedValue;
  }

  lemma {:induction false} DeltasFitField(file: File, ref: nat, recs: seq<Rec>, i: nat)
    requires RecsFit(file, ref, recs, true) && i < |Fields(file, ref)|
    ensures forall k | 0 <= k < |Deltas(recs, i)| :: DeltaFits(file, ShapeAt(file, ref, i), Deltas(recs, i)[k], true)
    decreases |recs|
  {
    hide DeltaFits;
    if recs != [] {
      DeltasFitField(file, ref, recs[1..], i);
    }
  }

  lemma OneRecord(r: Rec, i: nat)
    ensures Deltas([r], i) == if r.Known? && r.idx == i then [r.d] else []
  {
    assert [r][1..] == [];
  }

  lemma {:induction false} FoldTyped(file: File, shape: Shape, v: Value, ds: seq<Delta>)
    requires ValidFile(file) && TypedValue(file, shape, v)
    requires forall k | 0 <= k < |ds| :: DeltaFits(file, shape, ds[k], true)
    ensures TypedValue(file, shape, Fold(file, shape, v, ds))
    decreases |ds|
  {
    hide ValidFile, TypedValue, DeltaFits, Update;
    if ds != [] {
      UpdateTyped(file, shape, v, ds[0]);
      FoldTyped(file, shape, Update(file, shape, v, ds[0]), ds[1..]);
    }
  }

  lemma {:induction false} FoldLastOf(file: File, shape: Shape, v: Value, ds: seq<Delta>)
    requires ds != []
    ensures Fold(file, shape, v, ds) == Update(file, shape, Fold(file, shape, v, ds[..|ds| - 1]), ds[|ds| - 1])
  {
    hide Update;
    var n := |ds| - 1;
    assert ds == ds[..n] + [ds[n]];
    FoldConcat(file, shape, v, ds[..n], [ds[n]]);
    FoldOne(file, shape, Fold(file, shape, v, ds[..n]), ds[n]);
  }

  /** Where a record of field `i` stands. */
  lemma {:induction false} DeltaInside(recs: seq<Rec>, i: nat, k: nat) returns (l: nat)
    requires k < |Deltas(recs, i)|
    ensures l < |recs| && recs[l] == Known(i, Deltas(recs, i)[k])
    decreases |recs|
  {
    if recs[0].Known? && recs[0].idx == i {
      if k == 0 {
        l := 0;
      } else {
        l := DeltaInside(recs[1..], i, k - 1);
        l := l + 1;
      }
    } else {
      l := DeltaInside(recs[1..], i, k);
      l := l + 1;
    }
  }

  lemma HeldShadow(file: File, ref: nat, pointer: bool, v: Value)
    ensures ShadowOf(file, ref, Held(file, ref, v)) == ShadowValue(file, Nested(ref, pointer), v)
  {
    hide ShadowOf, Fresh;
    FreshQuiet(file, ref);
  }

  /** A field that holds no message is what its records make of it, whatever the
      receiver held. */
  lemma LeafForgets(file: File, ref: nat, a: Msg, b: Msg, recs: seq<Rec>, i: nat)
    requires ValidFile(file) && Typed(file, ref, a) && Typed(file, ref, b) && RecsFit(file, ref, recs, true)
    requires i < |Fields(file, ref)| && Leaf(ShapeAt(file, ref, i))
    ensures i < |Decode(file, ref, a, recs).vals| && i < |Decode(file, ref, b, recs).vals|
    ensures Decode(file, ref, a, recs).vals[i] == Decode(file, ref, b, recs).vals[i]
  {
    hide ValidFile, Decode, Fold, Deltas, RecsFit, Pooling, TypedValue, DeltaFits, Update, ResetValue;
    TypedAt(file, ref, a, i);
    TypedAt(file, ref, b, i);
    DecodedField(file, ref, a, recs, i);
    DecodedField(file, ref, b, recs, i);
    DeltasFitField(file, ref, recs, i);
    ResetForgets(file, ShapeAt(file, ref, i), a.vals[i], b.vals[i]);
    if Pooled(file, ref, i) && Deltas(recs, i) != [] {
      OptionalForgets(file, ShapeAt(file, ref, i), a.vals[i], b.vals[i], Deltas(recs, i));
    }
  }

  lemma ResetForgets(file: File, shape: Shape, v: Value, w: Value)
    requires Leaf(shape)
    ensures ResetValue(file, shape, v) == ResetValue(file, shape, w)
  {
  }

  lemma OptionalForgets(file: File, shape: Shape, v: Value, w: Value, ds: seq<Delta>)
    requires shape.Optional? && ds != [] && DeltaFits(file, shape, ds[0], true)
    ensures Fold(file, shape, v, ds) == Fold(file, shape, w, ds)
  {
    hide InKind;
    assert Update(file, shape, v, ds[0]) == Update(file, shape, w, ds[0]);
  }

  // ---------------------------------------------------------------- the discriminators a decode leaves

  function DiscOf(s: Shadow, j: nat): nat {
    if s.Loud? && j < |s.discs| then s.discs[j] else 0
  }

  function SubOf(s: Shadow, i: nat): Shadow {
    if s.Loud? && i < |s.subs| then s.subs[i] else Quiet
  }

  lemma ShadowAt(file: File, ref: nat, m: Msg)
    requires |m.vals| == |Fields(file, ref)|
    ensures forall j | 0 <= j < |m.discs| :: DiscOf(ShadowOf(file, ref, m), j) == m.discs[j]
    ensures forall i | 0 <= i < |m.vals| :: SubOf(ShadowOf(file, ref, m), i) == ShadowValue(file, ShapeAt(file, ref, i), m.vals[i])
  {
    hide ShadowValue, Shadows;
    ShadowsAt(file, ref, m.vals);
  }

  /** The discriminators after a decode of `recs`, from those before: the last
      branch received, or what was there; and in a message held singly what the
      decodes into it leave, where the pointer was kept for them. */
  function After(file: File, ref: nat, s: Shadow, recs: seq<Rec>): Shadow
    decreases recs, 3
  {
    Loudness(seq(|Oneofs(file, ref)|, j requires 0 <= j < |Oneofs(file, ref)| => LastBranch(file, ref, recs, j, DiscOf(s, j))),
             seq(|Fields(file, ref)|, i requires 0 <= i < |Fields(file, ref)| => AfterField(file, ref, s, recs, i)))
  }

  function AfterField(file: File, ref: nat, s: Shadow, recs: seq<Rec>, i: nat): Shadow
    decreases recs, 2
  {
    match ShapeAt(file, ref, i)
    case Nested(r, _) =>
      if Deltas(recs, i) == [] then Quiet else AfterTrees(file, r, if Pooled(file, ref, i) then SubOf(s, i) else Quiet, recs, i)
    case _ => Quiet
  }

  function AfterTrees(file: File, r: nat, s: Shadow, recs: seq<Rec>, i: nat): Shadow
    decreases recs, 1
  {
    if recs == [] then s
    else AfterTrees(file, r, AfterRec(file, r, s, recs[0], i), recs[1..], i)
  }

  function AfterRec(file: File, r: nat, s: Shadow, x: Rec, i: nat): Shadow
    decreases x, 1
  {
    match x
    case Known(k, d) => if k == i then AfterTree(file, r, s, d) else s
    case Unknown => s
  }

  function AfterTree(file: File, r: nat, s: Shadow, d: Delta): Shadow
    decreases d, 0
  {
    match d
    case Tree(recs) => After(file, r, s, recs)
    case _ => s
  }

  lemma {:induction false} FoldShadow(file: File, shape: Shape, v: Value, recs: seq<Rec>, i: nat)
    requires ValidFile(file) && shape.Nested? && TypedValue(file, shape, v)
    requires forall k | 0 <= k < |Deltas(recs, i)| :: DeltaFits(file, shape, Deltas(recs, i)[k], true)
    ensures ShadowValue(file, shape, Fold(file, shape, v, Deltas(recs, i)))
            == AfterTrees(file, shape.ref, ShadowValue(file, shape, v), recs, i)
    decreases recs, 1
  {
    hide ValidFile, DeltaFits, TypedValue, ShadowValue, Update, AfterRec;
    if recs != [] {
      if recs[0].Known? && recs[0].idx == i {
        assert Deltas(recs, i)[0] == recs[0].d && Deltas(recs, i)[1..] == Deltas(recs[1..], i);
        RecShadow(file, shape, v, recs[0], i);
        UpdateTyped(file, shape, v, recs[0].d);
        assert forall k | 0 <= k < |Deltas(recs[1..], i)| :: Deltas(recs[1..], i)[k] == Deltas(recs, i)[k + 1];
        FoldShadow(file, shape, Update(file, shape, v, recs[0].d), recs[1..], i);
      } else {
        assert Deltas(recs, i) == Deltas(recs[1..], i);
        FoldShadow(file, shape, v, recs[1..], i);
        OtherField(file, shape.ref, ShadowValue(file, shape, v), recs[0], i);
      }
    } else {
      FoldNothing(file, shape, v);
    }
  }

  lemma OtherField(file: File, r: nat, s: Shadow, x: Rec, i: nat)
    requires !(x.Known? && x.idx == i)
    ensures AfterRec(file, r, s, x, i) == s
  {
  }

  lemma RecShadow(file: File, shape: Shape, v: Value, x: Rec, i: nat)
    requires ValidFile(file) && shape.Nested? && TypedValue(file, shape, v)
    requires x.Known? && x.idx == i && DeltaFits(file, shape, x.d, true)
    ensures ShadowValue(file, shape, Update(file, shape, v, x.d)) == AfterRec(file, shape.ref, ShadowValue(file, shape, v), x, i)
    decreases x, 0
  {
    hide ValidFile, DeltaFits, TypedValue, ShadowValue, Update, AfterTree;
    UpdateShadow(file, shape, v, x.d);
  }

  lemma UpdateShadow(file: File, shape: Shape, v: Value, d: Delta)
    requires ValidFile(file) && shape.Nested? && TypedValue(file, shape, v) && DeltaFits(file, shape, d, true)
    ensures ShadowValue(file, shape, Update(file, shape, v, d)) == AfterTree(file, shape.ref, ShadowValue(file, shape, v), d)
    decreases d, 0
  {
    hide ValidFile, Typed, Decode, RecsFit, ShadowOf, After, Fresh, InKind;
    FreshTyped(file, shape.ref);
    HeldShadow(file, shape.ref, shape.pointer, v);
    ShadowAfter(file, shape.ref, Held(file, shape.ref, v), d.recs);
  }

  /** Exactly these discriminators are left. */
  lemma {:induction false} ShadowAfter(file: File, ref: nat, m: Msg, recs: seq<Rec>)
    requires ValidFile(file) && Typed(file, ref, m) && RecsFit(file, ref, recs, true)
    ensures ShadowOf(file, ref, Decode(file, ref, m, recs)) == After(file, ref, ShadowOf(file, ref, m), recs)
    decreases recs, 3
  {
    hide ValidFile, TypedValue, Decode, RecsFit, ShadowOf, ShadowValue, AfterField, LastBranch, DiscOf;
    var x, s := Decode(file, ref, m, recs), ShadowOf(file, ref, m);
    DecodedShape(file, ref, m, recs);
    ShadowAt(file, ref, m);
    forall j | 0 <= j < |x.discs|
      ensures x.discs[j] == LastBranch(file, ref, recs, j, DiscOf(s, j))
    {
      DecodedDisc(file, ref, m, recs, j);
    }
    forall i | 0 <= i < |x.vals|
      ensures ShadowValue(file, ShapeAt(file, ref, i), x.vals[i]) == AfterField(file, ref, s, recs, i)
    {
      FieldShadow(file, ref, m, recs, i);
    }
    ShadowsAt(file, ref, x.vals);
    ShadowIs(file, ref, x, After(file, ref, s, recs),
             seq(|Oneofs(file, ref)|, j requires 0 <= j < |Oneofs(file, ref)| => LastBranch(file, ref, recs, j, DiscOf(s, j))),
             seq(|Fields(file, ref)|, i requires 0 <= i < |Fields(file, ref)| => AfterField(file, ref, s, recs, i)));
  }

  lemma ShadowIs(file: File, ref: nat, x: Msg, t: Shadow, discs: seq<nat>, subs: seq<Shadow>)
    requires t == Loudness(discs, subs) && x.discs == discs && Shadows(file, ref, x.vals) == subs
    ensures ShadowOf(file, ref, x) == t
  {
  }

  lemma FieldShadow(file: File, ref: nat, m: Msg, recs: seq<Rec>, i: nat)
    requires ValidFile(file) && Typed(file, ref, m) && RecsFit(file, ref, recs, true) && i < |m.vals|
    ensures i < |Decode(file, ref, m, recs).vals|
    ensures ShadowValue(file, ShapeAt(file, ref, i), Decode(file, ref, m, recs).vals[i]) ==
            AfterField(file, ref, ShadowOf(file, ref, m), recs, i)
    decreases recs, 2
  {
    hide ValidFile, Decode, RecsFit, Fold, Deltas, AfterTrees, ShadowOf, Pooling, SubOf, Typed, DeltaFits, TypedValue,
         ResetValue;
    var shape := ShapeAt(file, ref, i);
    TypedAt(file, ref, m, i);
    DecodedField(file, ref, m, recs, i);
    if shape.Nested? {
      ShadowAt(file, ref, m);
      ResetValueTyped(file, shape, m.vals[i]);
      ResetValueQuiet(file, shape, m.vals[i]);
      DeltasFitField(file, ref, recs, i);
      FoldNothing(file, shape, Start(file, ref, m).vals[i]);
      FoldShadow(file, shape, Start(file, ref, m).vals[i], recs, i);
    }
  }

  // ---------------------------------------------------------------- when two receivers decode alike

  /** Two values that are written the same and hold the same discriminators. */
  ghost predicate Alike(file: File, ref: nat, a: Msg, b: Msg) {
    && Emit(file, ref, a) == Emit(file, ref, b)
    && ShadowOf(file, ref, a) == ShadowOf(file, ref, b)
  }

  /** Receivers that end with the same discriminators end alike. */
  lemma {:induction false} SameShadowAlike(file: File, ref: nat, a: Msg, b: Msg, recs: seq<Rec>)
    requires ValidFile(file) && Typed(file, ref, a) && Typed(file, ref, b) && RecsFit(file, ref, recs, true)
    requires ShadowOf(file, ref, Decode(file, ref, a, recs)) == ShadowOf(file, ref, Decode(file, ref, b, recs))
    ensures Alike(file, ref, Decode(file, ref, a, recs), Decode(file, ref, b, recs))
    decreases recs, 3
  {
    hide ValidFile, TypedValue, Decode, RecsFit, ShadowOf, ShadowValue, Written, Emit, Active;
    var x, y := Decode(file, ref, a, recs), Decode(file, ref, b, recs);
    DecodedShape(file, ref, a, recs);
    DecodedShape(file, ref, b, recs);
    ShadowParts(file, ref, x, y);
    forall i | 0 <= i < |x.vals|
      ensures Written(file, ref, x, i) == Written(file, ref, y, i)
    {
      FieldAlike(file, ref, a, b, recs, i);
    }
    EmitFieldwise(file, ref, x, y);
  }

  lemma FieldAlike(file: File, ref: nat, a: Msg, b: Msg, recs: seq<Rec>, i: nat)
    requires ValidFile(file) && Typed(file, ref, a) && Typed(file, ref, b) && RecsFit(file, ref, recs, true)
    requires ShadowOf(file, ref, Decode(file, ref, a, recs)) == ShadowOf(file, ref, Decode(file, ref, b, recs))
    requires i < |Fields(file, ref)|
    ensures i < |Decode(file, ref, a, recs).vals| && i < |Decode(file, ref, b, recs).vals|
    ensures Written(file, ref, Decode(file, ref, a, recs), i) == Written(file, ref, Decode(file, ref, b, recs), i)
    decreases recs, 2
  {
    hide ValidFile, TypedValue, Decode, RecsFit, ShadowOf, ShadowValue, EmitField, EmitBranch, IsActive, Deltas;
    var x, y := Decode(file, ref, a, recs), Decode(file, ref, b, recs);
    DecodedShape(file, ref, a, recs);
    DecodedShape(file, ref, b, recs);
    ShadowParts(file, ref, x, y);
    if Leaf(ShapeAt(file, ref, i)) {
      LeafForgets(file, ref, a, b, recs, i);
    } else if ShapeAt(file, ref, i).NestedList? {
      ListAlike(file, ref, a, b, recs, i);
      ListsWritten(file, ShapeAt(file, ref, i), x.vals[i], y.vals[i]);
    } else if Deltas(recs, i) == [] {
      AbsentAlike(file, ref, a, b, recs, i);
    } else {
      var l := DeltaInside(recs, i, |Deltas(recs, i)| - 1);
      LastTreeAlike(file, ref, a, b, recs, recs[l], i);
    }
  }

  /** The elements of two slices are written the same. */
  ghost predicate ListsAlike(file: File, r: nat, v: Value, w: Value) {
    v.Subs? && w.Subs? && |v.ms| == |w.ms| && EmitList(file, r, v.ms) == EmitList(file, r, w.ms)
  }

  lemma ListsWritten(file: File, shape: Shape, v: Value, w: Value)
    requires shape.NestedList? && ListsAlike(file, shape.ref, v, w)
    ensures EmitField(file, shape, v) == EmitField(file, shape, w) && EmitBranch(file, shape, v) == EmitBranch(file, shape, w)
  {
    hide EmitList;
  }

  lemma ListAlike(file: File, ref: nat, a: Msg, b: Msg, recs: seq<Rec>, i: nat)
    requires ValidFile(file) && Typed(file, ref, a) && Typed(file, ref, b) && RecsFit(file, ref, recs, true)
    requires i < |Fields(file, ref)| && ShapeAt(file, ref, i).NestedList?
    ensures i < |Decode(file, ref, a, recs).vals| && i < |Decode(file, ref, b, recs).vals|
    ensures ListsAlike(file, ShapeAt(file, ref, i).ref, Decode(file, ref, a, recs).vals[i], Decode(file, ref, b, recs).vals[i])
    decreases recs, 1, 1
  {
    assert i < |a.vals| && i < |b.vals|;
    hide ValidFile, TypedValue, Decode, RecsFit, Fold, Deltas, ResetValue, Typed, DeltaFits, EmitList;
    var shape := ShapeAt(file, ref, i);
    TypedAt(file, ref, a, i);
    TypedAt(file, ref, b, i);
    DecodedField(file, ref, a, recs, i);
    DecodedField(file, ref, b, recs, i);
    DeltasFitField(file, ref, recs, i);
    ResetValueTyped(file, shape, a.vals[i]);
    ResetValueTyped(file, shape, b.vals[i]);
    EmptiedList(file, shape, a.vals[i]);
    EmptiedList(file, shape, b.vals[i]);
    FoldListAlike(file, shape, Start(file, ref, a).vals[i], Start(file, ref, b).vals[i], recs, i);
  }

  lemma {:induction false} FoldListAlike(file: File, shape: Shape, v: Value, w: Value, recs: seq<Rec>, i: nat)
    requires ValidFile(file) && shape.NestedList? && TypedValue(file, shape, v) && TypedValue(file, shape, w)
    requires forall k | 0 <= k < |Deltas(recs, i)| :: DeltaFits(file, shape, Deltas(recs, i)[k], true)
    requires ListsAlike(file, shape.ref, v, w)
    ensures ListsAlike(file, shape.ref, Fold(file, shape, v, Deltas(recs, i)), Fold(file, shape, w, Deltas(recs, i)))
    decreases recs, 1, 0
  {
    hide ValidFile, DeltaFits, TypedValue, Update, ListsAlike;
    if recs == [] {
      FoldNothing(file, shape, v);
      FoldNothing(file, shape, w);
    } else if recs[0].Known? && recs[0].idx == i {
      assert Deltas(recs, i)[0] == recs[0].d && Deltas(recs, i)[1..] == Deltas(recs[1..], i);
      RecListAlike(file, shape, v, w, recs[0]);
      UpdateTyped(file, shape, v, recs[0].d);
      UpdateTyped(file, shape, w, recs[0].d);
      assert forall k | 0 <= k < |Deltas(recs[1..], i)| :: Deltas(recs[1..], i)[k] == Deltas(recs, i)[k + 1];
      FoldListAlike(file, shape, Update(file, shape, v, recs[0].d), Update(file, shape, w, recs[0].d), recs[1..], i);
    } else {
      assert Deltas(recs, i) == Deltas(recs[1..], i);
      FoldListAlike(file, shape, v, w, recs[1..], i);
    }
  }

  lemma RecListAlike(file: File, shape: Shape, v: Value, w: Value, x: Rec)
    requires ValidFile(file) && shape.NestedList? && TypedValue(file, shape, v) && TypedValue(file, shape, w)
    requires x.Known? && DeltaFits(file, shape, x.d, true) && ListsAlike(file, shape.ref, v, w)
    ensures ListsAlike(file, shape.ref, Update(file, shape, v, x.d), Update(file, shape, w, x.d))
    decreases x, 0
  {
    hide ValidFile, DeltaFits, TypedValue, Update, ListsAlike;
    AppendAlike(file, shape, v, w, x.d);
  }

  /** Both new elements are decoded into something without discriminators. */
  lemma AppendAlike(file: File, shape: Shape, v: Value, w: Value, d: Delta)
    requires ValidFile(file) && shape.NestedList? && TypedValue(file, shape, v) && TypedValue(file, shape, w)
    requires DeltaFits(file, shape, d, true) && ListsAlike(file, shape.ref, v, w)
    ensures ListsAlike(file, shape.ref, Update(file, shape, v, d), Update(file, shape, w, d))
    decreases d, 0
  {
    hide ValidFile, TypedValue, Decode, RecsFit, ShadowOf, Next, Emit, EmitList;
    var r := shape.ref;
    var p, q := Next(file, r, v), Next(file, r, w);
    NextTyped(file, shape, v);
    NextTyped(file, shape, w);
    ShadowAfter(file, r, p, d.recs);
    ShadowAfter(file, r, q, d.recs);
    SameShadowAlike(file, r, p, q, d.recs);
    ElementAppended(file, r, v.ms, Decode(file, r, p, d.recs));
    ElementAppended(file, r, w.ms, Decode(file, r, q, d.recs));
  }

  lemma NextTyped(file: File, shape: Shape, v: Value)
    requires ValidFile(file) && shape.NestedList? && TypedValue(file, shape, v)
    ensures Typed(file, shape.ref, Next(file, shape.ref, v)) && ShadowOf(file, shape.ref, Next(file, shape.ref, v)) == Quiet
  {
    hide ValidFile, Typed, ShadowOf, Fresh;
    FreshTyped(file, shape.ref);
    FreshQuiet(file, shape.ref);
  }

  lemma ElementAppended(file: File, r: nat, ms: seq<Option<Msg>>, m: Msg)
    ensures EmitList(file, r, ms + [Some(m)]) == EmitList(file, r, ms) + [Tree(Emit(file, r, m))]
  {
    hide Emit, EmitList;
    EmitListConcat(file, r, ms, [Some(m)]);
    OneElementList(file, r, m);
  }

  lemma AbsentAlike(file: File, ref: nat, a: Msg, b: Msg, recs: seq<Rec>, i: nat)
    requires ValidFile(file) && Typed(file, ref, a) && Typed(file, ref, b)
    requires i < |Fields(file, ref)| && ShapeAt(file, ref, i).Nested? && Deltas(recs, i) == []
    ensures i < |Decode(file, ref, a, recs).vals| && i < |Decode(file, ref, b, recs).vals|
    ensures var shape := ShapeAt(file, ref, i);
            var v, w := Decode(file, ref, a, recs).vals[i], Decode(file, ref, b, recs).vals[i];
            && EmitField(file, shape, v) == EmitField(file, shape, w)
            && (InOneof(file, ref, i) ==> EmitBranch(file, shape, v) == EmitBranch(file, shape, w))
  {
    hide ValidFile, Decode, Fold, Deltas, Pooling, TypedValue, Reset, Emit, ResetValue;
    var shape := ShapeAt(file, ref, i);
    TypedAt(file, ref, a, i);
    TypedAt(file, ref, b, i);
    DecodedField(file, ref, a, recs, i);
    DecodedField(file, ref, b, recs, i);
    FoldNothing(file, shape, Start(file, ref, a).vals[i]);
    FoldNothing(file, shape, Start(file, ref, b).vals[i]);
    ResetFieldEmitsNothing(file, shape, a.vals[i]);
    ResetFieldEmitsNothing(file, shape, b.vals[i]);
    if InOneof(file, ref, i) {
      BranchesNotPooled(file, ref, i);
      ResetBranch(file, shape, a.vals[i]);
      ResetBranch(file, shape, b.vals[i]);
    }
  }

  lemma ResetBranch(file: File, shape: Shape, v: Value)
    requires ValidFile(file) && shape.Nested? && !shape.pointer && TypedValue(file, shape, v)
    ensures EmitBranch(file, shape, ResetValue(file, shape, v)) == [Tree([])]
  {
    hide ValidFile, Reset, Emit, Typed;
    ResetEmitsNothing(file, shape.ref, v.p.value);
  }

  lemma LastTreeAlike(file: File, ref: nat, a: Msg, b: Msg, recs: seq<Rec>, x: Rec, i: nat)
    requires ValidFile(file) && Typed(file, ref, a) && Typed(file, ref, b) && RecsFit(file, ref, recs, true)
    requires i < |Fields(file, ref)| && ShapeAt(file, ref, i).Nested? && Deltas(recs, i) != []
    requires x == Known(i, Deltas(recs, i)[|Deltas(recs, i)| - 1])
    requires i < |Decode(file, ref, a, recs).vals| && i < |Decode(file, ref, b, recs).vals|
    requires ShadowValue(file, ShapeAt(file, ref, i), Decode(file, ref, a, recs).vals[i])
          == ShadowValue(file, ShapeAt(file, ref, i), Decode(file, ref, b, recs).vals[i])
    ensures var shape := ShapeAt(file, ref, i);
            var v, w := Decode(file, ref, a, recs).vals[i], Decode(file, ref, b, recs).vals[i];
            EmitField(file, shape, v) == EmitField(file, shape, w) && EmitBranch(file, shape, v) == EmitBranch(file, shape, w)
    decreases x, 1
  {
    hide ValidFile, Decode, Fold, Deltas, Pooling, TypedValue, ResetValue, RecsFit, ShadowOf, Emit, DeltaFits, Fresh,
         ShadowValue;
    var shape, ds := ShapeAt(file, ref, i), Deltas(recs, i);
    var n := |ds| - 1;
    DeltasFitField(file, ref, recs, i);
    TreeOfNested(file, shape, x.d);
    var p := BeforeLast(file, ref, a, recs, i);
    var q := BeforeLast(file, ref, b, recs, i);
    NestedShadow(file, shape, Decode(file, shape.ref, p, x.d.recs));
    NestedShadow(file, shape, Decode(file, shape.ref, q, x.d.recs));
    SameShadowAlike(file, shape.ref, p, q, x.d.recs);
  }

  lemma TreeOfNested(file: File, shape: Shape, d: Delta)
    requires shape.Nested? && DeltaFits(file, shape, d, true)
    ensures d.Tree? && RecsFit(file, shape.ref, d.recs, true)
  {
  }

  lemma NestedShadow(file: File, shape: Shape, m: Msg)
    requires shape.Nested?
    ensures ShadowValue(file, shape, Sub(Some(m))) == ShadowOf(file, shape.ref, m)
  {
    hide ShadowOf;
  }

  /** What the last record of a nested field is decoded into. */
  lemma BeforeLast(file: File, ref: nat, a: Msg, recs: seq<Rec>, i: nat) returns (p: Msg)
    requires ValidFile(file) && Typed(file, ref, a) && RecsFit(file, ref, recs, true)
    requires i < |Fields(file, ref)| && ShapeAt(file, ref, i).Nested? && Deltas(recs, i) != []
    requires Deltas(recs, i)[|Deltas(recs, i)| - 1].Tree?
    ensures Typed(file, ShapeAt(file, ref, i).ref, p) && i < |Decode(file, ref, a, recs).vals|
    ensures Decode(file, ref, a, recs).vals[i] ==
            Sub(Some(Decode(file, ShapeAt(file, ref, i).ref, p, Deltas(recs, i)[|Deltas(recs, i)| - 1].recs)))
  {
    hide ValidFile, Decode, Fold, Deltas, Pooling, TypedValue, ResetValue, RecsFit, DeltaFits, Fresh;
    var shape, ds := ShapeAt(file, ref, i), Deltas(recs, i);
    var n := |ds| - 1;
    var v := Start(file, ref, a).vals[i];
    TypedAt(file, ref, a, i);
    ResetValueTyped(file, shape, a.vals[i]);
    DecodedField(file, ref, a, recs, i);
    DeltasFitField(file, ref, recs, i);
    FoldTyped(file, shape, v, ds[..n]);
    FoldLastOf(file, shape, v, ds);
    p := Held(file, shape.ref, Fold(file, shape, v, ds[..n]));
    FreshTyped(file, shape.ref);
    HeldTyped(file, shape, Fold(file, shape, v, ds[..n]));
  }

  lemma HeldTyped(file: File, shape: Shape, v: Value)
    requires ValidFile(file) && shape.Nested? && TypedValue(file, shape, v)
    ensures Typed(file, shape.ref, Held(file, shape.ref, v))
  {
    hide ValidFile, Typed, Fresh;
    FreshTyped(file, shape.ref);
  }

  /** Two receivers decode the same records to values that are written the same
      and hold the same discriminators exactly when the records leave the same
      discriminators in both; whatever else the receivers hold does not show. */
  lemma AlikeIff(file: File, ref: nat, a: Msg, b: Msg, recs: seq<Rec>)
    requires ValidFile(file) && Typed(file, ref, a) && Typed(file, ref, b) && RecsFit(file, ref, recs, true)
    ensures Alike(file, ref, Decode(file, ref, a, recs), Decode(file, ref, b, recs)) <==>
            After(file, ref, ShadowOf(file, ref, a), recs) == After(file, ref, ShadowOf(file, ref, b), recs)
  {
    hide ValidFile, Typed, Decode, RecsFit, ShadowOf, After, Emit;
    ShadowAfter(file, ref, a, recs);
    ShadowAfter(file, ref, b, recs);
    if ShadowOf(file, ref, Decode(file, ref, a, recs)) == ShadowOf(file, ref, Decode(file, ref, b, recs)) {
      SameShadowAlike(file, ref, a, b, recs);
    }
  }
}
