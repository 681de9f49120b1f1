// ResetCodec and what it leaves: nothing that is written, and no discriminator.
// The discriminators a receiver holds, at every depth, are its shadow.

module Resets {
  import opened Schema
  import opened Records
  import opened Values
  import opened Encoder
  import opened RoundTrip
  import opened Typing
  import opened Canonical

  // ---------------------------------------------------------------- discriminators

  lemma ShadowsAt(file: File, ref: nat, vals: seq<Value>)
    ensures forall i | 0 <= i < |vals| :: Shadows(file, ref, vals)[i] == ShadowValue(file, ShapeAt(file, ref, i), vals[i])
  {
    hide ShadowValue;
  }

  lemma ShadowParts(file: File, ref: nat, a: Msg, b: Msg)
    requires |a.vals| == |b.vals| && |a.discs| == |b.discs|
    ensures ShadowOf(file, ref, a) == ShadowOf(file, ref, b) <==>
            && a.discs == b.discs
            && forall i | 0 <= i < |a.vals| ::
                 ShadowValue(file, ShapeAt(file, ref, i), a.vals[i]) == ShadowValue(file, ShapeAt(file, ref, i), b.vals[i])
  {
    hide ShadowValue, Shadows;
    var sa, sb := Shadows(file, ref, a.vals), Shadows(file, ref, b.vals);
    ShadowsAt(file, ref, a.vals);
    ShadowsAt(file, ref, b.vals);
    if ShadowOf(file, ref, a) == ShadowOf(file, ref, b) {
      assert a.discs == b.discs;
      assert sa == sb;
    }
    if a.discs == b.discs && forall i | 0 <= i < |a.vals| :: sa[i] == sb[i] {
      assert sa == sb;
    }
  }

  lemma {:induction false} FreshQuiet(file: File, ref: nat)
    ensures ShadowOf(file, ref, Fresh(file, ref)) == Quiet
    decreases ref
  {
    var m := Fresh(file, ref);
    forall i | 0 <= i < |m.vals|
      ensures ShadowValue(file, ShapeAt(file, ref, i), m.vals[i]) == Quiet
    {
      var shape := ShapeAt(file, ref, i);
      if shape.Nested? && !shape.pointer && shape.ref < ref {
        FreshQuiet(file, shape.ref);
      }
    }
  }

  /** No message held singly at any depth has a oneof. */
  ghost predicate NoOneofs(file: File, ref: nat) {
    forall to: nat, n: nat | Reaches(file, ref, to, false, n) :: Oneofs(file, to) == []
  }

  lemma NoOneofsBelow(file: File, ref: nat, i: nat)
    requires NoOneofs(file, ref) && i < |Fields(file, ref)| && ShapeAt(file, ref, i).Nested?
    ensures NoOneofs(file, ShapeAt(file, ref, i).ref)
  {
    hide ShapeAt;
    forall to: nat, n: nat | Reaches(file, ShapeAt(file, ref, i).ref, to, false, n)
      ensures Oneofs(file, to) == []
    {
      ReachesOn(file, ref, i, to, false, n);
    }
  }

  /** Without oneofs there is nothing to survive. */
  lemma {:induction false} QuietWithoutOneofs(file: File, ref: nat, m: Msg)
    requires NoOneofs(file, ref) && Typed(file, ref, m)
    ensures ShadowOf(file, ref, m) == Quiet
    decreases m
  {
    hide InKind, NoOneofs;
    assert Oneofs(file, ref) == [] by { NoOneofsHere(file, ref); }
    forall i | 0 <= i < |m.vals|
      ensures ShadowValue(file, ShapeAt(file, ref, i), m.vals[i]) == Quiet
    {
      assert TypedValue(file, ShapeAt(file, ref, i), m.vals[i]);
      if ShapeAt(file, ref, i).Nested? && m.vals[i].p.Some? {
        NoOneofsBelow(file, ref, i);
        QuietWithoutOneofs(file, ShapeAt(file, ref, i).ref, m.vals[i].p.value);
      }
    }
  }

  lemma NoOneofsHere(file: File, ref: nat)
    requires NoOneofs(file, ref)
    ensures Oneofs(file, ref) == []
  {
    ReachesHere(file, ref, false);
  }

  // ---------------------------------------------------------------- reset

  lemma {:induction false} ResetEmitsNothing(file: File, ref: nat, m: Msg)
    requires ValidFile(file) && Typed(file, ref, m)
    ensures Emit(file, ref, Reset(file, ref, m)) == []
    decreases m, 2
  {
    hide ValidFile, EmitFields, EmitOneofs, Typed, ResetValue;
    ResetFieldsEmitNothing(file, ref, m, Reset(file, ref, m).vals, 0);
    ZerosEmitNothing(file, ref, Reset(file, ref, m), 0);
  }

  lemma {:induction false} ResetFieldsEmitNothing(file: File, ref: nat, m: Msg, vals: seq<Value>, from: nat)
    requires ValidFile(file) && Typed(file, ref, m) && vals == Reset(file, ref, m).vals
    ensures EmitFields(file, ref, vals, from) == []
    decreases m, 1, |vals| - from
  {
    hide ValidFile, EmitField, TypedValue, ResetValue;
    if from < |vals| {
      assert m.vals[from] < m;
      assert TypedValue(file, ShapeAt(file, ref, from), m.vals[from]);
      ResetFieldEmitsNothing(file, ShapeAt(file, ref, from), m.vals[from]);
      ResetFieldsEmitNothing(file, ref, m, vals, from + 1);
    }
  }

  lemma ResetFieldEmitsNothing(file: File, shape: Shape, v: Value)
    requires ValidFile(file) && TypedValue(file, shape, v)
    ensures EmitField(file, shape, ResetValue(file, shape, v)) == []
    decreases v, 2
  {
    hide ValidFile, InKind, Typed, Emit, Reset;
    match shape
    case Map(_, _) => assert SortedKeys({}) == [];
    case Nested(ref, _) =>
      if v.p.Some? {
        ResetEmitsNothing(file, ref, v.p.value);
      }
    case _ =>
  }

  lemma {:induction false} ZerosEmitNothing(file: File, ref: nat, m: Msg, from: nat)
    requires ValidFile(file) && forall j | 0 <= j < |m.discs| :: m.discs[j] == 0
    ensures EmitOneofs(file, ref, m.vals, m.discs, from) == []
    decreases |m.discs| - from
  {
    hide ValidFile, EmitBranch, Active;
    if from < |m.discs| {
      ZeroSelectsNothing(file, ref, m.discs, from);
      ZerosEmitNothing(file, ref, m, from + 1);
    }
  }

  /** ResetCodec leaves a receiver of size 0. */
  lemma ResetMarshalsToNothing(file: File, ref: nat, m: Msg)
    requires ValidFile(file) && Typed(file, ref, m)
    ensures Marshal(file, ref, Reset(file, ref, m)) == []
  {
    hide ValidFile, Typed, Emit, Reset;
    ResetEmitsNothing(file, ref, m);
  }

  /** Size 0 means: nothing but the zero value would come back, and no epoch is
      there to be lost. */
  lemma SizeZeroIff(file: File, ref: nat, m: Msg)
    requires ValidFile(file) && Typed(file, ref, m)
    ensures |Marshal(file, ref, m)| == 0 <==> Norm(file, ref, m) == Fresh(file, ref) && NoEpoch(file, ref, m)
  {
    hide ValidFile, Typed, Emit, Norm, Fresh, NoEpoch, RecsFit, MessageBytes;
    EmitNormIff(file, ref, m);
    FreshEmitsNothing(file, ref);
    EmitFits(file, ref, m);
    EmptyIff(file, ref, Emit(file, ref, m));
    if Emit(file, ref, m) == [] {
      EmptyNormalisesToFresh(file, ref, m);
    }
  }
}
