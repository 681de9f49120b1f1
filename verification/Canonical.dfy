// Marshal and unmarshal as wholes: the round trip of values, and when the
// wire is stable, i.e. when a decoded value marshals to bytes that decode and
// marshal to the very same bytes.

module Canonical {
  import opened Base
  import opened Wire
  import opened Wkt
  import opened Schema
  import opened Records
  import opened Values
  import opened Encoder
  import opened Decoder
  import opened RoundTrip
  import opened Typing

  /** Unmarshalling marshalled bytes into a new object succeeds, with the
      normal form of the value. */
  lemma UnmarshalMarshal(file: File, ref: nat, m: Msg)
    requires ValidFile(file) && Typed(file, ref, m)
    requires |Marshal(file, ref, m)| < MAX_LEN
    ensures Unmarshal(file, ref, Fresh(file, ref), Marshal(file, ref, m)) == Ok(Norm(file, ref, m))
  {
    hide ValidFile, Typed, Emit, Norm, Decode, Fresh, ReadMessage, MessageBytes;
    EmitFits(file, ref, m);
    MessageRoundTrip(file, ref, Emit(file, ref, m));
    MessageComesBack(file, ref, m);
  }

  /** Two values with the same bytes have the same records. */
  lemma MarshalInjective(file: File, ref: nat, a: Msg, b: Msg)
    requires ValidFile(file) && Typed(file, ref, a) && Typed(file, ref, b)
    requires Marshal(file, ref, a) == Marshal(file, ref, b) && |Marshal(file, ref, a)| < MAX_LEN
    ensures Emit(file, ref, a) == Emit(file, ref, b)
    ensures Norm(file, ref, a) == Norm(file, ref, b)
  {
    hide ValidFile, Typed, Emit, Norm, Decode, Fresh, ReadMessage, MessageBytes;
    EmitFits(file, ref, a);
    EmitFits(file, ref, b);
    MessageRoundTrip(file, ref, Emit(file, ref, a));
    MessageRoundTrip(file, ref, Emit(file, ref, b));
    MessageComesBack(file, ref, a);
    MessageComesBack(file, ref, b);
  }

  // ---------------------------------------------------------------- epochs

  /** No Timestamp outside a oneof is the Unix epoch, at any depth the encoder
      visits. (Inside a oneof the record is written whatever the time.) */
  ghost predicate NoEpoch(file: File, ref: nat, m: Msg)
    decreases m, 2
  {
    forall i | 0 <= i < |m.vals| :: NoEpochAt(file, ref, m.vals, m.discs, i)
  }

  ghost predicate NoEpochAt(file: File, ref: nat, vals: seq<Value>, discs: seq<nat>, i: nat)
    requires i < |vals|
    decreases vals, 1
  {
    if !InOneof(file, ref, i) then NoEpochValue(file, ShapeAt(file, ref, i), vals[i])
    else IsActive(file, ref, discs, i) ==> NoEpochBranch(file, ShapeAt(file, ref, i), vals[i])
  }

  ghost predicate NoEpochValue(file: File, shape: Shape, v: Value)
    decreases v, 0
  {
    match v
    case Time(t) => t != EPOCH
    case Sub(p) => shape.Nested? ==> NoEpochPointer(file, shape.ref, p)
    case Subs(ms, _) => shape.NestedList? ==> NoEpochList(file, shape.ref, ms)
    case _ => true
  }

  ghost predicate NoEpochBranch(file: File, shape: Shape, v: Value)
    decreases v, 0
  {
    match v
    case Sub(p) => shape.Nested? ==> NoEpochPointer(file, shape.ref, p)
    case _ => true
  }

  ghost predicate NoEpochPointer(file: File, ref: nat, p: Option<Msg>)
    decreases p, 0
  {
    match p
    case None => true
    case Some(m) => NoEpoch(file, ref, m)
  }

  ghost predicate NoEpochList(file: File, ref: nat, ms: seq<Option<Msg>>)
    decreases ms, 0
  {
    ms != [] ==> NoEpochPointer(file, ref, ms[0]) && NoEpochList(file, ref, ms[1..])
  }

  // ---------------------------------------------------------------- normal forms are written the same

  lemma FreshEmitsNothing(file: File, ref: nat)
    requires ValidFile(file)
    ensures Emit(file, ref, Fresh(file, ref)) == []
    decreases ref, 2
  {
    hide ValidFile, FreshValue, EmitFields, EmitOneofs;
    var m := Fresh(file, ref);
    FreshFieldsEmitNothing(file, ref, 0);
    FreshOneofsEmitNothing(file, ref, 0);
  }

  lemma {:induction false} FreshFieldsEmitNothing(file: File, ref: nat, from: nat)
    requires ValidFile(file)
    ensures EmitFields(file, ref, Fresh(file, ref).vals, from) == []
    decreases ref, 1, |Fresh(file, ref).vals| - from
  {
    hide ValidFile, Fresh, EmitField, FreshValue;
    if from < |Fresh(file, ref).vals| {
      FreshSize(file, ref);
      FreshAt(file, ref, from);
      FreshFieldEmitsNothing(file, ref, from);
      FreshFieldsEmitNothing(file, ref, from + 1);
    }
  }

  lemma FreshSize(file: File, ref: nat)
    ensures |Fresh(file, ref).vals| == |Fields(file, ref)| && |Fresh(file, ref).discs| == |Oneofs(file, ref)|
    ensures forall j | 0 <= j < |Oneofs(file, ref)| :: Fresh(file, ref).discs[j] == 0
  {
    hide FreshValue;
  }

  lemma FreshFieldEmitsNothing(file: File, ref: nat, i: nat)
    requires ValidFile(file) && i < |Fields(file, ref)|
    ensures EmitField(file, ShapeAt(file, ref, i), FreshValue(file, ref, ShapeAt(file, ref, i))) == []
    decreases ref, 0
  {
    hide ValidFile, Fresh, Emit;
    var shape := ShapeAt(file, ref, i);
    match shape
    case Map(_, _) => assert SortedKeys({}) == [];
    case Nested(r, pointer) =>
      if !pointer && r < ref {
        FreshEmitsNothing(file, r);
      }
    case _ =>
  }

  /** Field numbers start at 1, so 0 selects no branch. */
  lemma ZeroSelectsNothing(file: File, ref: nat, discs: seq<nat>, j: nat)
    requires ValidFile(file) && (j < |discs| ==> discs[j] == 0)
    ensures Active(file, ref, discs, j) == None
  {
    if Active(file, ref, discs, j).Some? {
      ActiveBranch(file, ref, discs, j);
    }
  }

  lemma {:induction false} FreshOneofsEmitNothing(file: File, ref: nat, from: nat)
    requires ValidFile(file)
    ensures EmitOneofs(file, ref, Fresh(file, ref).vals, Fresh(file, ref).discs, from) == []
    decreases |Fresh(file, ref).discs| - from
  {
    hide ValidFile, Fresh, EmitBranch, Active;
    if from < |Fresh(file, ref).discs| {
      FreshSize(file, ref);
      ZeroSelectsNothing(file, ref, Fresh(file, ref).discs, from);
      FreshOneofsEmitNothing(file, ref, from + 1);
    }
  }

  /** A value of size 0 normalises to the zero value. */
  lemma EmptyNormalisesToFresh(file: File, ref: nat, m: Msg)
    requires ValidFile(file) && Typed(file, ref, m) && Emit(file, ref, m) == []
    ensures Norm(file, ref, m) == Fresh(file, ref)
    ensures Emit(file, ref, Norm(file, ref, m)) == []
  {
    hide ValidFile, Typed, Norm, Fresh, Decode, Emit;
    MessageComesBack(file, ref, m);
    NothingDecoded(file, ref);
    FreshEmitsNothing(file, ref);
  }

  lemma PointerCanonical(file: File, ref: nat, pointer: bool, p: Option<Msg>)
    requires ValidFile(file) && TypedPointer(file, ref, pointer, p)
    ensures EmitPointer(file, ref, NormPointer(file, ref, pointer, p)) == EmitPointer(file, ref, p)
       <==> NoEpochPointer(file, ref, p)
    decreases p, 1
  {
    hide ValidFile, Typed, Norm, Emit, NoEpoch;
    match p
    case None =>
    case Some(m) =>
      EmitNormIff(file, ref, m);
      if Emit(file, ref, m) == [] {
        EmptyNormalisesToFresh(file, ref, m);
      }
  }

  lemma ElementCanonical(file: File, ref: nat, p: Option<Msg>)
    requires ValidFile(file) && (p.Some? ==> Typed(file, ref, p.value))
    ensures EmitList(file, ref, NormElement(file, ref, p)) == EmitElement(file, ref, p) <==> NoEpochPointer(file, ref, p)
    ensures |EmitList(file, ref, NormElement(file, ref, p))| == |EmitElement(file, ref, p)|
    decreases p, 1
  {
    hide ValidFile, Typed, Norm, Emit, NoEpoch;
    match p
    case None =>
    case Some(m) =>
      EmitNormIff(file, ref, m);
      OneElementList(file, ref, Norm(file, ref, m));
  }

  lemma OneElementList(file: File, ref: nat, m: Msg)
    ensures EmitList(file, ref, [Some(m)]) == [Tree(Emit(file, ref, m))]
  {
    hide Emit;
    assert [Some(m)][1..] == [];
    assert EmitList(file, ref, []) == [];
  }

  lemma {:induction false} EmitListConcat(file: File, ref: nat, a: seq<Option<Msg>>, b: seq<Option<Msg>>)
    ensures EmitList(file, ref, a + b) == EmitList(file, ref, a) + EmitList(file, ref, b)
    decreases |a|
  {
    hide EmitElement;
    if a == [] {
      assert a + b == b;
    } else {
      assert (a + b)[1..] == a[1..] + b;
      EmitListConcat(file, ref, a[1..], b);
    }
  }

  lemma {:induction false} ListCanonical(file: File, ref: nat, pointer: bool, ms: seq<Option<Msg>>)
    requires ValidFile(file) && TypedList(file, ref, pointer, ms)
    ensures EmitList(file, ref, NormList(file, ref, ms)) == EmitList(file, ref, ms) <==> NoEpochList(file, ref, ms)
    decreases ms, 2
  {
    hide ValidFile, Typed, NormElement, EmitElement, NoEpochPointer;
    if ms != [] {
      ElementCanonical(file, ref, ms[0]);
      ListCanonical(file, ref, pointer, ms[1..]);
      EmitListConcat(file, ref, NormElement(file, ref, ms[0]), NormList(file, ref, ms[1..]));
      SameHeadLength(EmitList(file, ref, NormElement(file, ref, ms[0])), EmitElement(file, ref, ms[0]),
                     EmitList(file, ref, NormList(file, ref, ms[1..])), EmitList(file, ref, ms[1..]));
    }
  }

  lemma SameHeadLength<T>(a: seq<T>, b: seq<T>, x: seq<T>, y: seq<T>)
    requires |a| == |b|
    ensures a + x == b + y <==> a == b && x == y
  {
    if a + x == b + y {
      assert a == (a + x)[..|a|] == (b + y)[..|b|] == b;
      assert x == (a + x)[|a|..] == (b + y)[|b|..] == y;
    }
  }

  lemma FieldCanonical(file: File, shape: Shape, v: Value)
    requires ValidFile(file) && TypedValue(file, shape, v)
    ensures EmitField(file, shape, NormValue(file, shape, v)) == EmitField(file, shape, v) <==> NoEpochValue(file, shape, v)
    decreases v, 1
  {
    hide ValidFile, Typed, InKind, SortedKeys, NormPointer, NormList, EmitPointer, EmitList, NoEpochPointer,
         NoEpochList;
    match shape
    case Nested(ref, pointer) => PointerCanonical(file, ref, pointer, v.p);
    case NestedList(ref, pointer) => ListCanonical(file, ref, pointer, v.ms);
    case _ =>
  }

  lemma BranchCanonical(file: File, shape: Shape, v: Value)
    requires ValidFile(file) && TypedValue(file, shape, v)
    ensures EmitBranch(file, shape, NormBranch(file, shape, v)) == EmitBranch(file, shape, v) <==> NoEpochBranch(file, shape, v)
    decreases v, 1
  {
    hide ValidFile, InKind, Emit, Norm, NoEpoch, Typed;
    match v
    case Sub(Some(m)) => EmitNormIff(file, shape.ref, m);
    case _ =>
  }

  // ---------------------------------------------------------------- whole messages

  /** Two structs of one type are written the same exactly when every field is. */
  lemma EmitFieldwise(file: File, ref: nat, a: Msg, b: Msg)
    requires ValidFile(file) && |a.vals| == |b.vals| == |Fields(file, ref)| && |a.discs| == |b.discs|
    requires forall j | 0 <= j < |a.discs| :: Active(file, ref, a.discs, j) == Active(file, ref, b.discs, j)
    ensures Emit(file, ref, a) == Emit(file, ref, b) <==>
            forall i | 0 <= i < |a.vals| :: Written(file, ref, a, i) == Written(file, ref, b, i)
  {
    hide ValidFile, Written, EmitFields, EmitOneofs, Deltas, Active;
    forall i | 0 <= i < |a.vals|
      ensures Deltas(Emit(file, ref, a), i) == Written(file, ref, a, i)
      ensures Deltas(Emit(file, ref, b), i) == Written(file, ref, b, i)
    {
      DeltasOfEmit(file, ref, a, i);
      DeltasOfEmit(file, ref, b, i);
    }
    if forall i | 0 <= i < |a.vals| :: Written(file, ref, a, i) == Written(file, ref, b, i) {
      SameFields(file, ref, a, b, 0);
      SameOneofs(file, ref, a, b, 0);
    }
  }

  lemma {:induction false} SameFields(file: File, ref: nat, a: Msg, b: Msg, from: nat)
    requires |a.vals| == |b.vals|
    requires forall i | 0 <= i < |a.vals| :: Written(file, ref, a, i) == Written(file, ref, b, i)
    ensures EmitFields(file, ref, a.vals, from) == EmitFields(file, ref, b.vals, from)
    decreases |a.vals| - from
  {
    hide EmitField, EmitBranch, IsActive;
    if from < |a.vals| {
      assert Written(file, ref, a, from) == Written(file, ref, b, from);
      SameFields(file, ref, a, b, from + 1);
    }
  }

  lemma {:induction false} SameOneofs(file: File, ref: nat, a: Msg, b: Msg, from: nat)
    requires ValidFile(file) && |a.vals| == |b.vals| && |a.discs| == |b.discs|
    requires forall j | 0 <= j < |a.discs| :: Active(file, ref, a.discs, j) == Active(file, ref, b.discs, j)
    requires forall i | 0 <= i < |a.vals| :: Written(file, ref, a, i) == Written(file, ref, b, i)
    ensures EmitOneofs(file, ref, a.vals, a.discs, from) == EmitOneofs(file, ref, b.vals, b.discs, from)
    decreases |a.discs| - from
  {
    hide ValidFile, Active, EmitBranch, Written, Of;
    if from < |a.discs| {
      match Active(file, ref, a.discs, from) {
        case None =>
        case Some(i) =>
          if i < |a.vals| {
            assert Written(file, ref, a, i) == Written(file, ref, b, i);
            ActiveWritten(file, ref, a, from, i);
            ActiveWritten(file, ref, b, from, i);
          }
      }
      SameOneofs(file, ref, a, b, from + 1);
    }
  }

  lemma ActiveWritten(file: File, ref: nat, m: Msg, j: nat, i: nat)
    requires ValidFile(file) && Active(file, ref, m.discs, j) == Some(i) && i < |m.vals|
    ensures Written(file, ref, m, i) == EmitBranch(file, ShapeAt(file, ref, i), m.vals[i])
  {
    hide ValidFile, Active, EmitBranch, EmitField;
    ActiveOnce(file, ref, m.discs, j, i);
  }

  lemma NormKeepsActive(file: File, ref: nat, m: Msg, j: nat)
    requires ValidFile(file) && j < |m.discs|
    ensures Active(file, ref, Norm(file, ref, m).discs, j) == Active(file, ref, m.discs, j)
  {
    hide ValidFile, NormAt;
    if Active(file, ref, m.discs, j).None? {
      ZeroSelectsNothing(file, ref, Norm(file, ref, m).discs, j);
    }
  }

  lemma NormKeepsIsActive(file: File, ref: nat, m: Msg, i: nat)
    requires ValidFile(file)
    ensures IsActive(file, ref, Norm(file, ref, m).discs, i) == IsActive(file, ref, m.discs, i)
  {
    hide ValidFile, NormAt, Norm, Active;
    if InOneof(file, ref, i) {
      var j := Fields(file, ref)[i].oneof.value;
      if j < |m.discs| {
        NormKeepsActive(file, ref, m, j);
      } else {
        NormDiscs(file, ref, m);
        NotActiveBeyond(file, ref, m.discs, j);
        NotActiveBeyond(file, ref, Norm(file, ref, m).discs, j);
      }
    }
  }

  lemma NormDiscs(file: File, ref: nat, m: Msg)
    ensures |Norm(file, ref, m).discs| == |m.discs| && |Norm(file, ref, m).vals| == |m.vals|
    ensures forall i | 0 <= i < |m.vals| :: Norm(file, ref, m).vals[i] == NormAt(file, ref, m.vals, m.discs, i)
  {
    hide NormAt, Active;
  }

  lemma NotActiveBeyond(file: File, ref: nat, discs: seq<nat>, j: nat)
    requires j >= |discs|
    ensures Active(file, ref, discs, j) == None
  {
  }

  lemma WrittenCanonical(file: File, ref: nat, m: Msg, i: nat)
    requires ValidFile(file) && Typed(file, ref, m) && i < |m.vals|
    ensures i < |Norm(file, ref, m).vals|
    ensures Written(file, ref, Norm(file, ref, m), i) == Written(file, ref, m, i) <==> NoEpochAt(file, ref, m.vals, m.discs, i)
    decreases m, 1
  {
    hide ValidFile, Norm, TypedValue, EmitField, EmitBranch, NormValue, NormBranch, NoEpochValue, NoEpochBranch,
         IsActive;
    NormDiscs(file, ref, m);
    NormKeepsIsActive(file, ref, m, i);
    assert TypedValue(file, ShapeAt(file, ref, i), m.vals[i]);
    assert m.vals[i] < m;
    FieldCanonical(file, ShapeAt(file, ref, i), m.vals[i]);
    BranchCanonical(file, ShapeAt(file, ref, i), m.vals[i]);
  }

  /** A value and what it comes back as are written the same exactly when it
      holds no epoch. */
  lemma {:induction false} EmitNormIff(file: File, ref: nat, m: Msg)
    requires ValidFile(file) && Typed(file, ref, m)
    ensures Emit(file, ref, Norm(file, ref, m)) == Emit(file, ref, m) <==> NoEpoch(file, ref, m)
    decreases m, 2
  {
    hide ValidFile, Norm, TypedValue, NoEpochAt, Written, Emit, Active;
    NormDiscs(file, ref, m);
    forall j | 0 <= j < |m.discs|
      ensures Active(file, ref, Norm(file, ref, m).discs, j) == Active(file, ref, m.discs, j)
    {
      NormKeepsActive(file, ref, m, j);
    }
    forall i | 0 <= i < |m.vals|
      ensures Written(file, ref, Norm(file, ref, m), i) == Written(file, ref, m, i) <==> NoEpochAt(file, ref, m.vals, m.discs, i)
    {
      WrittenCanonical(file, ref, m, i);
    }
    EmitFieldwise(file, ref, Norm(file, ref, m), m);
  }

  // ---------------------------------------------------------------- the wire

  lemma NormTyped(file: File, ref: nat, m: Msg)
    requires ValidFile(file) && Typed(file, ref, m)
    ensures Typed(file, ref, Norm(file, ref, m))
  {
    hide ValidFile, Norm, Typed, Decode, Fresh, Emit;
    MessageComesBack(file, ref, m);
    FreshTyped(file, ref);
    EmitFits(file, ref, m);
    FitsWithSkips(file, ref, Emit(file, ref, m));
    DecodeTyped(file, ref, Fresh(file, ref), Emit(file, ref, m));
  }

  lemma {:induction false} FitsWithSkips(file: File, ref: nat, recs: seq<Rec>)
    requires RecsFit(file, ref, recs, false)
    ensures RecsFit(file, ref, recs, true)
    decreases recs, 2
  {
    hide RecFits;
    if recs != [] {
      RecFitsWithSkips(file, ref, recs[0]);
      FitsWithSkips(file, ref, recs[1..]);
    }
  }

  lemma RecFitsWithSkips(file: File, ref: nat, r: Rec)
    requires RecFits(file, ref, r, false)
    ensures RecFits(file, ref, r, true)
    decreases r, 1
  {
    hide InKind;
    DeltaFitsWithSkips(file, Fields(file, ref)[r.idx].shape, r.d);
  }

  lemma DeltaFitsWithSkips(file: File, shape: Shape, d: Delta)
    requires DeltaFits(file, shape, d, false)
    ensures DeltaFits(file, shape, d, true)
    decreases d, 0
  {
    hide InKind;
    if d.Tree? {
      FitsWithSkips(file, shape.ref, d.recs);
    }
  }

  /** The invariant of the fuzz suite: whatever bytes decode, the value
      marshals to bytes that decode again, and marshalling that second value
      gives the same bytes exactly when the first held no epoch. */
  lemma WireStableIff(file: File, ref: nat, data: bytes)
    requires ValidFile(file) && Unmarshal(file, ref, Fresh(file, ref), data).Ok?
    requires |Marshal(file, ref, Unmarshal(file, ref, Fresh(file, ref), data).value)| < MAX_LEN
    ensures var first := Unmarshal(file, ref, Fresh(file, ref), data).value;
            var second := Unmarshal(file, ref, Fresh(file, ref), Marshal(file, ref, first));
            && second.Ok?
            && (Marshal(file, ref, second.value) == Marshal(file, ref, first) <==> NoEpoch(file, ref, first))
  {
    hide ValidFile, Norm, Decode, Fresh, ReadMessage, NoEpoch, Typed, RecsFit, Emit, MessageBytes;
    var recs := ReadMessage(file, ref, data).value;
    var first := Decode(file, ref, Fresh(file, ref), recs);
    FreshTyped(file, ref);
    ReadFits(file, ref, data);
    DecodeTyped(file, ref, Fresh(file, ref), recs);
    UnmarshalMarshal(file, ref, first);
    EmitNormIff(file, ref, first);
    NormTyped(file, ref, first);
    if Marshal(file, ref, Norm(file, ref, first)) == Marshal(file, ref, first) {
      MarshalInjective(file, ref, first, Norm(file, ref, first));
    }
  }

  /** A message whose Timestamp fields are all oneof branches, if there are any. */
  predicate Untimed(file: File, ref: nat) {
    forall i | 0 <= i < |Fields(file, ref)| :: ShapeAt(file, ref, i).Timestamp? ==> InOneof(file, ref, i)
  }

  /** So it is with all messages that can stand below it. */
  ghost predicate NoTimestampFields(file: File, ref: nat) {
    forall to: nat, n: nat | Reaches(file, ref, to, true, n) :: Untimed(file, to)
  }

  lemma NoTimestampsBelow(file: File, ref: nat, i: nat)
    requires NoTimestampFields(file, ref) && i < |Fields(file, ref)|
    ensures Untimed(file, ref)
    ensures ShapeAt(file, ref, i).Nested? || ShapeAt(file, ref, i).NestedList? ==> NoTimestampFields(file, ShapeAt(file, ref, i).ref)
  {
    hide ShapeAt, Untimed;
    ReachesHere(file, ref, true);
    if ShapeAt(file, ref, i).Nested? || ShapeAt(file, ref, i).NestedList? {
      forall to: nat, n: nat | Reaches(file, ShapeAt(file, ref, i).ref, to, true, n)
        ensures Untimed(file, to)
      {
        ReachesOn(file, ref, i, to, true, n);
      }
    }
  }

  lemma PointerWithoutTimestamps(file: File, ref: nat, pointer: bool, p: Option<Msg>)
    requires NoTimestampFields(file, ref) && TypedPointer(file, ref, pointer, p)
    ensures NoEpochPointer(file, ref, p)
    decreases p, 1
  {
    hide NoTimestampFields, NoEpoch, Typed;
    if p.Some? {
      NoEpochWithoutTimestamps(file, ref, p.value);
    }
  }

  lemma {:induction false} ListWithoutTimestamps(file: File, ref: nat, pointer: bool, ms: seq<Option<Msg>>)
    requires NoTimestampFields(file, ref) && TypedList(file, ref, pointer, ms)
    ensures NoEpochList(file, ref, ms)
    decreases ms, 2
  {
    hide NoTimestampFields, NoEpochPointer, TypedPointer;
    if ms != [] {
      PointerWithoutTimestamps(file, ref, pointer, ms[0]);
      ListWithoutTimestamps(file, ref, pointer, ms[1..]);
    }
  }

  lemma FieldWithoutTimestamps(file: File, ref: nat, m: Msg, i: nat, v: Value)
    requires NoTimestampFields(file, ref) && i < |m.vals| == |Fields(file, ref)| && v == m.vals[i]
    requires TypedValue(file, ShapeAt(file, ref, i), v)
    ensures NoEpochAt(file, ref, m.vals, m.discs, i)
    decreases v, 3
  {
    hide InKind, NoEpochPointer, NoEpochList, TypedPointer, TypedList, IsActive;
    NoTimestampsBelow(file, ref, i);
    assert !InOneof(file, ref, i) ==> !ShapeAt(file, ref, i).Timestamp?;
    hide NoTimestampFields, Untimed;
    match ShapeAt(file, ref, i)
    case Nested(r, pointer) => PointerWithoutTimestamps(file, r, pointer, v.p);
    case NestedList(r, pointer) => ListWithoutTimestamps(file, r, pointer, v.ms);
    case _ =>
  }

  /** Without such fields every value is free of epochs, so the wire is stable
      for all of them. */
  lemma {:induction false} NoEpochWithoutTimestamps(file: File, ref: nat, m: Msg)
    requires NoTimestampFields(file, ref) && Typed(file, ref, m)
    ensures NoEpoch(file, ref, m)
    decreases m, 2
  {
    hide NoTimestampFields, TypedValue, NoEpochAt;
    forall i | 0 <= i < |m.vals|
      ensures NoEpochAt(file, ref, m.vals, m.discs, i)
    {
      assert m.vals[i] < m;
      assert TypedValue(file, ShapeAt(file, ref, i), m.vals[i]);
      FieldWithoutTimestamps(file, ref, m, i, m.vals[i]);
    }
  }

  /** One message with a Timestamp field, as TimeHolder has. */
  const STAMPED: File := [Info([Field(1, Timestamp, None)], [])]

  /** An input that is not stable: one second less a billion nanoseconds is the
      epoch, which marshals to an empty body, which reads as the zero time,
      which marshals to nothing. */
  lemma EpochIsNotStable()
    ensures var data := MessageBytes(STAMPED, 0, [Known(0, Body(Stamp(1, -1_000_000_000)))]);
            var first := Unmarshal(STAMPED, 0, Fresh(STAMPED, 0), data);
            && first == Ok(Msg([Time(EPOCH)], []))
            && Marshal(STAMPED, 0, first.value) == [0x0a, 0x00]
            && Unmarshal(STAMPED, 0, Fresh(STAMPED, 0), [0x0a, 0x00]) == Ok(Msg([Time(ZERO_TIME)], []))
            && Marshal(STAMPED, 0, Msg([Time(ZERO_TIME)], [])) == []
  {
    hide MessageBytes, Fresh, Emit, ReadMessage, Decode;
    StampedValid();
    var rec, empty := Known(0, Body(Stamp(1, -1_000_000_000))), Known(0, Body(Stamp(0, 0)));
    StampedRead(rec);
    StampedRead(empty);
    EpochFromCarry();
    StampedEmit(EPOCH);
    StampedEmit(ZERO_TIME);
    EmptyStampBytes();
  }

  lemma EmptyStampBytes()
    ensures MessageBytes(STAMPED, 0, [Known(0, Body(Stamp(0, 0)))]) == [0x0a, 0x00]
    ensures MessageBytes(STAMPED, 0, []) == []
  {
    var empty := Known(0, Body(Stamp(0, 0)));
    assert RecordBytes(STAMPED, 0, empty) == [0x0a] + [0x00];
    assert [empty][1..] == [];
  }

  lemma StampedValid()
    ensures ValidFile(STAMPED)
    ensures Fields(STAMPED, 0) == [Field(1, Timestamp, None)] && Oneofs(STAMPED, 0) == []
    ensures ShapeAt(STAMPED, 0, 0) == Timestamp
  {
    assert STAMPED[0] == Info([Field(1, Timestamp, None)], []);
    assert FindField(STAMPED[0].fields, 1) == Some(0);
  }

  lemma StampedRead(rec: Rec)
    requires rec.Known? && rec.idx == 0 && rec.d.Body?
    ensures Unmarshal(STAMPED, 0, Fresh(STAMPED, 0), MessageBytes(STAMPED, 0, [rec]))
         == Ok(Msg([Time(StampToTimestamp(rec.d.stamp))], []))
  {
    hide ReadMessage, StampToTimestamp, Decode, Fresh, MessageBytes, ValidFile;
    StampedValid();
    assert RecsFit(STAMPED, 0, [rec], false) by {
      assert rec == Known(0, Body(rec.d.stamp));
      assert DeltaFits(STAMPED, Timestamp, Body(rec.d.stamp), false);
      assert [rec][1..] == [];
    }
    StampedShort(rec);
    MessageRoundTrip(STAMPED, 0, [rec]);
    StampedDecode(rec);
  }

  lemma StampedShort(rec: Rec)
    requires rec.Known? && rec.idx == 0 && rec.d.Body?
    ensures |MessageBytes(STAMPED, 0, [rec])| < 100
  {
    hide StampBytes;
    StampedValid();
    StampLength(rec.d.stamp);
    assert [rec][1..] == [];
    assert MessageBytes(STAMPED, 0, [rec]) == RecordBytes(STAMPED, 0, rec) + [];
    assert |VarintBytes(|StampBytes(rec.d.stamp)|)| == 1;
    assert |TagBytes(1, 2)| == 1;
  }

  lemma StampedDecode(rec: Rec)
    requires rec.Known? && rec.idx == 0 && rec.d.Body?
    ensures Decode(STAMPED, 0, Fresh(STAMPED, 0), [rec]) == Msg([Time(StampToTimestamp(rec.d.stamp))], [])
  {
    hide ValidFile, StampToTimestamp;
    StampedValid();
    StartFresh(STAMPED, 0);
    assert [rec][1..] == [];
    var blank := Fresh(STAMPED, 0);
    assert blank.vals == [Time(ZERO_TIME)] && blank.discs == [];
    var st := Apply(STAMPED, 0, blank, rec);
    assert rec == Known(0, Body(rec.d.stamp));
    assert Update(STAMPED, Timestamp, blank.vals[0], Body(rec.d.stamp)) == Time(StampToTimestamp(rec.d.stamp));
    assert st.vals == [Time(StampToTimestamp(rec.d.stamp))];
    assert ApplyAll(STAMPED, 0, blank, [rec]) == st;
    assert Finish(STAMPED, 0, st, [rec]).vals == st.vals;
  }

  lemma StampedEmit(t: Instant)
    ensures Emit(STAMPED, 0, Msg([Time(t)], [])) == if t == ZERO_TIME then [] else [Known(0, Body(TimestampStamp(t)))]
  {
    StampedValid();
    var m := Msg([Time(t)], []);
    var ds := EmitField(STAMPED, Timestamp, Time(t));
    assert ds != [] ==> ds[1..] == [];
    assert EmitAt(STAMPED, 0, m.vals, 0) == Of(0, ds);
    assert EmitFields(STAMPED, 0, m.vals, 1) == [];
    assert EmitFields(STAMPED, 0, m.vals, 0) == Of(0, ds) + [];
    assert EmitOneofs(STAMPED, 0, m.vals, m.discs, 0) == [];
  }
}
