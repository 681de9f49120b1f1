// Decoding into a used receiver, and what it shares with decoding into a new
// one.

module Reuse {
  import opened Base
  import opened Schema
  import opened Records
  import opened Values
  import opened Encoder
  import opened Decoder
  import opened RoundTrip
  import opened Typing
  import opened Canonical
  import opened Resets
  import opened Discriminators
  import opened Matching
  import Bitmap

  // ---------------------------------------------------------------- used receivers and new ones

  /** Receivers with the same discriminators at every depth decode alike,
      whatever else they hold. */
  lemma SameDiscriminatorsAlike(file: File, ref: nat, a: Msg, b: Msg, recs: seq<Rec>)
    requires ValidFile(file) && Typed(file, ref, a) && Typed(file, ref, b) && RecsFit(file, ref, recs, true)
    requires ShadowOf(file, ref, a) == ShadowOf(file, ref, b)
    ensures Alike(file, ref, Decode(file, ref, a, recs), Decode(file, ref, b, recs))
  {
    hide ValidFile, Typed, Decode, RecsFit, ShadowOf, After, Alike;
    AlikeIff(file, ref, a, b, recs);
  }

  /** When the receiver's discriminators are all 0, decoding into it and into a
      new object yield values that marshal to the same bytes. */
  lemma ReusedReceiverSameWire(file: File, ref: nat, recv: Msg, data: bytes)
    requires ValidFile(file) && Typed(file, ref, recv) && ShadowOf(file, ref, recv) == Quiet
    ensures var used, anew := Unmarshal(file, ref, recv, data), Unmarshal(file, ref, Fresh(file, ref), data);
            match used
            case Err(e) => anew == Err(e)
            case Ok(x) => anew.Ok? && Marshal(file, ref, x) == Marshal(file, ref, anew.value)
  {
    hide ValidFile, Typed, Decode, Emit, ReadMessage, RecsFit, Fresh, ShadowOf;
    if ReadMessage(file, ref, data).Ok? {
      FreshTyped(file, ref);
      FreshQuiet(file, ref);
      ReadFits(file, ref, data);
      SameDiscriminatorsAlike(file, ref, recv, Fresh(file, ref), ReadMessage(file, ref, data).value);
    }
  }

  /** And they show the same when the receiver is one that is forgotten, now and
      after any further decodes (MatchDecodes); no other receiver has this for
      every wire (ForgetsIff). */
  lemma PooledDecodeIsFreshDecode(file: File, ref: nat, recv: Msg, data: bytes)
    requires ValidFile(file) && Typed(file, ref, recv) && Forgotten(file, ref, recv)
    ensures var used, anew := Unmarshal(file, ref, recv, data), Unmarshal(file, ref, Fresh(file, ref), data);
            && Shown(used) == Shown(anew)
            && (used.Ok? ==> Matches(file, ref, used.value, anew.value))
  {
    hide ValidFile, Typed, Decode, ReadMessage, RecsFit, Fresh, Forgotten, Matches, Visible;
    if ReadMessage(file, ref, data).Ok? {
      var recs := ReadMessage(file, ref, data).value;
      ReadFits(file, ref, data);
      ForgottenDecodes(file, ref, recv, recs);
      MatchVisible(file, ref, Decode(file, ref, recv, recs), Decode(file, ref, Fresh(file, ref), recs));
    }
  }

  /** What the two lemmas say of one sequence of records. */
  lemma QuietReceiver(file: File, ref: nat, recv: Msg, recs: seq<Rec>)
    requires ValidFile(file) && Typed(file, ref, recv) && RecsFit(file, ref, recs, true)
    ensures var used, anew := Decode(file, ref, recv, recs), Decode(file, ref, Fresh(file, ref), recs);
            && (ShadowOf(file, ref, recv) == Quiet ==> Alike(file, ref, used, anew))
            && (Forgotten(file, ref, recv) ==> Visible(used) == Visible(anew))
  {
    hide ValidFile, Typed, Decode, RecsFit, Fresh, ShadowOf, Alike, Forgotten, Matches, Visible;
    FreshTyped(file, ref);
    FreshQuiet(file, ref);
    if ShadowOf(file, ref, recv) == Quiet {
      SameDiscriminatorsAlike(file, ref, recv, Fresh(file, ref), recs);
    }
    if Forgotten(file, ref, recv) {
      ForgottenDecodes(file, ref, recv, recs);
      MatchVisible(file, ref, Decode(file, ref, recv, recs), Decode(file, ref, Fresh(file, ref), recs));
    }
  }

  /** Reset then decode: the discriminators are 0, so oneofs are no exception.
      The values show the same when nothing stays tied; for every wire only then
      (ResetForgetsIff). */
  lemma ResetThenDecode(file: File, ref: nat, recv: Msg, data: bytes)
    requires ValidFile(file) && Typed(file, ref, recv)
    ensures var used, anew := Unmarshal(file, ref, Reset(file, ref, recv), data), Unmarshal(file, ref, Fresh(file, ref), data);
            match used
            case Err(e) => anew == Err(e)
            case Ok(x) => anew.Ok? && Marshal(file, ref, x) == Marshal(file, ref, anew.value)
    ensures Untied(file, ref, recv) ==>
              Shown(Unmarshal(file, ref, Reset(file, ref, recv), data)) == Shown(Unmarshal(file, ref, Fresh(file, ref), data))
  {
    hide ValidFile, Typed, Decode, Emit, ReadMessage, RecsFit, Fresh, ShadowOf, Reset, Untied, Forgotten, Visible;
    ResetTyped(file, ref, recv);
    ResetQuiet(file, ref, recv);
    ResetForgotten(file, ref, recv);
    ReusedReceiverSameWire(file, ref, Reset(file, ref, recv), data);
    if Untied(file, ref, recv) {
      PooledDecodeIsFreshDecode(file, ref, Reset(file, ref, recv), data);
    }
  }

  /** A record of a branch of oneof `j` is among the records. */
  predicate BranchReceived(file: File, ref: nat, recs: seq<Rec>, j: nat) {
    exists k | 0 <= k < |recs| ::
      recs[k].Known? && recs[k].idx < |Fields(file, ref)| && Fields(file, ref)[recs[k].idx].oneof == Some(j)
  }

  lemma {:induction false} LastBranchIff(file: File, ref: nat, recs: seq<Rec>, j: nat, d: nat)
    ensures BranchReceived(file, ref, recs, j) ==> LastBranch(file, ref, recs, j, d) == LastBranch(file, ref, recs, j, 0)
    ensures !BranchReceived(file, ref, recs, j) ==> LastBranch(file, ref, recs, j, d) == d
    decreases |recs|
  {
    if recs != [] {
      var here := recs[0].Known? && recs[0].idx < |Fields(file, ref)| && Fields(file, ref)[recs[0].idx].oneof == Some(j);
      if here {
        assert LastBranch(file, ref, recs, j, d) == LastBranch(file, ref, recs, j, 0);
      } else {
        LastBranchIff(file, ref, recs[1..], j, d);
        LastBranchIff(file, ref, recs[1..], j, 0);
        assert BranchReceived(file, ref, recs[1..], j) ==> BranchReceived(file, ref, recs, j) by {
          if BranchReceived(file, ref, recs[1..], j) {
            var k :| 0 <= k < |recs[1..]| && recs[1..][k].Known? && recs[1..][k].idx < |Fields(file, ref)|
                     && Fields(file, ref)[recs[1..][k].idx].oneof == Some(j);
            assert recs[k + 1] == recs[1..][k];
          }
        }
        assert BranchReceived(file, ref, recs, j) ==> BranchReceived(file, ref, recs[1..], j) by {
          if BranchReceived(file, ref, recs, j) {
            var k :| 0 <= k < |recs| && recs[k].Known? && recs[k].idx < |Fields(file, ref)|
                     && Fields(file, ref)[recs[k].idx].oneof == Some(j);
            assert recs[k] == recs[1..][k - 1];
          }
        }
      }
    }
  }

  /** UnmarshalCodec does not reset discriminators: decoding into a used
      receiver gives the discriminator a new object would have exactly when a
      branch of that oneof is received or the receiver's was 0 already. */
  lemma DiscriminatorSurvivesIff(file: File, ref: nat, recv: Msg, recs: seq<Rec>, j: nat)
    requires Typed(file, ref, recv) && j < |recv.discs|
    ensures j < |Decode(file, ref, recv, recs).discs| && j < |Decode(file, ref, Fresh(file, ref), recs).discs|
    ensures Decode(file, ref, recv, recs).discs[j] == Decode(file, ref, Fresh(file, ref), recs).discs[j]
       <==> BranchReceived(file, ref, recs, j) || recv.discs[j] == 0
  {
    hide TypedValue, Decode, Fresh, LastBranch, BranchReceived;
    FreshSize(file, ref);
    DecodedDisc(file, ref, recv, recs, j);
    DecodedDisc(file, ref, Fresh(file, ref), recs, j);
    LastBranchIff(file, ref, recs, j, recv.discs[j]);
    LastBranchIff(file, ref, recs, j, 0);
  }

  lemma {:induction false} FoldIsPresent(file: File, shape: Shape, v: Value, ds: seq<Delta>)
    requires Poolable(shape) && ds != [] && forall k | 0 <= k < |ds| :: DeltaFits(file, shape, ds[k], true)
    ensures Fold(file, shape, v, ds) != Nil(shape)
    decreases |ds|
  {
    hide Decode, InKind, RecsFit;
    var next := Update(file, shape, v, ds[0]);
    if ds[1..] != [] {
      FoldIsPresent(file, shape, next, ds[1..]);
    }
  }

  /** Optional scalars and singular messages held by pointer. */
  predicate HeldByPointer(shape: Shape) {
    shape.Optional? || (shape.Nested? && shape.pointer)
  }

  /** A bitmap of 64 bits can tell whether the field was received. */
  predicate FitsBitmap(f: Field) {
    Bitmap.Marked(Bitmap.Mark(0, f.num), f.num)
  }

  /** A message pools exactly when the bitmap can hold the number of every field
      held by pointer. */
  lemma PoolingIff(fields: seq<Field>)
    ensures Pooling(fields) <==> forall i | 0 <= i < |fields| && HeldByPointer(fields[i].shape) :: FitsBitmap(fields[i])
  {
    forall i | 0 <= i < |fields|
      ensures FitsBitmap(fields[i]) <==> fields[i].num <= 63
    {
      Bitmap.MarkMarks(0, fields[i].num, fields[i].num);
      Bitmap.NothingMarked(fields[i].num);
    }
  }

  predicate Received(recs: seq<Rec>, i: nat) {
    exists k | 0 <= k < |recs| :: recs[k].Known? && recs[k].idx == i
  }

  lemma {:induction false} ReceivedIff(recs: seq<Rec>, i: nat)
    ensures Received(recs, i) <==> Deltas(recs, i) != []
  {
    if recs != [] {
      ReceivedIff(recs[1..], i);
      if k :| 0 <= k < |recs[1..]| && recs[1..][k].Known? && recs[1..][k].idx == i {
        assert recs[k + 1] == recs[1..][k];
      }
      if k :| 0 <= k < |recs| && recs[k].Known? && recs[k].idx == i {
        assert k > 0 ==> recs[1..][k - 1] == recs[k];
      }
    }
  }

  /** After a decode a pointer is nil exactly when its field was not received and
      it is a scalar's, or was nil, or the bitmap holds every pointer of the
      message: without pooling an absent message stays behind, reset but not nil. */
  lemma AbsentPointerIff(file: File, ref: nat, recv: Msg, recs: seq<Rec>, i: nat)
    requires ValidFile(file) && Typed(file, ref, recv) && RecsFit(file, ref, recs, true)
    requires i < |recv.vals| && HeldByPointer(ShapeAt(file, ref, i))
    ensures i < |Decode(file, ref, recv, recs).vals|
    ensures Decode(file, ref, recv, recs).vals[i] == (if ShapeAt(file, ref, i).Optional? then Opt(None) else Sub(None)) <==>
            && !Received(recs, i)
            && (|| ShapeAt(file, ref, i).Optional?
                || recv.vals[i] == Sub(None)
                || forall k | 0 <= k < |Fields(file, ref)| && HeldByPointer(Fields(file, ref)[k].shape) ::
                     Fields(file, ref)[k].num <= 63)
  {
    hide ValidFile, Decode, Fold, Deltas, RecsFit, InKind, Reset, Typed, Received;
    TypedAt(file, ref, recv, i);
    DecodedField(file, ref, recv, recs, i);
    DeltasFitField(file, ref, recs, i);
    ReceivedIff(recs, i);
    if Deltas(recs, i) != [] {
      FoldIsPresent(file, ShapeAt(file, ref, i), Start(file, ref, recv).vals[i], Deltas(recs, i));
    } else {
      FoldNothing(file, ShapeAt(file, ref, i), Start(file, ref, recv).vals[i]);
    }
  }

  /** A nested message numbered 64 is not pooled. */
  const UNPOOLED: File := [Info([], []), Info([Field(64, Nested(0, true), None)], [])]

  /** There an absent message stays, emptied, in a receiver that held one, and
      is nil in a new object. */
  lemma UnpooledPointerStays()
    ensures var recv := Msg([Sub(Some(Msg([], [])))], []);
            && Decode(UNPOOLED, 1, recv, []) == recv
            && Decode(UNPOOLED, 1, Fresh(UNPOOLED, 1), []) == Msg([Sub(None)], [])
  {
    assert Fields(UNPOOLED, 1) == [Field(64, Nested(0, true), None)] && Fields(UNPOOLED, 0) == [];
    assert Poolable(Fields(UNPOOLED, 1)[0].shape);
    assert !Pooling(Fields(UNPOOLED, 1));
    hide Pooling;
    UnpooledEmptyDecode(Sub(None));
    UnpooledEmptyDecode(Sub(Some(Msg([], []))));
    assert Fresh(UNPOOLED, 1).vals == [Sub(None)];
  }

  lemma UnpooledEmptyDecode(v: Value)
    requires v == Sub(None) || v == Sub(Some(Msg([], [])))
    requires !Pooling(Fields(UNPOOLED, 1)) && ShapeAt(UNPOOLED, 1, 0) == Nested(0, true)
    ensures Decode(UNPOOLED, 1, Msg([v], []), []) == Msg([v], [])
  {
    hide Pooling, Fresh;
    var recv := Msg([v], []);
    assert Reset(UNPOOLED, 0, Msg([], [])) == Msg([], []);
    assert Start(UNPOOLED, 1, recv).vals == [v];
    assert Finish(UNPOOLED, 1, recv, []).vals == [v];
  }

  // ---------------------------------------------------------------- what shows is what is written

  /** Nothing that is written stands in spare places. */
  lemma {:induction false} VisibleWritten(file: File, ref: nat, m: Msg)
    requires ValidFile(file) && Typed(file, ref, m)
    ensures Emit(file, ref, Visible(m)) == Emit(file, ref, m)
    decreases m, 1
  {
    hide ValidFile, TypedValue, VisibleValue, EmitField, EmitBranch, IsActive, Emit, Visible, Active;
    var x := Visible(m);
    forall i | 0 <= i < |m.vals|
      ensures Written(file, ref, x, i) == Written(file, ref, m, i)
    {
      assert TypedValue(file, ShapeAt(file, ref, i), m.vals[i]);
      assert m.vals[i] < m;
      VisibleAt(m, i);
      VisibleValueWritten(file, ShapeAt(file, ref, i), m.vals[i]);
    }
    EmitFieldwise(file, ref, x, m);
  }

  lemma VisibleValueWritten(file: File, shape: Shape, v: Value)
    requires ValidFile(file) && TypedValue(file, shape, v)
    ensures EmitField(file, shape, VisibleValue(v)) == EmitField(file, shape, v)
    ensures EmitBranch(file, shape, VisibleValue(v)) == EmitBranch(file, shape, v)
    decreases v, 1
  {
    hide ValidFile, InKind, Typed, Emit, Visible, ShadowOf, EmitList, TypedList;
    match shape
    case Nested(r, _) =>
      if v.p.Some? {
        VisibleWritten(file, r, v.p.value);
      }
    case NestedList(r, pointer) => VisibleElements(file, r, pointer, v.ms, VisibleValue(v).ms);
    case _ =>
  }

  lemma {:induction false} VisibleElements(file: File, r: nat, pointer: bool, ms: seq<Option<Msg>>, qs: seq<Option<Msg>>)
    requires ValidFile(file) && TypedList(file, r, pointer, ms)
    requires |qs| == |ms| && forall k | 0 <= k < |ms| :: qs[k] == VisiblePointer(ms[k])
    ensures EmitList(file, r, qs) == EmitList(file, r, ms)
    decreases ms, 1
  {
    hide ValidFile, TypedPointer, EmitElement, VisiblePointer;
    if ms != [] {
      VisibleElement(file, r, pointer, ms[0]);
      VisibleElements(file, r, pointer, ms[1..], qs[1..]);
    }
  }

  lemma VisibleElement(file: File, r: nat, pointer: bool, p: Option<Msg>)
    requires ValidFile(file) && TypedPointer(file, r, pointer, p)
    ensures EmitElement(file, r, VisiblePointer(p)) == EmitElement(file, r, p)
    decreases p, 1
  {
    hide ValidFile, Typed, Emit, Visible;
    if p.Some? {
      VisibleWritten(file, r, p.value);
    }
  }

  // ---------------------------------------------------------------- what was written, in a used receiver

  /** What was written comes back in a used receiver too. */
  lemma RecycledRoundTrip(file: File, ref: nat, recv: Msg, m: Msg)
    requires ValidFile(file) && Typed(file, ref, m) && Typed(file, ref, recv) && |Marshal(file, ref, m)| < MAX_LEN
    ensures var r := Unmarshal(file, ref, recv, Marshal(file, ref, m));
            && r.Ok?
            && (ShadowOf(file, ref, recv) == Quiet ==> Alike(file, ref, r.value, Norm(file, ref, m)))
            && (Forgotten(file, ref, recv) ==> Visible(r.value) == Visible(Norm(file, ref, m)))
  {
    hide ValidFile, Typed, Decode, ReadMessage, RecsFit, Fresh, ShadowOf, Emit, Norm, MessageBytes, Forgotten, Alike,
         Visible;
    EmitFits(file, ref, m);
    MessageRoundTrip(file, ref, Emit(file, ref, m));
    MessageComesBack(file, ref, m);
    FitsWithSkips(file, ref, Emit(file, ref, m));
    QuietReceiver(file, ref, recv, Emit(file, ref, m));
  }
}
