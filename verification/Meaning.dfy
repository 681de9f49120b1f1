// What records mean field by field: repeated fields append, maps update,
// singular fields and discriminators take the last occurrence. Decoding the
// concatenation of two wires is the two decodes put together in that way.

module Meaning {
  import opened Base
  import opened Wire
  import opened Schema
  import opened Records
  import opened Streams
  import opened Values
  import opened Encoder
  import opened Decoder
  import opened RoundTrip
  import opened Typing
  import opened Canonical
  import opened Resets
  import opened Discriminators
  import opened Matching
  import opened Forgetting
  import opened Reuse

  predicate AllFit(file: File, shape: Shape, ds: seq<Delta>) {
    forall k | 0 <= k < |ds| :: DeltaFits(file, shape, ds[k], true)
  }

  // ---------------------------------------------------------------- repeated fields append

  lemma {:induction false} FoldList(file: File, k: Kind, was: seq<Scalar>, ds: seq<Delta>)
    requires AllFit(file, Repeated(k), ds)
    ensures var added := Fold(file, Repeated(k), List([]), ds);
            added.List? && Fold(file, Repeated(k), List(was), ds) == List(was + added.es)
    decreases |ds|
  {
    hide InKind;
    if ds == [] {
      assert was + [] == was;
    } else {
      assert DeltaFits(file, Repeated(k), ds[0], true);
      var es := ds[0].es;
      FoldList(file, k, [] + es, ds[1..]);
      FoldList(file, k, was + es, ds[1..]);
      var rest := Fold(file, Repeated(k), List([]), ds[1..]).es;
      assert was + es + rest == was + ([] + es + rest);
    }
  }

  /** Into a slice without spare objects. */
  lemma {:induction false} FoldMessages(file: File, ref: nat, pointer: bool, was: seq<Option<Msg>>, ds: seq<Delta>)
    requires AllFit(file, NestedList(ref, pointer), ds)
    ensures var added := Fold(file, NestedList(ref, pointer), Subs([], map[]), ds);
            && added.Subs? && added.spare == map[]
            && Fold(file, NestedList(ref, pointer), Subs(was, map[]), ds) == Subs(was + added.ms, map[])
    decreases |ds|
  {
    hide InKind, Decode, RecsFit, Fresh;
    if ds == [] {
      assert was + [] == was;
    } else {
      assert DeltaFits(file, NestedList(ref, pointer), ds[0], true);
      var m := [Some(Decode(file, ref, Fresh(file, ref), ds[0].recs))];
      var none: map<nat, Msg> := map[];
      assert none - {|was|} == none && none - {0} == none;
      FoldMessages(file, ref, pointer, [] + m, ds[1..]);
      FoldMessages(file, ref, pointer, was + m, ds[1..]);
      var rest := Fold(file, NestedList(ref, pointer), Subs([], map[]), ds[1..]).ms;
      assert was + m + rest == was + ([] + m + rest);
    }
  }

  /** Every nested record of a repeated message adds exactly one element. */
  lemma {:induction false} OneElementPerRecord(file: File, ref: nat, pointer: bool, v: Value, ds: seq<Delta>)
    requires AllFit(file, NestedList(ref, pointer), ds) && v.Subs?
    ensures var r := Fold(file, NestedList(ref, pointer), v, ds);
            r.Subs? && |r.ms| == |v.ms| + |ds| && v.ms <= r.ms
    decreases |ds|
  {
    hide InKind, Decode, RecsFit, Fresh;
    if ds != [] {
      assert DeltaFits(file, NestedList(ref, pointer), ds[0], true);
      OneElementPerRecord(file, ref, pointer, Update(file, NestedList(ref, pointer), v, ds[0]), ds[1..]);
    }
  }

  // ---------------------------------------------------------------- maps update

  lemma {:induction false} FoldTable(file: File, kk: Kind, vk: Kind, was: map<Scalar, Scalar>, ds: seq<Delta>)
    requires AllFit(file, Map(kk, vk), ds)
    ensures var added := Fold(file, Map(kk, vk), Table(map[]), ds);
            added.Table? && Fold(file, Map(kk, vk), Table(was), ds) == Table(was + added.m)
    decreases |ds|
  {
    hide InKind;
    if ds == [] {
      assert was + map[] == was;
    } else {
      assert DeltaFits(file, Map(kk, vk), ds[0], true);
      var key, val := ds[0].key, ds[0].val;
      FoldTable(file, kk, vk, map[][key := val], ds[1..]);
      FoldTable(file, kk, vk, was[key := val], ds[1..]);
      var rest := Fold(file, Map(kk, vk), Table(map[]), ds[1..]).m;
      assert was[key := val] + rest == was + (map[][key := val] + rest);
    }
  }

  // ---------------------------------------------------------------- singular fields take the last

  predicate Overwritten(shape: Shape) {
    shape.Singular? || shape.Optional? || shape.Timestamp? || shape.Duration?
  }

  lemma {:induction false} FoldLast(file: File, shape: Shape, v: Value, w: Value, ds: seq<Delta>)
    requires Overwritten(shape) && AllFit(file, shape, ds) && ds != []
    ensures Fold(file, shape, v, ds) == Fold(file, shape, w, ds) == Update(file, shape, w, ds[|ds| - 1])
    decreases |ds|
  {
    hide InKind, Update, Overwritten, DeltaFits;
    var last := ds[|ds| - 1];
    assert DeltaFits(file, shape, last, true);
    if |ds| == 1 {
      assert ds == [ds[0]];
      FoldOne(file, shape, v, ds[0]);
      FoldOne(file, shape, w, ds[0]);
      UpdateOverwrites(file, shape, v, w, last);
    } else {
      FoldLast(file, shape, Update(file, shape, v, ds[0]), Update(file, shape, w, ds[0]), ds[1..]);
      assert ds[1..][|ds[1..]| - 1] == last;
      UpdateOverwrites(file, shape, Update(file, shape, w, ds[0]), w, last);
    }
  }

  lemma UpdateOverwrites(file: File, shape: Shape, v: Value, w: Value, d: Delta)
    requires Overwritten(shape) && DeltaFits(file, shape, d, true)
    ensures Update(file, shape, v, d) == Update(file, shape, w, d)
  {
    hide InKind;
  }

  // ---------------------------------------------------------------- nested messages

  /** All the records these payloads hold. */
  function Inside(ds: seq<Delta>): seq<Rec> {
    if ds == [] then [] else (if ds[0].Tree? then ds[0].recs else []) + Inside(ds[1..])
  }

  lemma {:induction false} InsideConcat(a: seq<Delta>, b: seq<Delta>)
    ensures Inside(a + b) == Inside(a) + Inside(b)
    decreases |a|
  {
    if a == [] {
      assert a + b == b;
    } else {
      assert (a + b)[1..] == a[1..] + b;
      InsideConcat(a[1..], b);
    }
  }

  /** The discriminators of a nested message are those of all the records it
      ever received. */
  lemma {:induction false} NestedDiscs(file: File, shape: Shape, v: Value, ds: seq<Delta>, j: nat)
    requires ValidFile(file) && shape.Nested? && TypedValue(file, shape, v) && AllFit(file, shape, ds)
    requires j < |Oneofs(file, shape.ref)|
    ensures |Held(file, shape.ref, v).discs| == |Held(file, shape.ref, Fold(file, shape, v, ds)).discs| == |Oneofs(file, shape.ref)|
    ensures Held(file, shape.ref, Fold(file, shape, v, ds)).discs[j] ==
            LastBranch(file, shape.ref, Inside(ds), j, Held(file, shape.ref, v).discs[j])
    decreases |ds|
  {
    hide ValidFile, TypedValue, Decode, RecsFit, Fresh, LastBranch, InKind;
    HeldTyped(file, shape, v);
    if ds == [] {
      FoldNothing(file, shape, v);
      NoBranchYet(file, shape.ref, j, Held(file, shape.ref, v).discs[j]);
    } else {
      assert DeltaFits(file, shape, ds[0], true);
      var t, held := ds[0].recs, Held(file, shape.ref, v);
      var next := Update(file, shape, v, ds[0]);
      UpdateTyped(file, shape, v, ds[0]);
      DecodedDisc(file, shape.ref, held, t, j);
      NestedDiscs(file, shape, next, ds[1..], j);
      LastBranchConcat(file, shape.ref, t, Inside(ds[1..]), j, held.discs[j]);
    }
  }

  /** What two values of a field become under the same records, of which there
      is one at least: alike exactly when the same discriminators are left. */
  lemma NestedAlikeIff(file: File, shape: Shape, v: Value, w: Value, recs: seq<Rec>, i: nat)
    requires ValidFile(file) && shape.Nested? && TypedValue(file, shape, v) && TypedValue(file, shape, w)
    requires AllFit(file, shape, Deltas(recs, i)) && Deltas(recs, i) != []
    ensures var x, y := Fold(file, shape, v, Deltas(recs, i)), Fold(file, shape, w, Deltas(recs, i));
            && x.Sub? && x.p.Some? && y.Sub? && y.p.Some?
            && (Alike(file, shape.ref, x.p.value, y.p.value) <==>
                  AfterTrees(file, shape.ref, ShadowValue(file, shape, v), recs, i)
                  == AfterTrees(file, shape.ref, ShadowValue(file, shape, w), recs, i))
  {
    hide ValidFile, TypedValue, Decode, RecsFit, Fresh, ShadowOf, AfterTrees, Fold, Deltas, Emit, DeltaFits, InKind;
    var ds := Deltas(recs, i);
    var n := |ds| - 1;
    var p, q := Fold(file, shape, v, ds[..n]), Fold(file, shape, w, ds[..n]);
    FoldTyped(file, shape, v, ds[..n]);
    FoldTyped(file, shape, w, ds[..n]);
    FoldLastOf(file, shape, v, ds);
    FoldLastOf(file, shape, w, ds);
    TreeOfNested(file, shape, ds[n]);
    HeldTyped(file, shape, p);
    HeldTyped(file, shape, q);
    FoldShadow(file, shape, v, recs, i);
    FoldShadow(file, shape, w, recs, i);
    var t, hp, hq := ds[n].recs, Held(file, shape.ref, p), Held(file, shape.ref, q);
    if ShadowOf(file, shape.ref, Decode(file, shape.ref, hp, t)) == ShadowOf(file, shape.ref, Decode(file, shape.ref, hq, t)) {
      SameShadowAlike(file, shape.ref, hp, hq, t);
    }
  }

  /** What a nested message shows after records of which there is one at least
      is what they make of a new one, whichever they are, exactly when what was
      there before is forgotten. */
  lemma NestedForgetsIff(file: File, shape: Shape, v: Value, w: Value)
    requires ValidFile(file) && shape.Nested? && TypedValue(file, shape, v) && TypedValue(file, shape, w)
    requires Held(file, shape.ref, w) == Fresh(file, shape.ref)
    ensures (forall ds | ds != [] && AllFit(file, shape, ds) ::
               VisibleValue(Fold(file, shape, v, ds)) == VisibleValue(Fold(file, shape, w, ds)))
       <==> Forgotten(file, shape.ref, Held(file, shape.ref, v))
  {
    hide ValidFile, TypedValue, Decode, RecsFit, Fresh, Forgotten, Fold, InKind, Held, VisibleValue, Visible;
    if Forgotten(file, shape.ref, Held(file, shape.ref, v)) {
      forall ds | ds != [] && AllFit(file, shape, ds)
        ensures VisibleValue(Fold(file, shape, v, ds)) == VisibleValue(Fold(file, shape, w, ds))
      {
        NestedForgotten(file, shape, v, w, Of(0, ds), 0) by {
          DeltasOfOf(0, ds, 0);
        }
        DeltasOfOf(0, ds, 0);
      }
    } else {
      HeldTyped(file, shape, v);
      var inner := Remembered(file, shape.ref, Held(file, shape.ref, v), false);
      FitsWithSkips(file, shape.ref, inner);
      NestedShown(file, shape, v, w, inner);
    }
  }

  lemma NestedForgotten(file: File, shape: Shape, v: Value, w: Value, recs: seq<Rec>, i: nat)
    requires ValidFile(file) && shape.Nested? && TypedValue(file, shape, v) && TypedValue(file, shape, w)
    requires Deltas(recs, i) != [] && AllFit(file, shape, Deltas(recs, i))
    requires Forgotten(file, shape.ref, Held(file, shape.ref, v)) && Held(file, shape.ref, w) == Fresh(file, shape.ref)
    ensures VisibleValue(Fold(file, shape, v, Deltas(recs, i))) == VisibleValue(Fold(file, shape, w, Deltas(recs, i)))
  {
    hide ValidFile, TypedValue, DeltaFits, Fresh, Forgotten, Fold, Held, MatchesValue, VisibleValue, Deltas;
    HeldForgottenFold(file, shape, v, w, recs, i);
    MatchValueVisible(file, shape, Fold(file, shape, v, Deltas(recs, i)), Fold(file, shape, w, Deltas(recs, i)));
  }

  lemma NestedShown(file: File, shape: Shape, v: Value, w: Value, inner: seq<Rec>)
    requires shape.Nested? && Held(file, shape.ref, w) == Fresh(file, shape.ref) && RecsFit(file, shape.ref, inner, true)
    requires Visible(Decode(file, shape.ref, Held(file, shape.ref, v), inner)) != Visible(Decode(file, shape.ref, Fresh(file, shape.ref), inner))
    ensures AllFit(file, shape, [Tree(inner)])
    ensures VisibleValue(Fold(file, shape, v, [Tree(inner)])) != VisibleValue(Fold(file, shape, w, [Tree(inner)]))
  {
    hide Decode, RecsFit, Fresh, Fold, Held, Visible, VisibleValue;
    FoldOne(file, shape, v, Tree(inner));
    FoldOne(file, shape, w, Tree(inner));
    NestedShows(Decode(file, shape.ref, Held(file, shape.ref, v), inner), Decode(file, shape.ref, Fresh(file, shape.ref), inner));
  }

  // ---------------------------------------------------------------- concatenation

  /** What field `i` of the concatenation is, from what it is of each part, and
      the records of both. A nested message is the one of the first part with
      the records of the second decoded into it. That is written as the second
      part alone has it exactly when no discriminator set in the first part
      outlasts the second, and shows the same when what the first part left is
      forgotten. */
  ghost predicate Joined(file: File, ref: nat, i: nat, a: Value, b: Value, r: Value, ra: seq<Rec>, rb: seq<Rec>) {
    var shape := ShapeAt(file, ref, i);
    var received := Deltas(rb, i) != [];
    match shape
    case Repeated(_) => a.List? && b.List? && r == List(a.es + b.es)
    case Map(_, _) => a.Table? && b.Table? && r == Table(a.m + b.m)
    case NestedList(_, _) => a.Subs? && b.Subs? && r == Subs(a.ms + b.ms, map[])
    case Nested(_, _) => if received then JoinedNested(file, shape, i, a, b, r, ra, rb) else r == a
    case _ => r == if received then b else a
  }

  ghost predicate JoinedNested(file: File, shape: Shape, i: nat, a: Value, b: Value, r: Value, ra: seq<Rec>, rb: seq<Rec>)
    requires shape.Nested?
  {
    && r == Fold(file, shape, a, Deltas(rb, i))
    && r.Sub? && r.p.Some? && b.Sub? && b.p.Some?
    && |r.p.value.discs| == |Oneofs(file, shape.ref)|
    && (forall j | 0 <= j < |r.p.value.discs| ::
          r.p.value.discs[j] == LastBranch(file, shape.ref, Inside(Deltas(ra, i) + Deltas(rb, i)), j, 0))
    && (Alike(file, shape.ref, r.p.value, b.p.value) <==>
          AfterTrees(file, shape.ref, ShadowValue(file, shape, a), rb, i) == AfterTrees(file, shape.ref, Quiet, rb, i))
    && (Forgotten(file, shape.ref, Held(file, shape.ref, a)) ==> VisibleValue(r) == VisibleValue(b))
  }

  lemma FoldJoined(file: File, ref: nat, i: nat, ra: seq<Rec>, rb: seq<Rec>)
    requires ValidFile(file) && i < |Fields(file, ref)|
    requires AllFit(file, ShapeAt(file, ref, i), Deltas(ra, i)) && AllFit(file, ShapeAt(file, ref, i), Deltas(rb, i))
    ensures var shape := ShapeAt(file, ref, i);
            var zero := FreshValue(file, ref, shape);
            Joined(file, ref, i, Fold(file, shape, zero, Deltas(ra, i)), Fold(file, shape, zero, Deltas(rb, i)),
                   Fold(file, shape, zero, Deltas(ra, i) + Deltas(rb, i)), ra, rb)
  {
    hide ValidFile, InKind, Typed, Fresh, Update, AllFit, ShadowOf, JoinedNested, Deltas;
    var shape, a, b := ShapeAt(file, ref, i), Deltas(ra, i), Deltas(rb, i);
    var zero := FreshValue(file, ref, shape);
    FoldConcat(file, shape, zero, a, b);
    match shape
    case Repeated(k) =>
      FoldList(file, k, [], a);
      FoldList(file, k, Fold(file, shape, zero, a).es, b);
    case Map(kk, vk) =>
      FoldTable(file, kk, vk, map[], a);
      FoldTable(file, kk, vk, Fold(file, shape, zero, a).m, b);
    case NestedList(r, pointer) =>
      FoldMessages(file, r, pointer, [], a);
      FoldMessages(file, r, pointer, Fold(file, shape, zero, a).ms, b);
    case Nested(r, pointer) =>
      if b == [] {
        FoldNothing(file, shape, Fold(file, shape, zero, a));
      } else {
        FoldJoinedNested(file, ref, i, ra, rb);
      }
    case _ =>
      if b != [] {
        FoldLast(file, shape, Fold(file, shape, zero, a), zero, b);
      }
  }

  lemma FoldJoinedNested(file: File, ref: nat, i: nat, ra: seq<Rec>, rb: seq<Rec>)
    requires ValidFile(file) && i < |Fields(file, ref)| && ShapeAt(file, ref, i).Nested? && Deltas(rb, i) != []
    requires AllFit(file, ShapeAt(file, ref, i), Deltas(ra, i)) && AllFit(file, ShapeAt(file, ref, i), Deltas(rb, i))
    ensures var shape := ShapeAt(file, ref, i);
            var zero := FreshValue(file, ref, shape);
            JoinedNested(file, shape, i, Fold(file, shape, zero, Deltas(ra, i)), Fold(file, shape, zero, Deltas(rb, i)),
                         Fold(file, shape, zero, Deltas(ra, i) + Deltas(rb, i)), ra, rb)
  {
    hide ValidFile, TypedValue, Decode, Fresh, Update, DeltaFits, ShadowOf, ShadowValue, Deltas, Fold, AfterTrees,
         Inside, Emit, Forgotten, FreshValue;
    var shape, a, b := ShapeAt(file, ref, i), Deltas(ra, i), Deltas(rb, i);
    var zero := FreshValue(file, ref, shape);
    var va := Fold(file, shape, zero, a);
    FoldConcat(file, shape, zero, a, b);
    FreshValueTyped(file, ref, i);
    FoldTyped(file, shape, zero, a);
    ZeroHeld(file, ref, i);
    NestedAlikeIff(file, shape, va, zero, rb, i);
    forall j | 0 <= j < |Oneofs(file, shape.ref)|
      ensures |Held(file, shape.ref, Fold(file, shape, zero, a + b)).discs| == |Oneofs(file, shape.ref)|
      ensures Held(file, shape.ref, Fold(file, shape, zero, a + b)).discs[j] == LastBranch(file, shape.ref, Inside(a + b), j, 0)
    {
      NestedDiscs(file, shape, zero, a + b, j);
    }
    FoldTyped(file, shape, zero, a + b);
    HeldTyped(file, shape, Fold(file, shape, zero, a + b));
    if Forgotten(file, shape.ref, Held(file, shape.ref, va)) {
      NestedForgotten(file, shape, va, zero, rb, i);
    }
  }

  lemma ZeroHeld(file: File, ref: nat, i: nat)
    requires ValidFile(file) && i < |Fields(file, ref)| && ShapeAt(file, ref, i).Nested?
    ensures var shape := ShapeAt(file, ref, i);
            var zero := FreshValue(file, ref, shape);
            && ShadowValue(file, shape, zero) == Quiet
            && (forall j | 0 <= j < |Held(file, shape.ref, zero).discs| :: Held(file, shape.ref, zero).discs[j] == 0)
            && Held(file, shape.ref, zero) == Fresh(file, shape.ref)
  {
    InlineRefersEarlier(file, ref, i);
    hide ValidFile, ShadowOf;
    FreshQuiet(file, ShapeAt(file, ref, i).ref);
  }

  /** A new receiver's field depends on its records alone. */
  lemma FreshDecodedField(file: File, ref: nat, recs: seq<Rec>, i: nat)
    requires ValidFile(file) && i < |Fields(file, ref)|
    ensures i < |Decode(file, ref, Fresh(file, ref), recs).vals|
    ensures Decode(file, ref, Fresh(file, ref), recs).vals[i] ==
            Fold(file, ShapeAt(file, ref, i), FreshValue(file, ref, ShapeAt(file, ref, i)), Deltas(recs, i))
  {
    hide ValidFile, Fresh, Fold, Deltas, FreshValue, Pooling, Decode, Nil, Poolable;
    FreshAt(file, ref, i);
    StartFresh(file, ref);
    DecodedField(file, ref, Fresh(file, ref), recs, i);
    NilIsFresh(file, ref, i);
    FoldNothing(file, ShapeAt(file, ref, i), FreshValue(file, ref, ShapeAt(file, ref, i)));
  }

  /** Decoding a ++ b: each field of the result is the two fields joined, and
      each discriminator is the one of the last part that received a branch. */
  lemma DecodeConcat(file: File, ref: nat, a: bytes, b: bytes)
    requires ValidFile(file) && ReadMessage(file, ref, a).Ok? && ReadMessage(file, ref, b).Ok?
    ensures var ra, rb := ReadMessage(file, ref, a).value, ReadMessage(file, ref, b).value;
            var x, y := Decode(file, ref, Fresh(file, ref), ra), Decode(file, ref, Fresh(file, ref), rb);
            var whole := Decode(file, ref, Fresh(file, ref), ra + rb);
            && Unmarshal(file, ref, Fresh(file, ref), a + b) == Ok(whole)
            && |whole.vals| == |x.vals| == |y.vals| == |Fields(file, ref)|
            && |whole.discs| == |x.discs| == |y.discs| == |Oneofs(file, ref)|
            && (forall i | 0 <= i < |whole.vals| :: Joined(file, ref, i, x.vals[i], y.vals[i], whole.vals[i], ra, rb))
            && (forall j | 0 <= j < |whole.discs| ::
                  whole.discs[j] == (if BranchReceived(file, ref, rb, j) then y else x).discs[j])
  {
    hide ValidFile, Fresh, Fold, Deltas, FreshValue, Decode, ReadMessage, Joined, BranchReceived, RecsFit, LastBranch,
         ShapeAt;
    RecordsOfConcat(file, ref, a, b);
    var ra, rb := ReadMessage(file, ref, a).value, ReadMessage(file, ref, b).value;
    var x, y := Decode(file, ref, Fresh(file, ref), ra), Decode(file, ref, Fresh(file, ref), rb);
    var whole := Decode(file, ref, Fresh(file, ref), ra + rb);
    FreshSize(file, ref);
    DecodedShape(file, ref, Fresh(file, ref), ra);
    DecodedShape(file, ref, Fresh(file, ref), rb);
    DecodedShape(file, ref, Fresh(file, ref), ra + rb);
    forall i | 0 <= i < |whole.vals|
      ensures Joined(file, ref, i, x.vals[i], y.vals[i], whole.vals[i], ra, rb)
    {
      FieldJoined(file, ref, a, b, i);
    }
    forall j | 0 <= j < |whole.discs|
      ensures whole.discs[j] == (if BranchReceived(file, ref, rb, j) then y else x).discs[j]
    {
      DiscJoined(file, ref, ra, rb, j);
    }
  }

  lemma FieldJoined(file: File, ref: nat, a: bytes, b: bytes, i: nat)
    requires ValidFile(file) && i < |Fields(file, ref)|
    requires ReadMessage(file, ref, a).Ok? && ReadMessage(file, ref, b).Ok?
    ensures var ra, rb := ReadMessage(file, ref, a).value, ReadMessage(file, ref, b).value;
            var fresh0 := Fresh(file, ref);
            && i < |Decode(file, ref, fresh0, ra + rb).vals| && i < |Decode(file, ref, fresh0, ra).vals|
            && i < |Decode(file, ref, fresh0, rb).vals|
            && Joined(file, ref, i, Decode(file, ref, fresh0, ra).vals[i], Decode(file, ref, fresh0, rb).vals[i],
                      Decode(file, ref, fresh0, ra + rb).vals[i], ra, rb)
  {
    hide ValidFile, Fresh, Fold, Deltas, FreshValue, Decode, ReadMessage, Joined, RecsFit, Typed, DeltaFits, TypedValue;
    var ra, rb := ReadMessage(file, ref, a).value, ReadMessage(file, ref, b).value;
    ReadFits(file, ref, a);
    ReadFits(file, ref, b);
    DeltasFitField(file, ref, ra, i);
    DeltasFitField(file, ref, rb, i);
    DeltasConcat(ra, rb, i);
    FreshDecodedField(file, ref, ra, i);
    FreshDecodedField(file, ref, rb, i);
    FreshDecodedField(file, ref, ra + rb, i);
    FoldJoined(file, ref, i, ra, rb);
  }

  lemma DiscJoined(file: File, ref: nat, ra: seq<Rec>, rb: seq<Rec>, j: nat)
    requires ValidFile(file) && j < |Oneofs(file, ref)|
    ensures var fresh0 := Fresh(file, ref);
            && j < |Decode(file, ref, fresh0, ra + rb).discs| && j < |Decode(file, ref, fresh0, ra).discs|
            && j < |Decode(file, ref, fresh0, rb).discs|
            && Decode(file, ref, fresh0, ra + rb).discs[j] ==
               (if BranchReceived(file, ref, rb, j) then Decode(file, ref, fresh0, rb) else Decode(file, ref, fresh0, ra)).discs[j]
  {
    hide ValidFile, Fresh, Decode, BranchReceived, LastBranch;
    FreshSize(file, ref);
    DecodedDisc(file, ref, Fresh(file, ref), ra, j);
    DecodedDisc(file, ref, Fresh(file, ref), rb, j);
    DecodedDisc(file, ref, Fresh(file, ref), ra + rb, j);
    LastBranchConcat(file, ref, ra, rb, j, 0);
    LastBranchIff(file, ref, rb, j, LastBranch(file, ref, ra, j, 0));
  }

  // ---------------------------------------------------------------- a discriminator that outlasts

  /** A message with a oneof, and one that holds a pointer to it. */
  const OUTLASTING: File := [
    Info([Field(1, Singular(Int64), None), Field(10, Singular(Int64), Some(0))], [[10]]),
    Info([Field(1, Nested(0, true), None)], [])]

  const SENDS_BRANCH := [Known(0, Tree([Known(1, One(Num(1)))]))]
  const SENDS_FIELD := [Known(0, Tree([Known(0, One(Num(1)))]))]

  /** The nested message is not simply the last one received: the discriminator
      the first set is still there when the second did not send a branch. */
  lemma DiscriminatorOutlasts()
    ensures var zero := Fresh(OUTLASTING, 1);
            && Decode(OUTLASTING, 1, zero, SENDS_BRANCH + SENDS_FIELD) == Msg([Sub(Some(Msg([Plain(Num(1)), Plain(Num(0))], [10])))], [])
            && Decode(OUTLASTING, 1, zero, SENDS_FIELD) == Msg([Sub(Some(Msg([Plain(Num(1)), Plain(Num(0))], [0])))], [])
  {
    OutlastingRecords();
    OutlastingOuter(SENDS_FIELD);
    OutlastingOuter(SENDS_BRANCH + SENDS_FIELD);
    OutlastingFolds();
  }

  lemma OutlastingRecords()
    ensures Deltas(SENDS_FIELD, 0) == [SENDS_FIELD[0].d]
    ensures Deltas(SENDS_BRANCH + SENDS_FIELD, 0) == [SENDS_BRANCH[0].d] + [SENDS_FIELD[0].d]
  {
    assert SENDS_BRANCH[1..] == [] && SENDS_FIELD[1..] == [];
    DeltasConcat(SENDS_BRANCH, SENDS_FIELD, 0);
  }

  lemma OutlastingFolds()
    ensures Fold(OUTLASTING, Nested(0, true), Sub(None), [SENDS_FIELD[0].d]) == Sub(Some(Msg([Plain(Num(1)), Plain(Num(0))], [0])))
    ensures Fold(OUTLASTING, Nested(0, true), Sub(None), [SENDS_BRANCH[0].d] + [SENDS_FIELD[0].d]) ==
            Sub(Some(Msg([Plain(Num(1)), Plain(Num(0))], [10])))
  {
    hide Fold, Update;
    var held := Msg([Plain(Num(0)), Plain(Num(1))], [10]);
    OutlastingZeros();
    OutlastingUpdate(Sub(None), 0);
    OutlastingUpdate(Sub(None), 1);
    OutlastingUpdate(Sub(Some(held)), 0);
    FoldOne(OUTLASTING, Nested(0, true), Sub(None), SENDS_FIELD[0].d);
    FoldOne(OUTLASTING, Nested(0, true), Sub(None), SENDS_BRANCH[0].d);
    FoldOne(OUTLASTING, Nested(0, true), Sub(Some(held)), SENDS_FIELD[0].d);
    FoldConcat(OUTLASTING, Nested(0, true), Sub(None), [SENDS_BRANCH[0].d], [SENDS_FIELD[0].d]);
  }

  lemma OutlastingUpdate(v: Value, i: nat)
    requires i < 2 && (v == Sub(None) || v == Sub(Some(Msg([Plain(Num(0)), Plain(Num(1))], [10]))))
    ensures Update(OUTLASTING, Nested(0, true), v, Tree([Known(i, One(Num(1)))])) ==
            Sub(Some(if i == 0 then Msg([Plain(Num(1)), Plain(Num(0))], if v == Sub(None) then [0] else [10])
                     else Msg([Plain(Num(0)), Plain(Num(1))], [10])))
  {
    OutlastingZeros();
    var held := Held(OUTLASTING, 0, v);
    OutlastingDecode(held.vals[0], held.vals[1], held.discs, i);
    hide Decode, Fresh;
    assert Msg([held.vals[0], held.vals[1]], held.discs) == held;
  }

  lemma OutlastingZeros()
    ensures Fresh(OUTLASTING, 0) == Msg([Plain(Num(0)), Plain(Num(0))], [0]) && Fresh(OUTLASTING, 1) == Msg([Sub(None)], [])
  {
    assert Fresh(OUTLASTING, 0).vals == [Plain(Num(0)), Plain(Num(0))];
    assert Fresh(OUTLASTING, 1).vals == [Sub(None)];
  }

  /** One field of the inner message received. */
  lemma OutlastingDecode(a: Value, b: Value, discs: seq<nat>, i: nat)
    requires |discs| == 1 && i < 2
    ensures Decode(OUTLASTING, 0, Msg([a, b], discs), [Known(i, One(Num(1)))]) ==
            if i == 0 then Msg([Plain(Num(1)), Plain(Num(0))], discs) else Msg([Plain(Num(0)), Plain(Num(1))], [10])
  {
    var recs := [Known(i, One(Num(1)))];
    var st := Start(OUTLASTING, 0, Msg([a, b], discs));
    assert ShapeAt(OUTLASTING, 0, 0) == Singular(Int64) && ShapeAt(OUTLASTING, 0, 1) == Singular(Int64);
    assert st.vals == [Plain(Num(0)), Plain(Num(0))];
    assert recs[1..] == [];
    var x := Apply(OUTLASTING, 0, st, recs[0]);
    assert ApplyAll(OUTLASTING, 0, st, recs) == x;
    assert Finish(OUTLASTING, 0, x, recs).vals == x.vals;
  }

  lemma OutlastingOuter(recs: seq<Rec>)
    requires Deltas(recs, 0) != []
    ensures Decode(OUTLASTING, 1, Fresh(OUTLASTING, 1), recs) ==
            Msg([Fold(OUTLASTING, Nested(0, true), Sub(None), Deltas(recs, 0))], [])
  {
    OutlastingZeros();
    hide Decode, Fold, Fresh, Deltas;
    assert ShapeAt(OUTLASTING, 1, 0) == Nested(0, true) && Pooled(OUTLASTING, 1, 0);
    DecodedField(OUTLASTING, 1, Fresh(OUTLASTING, 1), recs, 0);
    DecodedShape(OUTLASTING, 1, Fresh(OUTLASTING, 1), recs);
    var x := Decode(OUTLASTING, 1, Fresh(OUTLASTING, 1), recs);
    assert x.vals == [x.vals[0]] && x.discs == [];
  }

  // ---------------------------------------------------------------- an element that outlasts

  /** The slice has one element, which holds inline a pointer that is not nil. */
  const SENDS_TIED := [Known(0, Tree([Known(0, Tree([Known(0, Tree([Known(0, Tree([]))]))]))]))]

  /** One element, empty. */
  const SENDS_ELEMENT := [Known(0, Tree([Known(0, Tree([]))]))]

  /** A nested message that is received twice: its slice has the element of the
      second part alone, decoded into the one of the first, and the pointer that
      held is still there. */
  lemma ElementOutlasts()
    ensures var zero := Fresh(KEEPING, 4);
            && Decode(KEEPING, 4, zero, SENDS_TIED + SENDS_ELEMENT) == Msg([Sub(Some(Msg([Subs([Some(TIED)], map[])], [])))], [])
            && Decode(KEEPING, 4, zero, SENDS_ELEMENT) == Msg([Sub(Some(Msg([Subs([Some(LOOSE)], map[])], [])))], [])
    ensures MessageBytes(KEEPING, 4, SENDS_TIED) == [0x0a, 0x06, 0x0a, 0x04, 0x0a, 0x02, 0x0a, 0x00]
    ensures MessageBytes(KEEPING, 4, SENDS_ELEMENT) == [0x0a, 0x02, 0x0a, 0x00]
  {
    ElementPointerIsKept();
    TiedDecodes();
    KeptTwice();
    OutlastingBytes();
  }

  lemma TiedDecodes()
    ensures Decode(KEEPING, 3, Fresh(KEEPING, 3), SENDS_TIED[0].d.recs) == Msg([Subs([Some(TIED)], map[])], [])
  {
    KeepingFields();
    NewList();
    TiedInner();
    hide KEEPING, Decode, Fresh, TIED, Update, ResetValue;
    var inner := [Known(0, Tree([Known(0, Tree([]))]))];
    OneHeld(3, Subs([], map[]), inner);
    FirstElement(inner, TIED);
  }

  lemma FirstElement(t: seq<Rec>, m: Msg)
    requires Decode(KEEPING, 2, Fresh(KEEPING, 2), t) == m
    ensures Update(KEEPING, NestedList(2, true), ResetValue(KEEPING, NestedList(2, true), Subs([], map[])), Tree(t))
            == Subs([Some(m)], map[])
  {
    hide KEEPING, Decode, Fresh;
    var none: map<nat, Msg> := map[];
    assert none + Parked(KEEPING, 2, []) == none && none - {0} == none;
  }

  lemma TiedInner()
    ensures Decode(KEEPING, 2, Fresh(KEEPING, 2), [Known(0, Tree([Known(0, Tree([]))]))]) == TIED
  {
    KeepingFields();
    NewKeeping();
    LeafDecodes();
    hide KEEPING, Decode, Fresh, ResetValue;
    var leaf := [Known(0, Tree([]))];
    OneHeld(1, Sub(None), []);
    assert Update(KEEPING, Nested(0, true), Sub(None), Tree([])) == Sub(Some(LEAF));
    hide Update;
    InlineUpdate(leaf);
    OneHeld(2, LOOSE.vals[0], leaf);
  }

  lemma LeafDecodes()
    ensures Decode(KEEPING, 0, LEAF, []) == LEAF
  {
    KeepingFields();
    hide KEEPING;
    assert Start(KEEPING, 0, LEAF).vals == LEAF.vals;
    assert Finish(KEEPING, 0, LEAF, []).vals == LEAF.vals;
  }

  lemma InlineUpdate(t: seq<Rec>)
    requires Decode(KEEPING, 1, Msg([Sub(None)], []), t) == Msg([Sub(Some(LEAF))], [])
    ensures Update(KEEPING, Nested(1, false), ResetValue(KEEPING, Nested(1, false), LOOSE.vals[0]), Tree(t)) == TIED.vals[0]
  {
    KeepingFields();
    hide KEEPING, Decode, Fresh;
    assert Reset(KEEPING, 1, Msg([Sub(None)], [])).vals == [Sub(None)];
  }

  lemma KeptTwice()
    requires Decode(KEEPING, 3, Fresh(KEEPING, 3), SENDS_TIED[0].d.recs) == Msg([Subs([Some(TIED)], map[])], [])
    requires Decode(KEEPING, 3, Msg([Subs([Some(TIED)], map[])], []), SENDS_ELEMENT[0].d.recs) == Msg([Subs([Some(TIED)], map[])], [])
    requires Decode(KEEPING, 3, Fresh(KEEPING, 3), SENDS_ELEMENT[0].d.recs) == Msg([Subs([Some(LOOSE)], map[])], [])
    ensures Decode(KEEPING, 4, Fresh(KEEPING, 4), SENDS_TIED + SENDS_ELEMENT) == Msg([Sub(Some(Msg([Subs([Some(TIED)], map[])], [])))], [])
    ensures Decode(KEEPING, 4, Fresh(KEEPING, 4), SENDS_ELEMENT) == Msg([Sub(Some(Msg([Subs([Some(LOOSE)], map[])], [])))], [])
  {
    KeepingFields();
    hide KEEPING, Decode, Fold, TIED, LOOSE;
    var shape := Nested(3, true);
    assert Fresh(KEEPING, 4).vals == [Sub(None)];
    hide Fresh;
    OneHeld(4, Sub(None), SENDS_ELEMENT[0].d.recs);
    assert SENDS_TIED[1..] == [] && SENDS_ELEMENT[1..] == [];
    assert Deltas(SENDS_TIED, 0) == [SENDS_TIED[0].d] && Deltas(SENDS_ELEMENT, 0) == [SENDS_ELEMENT[0].d];
    DeltasConcat(SENDS_TIED, SENDS_ELEMENT, 0);
    hide Deltas, Update;
    KeptUpdates();
    AllHeld(4, Sub(None), SENDS_TIED + SENDS_ELEMENT);
    FoldConcat(KEEPING, shape, Sub(None), [SENDS_TIED[0].d], [SENDS_ELEMENT[0].d]);
    FoldOne(KEEPING, shape, Sub(None), SENDS_TIED[0].d);
    FoldOne(KEEPING, shape, Sub(Some(Msg([Subs([Some(TIED)], map[])], []))), SENDS_ELEMENT[0].d);
  }

  lemma KeptUpdates()
    requires Decode(KEEPING, 3, Fresh(KEEPING, 3), SENDS_TIED[0].d.recs) == Msg([Subs([Some(TIED)], map[])], [])
    requires Decode(KEEPING, 3, Msg([Subs([Some(TIED)], map[])], []), SENDS_ELEMENT[0].d.recs) == Msg([Subs([Some(TIED)], map[])], [])
    requires Decode(KEEPING, 3, Fresh(KEEPING, 3), SENDS_ELEMENT[0].d.recs) == Msg([Subs([Some(LOOSE)], map[])], [])
    ensures var once := Sub(Some(Msg([Subs([Some(TIED)], map[])], [])));
            && Update(KEEPING, Nested(3, true), Sub(None), SENDS_TIED[0].d) == once
            && Update(KEEPING, Nested(3, true), once, SENDS_ELEMENT[0].d) == once
    ensures Update(KEEPING, Nested(3, true), Sub(None), SENDS_ELEMENT[0].d) == Sub(Some(Msg([Subs([Some(LOOSE)], map[])], [])))
  {
    hide KEEPING, Decode, Fresh, TIED, LOOSE;
  }

  lemma OutlastingBytes()
    ensures MessageBytes(KEEPING, 4, SENDS_TIED) == [0x0a, 0x06, 0x0a, 0x04, 0x0a, 0x02, 0x0a, 0x00]
    ensures MessageBytes(KEEPING, 4, SENDS_ELEMENT) == [0x0a, 0x02, 0x0a, 0x00]
  {
    KeepingFields();
    hide KEEPING, MessageBytes;
    NoRecordsNoBytes(0);
    NoRecordsNoBytes(2);
    var leaf := [Known(0, Tree([]))];
    HeldBytes(1, [], 0);
    HeldBytes(2, leaf, 1);
    HeldBytes(3, [Known(0, Tree(leaf))], 2);
    HeldBytes(4, SENDS_TIED[0].d.recs, 3);
    HeldBytes(3, [], 2);
    HeldBytes(4, leaf, 3);
  }

  lemma NoRecordsNoBytes(r: nat)
    ensures MessageBytes(KEEPING, r, []) == []
  {
  }

  /** A message with one short nested record. */
  lemma HeldBytes(r: nat, t: seq<Rec>, to: nat)
    requires 1 <= r < 5 && !Leaf(ShapeAt(KEEPING, r, 0)) && ShapeAt(KEEPING, r, 0).ref == to
    requires |MessageBytes(KEEPING, to, t)| < 0x80
    ensures MessageBytes(KEEPING, r, [Known(0, Tree(t))]) == [0x0a, |MessageBytes(KEEPING, to, t)|] + MessageBytes(KEEPING, to, t)
  {
    KeepingFields();
    assert Fields(KEEPING, r)[0].num == 1;
    var recs := [Known(0, Tree(t))];
    assert recs[1..] == [];
    NoRecordsNoBytes(r);
    OneRecordBytes(r, t, to);
    hide KEEPING, RecordBytes;
    assert MessageBytes(KEEPING, r, recs) == RecordBytes(KEEPING, r, recs[0]) + [];
  }

  lemma OneRecordBytes(r: nat, t: seq<Rec>, to: nat)
    requires 1 <= r < 5 && !Leaf(ShapeAt(KEEPING, r, 0)) && ShapeAt(KEEPING, r, 0).ref == to
    requires |MessageBytes(KEEPING, to, t)| < 0x80 && Fields(KEEPING, r)[0].num == 1
    ensures RecordBytes(KEEPING, r, Known(0, Tree(t))) == [0x0a, |MessageBytes(KEEPING, to, t)|] + MessageBytes(KEEPING, to, t)
  {
    hide KEEPING, MessageBytes;
    var p := MessageBytes(KEEPING, to, t);
    assert VarintBytes(|p|) == [|p|] && VarintBytes(10) == [0x0a];
  }

  // ---------------------------------------------------------------- unknown fields

  lemma {:induction false} UnknownIgnored(file: File, ref: nat, st: Msg, a: seq<Rec>, b: seq<Rec>)
    ensures ApplyAll(file, ref, st, a + ([Unknown] + b)) == ApplyAll(file, ref, st, a + b)
  {
    hide Update;
    ApplyConcat(file, ref, st, a, [Unknown] + b);
    ApplyConcat(file, ref, st, a, b);
    assert ([Unknown] + b)[1..] == b;
  }

  lemma UnknownNoDelta(a: seq<Rec>, b: seq<Rec>, i: nat)
    ensures Deltas(a + ([Unknown] + b), i) == Deltas(a + b, i)
  {
    DeltasConcat(a, [Unknown] + b, i);
    DeltasConcat(a, b, i);
    assert ([Unknown] + b)[1..] == b;
    assert [] + Deltas(b, i) == Deltas(b, i);
  }

  /** A well-formed field of an undeclared number, inserted at any offset the
      main loop comes to stand at, changes neither the value nor the error of a
      decode. */
  lemma UnknownTransparent(file: File, ref: nat, recv: Msg, a: bytes, num: nat, wire: nat, body: bytes, b: bytes)
    requires Reached(file, ref, a + b, |a|)
    requires Skippable(Fields(file, ref), num, wire, body)
    ensures Unmarshal(file, ref, recv, a + (TagBytes(num, wire) + body) + b) == Unmarshal(file, ref, recv, a + b)
  {
    hide ReadMessage, ApplyAll, Skippable, Start, TagBytes, Deltas, Pooled, Reached, Before;
    UnknownInserted(file, ref, a, num, wire, body, b);
    if ReadMessage(file, ref, b).Ok? {
      var ra, rb := Before(file, ref, a + b, |a|), ReadMessage(file, ref, b).value;
      var st := Start(file, ref, recv);
      UnknownIgnored(file, ref, st, ra, rb);
      forall i: nat
        ensures Deltas(ra + ([Unknown] + rb), i) == Deltas(ra + rb, i)
      {
        UnknownNoDelta(ra, rb, i);
      }
      var all := ApplyAll(file, ref, st, ra + rb);
      assert Finish(file, ref, all, ra + ([Unknown] + rb)).vals == Finish(file, ref, all, ra + rb).vals;
    }
  }

  // ---------------------------------------------------------------- oneofs

  /** The selected branch holds its normal form: a scalar or well-known type
      that very value, a nested message one that is written the same and holds
      the same discriminators, and shows the same when what the receiver held
      inline is forgotten. */
  ghost predicate BranchBack(file: File, ref: nat, i: nat, recv: Msg, d: Msg, m: Msg)
    requires i < |recv.vals| && i < |d.vals| && i < |m.vals|
  {
    var shape := ShapeAt(file, ref, i);
    var w := NormBranch(file, shape, m.vals[i]);
    if shape.Nested? then
      && w.Sub? && w.p.Some? && d.vals[i].Sub? && d.vals[i].p.Some?
      && Alike(file, shape.ref, d.vals[i].p.value, w.p.value)
      && (ForgottenValue(file, ref, i, recv.vals[i]) ==> VisibleValue(d.vals[i]) == VisibleValue(w))
    else d.vals[i] == w
  }

  /** Whatever the branches of a receiver held, when its discriminator is 0 the
      one of a marshalled value comes back, or 0 where it selects no branch; and
      so does the branch it selects, default or not. */
  lemma OneofComesBack(file: File, ref: nat, recv: Msg, m: Msg, j: nat)
    requires ValidFile(file) && Typed(file, ref, m) && Typed(file, ref, recv)
    requires j < |m.discs| && recv.discs[j] == 0
    ensures var d := Decode(file, ref, recv, Emit(file, ref, m));
            && |d.vals| == |m.vals| == |recv.vals| && |d.discs| == |m.discs|
            && match Active(file, ref, m.discs, j)
               case None => d.discs[j] == 0
               case Some(i) =>
                 && d.discs[j] == m.discs[j]
                 && i < |m.vals| && BranchBack(file, ref, i, recv, d, m)
  {
    hide ValidFile, TypedValue, Decode, Emit, Active, LastBranch, NormBranch;
    DecodedShape(file, ref, recv, Emit(file, ref, m));
    DecodedDisc(file, ref, recv, Emit(file, ref, m), j);
    LastBranchOfEmit(file, ref, m, j);
    match Active(file, ref, m.discs, j)
    case None =>
    case Some(i) =>
      BranchShape(file, ref, m, j, i);
      if Overwritten(ShapeAt(file, ref, i)) {
        SelectedComesBack(file, ref, recv, m, j, i);
      } else {
        SelectedNestedComesBack(file, ref, recv, m, j, i);
      }
  }

  lemma BranchShape(file: File, ref: nat, m: Msg, j: nat, i: nat)
    requires ValidFile(file) && Active(file, ref, m.discs, j) == Some(i)
    ensures InOneof(file, ref, i)
    ensures var shape := ShapeAt(file, ref, i); if shape.Nested? then !shape.pointer else Overwritten(shape) && !shape.Optional?
  {
    hide Active;
    ActiveBranch(file, ref, m.discs, j);
  }

  lemma SelectedNestedComesBack(file: File, ref: nat, recv: Msg, m: Msg, j: nat, i: nat)
    requires ValidFile(file) && Typed(file, ref, m) && Typed(file, ref, recv)
    requires Active(file, ref, m.discs, j) == Some(i) && i < |m.vals|
    requires InOneof(file, ref, i) && ShapeAt(file, ref, i).Nested? && !ShapeAt(file, ref, i).pointer
    ensures i < |Decode(file, ref, recv, Emit(file, ref, m)).vals| && i < |recv.vals|
    ensures BranchBack(file, ref, i, recv, Decode(file, ref, recv, Emit(file, ref, m)), m)
  {
    hide ValidFile, Decode, Emit, Active, NormBranch, Fold, EmitField, FreshValue, ResetValue, Pooling, TypedValue,
         Deltas, Fresh, ShadowOf, Reset, Norm, ForgottenValue, Matches, VisibleValue, Visible;
    var shape := ShapeAt(file, ref, i);
    TypedAt(file, ref, m, i);
    TypedAt(file, ref, recv, i);
    ActiveOnce(file, ref, m.discs, j, i);
    BranchesNotPooled(file, ref, i);
    DecodedField(file, ref, recv, Emit(file, ref, m), i);
    DeltasOfEmit(file, ref, m, i);
    InlineParts(file, shape, m.vals[i]);
    InlineParts(file, shape, recv.vals[i]);
    var n, was := m.vals[i].p.value, Reset(file, shape.ref, recv.vals[i].p.value);
    FoldOne(file, shape, Sub(Some(was)), Tree(Emit(file, shape.ref, n)));
    ResetTyped(file, shape.ref, recv.vals[i].p.value);
    ResetQuiet(file, shape.ref, recv.vals[i].p.value);
    FreshTyped(file, shape.ref);
    FreshQuiet(file, shape.ref);
    EmitFits(file, shape.ref, n);
    FitsWithSkips(file, shape.ref, Emit(file, shape.ref, n));
    SameDiscriminatorsAlike(file, shape.ref, was, Fresh(file, shape.ref), Emit(file, shape.ref, n));
    MessageComesBack(file, shape.ref, n);
    if ForgottenValue(file, ref, i, recv.vals[i]) {
      InlineForgotten(file, ref, i, recv.vals[i]);
      ResetMatchesFresh(file, shape.ref, recv.vals[i].p.value);
      MatchDecodes(file, shape.ref, was, Fresh(file, shape.ref), Emit(file, shape.ref, n));
      MatchVisible(file, shape.ref, Decode(file, shape.ref, was, Emit(file, shape.ref, n)), Norm(file, shape.ref, n));
      VisibleNested(Decode(file, shape.ref, was, Emit(file, shape.ref, n)));
      VisibleNested(Norm(file, shape.ref, n));
    }
  }

  lemma InlineParts(file: File, shape: Shape, v: Value)
    requires shape.Nested? && !shape.pointer && TypedValue(file, shape, v)
    ensures v.Sub? && v.p.Some? && Typed(file, shape.ref, v.p.value)
    ensures EmitBranch(file, shape, v) == [Tree(Emit(file, shape.ref, v.p.value))]
    ensures NormBranch(file, shape, v) == Sub(Some(Norm(file, shape.ref, v.p.value)))
    ensures ResetValue(file, shape, v) == Sub(Some(Reset(file, shape.ref, v.p.value)))
  {
    hide Typed, Emit, Norm, Reset;
  }

  lemma InlineForgotten(file: File, ref: nat, i: nat, v: Value)
    requires ShapeAt(file, ref, i).Nested? && !ShapeAt(file, ref, i).pointer && v.Sub? && v.p.Some?
    requires ForgottenValue(file, ref, i, v)
    ensures Bare(file, ShapeAt(file, ref, i).ref, v.p.value) && Untied(file, ShapeAt(file, ref, i).ref, v.p.value)
  {
    hide Bare, Untied;
  }

  lemma VisibleNested(m: Msg)
    ensures VisibleValue(Sub(Some(m))) == Sub(Some(Visible(m)))
  {
    hide Visible;
  }

  lemma SelectedComesBack(file: File, ref: nat, recv: Msg, m: Msg, j: nat, i: nat)
    requires ValidFile(file) && Typed(file, ref, m) && Typed(file, ref, recv)
    requires Active(file, ref, m.discs, j) == Some(i) && i < |m.vals| && Overwritten(ShapeAt(file, ref, i))
    ensures i < |Decode(file, ref, recv, Emit(file, ref, m)).vals|
    ensures Decode(file, ref, recv, Emit(file, ref, m)).vals[i] == NormBranch(file, ShapeAt(file, ref, i), m.vals[i])
  {
    hide ValidFile, Decode, Emit, Active, NormBranch, Fold, EmitField, EmitBranch, FreshValue, ResetValue, Update,
         Pooling, TypedValue, Deltas;
    var shape := ShapeAt(file, ref, i);
    TypedAt(file, ref, m, i);
    TypedAt(file, ref, recv, i);
    ActiveOnce(file, ref, m.discs, j, i);
    BranchesNotPooled(file, ref, i);
    DecodedField(file, ref, recv, Emit(file, ref, m), i);
    DeltasOfEmit(file, ref, m, i);
    BranchComesBack(file, ref, i, m.vals[i]);
    SelectedFits(file, shape, m.vals[i]);
    FoldLast(file, shape, Start(file, ref, recv).vals[i], FreshValue(file, ref, shape), EmitBranch(file, shape, m.vals[i]));
  }

  lemma SelectedFits(file: File, shape: Shape, v: Value)
    requires Overwritten(shape) && !shape.Optional? && TypedValue(file, shape, v)
    ensures AllFit(file, shape, EmitBranch(file, shape, v)) && EmitBranch(file, shape, v) != []
  {
    hide InKind;
  }
}
