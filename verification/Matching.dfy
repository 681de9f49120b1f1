// When two receivers cannot be told apart, now or after any decode: they show
// the same, and what stands in their spare places comes to the same too. A
// receiver that is forgotten decodes everything to such a match of what a new
// object would hold.

module Matching {
  import opened Base
  import opened Schema
  import opened Records
  import opened Values
  import opened Decoder
  import opened RoundTrip
  import opened Typing
  import opened Canonical
  import opened Discriminators

  // ---------------------------------------------------------------- receivers that are forgotten

  /** No pointer to a message is held, in the struct itself or inline. */
  predicate Bare(file: File, ref: nat, m: Msg)
    decreases m
  {
    forall i | 0 <= i < |m.vals| :: BareValue(file, ShapeAt(file, ref, i), m.vals[i])
  }

  predicate BareValue(file: File, shape: Shape, v: Value)
    decreases v
  {
    match shape
    case Nested(r, pointer) => (match v
                                case Sub(Some(n)) => !pointer && Bare(file, r, n)
                                case _ => true)
    case _ => true
  }

  /** A receiver a decode forgets: its discriminators are 0, what it holds
      inline is bare, a pointer it holds is pooled and leads to such a receiver
      again, and so is what stands in the spare places of its slices; its
      elements and what it holds inline are once they are reset. */
  predicate Forgotten(file: File, ref: nat, m: Msg)
    decreases m
  {
    && (forall j | 0 <= j < |m.discs| :: m.discs[j] == 0)
    && forall i | 0 <= i < |m.vals| :: ForgottenValue(file, ref, i, m.vals[i])
  }

  predicate ForgottenValue(file: File, ref: nat, i: nat, v: Value)
    decreases v, 1
  {
    match ShapeAt(file, ref, i)
    case Nested(r, pointer) =>
      (match v
       case Sub(Some(n)) => if pointer then Pooled(file, ref, i) && Forgotten(file, r, n) else Bare(file, r, n) && Untied(file, r, n)
       case _ => true)
    case NestedList(r, _) => PlacesForgotten(file, r, v)
    case _ => true
  }

  predicate PlacesForgotten(file: File, r: nat, v: Value)
    decreases v, 0
  {
    v.Subs? ==>
      && (forall k | 0 <= k < |v.ms| && v.ms[k].Some? :: Untied(file, r, v.ms[k].value))
      && (forall k | k in v.spare :: Forgotten(file, r, v.spare[k]))
  }

  /** Once it is reset it is such a receiver: `Forgotten` without the
      discriminators. */
  predicate Untied(file: File, ref: nat, m: Msg)
    decreases m
  {
    forall i | 0 <= i < |m.vals| :: UntiedValue(file, ref, i, m.vals[i])
  }

  predicate UntiedValue(file: File, ref: nat, i: nat, v: Value)
    decreases v, 1
  {
    match ShapeAt(file, ref, i)
    case Nested(r, pointer) =>
      (match v
       case Sub(Some(n)) => Untied(file, r, n) && if pointer then Pooled(file, ref, i) else Bare(file, r, n)
       case _ => true)
    case NestedList(r, _) => PlacesForgotten(file, r, v)
    case _ => true
  }

  // ---------------------------------------------------------------- matches

  /** `x` shows what `y` shows, and what it holds in spare places matches what
      `y` holds there or, where `y` holds nothing, is forgotten. */
  predicate Matches(file: File, ref: nat, x: Msg, y: Msg)
    decreases x
  {
    && |x.vals| == |y.vals| && x.discs == y.discs
    && forall i | 0 <= i < |x.vals| :: MatchesValue(file, ShapeAt(file, ref, i), x.vals[i], y.vals[i])
  }

  predicate MatchesValue(file: File, shape: Shape, v: Value, w: Value)
    decreases v, 1
  {
    match shape
    case Nested(r, _) => v.Sub? && w.Sub? && MatchesPointer(file, r, v.p, w.p)
    case NestedList(r, _) => MatchesList(file, r, v, w)
    case _ => v == w
  }

  predicate MatchesList(file: File, r: nat, v: Value, w: Value)
    decreases v, 0
  {
    && v.Subs? && w.Subs? && |v.ms| == |w.ms|
    && (forall k | 0 <= k < |v.ms| :: MatchesPointer(file, r, v.ms[k], w.ms[k]))
    && (forall k | k in v.spare ::
          if k in w.spare then Matches(file, r, v.spare[k], w.spare[k]) else Forgotten(file, r, v.spare[k]))
    && forall k | k in w.spare :: k in v.spare
  }

  predicate MatchesPointer(file: File, r: nat, p: Option<Msg>, q: Option<Msg>)
    decreases p
  {
    match p
    case None => q.None?
    case Some(m) => q.Some? && Matches(file, r, m, q.value)
  }

  /** A match cannot be told apart. */
  lemma {:induction false} MatchVisible(file: File, ref: nat, x: Msg, y: Msg)
    requires Matches(file, ref, x, y)
    ensures Visible(x) == Visible(y)
    decreases x
  {
    hide MatchesValue, VisibleValue;
    forall i | 0 <= i < |x.vals|
      ensures VisibleValue(x.vals[i]) == VisibleValue(y.vals[i])
    {
      assert MatchesValue(file, ShapeAt(file, ref, i), x.vals[i], y.vals[i]);
      MatchValueVisible(file, ShapeAt(file, ref, i), x.vals[i], y.vals[i]);
    }
    assert Visible(x).vals == Visible(y).vals;
  }

  lemma MatchValueVisible(file: File, shape: Shape, v: Value, w: Value)
    requires MatchesValue(file, shape, v, w)
    ensures VisibleValue(v) == VisibleValue(w)
    decreases v
  {
    hide Matches, Visible, Forgotten;
    match shape
    case Nested(r, _) => MatchPointerVisible(file, r, v.p, w.p);
    case NestedList(r, _) =>
      forall k | 0 <= k < |v.ms|
        ensures VisiblePointer(v.ms[k]) == VisiblePointer(w.ms[k])
      {
        MatchPointerVisible(file, r, v.ms[k], w.ms[k]);
      }
      assert VisibleValue(v).ms == VisibleValue(w).ms;
    case _ =>
  }

  lemma MatchPointerVisible(file: File, r: nat, p: Option<Msg>, q: Option<Msg>)
    requires MatchesPointer(file, r, p, q)
    ensures VisiblePointer(p) == VisiblePointer(q)
    decreases p
  {
    hide Matches, Visible;
    if p.Some? {
      MatchVisible(file, r, p.value, q.value);
    }
  }

  lemma {:induction false} MatchSelf(file: File, ref: nat, m: Msg)
    requires Typed(file, ref, m)
    ensures Matches(file, ref, m, m)
    decreases m
  {
    hide TypedValue, MatchesValue;
    forall i | 0 <= i < |m.vals|
      ensures MatchesValue(file, ShapeAt(file, ref, i), m.vals[i], m.vals[i])
    {
      assert TypedValue(file, ShapeAt(file, ref, i), m.vals[i]);
      MatchValueSelf(file, ShapeAt(file, ref, i), m.vals[i]);
    }
  }

  lemma MatchValueSelf(file: File, shape: Shape, v: Value)
    requires TypedValue(file, shape, v)
    ensures MatchesValue(file, shape, v, v)
    decreases v
  {
    hide InKind, Typed, Matches, Forgotten, ShadowOf;
    match shape
    case Nested(r, _) =>
      if v.p.Some? {
        MatchSelf(file, r, v.p.value);
      }
    case NestedList(r, pointer) =>
      forall k | 0 <= k < |v.ms|
        ensures MatchesPointer(file, r, v.ms[k], v.ms[k])
      {
        TypedListAt(file, r, pointer, v.ms, k);
        if v.ms[k].Some? {
          MatchSelf(file, r, v.ms[k].value);
        }
      }
      forall k | k in v.spare
        ensures Matches(file, r, v.spare[k], v.spare[k])
      {
        MatchSelf(file, r, v.spare[k]);
      }
    case _ =>
  }

  // ---------------------------------------------------------------- reset

  lemma {:induction false} ResetBare(file: File, ref: nat, m: Msg)
    ensures Bare(file, ref, Reset(file, ref, m)) <==> Bare(file, ref, m)
    decreases m
  {
    hide BareValue, ResetValue;
    var x := Reset(file, ref, m);
    forall i | 0 <= i < |m.vals|
      ensures BareValue(file, ShapeAt(file, ref, i), x.vals[i]) <==> BareValue(file, ShapeAt(file, ref, i), m.vals[i])
    {
      ResetValueBare(file, ShapeAt(file, ref, i), m.vals[i]);
    }
  }

  lemma ResetValueBare(file: File, shape: Shape, v: Value)
    ensures BareValue(file, shape, ResetValue(file, shape, v)) <==> BareValue(file, shape, v)
    decreases v
  {
    hide Bare, Reset, Parked;
    if shape.Nested? && v.Sub? && v.p.Some? {
      ResetBare(file, shape.ref, v.p.value);
    }
  }

  lemma {:induction false} ResetUntied(file: File, ref: nat, m: Msg)
    requires Typed(file, ref, m)
    ensures Untied(file, ref, Reset(file, ref, m)) <==> Untied(file, ref, m)
    decreases m
  {
    hide UntiedValue, ResetValue, TypedValue;
    var x := Reset(file, ref, m);
    forall i | 0 <= i < |m.vals|
      ensures UntiedValue(file, ref, i, x.vals[i]) <==> UntiedValue(file, ref, i, m.vals[i])
    {
      assert TypedValue(file, ShapeAt(file, ref, i), m.vals[i]);
      ResetValueUntied(file, ref, i, m.vals[i]);
    }
  }

  lemma ResetValueUntied(file: File, ref: nat, i: nat, v: Value)
    requires TypedValue(file, ShapeAt(file, ref, i), v)
    ensures UntiedValue(file, ref, i, ResetValue(file, ShapeAt(file, ref, i), v)) <==> UntiedValue(file, ref, i, v)
    decreases v, 1
  {
    hide Forgotten, Untied, Bare, Pooled, Reset, Typed, InKind, PlacesForgotten, Parked, ShadowOf;
    var shape := ShapeAt(file, ref, i);
    match shape
    case Nested(r, _) =>
      if v.p.Some? {
        ResetUntied(file, r, v.p.value);
        ResetBare(file, r, v.p.value);
      }
    case NestedList(_, _) => ResetListForgotten(file, shape, v);
    case _ =>
  }

  lemma {:induction false} ResetForgotten(file: File, ref: nat, m: Msg)
    requires Typed(file, ref, m)
    ensures Forgotten(file, ref, Reset(file, ref, m)) <==> Untied(file, ref, m)
    decreases m
  {
    hide UntiedValue, ForgottenValue, ResetValue, TypedValue;
    var x := Reset(file, ref, m);
    forall i | 0 <= i < |m.vals|
      ensures ForgottenValue(file, ref, i, x.vals[i]) <==> UntiedValue(file, ref, i, m.vals[i])
    {
      assert TypedValue(file, ShapeAt(file, ref, i), m.vals[i]);
      ResetValueForgotten(file, ref, i, m.vals[i]);
    }
  }

  lemma ResetValueForgotten(file: File, ref: nat, i: nat, v: Value)
    requires TypedValue(file, ShapeAt(file, ref, i), v)
    ensures ForgottenValue(file, ref, i, ResetValue(file, ShapeAt(file, ref, i), v)) <==> UntiedValue(file, ref, i, v)
    decreases v, 1
  {
    hide Forgotten, Untied, Bare, Pooled, Reset, Typed, InKind, PlacesForgotten, Parked, ShadowOf;
    var shape := ShapeAt(file, ref, i);
    match shape
    case Nested(r, _) =>
      if v.p.Some? {
        ResetForgotten(file, r, v.p.value);
        ResetUntied(file, r, v.p.value);
        ResetBare(file, r, v.p.value);
      }
    case NestedList(_, _) => ResetListForgotten(file, shape, v);
    case _ =>
  }

  lemma ResetListForgotten(file: File, shape: Shape, v: Value)
    requires shape.NestedList? && TypedValue(file, shape, v)
    ensures PlacesForgotten(file, shape.ref, ResetValue(file, shape, v)) <==> PlacesForgotten(file, shape.ref, v)
    decreases v, 0
  {
    hide Forgotten, Untied, Reset, Typed, ShadowOf, ResetValue, TypedList;
    var r, x := shape.ref, ResetValue(file, shape, v);
    EmptiedList(file, shape, v);
    forall k | 0 <= k < |v.ms| && v.ms[k].Some?
      ensures k in x.spare && (Forgotten(file, r, x.spare[k]) <==> Untied(file, r, v.ms[k].value))
    {
      TypedListAt(file, r, shape.pointer, v.ms, k);
      ResetForgotten(file, r, v.ms[k].value);
    }
    if PlacesForgotten(file, r, x) {
      forall k | k in v.spare
        ensures Forgotten(file, r, v.spare[k])
      {
        assert k in x.spare;
      }
    }
  }

  /** Matches stay matches when they are reset. */
  lemma {:induction false} ResetMatches(file: File, ref: nat, x: Msg, y: Msg)
    requires Typed(file, ref, x) && Typed(file, ref, y) && Matches(file, ref, x, y)
    ensures Matches(file, ref, Reset(file, ref, x), Reset(file, ref, y))
    decreases x
  {
    hide MatchesValue, ResetValue, TypedValue;
    var a, b := Reset(file, ref, x), Reset(file, ref, y);
    forall i | 0 <= i < |a.vals|
      ensures MatchesValue(file, ShapeAt(file, ref, i), a.vals[i], b.vals[i])
    {
      assert MatchesValue(file, ShapeAt(file, ref, i), x.vals[i], y.vals[i]);
      assert TypedValue(file, ShapeAt(file, ref, i), x.vals[i]) && TypedValue(file, ShapeAt(file, ref, i), y.vals[i]);
      ResetValueMatches(file, ShapeAt(file, ref, i), x.vals[i], y.vals[i]);
    }
  }

  lemma ResetValueMatches(file: File, shape: Shape, v: Value, w: Value)
    requires TypedValue(file, shape, v) && TypedValue(file, shape, w) && MatchesValue(file, shape, v, w)
    ensures MatchesValue(file, shape, ResetValue(file, shape, v), ResetValue(file, shape, w))
    decreases v, 1
  {
    hide Matches, Reset, Typed, InKind, Parked, MatchesList, ShadowOf;
    match shape
    case Nested(r, _) =>
      if v.p.Some? {
        ResetMatches(file, r, v.p.value, w.p.value);
      }
    case NestedList(_, _) => ResetListMatches(file, shape, v, w);
    case _ =>
  }

  lemma ResetListMatches(file: File, shape: Shape, v: Value, w: Value)
    requires shape.NestedList? && TypedValue(file, shape, v) && TypedValue(file, shape, w) && MatchesList(file, shape.ref, v, w)
    ensures MatchesList(file, shape.ref, ResetValue(file, shape, v), ResetValue(file, shape, w))
    decreases v, 0
  {
    hide Matches, Reset, Typed, InKind, Forgotten, ShadowOf, ResetValue, TypedList;
    EmptiedList(file, shape, v);
    EmptiedList(file, shape, w);
    var r, a, b := shape.ref, ResetValue(file, shape, v), ResetValue(file, shape, w);
    forall k | 0 <= k < |v.ms| && v.ms[k].Some?
      ensures w.ms[k].Some? && k in a.spare && k in b.spare && Matches(file, r, a.spare[k], b.spare[k])
    {
      assert MatchesPointer(file, r, v.ms[k], w.ms[k]);
      TypedListAt(file, r, shape.pointer, v.ms, k);
      TypedListAt(file, r, shape.pointer, w.ms, k);
      ResetMatches(file, r, v.ms[k].value, w.ms[k].value);
    }
    forall k | 0 <= k < |v.ms| && v.ms[k].None?
      ensures w.ms[k].None?
    {
      assert MatchesPointer(file, r, v.ms[k], w.ms[k]);
    }
  }

  /** What is held inline, once reset, matches what a new object holds there. */
  lemma {:induction false} ResetMatchesFresh(file: File, ref: nat, m: Msg)
    requires ValidFile(file) && Typed(file, ref, m) && Bare(file, ref, m) && Untied(file, ref, m)
    ensures Matches(file, ref, Reset(file, ref, m), Fresh(file, ref))
    decreases m
  {
    hide ValidFile, TypedValue, ResetValue, FreshValue, BareValue, UntiedValue, MatchesValue;
    var x, y := Reset(file, ref, m), Fresh(file, ref);
    forall i | 0 <= i < |m.vals|
      ensures MatchesValue(file, ShapeAt(file, ref, i), x.vals[i], y.vals[i])
    {
      assert TypedValue(file, ShapeAt(file, ref, i), m.vals[i]);
      assert BareValue(file, ShapeAt(file, ref, i), m.vals[i]) && UntiedValue(file, ref, i, m.vals[i]);
      ResetValueMatchesFresh(file, ref, i, m.vals[i]);
    }
    assert x.discs == y.discs;
  }

  lemma ResetValueMatchesFresh(file: File, ref: nat, i: nat, v: Value)
    requires ValidFile(file) && i < |Fields(file, ref)| && TypedValue(file, ShapeAt(file, ref, i), v)
    requires BareValue(file, ShapeAt(file, ref, i), v) && UntiedValue(file, ref, i, v)
    ensures MatchesValue(file, ShapeAt(file, ref, i), ResetValue(file, ShapeAt(file, ref, i), v),
                         FreshValue(file, ref, ShapeAt(file, ref, i)))
    decreases v
  {
    InlineRefersEarlier(file, ref, i);
    hide ValidFile, InKind, Typed, Reset, Fresh, Bare, Untied, Matches, Pooled, Parked, ShadowOf, PlacesForgotten,
         MatchesList;
    var shape := ShapeAt(file, ref, i);
    match shape
    case Nested(r, _) =>
      if v.p.Some? {
        ResetMatchesFresh(file, r, v.p.value);
      }
    case NestedList(_, _) => ListMatchesEmpty(file, shape, v);
    case _ =>
  }

  lemma ListMatchesEmpty(file: File, shape: Shape, v: Value)
    requires shape.NestedList? && TypedValue(file, shape, v) && PlacesForgotten(file, shape.ref, v)
    ensures MatchesList(file, shape.ref, ResetValue(file, shape, v), Subs([], map[]))
  {
    hide InKind, Typed, Reset, Untied, Matches, Parked, ShadowOf, Forgotten;
    ResetListForgotten(file, shape, v);
  }

  // ---------------------------------------------------------------- decoding

  /** Decoding the same records into matches leaves matches. */
  lemma {:induction false} MatchDecodes(file: File, ref: nat, x: Msg, y: Msg, recs: seq<Rec>)
    requires ValidFile(file) && Typed(file, ref, x) && Typed(file, ref, y) && RecsFit(file, ref, recs, true)
    requires Matches(file, ref, x, y)
    ensures Matches(file, ref, Decode(file, ref, x, recs), Decode(file, ref, y, recs))
    decreases recs, 3
  {
    hide ValidFile, TypedValue, MatchesValue, Decode, RecsFit, LastBranch;
    var a, b := Decode(file, ref, x, recs), Decode(file, ref, y, recs);
    DecodedShape(file, ref, x, recs);
    DecodedShape(file, ref, y, recs);
    SameDiscs(file, ref, x, y, recs);
    forall i | 0 <= i < |a.vals|
      ensures MatchesValue(file, ShapeAt(file, ref, i), a.vals[i], b.vals[i])
    {
      assert MatchesValue(file, ShapeAt(file, ref, i), x.vals[i], y.vals[i]);
      FieldMatches(file, ref, x, y, recs, i);
    }
  }

  lemma SameDiscs(file: File, ref: nat, x: Msg, y: Msg, recs: seq<Rec>)
    requires |x.vals| == |y.vals| == |Fields(file, ref)| && x.discs == y.discs
    ensures Decode(file, ref, x, recs).discs == Decode(file, ref, y, recs).discs
  {
    hide Decode, LastBranch;
    DecodedShape(file, ref, x, recs);
    DecodedShape(file, ref, y, recs);
    forall j | 0 <= j < |x.discs|
      ensures Decode(file, ref, x, recs).discs[j] == Decode(file, ref, y, recs).discs[j]
    {
      DecodedDisc(file, ref, x, recs, j);
      DecodedDisc(file, ref, y, recs, j);
    }
  }

  lemma FieldMatches(file: File, ref: nat, x: Msg, y: Msg, recs: seq<Rec>, i: nat)
    requires ValidFile(file) && Typed(file, ref, x) && Typed(file, ref, y) && RecsFit(file, ref, recs, true)
    requires i < |x.vals| && i < |y.vals| && MatchesValue(file, ShapeAt(file, ref, i), x.vals[i], y.vals[i])
    ensures i < |Decode(file, ref, x, recs).vals| && i < |Decode(file, ref, y, recs).vals|
    ensures MatchesValue(file, ShapeAt(file, ref, i), Decode(file, ref, x, recs).vals[i],
                         Decode(file, ref, y, recs).vals[i])
    decreases recs, 2
  {
    hide ValidFile, TypedValue, MatchesValue, Decode, RecsFit, Fold, Deltas, Pooled, ResetValue, DeltaFits;
    var shape := ShapeAt(file, ref, i);
    TypedAt(file, ref, x, i);
    TypedAt(file, ref, y, i);
    DecodedField(file, ref, x, recs, i);
    DecodedField(file, ref, y, recs, i);
    DeltasFitField(file, ref, recs, i);
    ResetValueMatches(file, shape, x.vals[i], y.vals[i]);
    ResetValueTyped(file, shape, x.vals[i]);
    ResetValueTyped(file, shape, y.vals[i]);
    NilMatches(file, ref, i);
    FoldMatches(file, shape, Start(file, ref, x).vals[i], Start(file, ref, y).vals[i], recs, i);
  }

  lemma NilMatches(file: File, ref: nat, i: nat)
    ensures Pooled(file, ref, i) ==> MatchesValue(file, ShapeAt(file, ref, i), Nil(ShapeAt(file, ref, i)), Nil(ShapeAt(file, ref, i)))
  {
    hide Pooling;
  }

  lemma {:induction false} FoldMatches(file: File, shape: Shape, v: Value, w: Value, recs: seq<Rec>, i: nat)
    requires ValidFile(file) && TypedValue(file, shape, v) && TypedValue(file, shape, w) && MatchesValue(file, shape, v, w)
    requires forall k | 0 <= k < |Deltas(recs, i)| :: DeltaFits(file, shape, Deltas(recs, i)[k], true)
    ensures MatchesValue(file, shape, Fold(file, shape, v, Deltas(recs, i)), Fold(file, shape, w, Deltas(recs, i)))
    decreases recs, 1
  {
    hide ValidFile, MatchesValue, Update, TypedValue, DeltaFits;
    if recs == [] {
      FoldNothing(file, shape, v);
      FoldNothing(file, shape, w);
    } else if recs[0].Known? && recs[0].idx == i {
      var d := recs[0].d;
      assert Deltas(recs, i)[0] == d && Deltas(recs, i)[1..] == Deltas(recs[1..], i);
      assert forall k | 0 <= k < |Deltas(recs[1..], i)| :: Deltas(recs[1..], i)[k] == Deltas(recs, i)[k + 1];
      RecMatches(file, shape, v, w, recs[0]);
      UpdateTyped(file, shape, v, d);
      UpdateTyped(file, shape, w, d);
      FoldMatches(file, shape, Update(file, shape, v, d), Update(file, shape, w, d), recs[1..], i);
    } else {
      assert Deltas(recs, i) == Deltas(recs[1..], i);
      FoldMatches(file, shape, v, w, recs[1..], i);
    }
  }

  lemma RecMatches(file: File, shape: Shape, v: Value, w: Value, x: Rec)
    requires ValidFile(file) && TypedValue(file, shape, v) && TypedValue(file, shape, w) && MatchesValue(file, shape, v, w)
    requires x.Known? && DeltaFits(file, shape, x.d, true)
    ensures MatchesValue(file, shape, Update(file, shape, v, x.d), Update(file, shape, w, x.d))
    decreases x, 1
  {
    hide ValidFile, MatchesValue, TypedValue, DeltaFits, Update;
    UpdateMatches(file, shape, v, w, x.d);
  }

  lemma UpdateMatches(file: File, shape: Shape, v: Value, w: Value, d: Delta)
    requires ValidFile(file) && TypedValue(file, shape, v) && TypedValue(file, shape, w) && MatchesValue(file, shape, v, w)
    requires DeltaFits(file, shape, d, true)
    ensures MatchesValue(file, shape, Update(file, shape, v, d), Update(file, shape, w, d))
    decreases d, 1
  {
    hide ValidFile, Matches, Decode, Fresh, Typed, RecsFit, InKind, MatchesList, ShadowOf, Next;
    match shape
    case Nested(r, _) =>
      HeldTyped(file, shape, v);
      HeldTyped(file, shape, w);
      HeldMatches(file, shape, v, w);
      MatchDecodes(file, r, Held(file, r, v), Held(file, r, w), d.recs);
    case NestedList(r, _) => AppendMatches(file, shape, v, w, d);
    case _ =>
  }

  lemma HeldMatches(file: File, shape: Shape, v: Value, w: Value)
    requires ValidFile(file) && shape.Nested? && MatchesValue(file, shape, v, w)
    ensures Matches(file, shape.ref, Held(file, shape.ref, v), Held(file, shape.ref, w))
  {
    hide ValidFile, Matches, Fresh, Typed;
    FreshTyped(file, shape.ref);
    MatchSelf(file, shape.ref, Fresh(file, shape.ref));
  }

  lemma AppendMatches(file: File, shape: Shape, v: Value, w: Value, d: Delta)
    requires ValidFile(file) && shape.NestedList? && TypedValue(file, shape, v) && TypedValue(file, shape, w)
    requires MatchesList(file, shape.ref, v, w) && DeltaFits(file, shape, d, true)
    ensures MatchesList(file, shape.ref, Update(file, shape, v, d), Update(file, shape, w, d))
    decreases d, 0
  {
    hide ValidFile, Matches, Decode, Fresh, Typed, RecsFit, Forgotten, ShadowOf;
    var r, n := shape.ref, |v.ms|;
    var p, q := Next(file, r, v), Next(file, r, w);
    FreshTyped(file, r);
    if n in w.spare {
      MatchDecodes(file, r, p, q, d.recs);
    } else if n in v.spare {
      ForgottenDecodes(file, r, p, d.recs);
    } else {
      MatchSelf(file, r, p);
      MatchDecodes(file, r, p, q, d.recs);
    }
  }

  /** What a new object holds is forgotten. */
  lemma {:induction false} FreshForgotten(file: File, ref: nat)
    requires ValidFile(file)
    ensures Forgotten(file, ref, Fresh(file, ref)) && Bare(file, ref, Fresh(file, ref)) && Untied(file, ref, Fresh(file, ref))
    decreases ref
  {
    hide ValidFile, FreshValue, ForgottenValue, BareValue, UntiedValue;
    var m := Fresh(file, ref);
    forall i | 0 <= i < |m.vals|
      ensures ForgottenValue(file, ref, i, m.vals[i]) && UntiedValue(file, ref, i, m.vals[i])
      ensures BareValue(file, ShapeAt(file, ref, i), m.vals[i])
    {
      FreshValueForgotten(file, ref, i);
    }
  }

  lemma FreshValueForgotten(file: File, ref: nat, i: nat)
    requires ValidFile(file) && i < |Fields(file, ref)|
    ensures var v := FreshValue(file, ref, ShapeAt(file, ref, i));
            ForgottenValue(file, ref, i, v) && BareValue(file, ShapeAt(file, ref, i), v) && UntiedValue(file, ref, i, v)
    decreases ref, 0
  {
    InlineRefersEarlier(file, ref, i);
    hide ValidFile, Fresh, Forgotten, Bare, Untied, Pooled;
    var shape := ShapeAt(file, ref, i);
    if shape.Nested? && !shape.pointer {
      FreshForgotten(file, shape.ref);
    }
  }

  /** A receiver that is forgotten decodes every wire to a match of what a new
      object would hold. */
  lemma {:induction false} ForgottenDecodes(file: File, ref: nat, m: Msg, recs: seq<Rec>)
    requires ValidFile(file) && Typed(file, ref, m) && Forgotten(file, ref, m) && RecsFit(file, ref, recs, true)
    ensures Matches(file, ref, Decode(file, ref, m, recs), Decode(file, ref, Fresh(file, ref), recs))
    decreases recs, 3
  {
    hide ValidFile, TypedValue, Decode, RecsFit, Fresh, ForgottenValue, MatchesValue;
    FreshSize(file, ref);
    DecodedShape(file, ref, m, recs);
    DecodedShape(file, ref, Fresh(file, ref), recs);
    assert m.discs == Fresh(file, ref).discs;
    SameDiscs(file, ref, m, Fresh(file, ref), recs);
    forall i | 0 <= i < |m.vals|
      ensures MatchesValue(file, ShapeAt(file, ref, i), Decode(file, ref, m, recs).vals[i],
                           Decode(file, ref, Fresh(file, ref), recs).vals[i])
    {
      assert ForgottenValue(file, ref, i, m.vals[i]);
      ForgottenField(file, ref, m, recs, i);
    }
  }

  lemma ForgottenField(file: File, ref: nat, m: Msg, recs: seq<Rec>, i: nat)
    requires ValidFile(file) && Typed(file, ref, m) && RecsFit(file, ref, recs, true)
    requires i < |m.vals| && ForgottenValue(file, ref, i, m.vals[i])
    ensures i < |Decode(file, ref, m, recs).vals| && i < |Decode(file, ref, Fresh(file, ref), recs).vals|
    ensures MatchesValue(file, ShapeAt(file, ref, i), Decode(file, ref, m, recs).vals[i],
                         Decode(file, ref, Fresh(file, ref), recs).vals[i])
    decreases recs, 2
  {
    hide ValidFile, TypedValue, Decode, RecsFit, Fresh, FreshValue, Fold, Deltas, Pooled, ResetValue, DeltaFits,
         MatchesValue, ForgottenValue;
    var shape := ShapeAt(file, ref, i);
    TypedAt(file, ref, m, i);
    FreshAt(file, ref, i);
    FreshSize(file, ref);
    FreshTyped(file, ref);
    StartFresh(file, ref);
    FreshValueTyped(file, ref, i);
    DecodedField(file, ref, m, recs, i);
    DecodedField(file, ref, Fresh(file, ref), recs, i);
    DeltasFitField(file, ref, recs, i);
    NilMatches(file, ref, i);
    if Pooled(file, ref, i) {
      if Leaf(shape) {
        LeafForgets(file, ref, m, Fresh(file, ref), recs, i);
        LeavesMatch(file, shape, Decode(file, ref, m, recs).vals[i]);
      } else if Deltas(recs, i) != [] {
        PooledHeld(file, ref, i, m.vals[i]);
        HeldForgottenFold(file, shape, m.vals[i], FreshValue(file, ref, shape), recs, i);
      }
    } else {
      ResetValueTyped(file, shape, m.vals[i]);
      UnpooledStart(file, ref, i, m.vals[i]);
      FoldMatches(file, shape, ResetValue(file, shape, m.vals[i]), FreshValue(file, ref, shape), recs, i);
    }
  }

  lemma LeavesMatch(file: File, shape: Shape, v: Value)
    requires Leaf(shape)
    ensures MatchesValue(file, shape, v, v)
  {
  }

  lemma PooledHeld(file: File, ref: nat, i: nat, v: Value)
    requires ValidFile(file) && Pooled(file, ref, i) && !Leaf(ShapeAt(file, ref, i))
    requires TypedValue(file, ShapeAt(file, ref, i), v) && ForgottenValue(file, ref, i, v)
    ensures var shape := ShapeAt(file, ref, i);
            && shape.Nested? && Forgotten(file, shape.ref, Held(file, shape.ref, v))
            && Held(file, shape.ref, FreshValue(file, ref, shape)) == Fresh(file, shape.ref)
  {
    hide ValidFile, Pooling, Fresh, Forgotten, Typed, Bare, Untied, InKind, ShadowOf;
    FreshForgotten(file, ShapeAt(file, ref, i).ref);
  }

  lemma UnpooledStart(file: File, ref: nat, i: nat, v: Value)
    requires ValidFile(file) && i < |Fields(file, ref)| && TypedValue(file, ShapeAt(file, ref, i), v)
    requires !Pooled(file, ref, i) && ForgottenValue(file, ref, i, v)
    ensures MatchesValue(file, ShapeAt(file, ref, i), ResetValue(file, ShapeAt(file, ref, i), v),
                         FreshValue(file, ref, ShapeAt(file, ref, i)))
  {
    hide ValidFile, InKind, Pooled, Typed, ResetValue, FreshValue, Bare, Forgotten, MatchesValue, Untied,
         PlacesForgotten, ShadowOf;
    ResetValueMatchesFresh(file, ref, i, v);
  }

  /** The first record of a singular message meets a receiver that is forgotten
      on one side and a new one on the other; from then on the two match. */
  lemma {:induction false} HeldForgottenFold(file: File, shape: Shape, v: Value, w: Value, recs: seq<Rec>, i: nat)
    requires ValidFile(file) && shape.Nested? && TypedValue(file, shape, v) && TypedValue(file, shape, w)
    requires Forgotten(file, shape.ref, Held(file, shape.ref, v)) && Held(file, shape.ref, w) == Fresh(file, shape.ref)
    requires Deltas(recs, i) != [] && forall k | 0 <= k < |Deltas(recs, i)| :: DeltaFits(file, shape, Deltas(recs, i)[k], true)
    ensures MatchesValue(file, shape, Fold(file, shape, v, Deltas(recs, i)), Fold(file, shape, w, Deltas(recs, i)))
    decreases recs, 1
  {
    hide ValidFile, MatchesValue, Update, TypedValue, DeltaFits, Held, Fresh, Forgotten;
    if recs[0].Known? && recs[0].idx == i {
      var d := recs[0].d;
      assert Deltas(recs, i)[0] == d && Deltas(recs, i)[1..] == Deltas(recs[1..], i);
      assert forall k | 0 <= k < |Deltas(recs[1..], i)| :: Deltas(recs[1..], i)[k] == Deltas(recs, i)[k + 1];
      FirstRec(file, shape, v, w, recs[0]);
      UpdateTyped(file, shape, v, d);
      UpdateTyped(file, shape, w, d);
      FoldMatches(file, shape, Update(file, shape, v, d), Update(file, shape, w, d), recs[1..], i);
    } else {
      assert Deltas(recs, i) == Deltas(recs[1..], i);
      HeldForgottenFold(file, shape, v, w, recs[1..], i);
    }
  }

  lemma FirstRec(file: File, shape: Shape, v: Value, w: Value, x: Rec)
    requires ValidFile(file) && shape.Nested? && TypedValue(file, shape, v)
    requires Forgotten(file, shape.ref, Held(file, shape.ref, v)) && Held(file, shape.ref, w) == Fresh(file, shape.ref)
    requires x.Known? && DeltaFits(file, shape, x.d, true)
    ensures MatchesValue(file, shape, Update(file, shape, v, x.d), Update(file, shape, w, x.d))
    decreases x, 1
  {
    hide ValidFile, MatchesValue, TypedValue, DeltaFits, Update, Held, Fresh, Forgotten;
    FirstUpdate(file, shape, v, w, x.d);
  }

  lemma FirstUpdate(file: File, shape: Shape, v: Value, w: Value, d: Delta)
    requires ValidFile(file) && shape.Nested? && TypedValue(file, shape, v)
    requires Forgotten(file, shape.ref, Held(file, shape.ref, v)) && Held(file, shape.ref, w) == Fresh(file, shape.ref)
    requires DeltaFits(file, shape, d, true)
    ensures MatchesValue(file, shape, Update(file, shape, v, d), Update(file, shape, w, d))
    decreases d, 1
  {
    hide ValidFile, Matches, Decode, Fresh, Typed, RecsFit, Held, Forgotten;
    HeldTyped(file, shape, v);
    ForgottenDecodes(file, shape.ref, Held(file, shape.ref, v), d.recs);
  }
}
