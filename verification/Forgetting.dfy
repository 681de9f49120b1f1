// When a decode forgets its receiver: which receivers decode every wire to what
// a new object would show, and which messages have no other receivers.

module Forgetting {
  import opened Base
  import opened Schema
  import opened Records
  import opened Values
  import opened Encoder
  import opened Decoder
  import opened RoundTrip
  import opened Typing
  import opened Canonical
  import opened Resets
  import opened Discriminators
  import opened Matching

  // ---------------------------------------------------------------- what resetting shows

  /** A reset shows what a new object shows exactly when what it was is bare: it
      keeps pointers. */
  lemma {:induction false} ResetVisibleIff(file: File, ref: nat, m: Msg)
    requires ValidFile(file) && Typed(file, ref, m)
    ensures Visible(Reset(file, ref, m)) == Visible(Fresh(file, ref)) <==> Bare(file, ref, m)
    decreases m
  {
    hide ValidFile, TypedValue, ResetValue, FreshValue, BareValue, VisibleValue;
    forall i | 0 <= i < |m.vals|
      ensures VisibleValue(ResetValue(file, ShapeAt(file, ref, i), m.vals[i])) == VisibleValue(FreshValue(file, ref, ShapeAt(file, ref, i)))
         <==> BareValue(file, ShapeAt(file, ref, i), m.vals[i])
    {
      assert TypedValue(file, ShapeAt(file, ref, i), m.vals[i]);
      ResetFieldVisibleIff(file, ref, i, m.vals[i]);
    }
    var x, y := Reset(file, ref, m), Fresh(file, ref);
    if Visible(x) == Visible(y) {
      forall i | 0 <= i < |m.vals|
        ensures BareValue(file, ShapeAt(file, ref, i), m.vals[i])
      {
        VisibleField(x, y, i);
      }
    }
    if Bare(file, ref, m) {
      assert Visible(x).vals == Visible(y).vals;
    }
  }

  lemma VisibleField(x: Msg, y: Msg, i: nat)
    requires Visible(x) == Visible(y) && i < |x.vals|
    ensures i < |y.vals| && VisibleValue(x.vals[i]) == VisibleValue(y.vals[i])
  {
    hide Visible, VisibleValue;
    assert i < |Visible(y).vals|;
    VisibleAt(x, i);
    VisibleAt(y, i);
  }

  lemma ResetFieldVisibleIff(file: File, ref: nat, i: nat, v: Value)
    requires ValidFile(file) && i < |Fields(file, ref)| && TypedValue(file, ShapeAt(file, ref, i), v)
    ensures VisibleValue(ResetValue(file, ShapeAt(file, ref, i), v)) == VisibleValue(FreshValue(file, ref, ShapeAt(file, ref, i)))
       <==> BareValue(file, ShapeAt(file, ref, i), v)
    decreases v
  {
    InlineRefersEarlier(file, ref, i);
    hide ValidFile, InKind, Typed, Reset, Fresh, Bare, Visible, Parked, ShadowOf;
    match ShapeAt(file, ref, i)
    case Nested(r, pointer) =>
      if v.p.Some? {
        ResetVisibleIff(file, r, v.p.value);
      }
    case _ =>
  }

  /** Resetting twice is resetting once. */
  lemma {:induction false} ResetTwice(file: File, ref: nat, m: Msg)
    requires Typed(file, ref, m)
    ensures Reset(file, ref, Reset(file, ref, m)) == Reset(file, ref, m)
    decreases m
  {
    hide TypedValue, ResetValue;
    var x := Reset(file, ref, m);
    forall i | 0 <= i < |m.vals|
      ensures ResetValue(file, ShapeAt(file, ref, i), x.vals[i]) == x.vals[i]
    {
      assert TypedValue(file, ShapeAt(file, ref, i), m.vals[i]);
      ResetValueTwice(file, ShapeAt(file, ref, i), m.vals[i]);
    }
    assert Reset(file, ref, x).vals == x.vals;
  }

  lemma ResetValueTwice(file: File, shape: Shape, v: Value)
    requires TypedValue(file, shape, v)
    ensures ResetValue(file, shape, ResetValue(file, shape, v)) == ResetValue(file, shape, v)
    decreases v
  {
    hide InKind, Typed, Reset, ShadowOf;
    match shape
    case Nested(r, _) =>
      if v.p.Some? {
        ResetTwice(file, r, v.p.value);
      }
    case NestedList(r, _) =>
      var spare := ResetValue(file, shape, v).spare;
      assert spare + Parked(file, r, []) == spare;
    case _ =>
  }

  // ---------------------------------------------------------------- what shows of any other receiver

  /** The receiver as it is, or after a reset. */
  function Receiver(file: File, ref: nat, m: Msg, zeroed: bool): Msg {
    if zeroed then Reset(file, ref, m) else m
  }

  predicate Gone(file: File, ref: nat, m: Msg, zeroed: bool) {
    if zeroed then Untied(file, ref, m) else Forgotten(file, ref, m)
  }

  predicate GoneValue(file: File, ref: nat, i: nat, v: Value, zeroed: bool) {
    if zeroed then UntiedValue(file, ref, i, v) else ForgottenValue(file, ref, i, v)
  }

  lemma ReceiverAt(file: File, ref: nat, m: Msg, zeroed: bool, i: nat)
    requires Typed(file, ref, m) && i < |m.vals|
    ensures Typed(file, ref, Receiver(file, ref, m, zeroed)) && |Receiver(file, ref, m, zeroed).vals| == |m.vals|
    ensures ResetValue(file, ShapeAt(file, ref, i), Receiver(file, ref, m, zeroed).vals[i]) == ResetValue(file, ShapeAt(file, ref, i), m.vals[i])
    ensures zeroed ==> Receiver(file, ref, m, zeroed).vals[i] == ResetValue(file, ShapeAt(file, ref, i), m.vals[i])
  {
    hide TypedValue, ResetValue;
    if zeroed {
      ResetTyped(file, ref, m);
      assert TypedValue(file, ShapeAt(file, ref, i), m.vals[i]);
      ResetValueTwice(file, ShapeAt(file, ref, i), m.vals[i]);
    }
  }

  /** Some records show any other receiver: records that can be written. */
  lemma {:induction false} Remembered(file: File, ref: nat, m: Msg, zeroed: bool) returns (recs: seq<Rec>)
    requires ValidFile(file) && Typed(file, ref, m) && !Gone(file, ref, m, zeroed)
    ensures RecsFit(file, ref, recs, false)
    ensures Visible(Decode(file, ref, Receiver(file, ref, m, zeroed), recs)) != Visible(Decode(file, ref, Fresh(file, ref), recs))
    decreases m
  {
    hide ValidFile, TypedValue, Decode, RecsFit, Fresh, LastBranch, ForgottenValue, UntiedValue, VisibleValue;
    FreshSize(file, ref);
    NoneFit(file, ref);
    if j :| 0 <= j < |m.discs| && m.discs[j] != 0 && !zeroed {
      recs := [];
      DecodedDisc(file, ref, m, recs, j);
      DecodedDisc(file, ref, Fresh(file, ref), recs, j);
      NoBranchYet(file, ref, j, m.discs[j]);
      NoBranchYet(file, ref, j, 0);
    } else {
      var i :| 0 <= i < |m.vals| && !GoneValue(file, ref, i, m.vals[i], zeroed);
      assert TypedValue(file, ShapeAt(file, ref, i), m.vals[i]);
      assert m.vals[i] < m;
      recs := RememberedField(file, ref, m, i, m.vals[i], zeroed);
      hide Visible, Receiver;
      if Visible(Decode(file, ref, Receiver(file, ref, m, zeroed), recs)) == Visible(Decode(file, ref, Fresh(file, ref), recs)) {
        VisibleField(Decode(file, ref, Receiver(file, ref, m, zeroed), recs), Decode(file, ref, Fresh(file, ref), recs), i);
      }
    }
  }

  lemma NoBranchYet(file: File, ref: nat, j: nat, d: nat)
    ensures LastBranch(file, ref, [], j, d) == d
  {
  }

  /** What field `i` of two decodes shows is not the same. */
  ghost predicate Shows(file: File, ref: nat, i: nat, a: Msg, b: Msg, recs: seq<Rec>) {
    && i < |Decode(file, ref, a, recs).vals| && i < |Decode(file, ref, b, recs).vals|
    && VisibleValue(Decode(file, ref, a, recs).vals[i]) != VisibleValue(Decode(file, ref, b, recs).vals[i])
  }

  lemma RememberedField(file: File, ref: nat, m: Msg, i: nat, v: Value, zeroed: bool) returns (recs: seq<Rec>)
    requires ValidFile(file) && Typed(file, ref, m) && i < |m.vals| && m.vals[i] == v
    requires TypedValue(file, ShapeAt(file, ref, i), v) && !GoneValue(file, ref, i, v, zeroed)
    ensures RecsFit(file, ref, recs, false)
    ensures Shows(file, ref, i, Receiver(file, ref, m, zeroed), Fresh(file, ref), recs)
    decreases v
  {
    hide ValidFile, TypedValue, Decode, RecsFit, Fresh, Pooled, GoneValue, Bare, Untied, Forgotten, Receiver, Shows, ShadowOf,
         DeltaFits, Empties;
    var shape := ShapeAt(file, ref, i);
    NotGone(file, ref, i, v, zeroed);
    NoneFit(file, ref);
    if shape.NestedList? {
      var k, e, reset := PlaceNotGone(file, shape, v);
      var inner := Remembered(file, shape.ref, e, reset);
      recs := Of(i, Empties(k) + [Tree(inner)]);
      TreesFit(file, ref, i, k, inner);
      ListShows(file, ref, m, i, zeroed, k, e, reset, inner);
    } else if Pooled(file, ref, i) {
      var inner := Remembered(file, shape.ref, v.p.value, zeroed);
      recs := Of(i, Empties(0) + [Tree(inner)]);
      TreesFit(file, ref, i, 0, inner);
      PooledShows(file, ref, m, i, zeroed, inner);
    } else if shape.pointer || !Bare(file, shape.ref, v.p.value) {
      recs := [];
      AbsentShows(file, ref, m, i, zeroed);
    } else {
      var inner := Remembered(file, shape.ref, v.p.value, true);
      recs := Of(i, Empties(0) + [Tree(inner)]);
      TreesFit(file, ref, i, 0, inner);
      InlineShows(file, ref, m, i, zeroed, inner);
    }
  }

  lemma NotGone(file: File, ref: nat, i: nat, v: Value, zeroed: bool)
    requires TypedValue(file, ShapeAt(file, ref, i), v) && !GoneValue(file, ref, i, v, zeroed)
    ensures var shape := ShapeAt(file, ref, i);
            && !Leaf(shape)
            && (shape.NestedList? ==> !PlacesForgotten(file, shape.ref, v))
            && (shape.Nested? ==>
                  && v.Sub? && v.p.Some? && Typed(file, shape.ref, v.p.value)
                  && (Pooled(file, ref, i) ==> shape.pointer && !Gone(file, shape.ref, v.p.value, zeroed))
                  && (!shape.pointer && Bare(file, shape.ref, v.p.value) ==> !Untied(file, shape.ref, v.p.value)))
  {
    hide Pooling, Bare, Forgotten, Untied, PlacesForgotten, Typed, InKind, ShadowOf, TypedList;
  }

  /** The object in place `k` of a slice that is not forgotten, and whether it is
      reset before it is used. */
  lemma PlaceNotGone(file: File, shape: Shape, v: Value) returns (k: nat, e: Msg, reset: bool)
    requires shape.NestedList? && TypedValue(file, shape, v) && !PlacesForgotten(file, shape.ref, v)
    ensures e < v && Typed(file, shape.ref, e) && !Gone(file, shape.ref, e, reset)
    ensures var x := ResetValue(file, shape, v);
            x.Subs? && x.ms == [] && k in x.spare && x.spare[k] == Receiver(file, shape.ref, e, reset)
  {
    hide Bare, Forgotten, Untied, Typed, InKind, ShadowOf, TypedList, ResetValue, Reset;
    var r := shape.ref;
    EmptiedList(file, shape, v);
    if l :| 0 <= l < |v.ms| && v.ms[l].Some? && !Untied(file, r, v.ms[l].value) {
      TypedListAt(file, r, shape.pointer, v.ms, l);
      k, e, reset := l, v.ms[l].value, true;
    } else {
      var l :| l in v.spare && !Forgotten(file, r, v.spare[l]);
      k, e, reset := l, v.spare[l], false;
    }
  }

  /** `n` empty nested messages. */
  function Empties(n: nat): (ds: seq<Delta>)
    ensures |ds| == n
  {
    if n == 0 then [] else [Tree([])] + Empties(n - 1)
  }

  lemma {:induction false} EmptiesFit(file: File, shape: Shape, n: nat)
    requires !Leaf(shape)
    ensures DeltasFit(file, shape, Empties(n))
    decreases n
  {
    if n > 0 {
      EmptiesFit(file, shape, n - 1);
    }
  }

  lemma TreesFit(file: File, ref: nat, i: nat, n: nat, inner: seq<Rec>)
    requires i < |Fields(file, ref)| && !Leaf(ShapeAt(file, ref, i)) && RecsFit(file, ShapeAt(file, ref, i).ref, inner, false)
    ensures RecsFit(file, ref, Of(i, Empties(n) + [Tree(inner)]), false)
  {
    hide RecsFit, Empties;
    EmptiesFit(file, ShapeAt(file, ref, i), n);
    OfFits(file, ref, i, Empties(n) + [Tree(inner)]);
  }

  /** A decode of records of field `i` only. */
  lemma OneField(file: File, ref: nat, m: Msg, i: nat, ds: seq<Delta>)
    requires i < |m.vals| && i < |Fields(file, ref)|
    ensures var shape := ShapeAt(file, ref, i);
            && i < |Decode(file, ref, m, Of(i, ds)).vals|
            && Decode(file, ref, m, Of(i, ds)).vals[i] ==
               if Pooled(file, ref, i) && ds == [] then Nil(shape)
               else Fold(file, shape, if Pooled(file, ref, i) then m.vals[i] else ResetValue(file, shape, m.vals[i]), ds)
  {
    hide Decode, Fold, Pooled, ResetValue, Of, Deltas;
    DecodedField(file, ref, m, Of(i, ds), i);
    DeltasOfOf(i, ds, i);
  }

  /** And into a new object. */
  lemma OneFieldFresh(file: File, ref: nat, i: nat, ds: seq<Delta>)
    requires ValidFile(file) && i < |Fields(file, ref)|
    ensures i < |Decode(file, ref, Fresh(file, ref), Of(i, ds)).vals|
    ensures Decode(file, ref, Fresh(file, ref), Of(i, ds)).vals[i] ==
            Fold(file, ShapeAt(file, ref, i), FreshValue(file, ref, ShapeAt(file, ref, i)), ds)
  {
    hide ValidFile, Decode, Fold, Pooling, ResetValue, Of, Deltas, Fresh, FreshValue, Nil, Poolable;
    FreshAt(file, ref, i);
    ResetFreshValue(file, ref, i);
    OneField(file, ref, Fresh(file, ref), i, ds);
    NilIsFresh(file, ref, i);
    FoldNothing(file, ShapeAt(file, ref, i), FreshValue(file, ref, ShapeAt(file, ref, i)));
  }

  lemma AbsentShows(file: File, ref: nat, m: Msg, i: nat, zeroed: bool)
    requires ValidFile(file) && Typed(file, ref, m) && i < |m.vals| && !Pooled(file, ref, i)
    requires !BareValue(file, ShapeAt(file, ref, i), m.vals[i])
    ensures Shows(file, ref, i, Receiver(file, ref, m, zeroed), Fresh(file, ref), [])
  {
    hide ValidFile, Decode, Fold, Pooled, ResetValue, Fresh, FreshValue, Receiver, BareValue, TypedValue, VisibleValue;
    var shape := ShapeAt(file, ref, i);
    TypedAt(file, ref, m, i);
    ReceiverAt(file, ref, m, zeroed, i);
    OneField(file, ref, Receiver(file, ref, m, zeroed), i, []);
    OneFieldFresh(file, ref, i, []);
    FoldNothing(file, shape, ResetValue(file, shape, m.vals[i]));
    FoldNothing(file, shape, FreshValue(file, ref, shape));
    ResetFieldVisibleIff(file, ref, i, m.vals[i]);
  }

  /** A singular message and what one record makes of it. */
  lemma OneTree(file: File, shape: Shape, v: Value, inner: seq<Rec>)
    requires shape.Nested?
    ensures Fold(file, shape, v, Empties(0) + [Tree(inner)])
            == Sub(Some(Decode(file, shape.ref, Held(file, shape.ref, v), inner)))
  {
    hide Decode, Fold, Fresh;
    assert Empties(0) + [Tree(inner)] == [Tree(inner)];
    FoldOne(file, shape, v, Tree(inner));
  }

  lemma NestedShows(a: Msg, b: Msg)
    requires Visible(a) != Visible(b)
    ensures VisibleValue(Sub(Some(a))) != VisibleValue(Sub(Some(b)))
  {
    hide Visible;
    assert VisiblePointer(Some(a)) == Some(Visible(a)) && VisiblePointer(Some(b)) == Some(Visible(b));
    assert VisibleValue(Sub(Some(a))) == Sub(VisiblePointer(Some(a)));
    assert VisibleValue(Sub(Some(b))) == Sub(VisiblePointer(Some(b)));
  }

  lemma ElementShows(x: Value, y: Value, k: nat, a: Msg, b: Msg)
    requires x.Subs? && y.Subs? && k < |x.ms| && k < |y.ms| && x.ms[k] == Some(a) && y.ms[k] == Some(b)
    requires Visible(a) != Visible(b)
    ensures VisibleValue(x) != VisibleValue(y)
  {
    hide Visible;
    assert VisiblePointer(x.ms[k]) == Some(Visible(a)) && VisiblePointer(y.ms[k]) == Some(Visible(b));
    assert VisibleValue(x).ms[k] != VisibleValue(y).ms[k];
  }

  /** What the records of a singular message are decoded into. */
  lemma HeldOfReceiver(file: File, ref: nat, m: Msg, i: nat, zeroed: bool)
    requires ValidFile(file) && Typed(file, ref, m) && i < |m.vals| && ShapeAt(file, ref, i).Nested?
    requires m.vals[i].Sub? && m.vals[i].p.Some?
    ensures var r, n := ShapeAt(file, ref, i).ref, m.vals[i].p.value;
            && i < |Receiver(file, ref, m, zeroed).vals|
            && Held(file, r, Receiver(file, ref, m, zeroed).vals[i]) == Receiver(file, r, n, zeroed)
            && Held(file, r, ResetValue(file, ShapeAt(file, ref, i), Receiver(file, ref, m, zeroed).vals[i])) == Receiver(file, r, n, true)
            && Held(file, r, FreshValue(file, ref, ShapeAt(file, ref, i))) == Fresh(file, r)
  {
    InlineRefersEarlier(file, ref, i);
    hide ValidFile, Fresh, Typed, Reset;
    ReceiverAt(file, ref, m, zeroed, i);
  }

  lemma PooledShows(file: File, ref: nat, m: Msg, i: nat, zeroed: bool, inner: seq<Rec>)
    requires ValidFile(file) && Typed(file, ref, m) && i < |m.vals| && Pooled(file, ref, i) && ShapeAt(file, ref, i).Nested?
    requires m.vals[i].Sub? && m.vals[i].p.Some?
    requires var r := ShapeAt(file, ref, i).ref;
             Visible(Decode(file, r, Receiver(file, r, m.vals[i].p.value, zeroed), inner))
             != Visible(Decode(file, r, Fresh(file, r), inner))
    ensures Shows(file, ref, i, Receiver(file, ref, m, zeroed), Fresh(file, ref), Of(i, Empties(0) + [Tree(inner)]))
  {
    hide ValidFile, Decode, Fold, Pooled, Fresh, FreshValue, Typed, Visible, VisibleValue, Receiver, Held, Of, Empties;
    var shape := ShapeAt(file, ref, i);
    var r, n := shape.ref, m.vals[i].p.value;
    HeldOfReceiver(file, ref, m, i, zeroed);
    OneField(file, ref, Receiver(file, ref, m, zeroed), i, Empties(0) + [Tree(inner)]);
    OneFieldFresh(file, ref, i, Empties(0) + [Tree(inner)]);
    OneTree(file, shape, Receiver(file, ref, m, zeroed).vals[i], inner);
    OneTree(file, shape, FreshValue(file, ref, shape), inner);
    NestedShows(Decode(file, r, Receiver(file, r, n, zeroed), inner), Decode(file, r, Fresh(file, r), inner));
    FieldsOf(file, ref, m, zeroed);
  }

  lemma InlineShows(file: File, ref: nat, m: Msg, i: nat, zeroed: bool, inner: seq<Rec>)
    requires ValidFile(file) && Typed(file, ref, m) && i < |m.vals| && ShapeAt(file, ref, i).Nested?
    requires !ShapeAt(file, ref, i).pointer && m.vals[i].Sub? && m.vals[i].p.Some?
    requires var r := ShapeAt(file, ref, i).ref;
             Visible(Decode(file, r, Receiver(file, r, m.vals[i].p.value, true), inner))
             != Visible(Decode(file, r, Fresh(file, r), inner))
    ensures Shows(file, ref, i, Receiver(file, ref, m, zeroed), Fresh(file, ref), Of(i, Empties(0) + [Tree(inner)]))
  {
    hide ValidFile, Decode, Fold, Pooling, Fresh, FreshValue, ResetValue, Typed, Visible, VisibleValue, Receiver,
         Held, Of, Empties;
    var shape := ShapeAt(file, ref, i);
    var r, n := shape.ref, m.vals[i].p.value;
    HeldOfReceiver(file, ref, m, i, zeroed);
    OneField(file, ref, Receiver(file, ref, m, zeroed), i, Empties(0) + [Tree(inner)]);
    OneFieldFresh(file, ref, i, Empties(0) + [Tree(inner)]);
    OneTree(file, shape, ResetValue(file, shape, Receiver(file, ref, m, zeroed).vals[i]), inner);
    OneTree(file, shape, FreshValue(file, ref, shape), inner);
    NestedShows(Decode(file, r, Receiver(file, r, n, true), inner), Decode(file, r, Fresh(file, r), inner));
    FieldsOf(file, ref, m, zeroed);
  }

  lemma FieldsOf(file: File, ref: nat, m: Msg, zeroed: bool)
    requires Typed(file, ref, m)
    ensures |Receiver(file, ref, m, zeroed).vals| == |Fields(file, ref)|
  {
    hide TypedValue, ResetValue;
  }

  /** `n` empty elements take the first `n` places. */
  lemma {:induction false} FoldEmpties(file: File, shape: Shape, v: Value, n: nat)
    requires shape.NestedList? && v.Subs?
    ensures var x := Fold(file, shape, v, Empties(n));
            && x.Subs? && |x.ms| == |v.ms| + n
            && forall k | k >= |v.ms| + n :: (k in x.spare <==> k in v.spare) && (k in v.spare ==> x.spare[k] == v.spare[k])
    decreases n
  {
    hide Decode, Fresh;
    if n > 0 {
      var next := Update(file, shape, v, Tree([]));
      FoldEmpties(file, shape, next, n - 1);
      assert Empties(n)[1..] == Empties(n - 1);
    }
  }

  lemma PlaceDecodes(file: File, shape: Shape, v: Value, k: nat, inner: seq<Rec>)
    requires shape.NestedList? && v.Subs? && v.ms == []
    ensures var x := Fold(file, shape, v, Empties(k) + [Tree(inner)]);
            && x.Subs? && |x.ms| == k + 1
            && x.ms[k] == Some(Decode(file, shape.ref, if k in v.spare then v.spare[k] else Fresh(file, shape.ref), inner))
  {
    hide Decode, Fresh, Fold, Empties;
    FoldEmpties(file, shape, v, k);
    FoldConcat(file, shape, v, Empties(k), [Tree(inner)]);
    FoldOne(file, shape, Fold(file, shape, v, Empties(k)), Tree(inner));
  }

  lemma ListShows(file: File, ref: nat, m: Msg, i: nat, zeroed: bool, k: nat, e: Msg, reset: bool, inner: seq<Rec>)
    requires ValidFile(file) && Typed(file, ref, m) && i < |m.vals| && ShapeAt(file, ref, i).NestedList?
    requires var shape := ShapeAt(file, ref, i);
             var x := ResetValue(file, shape, m.vals[i]);
             && x.Subs? && x.ms == [] && k in x.spare && x.spare[k] == Receiver(file, shape.ref, e, reset)
             && Visible(Decode(file, shape.ref, Receiver(file, shape.ref, e, reset), inner))
                != Visible(Decode(file, shape.ref, Fresh(file, shape.ref), inner))
    ensures Shows(file, ref, i, Receiver(file, ref, m, zeroed), Fresh(file, ref), Of(i, Empties(k) + [Tree(inner)]))
  {
    hide ValidFile, Decode, Fold, Fresh, Typed, Visible, VisibleValue, ResetValue, Receiver, Of, Empties;
    var shape := ShapeAt(file, ref, i);
    var ds := Empties(k) + [Tree(inner)];
    ReceiverAt(file, ref, m, zeroed, i);
    OneField(file, ref, Receiver(file, ref, m, zeroed), i, ds);
    OneFieldFresh(file, ref, i, ds);
    PlaceDecodes(file, shape, ResetValue(file, shape, m.vals[i]), k, inner);
    PlaceDecodes(file, shape, Subs([], map[]), k, inner);
    var r := shape.ref;
    ElementShows(Fold(file, shape, ResetValue(file, shape, m.vals[i]), ds), Fold(file, shape, Subs([], map[]), ds), k,
                 Decode(file, r, Receiver(file, r, e, reset), inner), Decode(file, r, Fresh(file, r), inner));
    FieldsOf(file, ref, m, zeroed);
  }

  // ---------------------------------------------------------------- exactly these

  /** A receiver decodes everything to what a new object would show exactly when
      it is one that is forgotten. */
  lemma ForgetsIff(file: File, ref: nat, recv: Msg)
    requires ValidFile(file) && Typed(file, ref, recv)
    ensures (forall recs | RecsFit(file, ref, recs, true) ::
               Visible(Decode(file, ref, recv, recs)) == Visible(Decode(file, ref, Fresh(file, ref), recs)))
       <==> Forgotten(file, ref, recv)
  {
    hide ValidFile, Typed, Decode, RecsFit, Fresh, Forgotten, Visible, Matches;
    if Forgotten(file, ref, recv) {
      forall recs | RecsFit(file, ref, recs, true)
        ensures Visible(Decode(file, ref, recv, recs)) == Visible(Decode(file, ref, Fresh(file, ref), recs))
      {
        ForgottenDecodes(file, ref, recv, recs);
        MatchVisible(file, ref, Decode(file, ref, recv, recs), Decode(file, ref, Fresh(file, ref), recs));
      }
    } else {
      var recs := Remembered(file, ref, recv, false);
      FitsWithSkips(file, ref, recs);
    }
  }

  /** Any other receiver is told apart by a wire an encoder could write, unless
      that would be too long. */
  lemma ToldApart(file: File, ref: nat, recv: Msg) returns (recs: seq<Rec>)
    requires ValidFile(file) && Typed(file, ref, recv) && !Forgotten(file, ref, recv)
    ensures RecsFit(file, ref, recs, false)
    ensures var wire := MessageBytes(file, ref, recs);
            |wire| < MAX_LEN ==>
              && Unmarshal(file, ref, recv, wire) == Ok(Decode(file, ref, recv, recs))
              && Unmarshal(file, ref, Fresh(file, ref), wire) == Ok(Decode(file, ref, Fresh(file, ref), recs))
    ensures Visible(Decode(file, ref, recv, recs)) != Visible(Decode(file, ref, Fresh(file, ref), recs))
  {
    hide ValidFile, Typed, Decode, RecsFit, Fresh, Forgotten, Visible, MessageBytes, ReadMessage;
    recs := Remembered(file, ref, recv, false);
    if |MessageBytes(file, ref, recs)| < MAX_LEN {
      MessageRoundTrip(file, ref, recs);
    }
  }

  /** After a reset the discriminators are no matter; the pointers are. */
  lemma ResetForgetsIff(file: File, ref: nat, recv: Msg)
    requires ValidFile(file) && Typed(file, ref, recv)
    ensures (forall recs | RecsFit(file, ref, recs, true) ::
               Visible(Decode(file, ref, Reset(file, ref, recv), recs)) == Visible(Decode(file, ref, Fresh(file, ref), recs)))
       <==> Untied(file, ref, recv)
  {
    hide ValidFile, Typed, Decode, RecsFit, Fresh, Forgotten, Reset, Untied, Visible;
    ResetTyped(file, ref, recv);
    ForgetsIff(file, ref, Reset(file, ref, recv));
    ResetForgotten(file, ref, recv);
  }

  // ---------------------------------------------------------------- messages

  /** The message has no pointer to a message, in itself or inline. */
  predicate NoPointers(file: File, ref: nat)
    decreases ref
  {
    forall i | 0 <= i < |Fields(file, ref)| ::
      match ShapeAt(file, ref, i)
      case Nested(r, pointer) => !pointer && r < ref && NoPointers(file, r)
      case _ => true
  }

  /** Pointers of the message are pooled, and what it holds inline has none. */
  predicate LetsGo(file: File, ref: nat) {
    forall i | 0 <= i < |Fields(file, ref)| ::
      match ShapeAt(file, ref, i)
      case Nested(r, pointer) => if pointer then Pooling(Fields(file, ref)) else NoPointers(file, r)
      case _ => true
  }

  /** So do all messages that can stand below it, singly or in slices. */
  ghost predicate Forgetful(file: File, ref: nat) {
    forall to: nat, n: nat | Reaches(file, ref, to, true, n) :: LetsGo(file, to)
  }

  lemma ForgetfulBelow(file: File, ref: nat, i: nat)
    requires Forgetful(file, ref) && i < |Fields(file, ref)| && !Leaf(ShapeAt(file, ref, i))
    ensures Forgetful(file, ShapeAt(file, ref, i).ref)
  {
    hide ShapeAt, LetsGo;
    forall to: nat, n: nat | Reaches(file, ShapeAt(file, ref, i).ref, to, true, n)
      ensures LetsGo(file, to)
    {
      ReachesOn(file, ref, i, to, true, n);
    }
  }

  lemma ForgetfulHere(file: File, ref: nat)
    requires Forgetful(file, ref)
    ensures LetsGo(file, ref)
  {
    hide LetsGo;
    ReachesHere(file, ref, true);
  }

  lemma {:induction false} BareWithoutPointers(file: File, ref: nat, m: Msg)
    requires NoPointers(file, ref) && Typed(file, ref, m)
    ensures Bare(file, ref, m)
    decreases m
  {
    hide InKind;
    forall i | 0 <= i < |m.vals|
      ensures BareValue(file, ShapeAt(file, ref, i), m.vals[i])
    {
      assert TypedValue(file, ShapeAt(file, ref, i), m.vals[i]);
      if ShapeAt(file, ref, i).Nested? && m.vals[i].p.Some? {
        BareWithoutPointers(file, ShapeAt(file, ref, i).ref, m.vals[i].p.value);
      }
    }
  }

  /** What such a message holds is forgotten once it is reset. */
  lemma {:induction false} ForgetfulUntied(file: File, ref: nat, m: Msg)
    requires Forgetful(file, ref) && Typed(file, ref, m)
    ensures Untied(file, ref, m)
    decreases m
  {
    hide Forgetful, TypedValue, UntiedValue;
    forall i | 0 <= i < |m.vals|
      ensures UntiedValue(file, ref, i, m.vals[i])
    {
      assert TypedValue(file, ShapeAt(file, ref, i), m.vals[i]);
      assert m.vals[i] < m;
      ForgetfulFieldUntied(file, ref, i, m.vals[i]);
    }
  }

  lemma ForgetfulFieldUntied(file: File, ref: nat, i: nat, v: Value)
    requires Forgetful(file, ref) && i < |Fields(file, ref)| && TypedValue(file, ShapeAt(file, ref, i), v)
    ensures UntiedValue(file, ref, i, v)
    decreases v, 1
  {
    hide InKind, Forgetful, Typed, Forgotten, Untied, Bare, NoPointers, ShadowOf, Pooling, PlacesForgotten, TypedList;
    ForgetfulHere(file, ref);
    var shape := ShapeAt(file, ref, i);
    match shape
    case Nested(r, _) =>
      ForgetfulBelow(file, ref, i);
      if v.p.Some? {
        ForgetfulUntied(file, r, v.p.value);
        if !shape.pointer {
          BareWithoutPointers(file, r, v.p.value);
        }
      }
    case NestedList(r, _) =>
      ForgetfulBelow(file, ref, i);
      ForgetfulPlaces(file, shape, v);
    case _ =>
  }

  lemma ForgetfulPlaces(file: File, shape: Shape, v: Value)
    requires shape.NestedList? && Forgetful(file, shape.ref) && TypedValue(file, shape, v)
    ensures PlacesForgotten(file, shape.ref, v)
    decreases v, 0
  {
    hide Forgetful, Typed, Forgotten, Untied, ShadowOf, TypedList;
    var r := shape.ref;
    forall k | 0 <= k < |v.ms| && v.ms[k].Some?
      ensures Untied(file, r, v.ms[k].value)
    {
      TypedListAt(file, r, shape.pointer, v.ms, k);
      ForgetfulUntied(file, r, v.ms[k].value);
    }
    forall k | k in v.spare
      ensures Forgotten(file, r, v.spare[k])
    {
      ForgetfulUntied(file, r, v.spare[k]);
      QuietUntied(file, r, v.spare[k]);
    }
  }

  /** Without discriminators there is no difference. */
  lemma {:induction false} QuietUntied(file: File, ref: nat, m: Msg)
    requires Typed(file, ref, m) && ShadowOf(file, ref, m) == Quiet && Untied(file, ref, m)
    ensures Forgotten(file, ref, m)
    decreases m
  {
    hide TypedValue, UntiedValue, ForgottenValue, ShadowValue;
    assert ShadowOf(file, ref, m).Quiet?;
    ShadowAt(file, ref, m);
    forall i | 0 <= i < |m.vals|
      ensures ForgottenValue(file, ref, i, m.vals[i])
    {
      assert TypedValue(file, ShapeAt(file, ref, i), m.vals[i]) && UntiedValue(file, ref, i, m.vals[i]);
      QuietFieldUntied(file, ref, i, m.vals[i]);
    }
  }

  lemma QuietFieldUntied(file: File, ref: nat, i: nat, v: Value)
    requires TypedValue(file, ShapeAt(file, ref, i), v) && ShadowValue(file, ShapeAt(file, ref, i), v) == Quiet
    requires UntiedValue(file, ref, i, v)
    ensures ForgottenValue(file, ref, i, v)
    decreases v
  {
    hide InKind, Typed, Forgotten, Untied, Bare, ShadowOf, Pooled, PlacesForgotten, TypedList;
    var shape := ShapeAt(file, ref, i);
    if shape.Nested? && v.p.Some? && shape.pointer {
      QuietUntied(file, shape.ref, v.p.value);
    }
  }

  /** Receivers of such a message are forgotten, unless a discriminator is set. */
  lemma QuietForgotten(file: File, ref: nat, m: Msg)
    requires Forgetful(file, ref) && Typed(file, ref, m) && ShadowOf(file, ref, m) == Quiet
    ensures Forgotten(file, ref, m)
  {
    hide Forgetful, Typed, Untied, Forgotten, ShadowOf;
    ForgetfulUntied(file, ref, m);
    QuietUntied(file, ref, m);
  }

  /** The zero value but for one field, which holds `n`: singly or in a spare
      place. */
  function With(file: File, ref: nat, i: nat, n: Msg): Msg {
    var m := Fresh(file, ref);
    if i < |m.vals| then Msg(m.vals[i := Holding(ShapeAt(file, ref, i), n)], m.discs) else m
  }

  function Holding(shape: Shape, n: Msg): Value {
    if shape.NestedList? then Subs([], map[0 := n]) else Sub(Some(n))
  }

  lemma WithTyped(file: File, ref: nat, i: nat, n: Msg)
    requires ValidFile(file) && i < |Fields(file, ref)| && !Leaf(ShapeAt(file, ref, i))
    requires Typed(file, ShapeAt(file, ref, i).ref, n) && ShadowOf(file, ShapeAt(file, ref, i).ref, n) == Quiet
    ensures Typed(file, ref, With(file, ref, i, n)) && ShadowOf(file, ref, With(file, ref, i, n)) == Quiet
    ensures |With(file, ref, i, n).vals| == |Fields(file, ref)| && With(file, ref, i, n).vals[i] == Holding(ShapeAt(file, ref, i), n)
  {
    hide ValidFile, InKind, ShadowOf, Fresh, ShadowValue, TypedValue, Holding;
    var m, x := Fresh(file, ref), With(file, ref, i, n);
    FreshTyped(file, ref);
    FreshSize(file, ref);
    HoldingTyped(file, ShapeAt(file, ref, i), n);
    forall k | 0 <= k < |x.vals|
      ensures TypedValue(file, ShapeAt(file, ref, k), x.vals[k])
    {
      assert TypedValue(file, ShapeAt(file, ref, k), m.vals[k]);
    }
    FreshQuiet(file, ref);
    ShadowParts(file, ref, x, m);
    forall k | 0 <= k < |x.vals|
      ensures ShadowValue(file, ShapeAt(file, ref, k), x.vals[k]) == ShadowValue(file, ShapeAt(file, ref, k), m.vals[k])
    {
      if k == i {
        ShadowAt(file, ref, m);
      }
    }
  }

  lemma HoldingTyped(file: File, shape: Shape, n: Msg)
    requires !Leaf(shape) && Typed(file, shape.ref, n) && ShadowOf(file, shape.ref, n) == Quiet
    ensures TypedValue(file, shape, Holding(shape, n)) && ShadowValue(file, shape, Holding(shape, n)) == Quiet
  {
    hide Typed, ShadowOf;
  }

  /** A message with a pointer has a value that is not bare. */
  lemma {:induction false} NotBare(file: File, ref: nat) returns (m: Msg)
    requires ValidFile(file) && !NoPointers(file, ref)
    ensures Typed(file, ref, m) && ShadowOf(file, ref, m) == Quiet && !Bare(file, ref, m)
    decreases ref
  {
    hide ValidFile, Typed, ShadowOf, Fresh, Bare, Supported;
    var i :| 0 <= i < |Fields(file, ref)| &&
      (match ShapeAt(file, ref, i)
       case Nested(r, pointer) => !(!pointer && r < ref && NoPointers(file, r))
       case _ => false);
    var shape := ShapeAt(file, ref, i);
    InlineRefersEarlier(file, ref, i);
    var n: Msg;
    if shape.pointer {
      n := Fresh(file, shape.ref);
      FreshTyped(file, shape.ref);
      FreshQuiet(file, shape.ref);
    } else {
      n := NotBare(file, shape.ref);
    }
    m := With(file, ref, i, n);
    WithTyped(file, ref, i, n);
    HoldsPointer(file, ref, i, m, n);
  }

  lemma HoldsPointer(file: File, ref: nat, i: nat, m: Msg, n: Msg)
    requires i < |m.vals| && m.vals[i] == Holding(ShapeAt(file, ref, i), n) && ShapeAt(file, ref, i).Nested?
    requires ShapeAt(file, ref, i).pointer || !Bare(file, ShapeAt(file, ref, i).ref, n)
    ensures !Bare(file, ref, m)
  {
    assert !BareValue(file, ShapeAt(file, ref, i), m.vals[i]);
  }

  lemma HoldsUnforgotten(file: File, ref: nat, i: nat, m: Msg, n: Msg)
    requires i < |m.vals| && m.vals[i] == Holding(ShapeAt(file, ref, i), n) && !Leaf(ShapeAt(file, ref, i))
    requires var shape := ShapeAt(file, ref, i);
             if shape.NestedList? then !Forgotten(file, shape.ref, n)
             else if shape.pointer then !Pooled(file, ref, i) || !Forgotten(file, shape.ref, n)
             else !Bare(file, shape.ref, n) || !Untied(file, shape.ref, n)
    ensures !Forgotten(file, ref, m)
  {
    hide Pooled, Bare, Untied, Forgotten;
    if ShapeAt(file, ref, i).NestedList? {
      assert 0 in m.vals[i].spare && m.vals[i].spare[0] == n;
    }
    assert !ForgottenValue(file, ref, i, m.vals[i]);
    ForgottenAt(file, ref, m, i);
  }

  lemma ForgottenAt(file: File, ref: nat, m: Msg, i: nat)
    requires i < |m.vals|
    ensures Forgotten(file, ref, m) ==> ForgottenValue(file, ref, i, m.vals[i])
  {
    hide ForgottenValue;
  }

  /** Any other message has receivers that are not forgotten. */
  lemma {:induction false} Retentive(file: File, ref: nat, to: nat, n: nat) returns (m: Msg)
    requires ValidFile(file) && Reaches(file, ref, to, true, n) && !LetsGo(file, to)
    ensures Typed(file, ref, m) && ShadowOf(file, ref, m) == Quiet && !Forgotten(file, ref, m)
    decreases n
  {
    hide ValidFile, Typed, ShadowOf, Fresh, Bare, Forgotten, Untied, NoPointers, Pooling;
    if n == 0 {
      m := RetentiveHere(file, ref);
    } else {
      var mid: nat :| Refers(file, ref, mid, true) && Reaches(file, mid, to, true, n - 1);
      var i := FieldReferring(file, ref, mid);
      var inner := Retentive(file, mid, to, n - 1);
      m := With(file, ref, i, inner);
      WithTyped(file, ref, i, inner);
      if Untied(file, mid, inner) {
        QuietUntied(file, mid, inner);
      }
      HoldsUnforgotten(file, ref, i, m, inner);
    }
  }

  lemma FieldReferring(file: File, ref: nat, to: nat) returns (i: nat)
    requires Refers(file, ref, to, true)
    ensures i < |Fields(file, ref)| && !Leaf(ShapeAt(file, ref, i)) && ShapeAt(file, ref, i).ref == to
  {
    i :| 0 <= i < |Fields(file, ref)| &&
      match ShapeAt(file, ref, i)
      case Nested(r, _) => r == to
      case NestedList(r, _) => true && r == to
      case _ => false;
  }

  lemma RetentiveHere(file: File, ref: nat) returns (m: Msg)
    requires ValidFile(file) && !LetsGo(file, ref)
    ensures Typed(file, ref, m) && ShadowOf(file, ref, m) == Quiet && !Forgotten(file, ref, m)
  {
    hide ValidFile, Typed, ShadowOf, Fresh, Bare, Forgotten, NoPointers, Pooling;
    var i :| 0 <= i < |Fields(file, ref)| &&
      (match ShapeAt(file, ref, i)
       case Nested(r, pointer) => !(if pointer then Pooling(Fields(file, ref)) else NoPointers(file, r))
       case _ => false);
    var shape := ShapeAt(file, ref, i);
    var n: Msg;
    if shape.pointer {
      n := Fresh(file, shape.ref);
      FreshTyped(file, shape.ref);
      FreshQuiet(file, shape.ref);
    } else {
      n := NotBare(file, shape.ref);
    }
    m := With(file, ref, i, n);
    WithTyped(file, ref, i, n);
    HoldsUnforgotten(file, ref, i, m, n);
  }

  /** The messages all of whose receivers without discriminators are forgotten
      are exactly these. */
  lemma ForgetfulIff(file: File, ref: nat)
    requires ValidFile(file)
    ensures Forgetful(file, ref) <==>
            forall m | Typed(file, ref, m) && ShadowOf(file, ref, m) == Quiet :: Forgotten(file, ref, m)
  {
    hide ValidFile, Typed, ShadowOf, Forgotten, LetsGo, Reaches;
    if Forgetful(file, ref) {
      forall m | Typed(file, ref, m) && ShadowOf(file, ref, m) == Quiet
        ensures Forgotten(file, ref, m)
      {
        QuietForgotten(file, ref, m);
      }
    } else {
      var to: nat, n: nat :| Reaches(file, ref, to, true, n) && !LetsGo(file, to);
      var m := Retentive(file, ref, to, n);
    }
  }

  // ---------------------------------------------------------------- receivers that are not forgotten

  /** A leaf, a message with a pooled pointer to it, one that holds that inline,
      one with a slice of those, and one with a pointer to that. Every message
      pools and there is no oneof. */
  const KEEPING: File := [
    Info([Field(1, Singular(Int64), None)], []),
    Info([Field(1, Nested(0, true), None)], []),
    Info([Field(1, Nested(1, false), None)], []),
    Info([Field(1, NestedList(2, true), None)], []),
    Info([Field(1, Nested(3, true), None)], [])]

  const LEAF := Msg([Plain(Num(0))], [])
  const TIED := Msg([Sub(Some(Msg([Sub(Some(LEAF))], [])))], [])
  const LOOSE := Msg([Sub(Some(Msg([Sub(None)], [])))], [])

  /** The reset of what is held inline keeps its pointer, so an empty wire does
      not decode to what a new object would hold. */
  lemma InlinePointerIsKept()
    ensures Typed(KEEPING, 2, TIED) && !Forgotten(KEEPING, 2, TIED) && !Forgetful(KEEPING, 2)
    ensures Decode(KEEPING, 2, TIED, []) == TIED && Decode(KEEPING, 2, Fresh(KEEPING, 2), []) == LOOSE
  {
    KeepingFields();
    KeepingTyped();
    NewKeeping();
    EmptyDecode(Some(LEAF));
    EmptyDecode(None);
    hide Decode, Fresh, Forgetful, Typed, Reset;
    TiedIsTied();
  }

  lemma KeepingFields()
    ensures ShapeAt(KEEPING, 0, 0) == Singular(Int64) && ShapeAt(KEEPING, 1, 0) == Nested(0, true)
    ensures ShapeAt(KEEPING, 2, 0) == Nested(1, false) && ShapeAt(KEEPING, 3, 0) == NestedList(2, true)
    ensures ShapeAt(KEEPING, 4, 0) == Nested(3, true)
    ensures forall r: nat | r < 5 :: |Fields(KEEPING, r)| == 1 && Oneofs(KEEPING, r) == []
    ensures forall r: nat | r < 5 :: Pooled(KEEPING, r, 0) <==> r == 1 || r == 4
  {
  }

  lemma KeepingTyped()
    ensures Typed(KEEPING, 0, LEAF) && Typed(KEEPING, 1, Msg([Sub(Some(LEAF))], [])) && Typed(KEEPING, 2, TIED)
  {
    KeepingFields();
    hide KEEPING;
    assert Typed(KEEPING, 0, LEAF);
    assert TypedValue(KEEPING, Nested(0, true), Sub(Some(LEAF)));
    assert Typed(KEEPING, 1, Msg([Sub(Some(LEAF))], []));
    assert TypedValue(KEEPING, Nested(1, false), TIED.vals[0]);
  }

  lemma NewKeeping()
    ensures Fresh(KEEPING, 0) == LEAF && Fresh(KEEPING, 1) == Msg([Sub(None)], []) && Fresh(KEEPING, 2) == LOOSE
  {
    KeepingFields();
    hide KEEPING;
    assert Fresh(KEEPING, 0).vals == LEAF.vals;
    assert Fresh(KEEPING, 1).vals == [Sub(None)];
    assert Fresh(KEEPING, 2).vals == LOOSE.vals;
  }

  lemma TiedIsTied()
    ensures !Forgotten(KEEPING, 2, TIED) && !Untied(KEEPING, 2, TIED) && !Forgetful(KEEPING, 2)
  {
    KeepingFields();
    hide Forgetful, KEEPING, Untied;
    var held := Msg([Sub(Some(LEAF))], []);
    assert !BareValue(KEEPING, ShapeAt(KEEPING, 1, 0), held.vals[0]);
    assert !ForgottenValue(KEEPING, 2, 0, TIED.vals[0]);
    assert !UntiedValue(KEEPING, 2, 0, TIED.vals[0]);
    UntiedAt(KEEPING, 2, TIED, 0);
    assert !LetsGo(KEEPING, 2) by {
      assert !NoPointers(KEEPING, 1);
    }
    if Forgetful(KEEPING, 2) {
      ForgetfulHere(KEEPING, 2);
    }
  }

  lemma UntiedAt(file: File, ref: nat, m: Msg, i: nat)
    requires i < |m.vals|
    ensures Untied(file, ref, m) ==> UntiedValue(file, ref, i, m.vals[i])
  {
    hide UntiedValue;
  }

  lemma EmptyDecode(p: Option<Msg>)
    requires p == None || p == Some(LEAF)
    ensures var m := Msg([Sub(Some(Msg([Sub(p)], [])))], []);
            Reset(KEEPING, 2, m) == m && Decode(KEEPING, 2, m, []) == m
  {
    KeepingFields();
    hide Fresh, KEEPING;
    var m, n := Msg([Sub(Some(Msg([Sub(p)], [])))], []), Msg([Sub(p)], []);
    assert Reset(KEEPING, 0, LEAF).vals == LEAF.vals;
    assert Reset(KEEPING, 1, n).vals == n.vals;
    assert Reset(KEEPING, 2, m).vals == m.vals;
    assert Start(KEEPING, 2, m).vals == m.vals;
    assert Finish(KEEPING, 2, m, []).vals == m.vals;
  }

  /** An element is decoded into what a reset left in its place, so an empty one
      is not what a new object would hold. */
  lemma ElementPointerIsKept()
    ensures var recv := Msg([Subs([Some(TIED)], map[])], []);
            && Typed(KEEPING, 3, recv) && !Forgotten(KEEPING, 3, recv) && !Untied(KEEPING, 3, recv)
            && Decode(KEEPING, 3, recv, [Known(0, Tree([]))]) == recv
    ensures Decode(KEEPING, 3, Fresh(KEEPING, 3), [Known(0, Tree([]))]) == Msg([Subs([Some(LOOSE)], map[])], [])
  {
    KeepingFields();
    KeepingTyped();
    TiedIsTied();
    NewKeeping();
    EmptyDecode(Some(LEAF));
    EmptyDecode(None);
    hide Fresh, KEEPING, Reset, Decode, Typed, Forgotten, Untied;
    ElementsDecode(Subs([Some(TIED)], map[]), TIED);
    ElementsDecode(Subs([], map[]), LOOSE);
    NewList();
    TiedElement();
  }

  lemma NewList()
    ensures Fresh(KEEPING, 3) == Msg([Subs([], map[])], [])
  {
    KeepingFields();
    hide KEEPING;
    assert Fresh(KEEPING, 3).vals == [Subs([], map[])];
  }

  lemma TiedElement()
    ensures var recv := Msg([Subs([Some(TIED)], map[])], []);
            Typed(KEEPING, 3, recv) && !Forgotten(KEEPING, 3, recv) && !Untied(KEEPING, 3, recv)
  {
    KeepingFields();
    KeepingTyped();
    TiedIsTied();
    hide KEEPING, TIED, Typed, UntiedValue, ForgottenValue;
    var recv := Msg([Subs([Some(TIED)], map[])], []);
    HoldsElement(KEEPING, 2, TIED);
    TypedOne(KEEPING, 3, recv);
    UntiedAt(KEEPING, 3, recv, 0);
    ForgottenAt(KEEPING, 3, recv, 0);
    ListNotForgotten(KEEPING, 3, recv);
  }

  lemma HoldsElement(file: File, r: nat, m: Msg)
    requires Typed(file, r, m) && !Untied(file, r, m)
    ensures TypedValue(file, NestedList(r, true), Subs([Some(m)], map[])) && !PlacesForgotten(file, r, Subs([Some(m)], map[]))
  {
    hide Typed, Untied;
    var v := Subs([Some(m)], map[]);
    assert v.ms[0] == Some(m) && v.ms[1..] == [];
    assert TypedList(file, r, true, []);
    assert TypedList(file, r, true, v.ms);
  }

  lemma TypedOne(file: File, ref: nat, m: Msg)
    requires |m.vals| == |Fields(file, ref)| == 1 && m.discs == [] && Oneofs(file, ref) == []
    requires TypedValue(file, ShapeAt(file, ref, 0), m.vals[0])
    ensures Typed(file, ref, m)
  {
    hide TypedValue;
  }

  lemma ListNotForgotten(file: File, ref: nat, m: Msg)
    requires |m.vals| == 1 && ShapeAt(file, ref, 0).NestedList? && !PlacesForgotten(file, ShapeAt(file, ref, 0).ref, m.vals[0])
    ensures !UntiedValue(file, ref, 0, m.vals[0]) && !ForgottenValue(file, ref, 0, m.vals[0])
  {
    hide PlacesForgotten;
  }

  /** One empty element, decoded into `next`. */
  lemma ElementsDecode(v: Value, next: Msg)
    requires (v == Subs([], map[]) && next == Fresh(KEEPING, 2)) || v == Subs([Some(next)], map[])
    requires Reset(KEEPING, 2, next) == next && Decode(KEEPING, 2, next, []) == next
    ensures Decode(KEEPING, 3, Msg([v], []), [Known(0, Tree([]))]) == Msg([Subs([Some(next)], map[])], [])
  {
    KeepingFields();
    hide Fresh, KEEPING, Reset, Decode, ResetValue, Update, Fold;
    var start := Subs([], if v.ms == [] then map[] else map[0 := next]);
    ElementParked(v, next);
    ElementUpdate(start, next);
    OneHeld(3, v, []);
  }

  /** The only field of such a message, under its records. */
  lemma AllHeld(r: nat, v: Value, recs: seq<Rec>)
    requires 1 <= r < 5 && Deltas(recs, 0) != []
    ensures var shape := ShapeAt(KEEPING, r, 0);
            Decode(KEEPING, r, Msg([v], []), recs) ==
            Msg([Fold(KEEPING, shape, if Pooled(KEEPING, r, 0) then v else ResetValue(KEEPING, shape, v), Deltas(recs, 0))], [])
  {
    KeepingFields();
    hide Fresh, KEEPING, Decode, ResetValue, Fold, Pooled, Deltas;
    DecodedField(KEEPING, r, Msg([v], []), recs, 0);
    DecodedShape(KEEPING, r, Msg([v], []), recs);
    var x := Decode(KEEPING, r, Msg([v], []), recs);
    assert x.vals == [x.vals[0]] && x.discs == [];
  }

  lemma OneHeld(r: nat, v: Value, t: seq<Rec>)
    requires 1 <= r < 5
    ensures var shape := ShapeAt(KEEPING, r, 0);
            Decode(KEEPING, r, Msg([v], []), [Known(0, Tree(t))]) ==
            Msg([Update(KEEPING, shape, if Pooled(KEEPING, r, 0) then v else ResetValue(KEEPING, shape, v), Tree(t))], [])
  {
    hide Fresh, KEEPING, Decode, ResetValue, Update, Fold, Pooled;
    var shape, recs := ShapeAt(KEEPING, r, 0), [Known(0, Tree(t))];
    assert Deltas(recs, 0) == [Tree(t)] by {
      assert recs[1..] == [];
    }
    AllHeld(r, v, recs);
    FoldOne(KEEPING, shape, if Pooled(KEEPING, r, 0) then v else ResetValue(KEEPING, shape, v), Tree(t));
  }

  lemma ElementParked(v: Value, next: Msg)
    requires v == Subs([], map[]) || v == Subs([Some(next)], map[])
    requires Reset(KEEPING, 2, next) == next
    ensures ResetValue(KEEPING, NestedList(2, true), v) == Subs([], if v.ms == [] then map[] else map[0 := next])
  {
    hide Reset, KEEPING;
    if v.ms == [] {
      assert map[] + Parked(KEEPING, 2, []) == map[];
    } else {
      assert map[] + Parked(KEEPING, 2, [Some(next)]) == map[0 := next];
    }
  }

  lemma ElementUpdate(start: Value, next: Msg)
    requires (start == Subs([], map[]) && next == Fresh(KEEPING, 2)) || start == Subs([], map[0 := next])
    requires Decode(KEEPING, 2, next, []) == next
    ensures Update(KEEPING, NestedList(2, true), start, Tree([])) == Subs([Some(next)], map[])
  {
    hide Fresh, KEEPING, Decode;
    assert start.spare - {0} == map[];
  }
}
