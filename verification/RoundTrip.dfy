// Decoding what was encoded. For every valid file and every well-typed value:
// which records the encoder writes for each field, and what a new receiver
// holds after reading them.

module RoundTrip {
  import opened Base
  import opened Wkt
  import opened Schema
  import opened Records
  import opened Values
  import opened Encoder
  import opened Decoder

  // ---------------------------------------------------------------- the records of each field

  lemma {:induction false} DeltasOfOf(k: nat, ds: seq<Delta>, i: nat)
    ensures Deltas(Of(k, ds), i) == if k == i then ds else []
  {
    if ds != [] {
      DeltasOfOf(k, ds[1..], i);
      assert Of(k, ds)[1..] == Of(k, ds[1..]);
      assert ds == [ds[0]] + ds[1..];
    }
  }

  lemma {:induction false} DeltasOfFields(file: File, ref: nat, vals: seq<Value>, from: nat, i: nat)
    ensures Deltas(EmitFields(file, ref, vals, from), i) ==
            if from <= i < |vals| && !InOneof(file, ref, i) then EmitField(file, ShapeAt(file, ref, i), vals[i]) else []
    decreases |vals| - from
  {
    hide EmitAt, EmitField, Deltas;
    if from < |vals| {
      DeltasConcat(EmitAt(file, ref, vals, from), EmitFields(file, ref, vals, from + 1), i);
      DeltasOfAt(file, ref, vals, from, i);
      DeltasOfFields(file, ref, vals, from + 1, i);
    } else {
      NoRecords(i);
    }
  }

  lemma DeltasOfAt(file: File, ref: nat, vals: seq<Value>, k: nat, i: nat)
    requires k < |vals|
    ensures Deltas(EmitAt(file, ref, vals, k), i) ==
            if k == i && !InOneof(file, ref, i) then EmitField(file, ShapeAt(file, ref, i), vals[i]) else []
  {
    hide EmitField;
    DeltasOfOf(k, EmitField(file, ShapeAt(file, ref, k), vals[k]), i);
  }

  lemma NoRecords(i: nat)
    ensures Deltas([], i) == []
  {
  }

  /** The discriminator of oneof `j` selects a branch of oneof `j`. */
  lemma ActiveBranch(file: File, ref: nat, discs: seq<nat>, j: nat)
    requires ValidFile(file) && Active(file, ref, discs, j).Some?
    ensures var i := Active(file, ref, discs, j).value;
            && Fields(file, ref)[i].oneof == Some(j) && Fields(file, ref)[i].num == discs[j]
            && Supported(ref, Fields(file, ref)[i])
  {
    hide Supported, DistinctNums;
    assert ValidInfo(ref, file[ref]);
  }

  lemma DeltasOfOneof(file: File, ref: nat, vals: seq<Value>, discs: seq<nat>, j: nat, i: nat)
    requires i < |vals|
    ensures Deltas(EmitOneof(file, ref, vals, discs, j), i) ==
            if Active(file, ref, discs, j) == Some(i) then EmitBranch(file, ShapeAt(file, ref, i), vals[i]) else []
  {
    hide EmitBranch, Active;
    match Active(file, ref, discs, j)
    case None =>
    case Some(k) =>
      if k < |vals| {
        DeltasOfOf(k, EmitBranch(file, ShapeAt(file, ref, k), vals[k]), i);
      }
  }

  /** The oneof whose branch field `i` is, when it is active. */
  predicate IsActive(file: File, ref: nat, discs: seq<nat>, i: nat) {
    InOneof(file, ref, i) && Active(file, ref, discs, Fields(file, ref)[i].oneof.value) == Some(i)
  }

  lemma ActiveOnce(file: File, ref: nat, discs: seq<nat>, j: nat, i: nat)
    requires ValidFile(file)
    ensures Active(file, ref, discs, j) == Some(i) <==>
            IsActive(file, ref, discs, i) && Fields(file, ref)[i].oneof == Some(j)
  {
    hide ValidFile, Active;
    if Active(file, ref, discs, j) == Some(i) {
      ActiveBranch(file, ref, discs, j);
    }
  }

  lemma {:induction false} DeltasOfOneofs(file: File, ref: nat, vals: seq<Value>, discs: seq<nat>, from: nat, i: nat)
    requires ValidFile(file) && i < |vals|
    ensures Deltas(EmitOneofs(file, ref, vals, discs, from), i) ==
            if IsActive(file, ref, discs, i) && from <= Fields(file, ref)[i].oneof.value
            then EmitBranch(file, ShapeAt(file, ref, i), vals[i]) else []
    decreases |discs| - from
  {
    hide EmitBranch, EmitOneof, Active, ValidFile, Deltas, IsActive;
    if from < |discs| {
      DeltasConcat(EmitOneof(file, ref, vals, discs, from), EmitOneofs(file, ref, vals, discs, from + 1), i);
      DeltasOfOneof(file, ref, vals, discs, from, i);
      ActiveOnce(file, ref, discs, from, i);
      DeltasOfOneofs(file, ref, vals, discs, from + 1, i);
      assert IsActive(file, ref, discs, i) ==> InOneof(file, ref, i) by { BranchWhenActive(file, ref, discs, i); }
    } else {
      NothingActive(file, ref, discs, from, i);
      NoRecords(i);
    }
  }

  lemma BranchWhenActive(file: File, ref: nat, discs: seq<nat>, i: nat)
    ensures IsActive(file, ref, discs, i) ==> InOneof(file, ref, i)
  {
  }

  lemma NothingActive(file: File, ref: nat, discs: seq<nat>, from: nat, i: nat)
    requires from >= |discs|
    ensures IsActive(file, ref, discs, i) ==> Fields(file, ref)[i].oneof.value < from
  {
  }

  /** The records the encoder writes for field `i`: a field outside any oneof
      follows its presence rule, a branch is written exactly when it is active. */
  ghost function Written(file: File, ref: nat, m: Msg, i: nat): seq<Delta>
    requires i < |m.vals|
  {
    if !InOneof(file, ref, i) then EmitField(file, ShapeAt(file, ref, i), m.vals[i])
    else if IsActive(file, ref, m.discs, i) then EmitBranch(file, ShapeAt(file, ref, i), m.vals[i])
    else []
  }

  lemma DeltasOfEmit(file: File, ref: nat, m: Msg, i: nat)
    requires ValidFile(file) && |m.vals| == |Fields(file, ref)| && i < |m.vals|
    ensures Deltas(Emit(file, ref, m), i) == Written(file, ref, m, i)
  {
    hide EmitField, EmitBranch, Active, ValidFile, EmitFields, EmitOneofs, Deltas;
    DeltasOfFields(file, ref, m.vals, 0, i);
    DeltasOfOneofs(file, ref, m.vals, m.discs, 0, i);
    DeltasConcat(EmitFields(file, ref, m.vals, 0), EmitOneofs(file, ref, m.vals, m.discs, 0), i);
  }

  lemma {:induction false} LastBranchOf(file: File, ref: nat, i: nat, ds: seq<Delta>, j: nat, d: nat)
    requires i < |Fields(file, ref)|
    ensures LastBranch(file, ref, Of(i, ds), j, d) ==
            if ds != [] && Fields(file, ref)[i].oneof == Some(j) then Fields(file, ref)[i].num else d
    decreases |ds|
  {
    if ds != [] {
      assert Of(i, ds)[1..] == Of(i, ds[1..]);
      LastBranchOf(file, ref, i, ds[1..], j, if Fields(file, ref)[i].oneof == Some(j) then Fields(file, ref)[i].num else d);
    }
  }

  lemma {:induction false} LastBranchOfFields(file: File, ref: nat, vals: seq<Value>, from: nat, j: nat, d: nat)
    requires |vals| == |Fields(file, ref)|
    ensures LastBranch(file, ref, EmitFields(file, ref, vals, from), j, d) == d
    decreases |vals| - from
  {
    hide EmitField, LastBranch;
    if from < |vals| {
      var ds := EmitField(file, ShapeAt(file, ref, from), vals[from]);
      LastBranchConcat(file, ref, EmitAt(file, ref, vals, from), EmitFields(file, ref, vals, from + 1), j, d);
      LastBranchOf(file, ref, from, ds, j, d);
      NoBranch(file, ref, j, d);
      LastBranchOfFields(file, ref, vals, from + 1, j, d);
    } else {
      NoBranch(file, ref, j, d);
    }
  }

  lemma NoBranch(file: File, ref: nat, j: nat, d: nat)
    ensures LastBranch(file, ref, [], j, d) == d
  {
  }

  lemma BranchWritten(file: File, ref: nat, m: Msg, j: nat)
    requires ValidFile(file) && Typed(file, ref, m) && Active(file, ref, m.discs, j).Some?
    ensures var i := Active(file, ref, m.discs, j).value;
            |EmitBranch(file, ShapeAt(file, ref, i), m.vals[i])| == 1
  {
    hide ValidFile, Active, Emit, InKind;
    ActiveBranch(file, ref, m.discs, j);
    var i := Active(file, ref, m.discs, j).value;
    assert TypedValue(file, ShapeAt(file, ref, i), m.vals[i]);
  }

  lemma LastBranchOfOneof(file: File, ref: nat, m: Msg, from: nat, j: nat, d: nat)
    requires ValidFile(file) && Typed(file, ref, m) && from < |m.discs|
    ensures LastBranch(file, ref, EmitOneof(file, ref, m.vals, m.discs, from), j, d) ==
            if from == j && Active(file, ref, m.discs, j).Some? then m.discs[j] else d
  {
    hide EmitBranch, ValidFile, Active, TypedValue, LastBranch, Of;
    match Active(file, ref, m.discs, from)
    case None => NoBranch(file, ref, j, d);
    case Some(i) =>
      ActiveBranch(file, ref, m.discs, from);
      BranchWritten(file, ref, m, from);
      LastBranchOf(file, ref, i, EmitBranch(file, ShapeAt(file, ref, i), m.vals[i]), j, d);
  }

  lemma {:induction false} LastBranchOfOneofs(file: File, ref: nat, m: Msg, from: nat, j: nat, d: nat)
    requires ValidFile(file) && Typed(file, ref, m) && j < |m.discs|
    ensures LastBranch(file, ref, EmitOneofs(file, ref, m.vals, m.discs, from), j, d) ==
            if from <= j && Active(file, ref, m.discs, j).Some? then m.discs[j] else d
    decreases |m.discs| - from
  {
    hide EmitOneof, ValidFile, Active, Typed, LastBranch;
    if from < |m.discs| {
      var here := LastBranch(file, ref, EmitOneof(file, ref, m.vals, m.discs, from), j, d);
      LastBranchOfOneof(file, ref, m, from, j, d);
      LastBranchConcat(file, ref, EmitOneof(file, ref, m.vals, m.discs, from), EmitOneofs(file, ref, m.vals, m.discs, from + 1), j, d);
      LastBranchOfOneofs(file, ref, m, from + 1, j, here);
    } else {
      NoBranch(file, ref, j, d);
    }
  }

  /** A valid discriminator comes back; any other reads as 0. */
  lemma LastBranchOfEmit(file: File, ref: nat, m: Msg, j: nat)
    requires ValidFile(file) && Typed(file, ref, m) && j < |m.discs|
    ensures LastBranch(file, ref, Emit(file, ref, m), j, 0) ==
            if Active(file, ref, m.discs, j).Some? then m.discs[j] else 0
  {
    hide EmitFields, EmitOneofs, ValidFile, TypedValue, Active;
    LastBranchOfFields(file, ref, m.vals, 0, j, 0);
    LastBranchOfOneofs(file, ref, m, 0, j, 0);
    LastBranchConcat(file, ref, EmitFields(file, ref, m.vals, 0), EmitOneofs(file, ref, m.vals, m.discs, 0), j, 0);
  }

  // ---------------------------------------------------------------- what comes back

  function NormTime(t: Instant): Instant {
    if t == EPOCH then ZERO_TIME else t
  }

  /** A field outside any oneof after a round trip. */
  ghost function NormValue(file: File, shape: Shape, v: Value): Value
    decreases v, 0
  {
    match v
    case Time(t) => Time(NormTime(t))
    case Sub(p) => if shape.Nested? then Sub(NormPointer(file, shape.ref, shape.pointer, p)) else v
    case Subs(ms, _) => if shape.NestedList? then Subs(NormList(file, shape.ref, ms), map[]) else v
    case _ => v
  }

  /** A pointer to a message of size 0 comes back nil. */
  ghost function NormPointer(file: File, ref: nat, pointer: bool, p: Option<Msg>): Option<Msg>
    decreases p, 0
  {
    match p
    case None => None
    case Some(m) => if pointer && Emit(file, ref, m) == [] then None else Some(Norm(file, ref, m))
  }

  /** Nil elements are dropped. */
  ghost function NormList(file: File, ref: nat, ms: seq<Option<Msg>>): seq<Option<Msg>>
    decreases ms, 0
  {
    if ms == [] then []
    else NormElement(file, ref, ms[0]) + NormList(file, ref, ms[1..])
  }

  ghost function NormElement(file: File, ref: nat, p: Option<Msg>): seq<Option<Msg>>
    decreases p, 0
  {
    match p
    case None => []
    case Some(m) => [Some(Norm(file, ref, m))]
  }

  ghost function NormBranch(file: File, shape: Shape, v: Value): Value
    decreases v, 0
  {
    match v
    case Time(t) => Time(NormTime(t))
    case Sub(Some(m)) => if shape.Nested? then Sub(Some(Norm(file, shape.ref, m))) else v
    case _ => v
  }

  /** A value after a round trip through a new receiver: inactive branches are
      cleared and a discriminator that selects no branch reads as 0. */
  ghost function Norm(file: File, ref: nat, m: Msg): Msg
    decreases m, 2
  {
    Msg(seq(|m.vals|, i requires 0 <= i < |m.vals| => NormAt(file, ref, m.vals, m.discs, i)),
        seq(|m.discs|, j requires 0 <= j < |m.discs| => if Active(file, ref, m.discs, j).Some? then m.discs[j] else 0))
  }

  ghost function NormAt(file: File, ref: nat, vals: seq<Value>, discs: seq<nat>, i: nat): Value
    requires i < |vals|
    decreases vals, 1
  {
    if !InOneof(file, ref, i) then NormValue(file, ShapeAt(file, ref, i), vals[i])
    else if IsActive(file, ref, discs, i) then NormBranch(file, ShapeAt(file, ref, i), vals[i])
    else FreshValue(file, ref, ShapeAt(file, ref, i))
  }

  // ---------------------------------------------------------------- new receivers

  /** Resetting or starting to decode into a new object changes nothing. */
  lemma {:induction false} ResetFresh(file: File, ref: nat)
    requires ValidFile(file)
    ensures Reset(file, ref, Fresh(file, ref)) == Fresh(file, ref)
    decreases ref
  {
    hide ValidInfo;
    var m := Fresh(file, ref);
    forall i | 0 <= i < |m.vals|
      ensures ResetValue(file, ShapeAt(file, ref, i), m.vals[i]) == m.vals[i]
    {
      ResetFreshValue(file, ref, i);
    }
    assert Reset(file, ref, m).vals == m.vals;
    assert Reset(file, ref, m).discs == m.discs;
  }

  lemma ResetFreshValue(file: File, ref: nat, i: nat)
    requires ValidFile(file) && i < |Fields(file, ref)|
    ensures var shape := ShapeAt(file, ref, i);
            ResetValue(file, shape, FreshValue(file, ref, shape)) == FreshValue(file, ref, shape)
    decreases ref, 0
  {
    hide ValidInfo, Fresh, Reset;
    var shape := ShapeAt(file, ref, i);
    assert shape.NestedList? ==> map[] + Parked(file, shape.ref, []) == map[];
    if shape.Nested? && !shape.pointer && shape.ref < ref {
      ResetFresh(file, shape.ref);
    }
  }

  lemma StartFresh(file: File, ref: nat)
    requires ValidFile(file)
    ensures Start(file, ref, Fresh(file, ref)) == Fresh(file, ref)
  {
    hide ValidFile, FreshValue, Pooled, ResetValue;
    var m := Fresh(file, ref);
    forall i | 0 <= i < |m.vals|
      ensures Start(file, ref, m).vals[i] == m.vals[i]
    {
      ResetFreshValue(file, ref, i);
    }
    assert Start(file, ref, m).vals == m.vals;
  }

  // ---------------------------------------------------------------- one field comes back

  lemma {:induction false} FoldSingles(file: File, shape: Shape, was: seq<Scalar>, es: seq<Scalar>)
    ensures Fold(file, shape, List(was), Singles(es)) == List(was + es)
    decreases |es|
  {
    if es == [] {
      assert was + es == was;
    } else {
      FoldSingles(file, shape, was + [es[0]], es[1..]);
      assert was + [es[0]] + es[1..] == was + es;
      assert Singles(es)[1..] == Singles(es[1..]);
    }
  }

  /** `was` updated with the listed entries of `m`. */
  function Overlay(was: map<Scalar, Scalar>, m: map<Scalar, Scalar>, keys: seq<Scalar>): map<Scalar, Scalar>
    requires forall key | key in keys :: key in m
    decreases |keys|
  {
    if keys == [] then was else Overlay(was[keys[0] := m[keys[0]]], m, keys[1..])
  }

  lemma {:induction false} FoldEntries(file: File, shape: Shape, was: map<Scalar, Scalar>, m: map<Scalar, Scalar>, keys: seq<Scalar>)
    requires forall key | key in keys :: key in m
    ensures Fold(file, shape, Table(was), Entries(m, keys)) == Table(Overlay(was, m, keys))
    decreases |keys|
  {
    if keys != [] {
      FoldEntries(file, shape, was[keys[0] := m[keys[0]]], m, keys[1..]);
      assert Entries(m, keys)[1..] == Entries(m, keys[1..]);
    }
  }

  lemma {:induction false} OverlayAt(was: map<Scalar, Scalar>, m: map<Scalar, Scalar>, keys: seq<Scalar>, key: Scalar)
    requires forall key | key in keys :: key in m
    ensures key in Overlay(was, m, keys) <==> key in was || key in keys
    ensures key in keys ==> Overlay(was, m, keys)[key] == m[key]
    ensures key in was && key !in keys ==> Overlay(was, m, keys)[key] == was[key]
    decreases |keys|
  {
    if keys != [] {
      OverlayAt(was[keys[0] := m[keys[0]]], m, keys[1..], key);
      assert key in keys <==> key == keys[0] || key in keys[1..];
    }
  }

  /** Reading back the entries of a map, in any order, gives exactly that map. */
  lemma TableComesBack(file: File, shape: Shape, m: map<Scalar, Scalar>, keys: seq<Scalar>)
    requires forall key :: key in keys <==> key in m
    ensures Fold(file, shape, Table(map[]), Entries(m, keys)) == Table(m)
  {
    FoldEntries(file, shape, map[], m, keys);
    forall key
      ensures key in Overlay(map[], m, keys) <==> key in m
      ensures key in m ==> Overlay(map[], m, keys)[key] == m[key]
    {
      OverlayAt(map[], m, keys, key);
    }
    assert Overlay(map[], m, keys) == m;
  }

  lemma ListComesBack(file: File, shape: Shape, es: seq<Scalar>)
    requires shape.Repeated?
    ensures Fold(file, shape, List([]), EmitField(file, shape, List(es))) == List(es)
  {
    FoldSingles(file, shape, [], es);
    assert [] + es == es;
    if es != [] && Packable(shape.k) {
      FoldOne(file, shape, List([]), Run(es));
    }
  }

  lemma FoldOne(file: File, shape: Shape, v: Value, d: Delta)
    ensures Fold(file, shape, v, [d]) == Update(file, shape, v, d)
  {
    hide Update;
    assert [d][1..] == [];
  }

  lemma FieldComesBack(file: File, ref: nat, i: nat, v: Value)
    requires ValidFile(file) && i < |Fields(file, ref)| && TypedValue(file, ShapeAt(file, ref, i), v)
    ensures var shape := ShapeAt(file, ref, i);
            Fold(file, shape, FreshValue(file, ref, shape), EmitField(file, shape, v)) == NormValue(file, shape, v)
    decreases v, 1
  {
    hide ValidFile, InKind, Fresh, Decode, Norm, Emit, SortedKeys;
    var shape := ShapeAt(file, ref, i);
    match shape
    case Singular(k) => FoldOne(file, shape, Plain(Default(k)), One(v.s));
    case Optional(_) => if v.o.Some? { FoldOne(file, shape, Opt(None), One(v.o.value)); }
    case Repeated(_) => ListComesBack(file, shape, v.es);
    case Map(_, _) => TableComesBack(file, shape, v.m, SortedKeys(v.m.Keys));
    case Timestamp =>
      TimestampRoundTrip(v.t);
      FoldOne(file, shape, Time(ZERO_TIME), Body(TimestampStamp(v.t)));
    case Duration =>
      DurationRoundTrip(v.d);
      FoldOne(file, shape, Span(0), Body(DurationStamp(v.d)));
    case Nested(r, pointer) =>
      InlineRefersEarlier(file, ref, i);
      PointerComesBack(file, r, pointer, v.p);
    case NestedList(r, pointer) =>
      ElementsComeBack(file, shape, [], v.ms);
      assert [] + NormList(file, r, v.ms) == NormList(file, r, v.ms);
  }

  lemma InlineRefersEarlier(file: File, ref: nat, i: nat)
    requires ValidFile(file) && i < |Fields(file, ref)|
    ensures match ShapeAt(file, ref, i)
            case Nested(r, pointer) => pointer || r < ref
            case _ => true
  {
    assert ValidInfo(ref, file[ref]) && Supported(ref, Fields(file, ref)[i]);
  }

  lemma PointerComesBack(file: File, ref: nat, pointer: bool, p: Option<Msg>)
    requires ValidFile(file) && TypedPointer(file, ref, pointer, p)
    ensures Fold(file, Nested(ref, pointer), Sub(if pointer then None else Some(Fresh(file, ref))), EmitPointer(file, ref, p))
         == Sub(NormPointer(file, ref, pointer, p))
    decreases p, 1
  {
    hide ValidFile, Fresh, Decode, Norm, Emit, Typed;
    match p
    case None =>
    case Some(m) =>
      MessageComesBack(file, ref, m);
      if Emit(file, ref, m) == [] {
        NothingDecoded(file, ref);
      } else {
        FoldOne(file, Nested(ref, pointer), Sub(if pointer then None else Some(Fresh(file, ref))), Tree(Emit(file, ref, m)));
      }
  }

  lemma {:induction false} ElementsComeBack(file: File, shape: Shape, was: seq<Option<Msg>>, ms: seq<Option<Msg>>)
    requires ValidFile(file) && shape.NestedList? && TypedList(file, shape.ref, shape.pointer, ms)
    ensures Fold(file, shape, Subs(was, map[]), EmitList(file, shape.ref, ms)) == Subs(was + NormList(file, shape.ref, ms), map[])
    decreases ms, 1
  {
    hide ValidFile, Fresh, Decode, Norm, Emit, Typed;
    if ms == [] {
      assert was + NormList(file, shape.ref, ms) == was;
    } else {
      var rest := EmitList(file, shape.ref, ms[1..]);
      match ms[0]
      case None =>
        ElementsComeBack(file, shape, was, ms[1..]);
        assert [] + rest == rest;
        assert [] + NormList(file, shape.ref, ms[1..]) == NormList(file, shape.ref, ms[1..]);
      case Some(m) =>
        SomeComesBack(file, shape.ref, ms[0]);
        var now := was + [Some(Norm(file, shape.ref, m))];
        ElementsComeBack(file, shape, now, ms[1..]);
        FoldConcat(file, shape, Subs(was, map[]), [Tree(Emit(file, shape.ref, m))], rest);
        assert Update(file, shape, Subs(was, map[]), Tree(Emit(file, shape.ref, m))) == Subs(now, map[]);
        FoldOne(file, shape, Subs(was, map[]), Tree(Emit(file, shape.ref, m)));
        assert now + NormList(file, shape.ref, ms[1..]) == was + NormList(file, shape.ref, ms);
    }
  }

  lemma SomeComesBack(file: File, ref: nat, p: Option<Msg>)
    requires ValidFile(file) && p.Some? && Typed(file, ref, p.value)
    ensures Decode(file, ref, Fresh(file, ref), Emit(file, ref, p.value)) == Norm(file, ref, p.value)
    decreases p, 1
  {
    MessageComesBack(file, ref, p.value);
  }

  /** An empty wire leaves a new receiver as it is. */
  lemma NothingDecoded(file: File, ref: nat)
    requires ValidFile(file)
    ensures Decode(file, ref, Fresh(file, ref), []) == Fresh(file, ref)
  {
    hide ValidFile, Pooling, FreshValue, Poolable;
    StartFresh(file, ref);
    var m := Fresh(file, ref);
    forall i | 0 <= i < |m.vals|
      ensures Finish(file, ref, m, []).vals[i] == m.vals[i]
    {
      NilIsFresh(file, ref, i);
    }
    assert Finish(file, ref, m, []).vals == m.vals;
  }

  lemma BranchComesBack(file: File, ref: nat, i: nat, v: Value)
    requires ValidFile(file) && InOneof(file, ref, i) && TypedValue(file, ShapeAt(file, ref, i), v)
    ensures var shape := ShapeAt(file, ref, i);
            Fold(file, shape, FreshValue(file, ref, shape), EmitBranch(file, shape, v)) == NormBranch(file, shape, v)
    decreases v, 1
  {
    assert ValidInfo(ref, file[ref]) && Supported(ref, Fields(file, ref)[i]);
    hide ValidFile, InKind, Fresh, Decode, Norm, Emit, Typed;
    var shape := ShapeAt(file, ref, i);
    var zero := FreshValue(file, ref, shape);
    match shape
    case Timestamp =>
      TimestampRoundTrip(v.t);
      FoldOne(file, shape, zero, Body(TimestampStamp(v.t)));
    case Duration =>
      DurationRoundTrip(v.d);
      FoldOne(file, shape, zero, Body(DurationStamp(v.d)));
    case Nested(r, _) =>
      assert v.p.Some?;
      MessageComesBack(file, r, v.p.value);
      FoldOne(file, shape, zero, Tree(Emit(file, r, v.p.value)));
    case Singular(k) => FoldOne(file, shape, zero, One(v.s));
    case _ =>
  }

  lemma FieldOfDecoded(file: File, ref: nat, m: Msg, i: nat)
    requires ValidFile(file) && Typed(file, ref, m) && i < |m.vals|
    ensures i < |Decode(file, ref, Fresh(file, ref), Emit(file, ref, m)).vals|
    ensures Decode(file, ref, Fresh(file, ref), Emit(file, ref, m)).vals[i] == NormAt(file, ref, m.vals, m.discs, i)
    decreases m, 1
  {
    hide ValidFile, Fresh, Decode, Emit, TypedValue, Fold, EmitField, EmitBranch, NormValue, NormBranch, Active,
         FreshValue;
    FreshAt(file, ref, i);
    DecodedField(file, ref, Fresh(file, ref), Emit(file, ref, m), i);
    StartFresh(file, ref);
    DeltasOfEmit(file, ref, m, i);
    assert TypedValue(file, ShapeAt(file, ref, i), m.vals[i]);
    assert m.vals[i] < m;
    if InOneof(file, ref, i) {
      BranchComesBack(file, ref, i, m.vals[i]);
      BranchesNotPooled(file, ref, i);
    } else {
      FieldComesBack(file, ref, i, m.vals[i]);
    }
    NilIsFresh(file, ref, i);
    FoldNothing(file, ShapeAt(file, ref, i), FreshValue(file, ref, ShapeAt(file, ref, i)));
  }

  lemma FreshAt(file: File, ref: nat, i: nat)
    requires i < |Fields(file, ref)|
    ensures |Fresh(file, ref).vals| == |Fields(file, ref)| && |Fresh(file, ref).discs| == |Oneofs(file, ref)|
    ensures Fresh(file, ref).vals[i] == FreshValue(file, ref, ShapeAt(file, ref, i))
  {
    hide FreshValue;
  }

  lemma FoldNothing(file: File, shape: Shape, v: Value)
    ensures Fold(file, shape, v, []) == v
  {
  }

  lemma NilIsFresh(file: File, ref: nat, i: nat)
    ensures Poolable(ShapeAt(file, ref, i)) ==> Nil(ShapeAt(file, ref, i)) == FreshValue(file, ref, ShapeAt(file, ref, i))
  {
  }

  lemma BranchesNotPooled(file: File, ref: nat, i: nat)
    requires ValidFile(file) && InOneof(file, ref, i)
    ensures !Poolable(ShapeAt(file, ref, i))
  {
    assert ValidInfo(ref, file[ref]) && Supported(ref, Fields(file, ref)[i]);
  }

  /** A new receiver that reads the records of a value holds its normal form. */
  lemma {:induction false} MessageComesBack(file: File, ref: nat, m: Msg)
    requires ValidFile(file) && Typed(file, ref, m)
    ensures Decode(file, ref, Fresh(file, ref), Emit(file, ref, m)) == Norm(file, ref, m)
    decreases m, 2
  {
    hide ValidFile, FreshValue, Decode, Emit, TypedValue, NormAt, Active, LastBranch;
    var r := Decode(file, ref, Fresh(file, ref), Emit(file, ref, m));
    DecodedShape(file, ref, Fresh(file, ref), Emit(file, ref, m));
    forall i | 0 <= i < |m.vals|
      ensures r.vals[i] == NormAt(file, ref, m.vals, m.discs, i)
    {
      FieldOfDecoded(file, ref, m, i);
    }
    assert r.vals == Norm(file, ref, m).vals;
    forall j | 0 <= j < |m.discs|
      ensures r.discs[j] == Norm(file, ref, m).discs[j]
    {
      DecodedDisc(file, ref, Fresh(file, ref), Emit(file, ref, m), j);
      LastBranchOfEmit(file, ref, m, j);
    }
    assert r.discs == Norm(file, ref, m).discs;
  }
}
