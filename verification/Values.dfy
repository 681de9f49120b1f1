// Values of the target types: what a receiver holds, its zero value and what
// ResetCodec (gen_reset.go) leaves of it.

module Values {
  import opened Base
  import opened Wire
  import opened Wkt
  import opened Schema

  /** One struct field. A nil pointer is `Sub(None)`, a nil element of a pointer
      slice is `None`; nil and empty slices and maps are not told apart. `spare`
      holds what stands in a slice of messages beyond its length, by its place:
      the next elements are decoded into that. A place without an entry stands
      for a nil pointer or a zero struct, or is not there. */
  datatype Value =
    | Plain(s: Scalar)
    | Opt(o: Option<Scalar>)
    | List(es: seq<Scalar>)
    | Table(m: map<Scalar, Scalar>)
    | Time(t: Instant)
    | Span(d: int64)
    | Sub(p: Option<Msg>)
    | Subs(ms: seq<Option<Msg>>, spare: map<nat, Msg>)

  /** A struct: its fields in declaration order and one discriminator per oneof. */
  datatype Msg = Msg(vals: seq<Value>, discs: seq<nat>)

  function ShapeAt(file: File, ref: nat, i: nat): Shape {
    if i < |Fields(file, ref)| then Fields(file, ref)[i].shape else Duration
  }

  // ---------------------------------------------------------------- what a message can hold

  /** Message `from` has a field of message `to`, held singly or, if `lists`, in
      a slice. */
  predicate Refers(file: File, from: nat, to: nat, lists: bool) {
    exists i :: 0 <= i < |Fields(file, from)| &&
      match ShapeAt(file, from, i)
      case Nested(r, _) => r == to
      case NestedList(r, _) => lists && r == to
      case _ => false
  }

  /** `to` stands `n` levels below `from`. */
  ghost predicate Reaches(file: File, from: nat, to: nat, lists: bool, n: nat)
    decreases n
  {
    if n == 0 then from == to
    else exists mid: nat :: Refers(file, from, mid, lists) && Reaches(file, mid, to, lists, n - 1)
  }

  lemma ReachesHere(file: File, ref: nat, lists: bool)
    ensures Reaches(file, ref, ref, lists, 0)
  {
  }

  lemma ReachesOn(file: File, ref: nat, i: nat, to: nat, lists: bool, n: nat)
    requires i < |Fields(file, ref)|
    requires (ShapeAt(file, ref, i).Nested? || (lists && ShapeAt(file, ref, i).NestedList?))
    requires Reaches(file, ShapeAt(file, ref, i).ref, to, lists, n)
    ensures Reaches(file, ref, to, lists, n + 1)
  {
    hide ShapeAt;
    assert Refers(file, ref, ShapeAt(file, ref, i).ref, lists);
  }

  // ---------------------------------------------------------------- what survives into a decode

  /** The discriminators a receiver holds, in itself and in its singular
      messages at every depth; `Quiet` when all of them are 0. */
  datatype Shadow = Quiet | Loud(discs: seq<nat>, subs: seq<Shadow>)

  function Loudness(discs: seq<nat>, subs: seq<Shadow>): Shadow {
    if (forall j | 0 <= j < |discs| :: discs[j] == 0) && (forall i | 0 <= i < |subs| :: subs[i] == Quiet)
    then Quiet else Loud(discs, subs)
  }

  function ShadowValue(file: File, shape: Shape, v: Value): Shadow
    decreases v
  {
    match shape
    case Nested(ref, _) => (match v case Sub(Some(m)) => ShadowOf(file, ref, m) case _ => Quiet)
    case _ => Quiet
  }

  function Shadows(file: File, ref: nat, vals: seq<Value>): (subs: seq<Shadow>)
    ensures |subs| == |vals|
    decreases vals, 0
  {
    seq(|vals|, i requires 0 <= i < |vals| => ShadowValue(file, ShapeAt(file, ref, i), vals[i]))
  }

  function ShadowOf(file: File, ref: nat, m: Msg): Shadow
    decreases m
  {
    Loudness(m.discs, Shadows(file, ref, m.vals))
  }

  // ---------------------------------------------------------------- well-typed values

  /** What stands in spare places was reset: its discriminators are 0. */
  predicate TypedValue(file: File, shape: Shape, v: Value)
    decreases v
  {
    match shape
    case Singular(k) => v.Plain? && InKind(k, v.s)
    case Optional(k) => v.Opt? && (v.o.Some? ==> InKind(k, v.o.value))
    case Repeated(k) => v.List? && forall e | e in v.es :: InKind(k, e)
    case Map(kk, vk) =>
      v.Table? && forall key | key in v.m :: InKind(EntryKind(kk), key) && InKind(EntryKind(vk), v.m[key])
    case Timestamp => v.Time? && IsInstant(v.t)
    case Duration => v.Span?
    case Nested(ref, pointer) =>
      v.Sub? && TypedPointer(file, ref, pointer, v.p)
    case NestedList(ref, pointer) =>
      && v.Subs? && TypedList(file, ref, pointer, v.ms)
      && forall k | k in v.spare :: |v.ms| <= k && Typed(file, ref, v.spare[k]) && ShadowOf(file, ref, v.spare[k]) == Quiet
  }

  predicate TypedList(file: File, ref: nat, pointer: bool, ms: seq<Option<Msg>>)
    decreases ms
  {
    ms != [] ==> TypedPointer(file, ref, pointer, ms[0]) && TypedList(file, ref, pointer, ms[1..])
  }

  /** Only a pointer can be nil. */
  predicate TypedPointer(file: File, ref: nat, pointer: bool, p: Option<Msg>)
    decreases p
  {
    match p
    case None => pointer
    case Some(m) => Typed(file, ref, m)
  }

  /** The struct has the fields and discriminators its description says. */
  predicate Typed(file: File, ref: nat, m: Msg)
    decreases m
  {
    && |m.vals| == |Fields(file, ref)|
    && |m.discs| == |Oneofs(file, ref)|
    && forall i | 0 <= i < |m.vals| :: TypedValue(file, ShapeAt(file, ref, i), m.vals[i])
  }

  // ---------------------------------------------------------------- zero values

  function Zeros(n: nat): (s: seq<nat>)
    ensures |s| == n && forall j | 0 <= j < n :: s[j] == 0
  {
    seq(n, j => 0)
  }

  /** The value `new(T)` holds. Messages held inline are zero in turn. */
  function Fresh(file: File, ref: nat): Msg
    decreases ref, 1
  {
    Msg(seq(|Fields(file, ref)|, i requires 0 <= i < |Fields(file, ref)| => FreshValue(file, ref, ShapeAt(file, ref, i))),
        Zeros(|Oneofs(file, ref)|))
  }

  function FreshValue(file: File, owner: nat, shape: Shape): Value
    decreases owner, 0
  {
    match shape
    case Singular(k) => Plain(Default(k))
    case Optional(_) => Opt(None)
    case Repeated(_) => List([])
    case Map(_, _) => Table(map[])
    case Timestamp => Time(ZERO_TIME)
    case Duration => Span(0)
    case Nested(ref, pointer) => Sub(if !pointer && ref < owner then Some(Fresh(file, ref)) else None)
    case NestedList(_, _) => Subs([], map[])
  }

  lemma {:induction false} FreshTyped(file: File, ref: nat)
    requires ValidFile(file)
    ensures Typed(file, ref, Fresh(file, ref))
    decreases ref, 1
  {
    hide Supported, OneofsAgree, InKind;
    var m := Fresh(file, ref);
    forall i | 0 <= i < |m.vals|
      ensures TypedValue(file, ShapeAt(file, ref, i), m.vals[i])
    {
      FreshValueTyped(file, ref, i);
    }
  }

  lemma FreshValueTyped(file: File, ref: nat, i: nat)
    requires ValidFile(file) && i < |Fields(file, ref)|
    ensures TypedValue(file, ShapeAt(file, ref, i), FreshValue(file, ref, ShapeAt(file, ref, i)))
    decreases ref, 0
  {
    hide OneofsAgree, InKind, Fresh;
    assert ValidInfo(ref, file[ref]) && Supported(ref, Fields(file, ref)[i]);
    match ShapeAt(file, ref, i)
    case Nested(r, pointer) =>
      if !pointer {
        FreshTyped(file, r);
      }
    case _ =>
  }

  // ---------------------------------------------------------------- ResetCodec

  /** generateFieldReset: lists and maps are emptied, optionals become nil, and
      a message is reset where it stands, so a non-nil pointer stays non-nil and
      the elements of a slice stay in its array. */
  function ResetValue(file: File, shape: Shape, v: Value): Value
    decreases v
  {
    match shape
    case Singular(k) => Plain(Default(k))
    case Optional(_) => Opt(None)
    case Repeated(_) => List([])
    case Map(_, _) => Table(map[])
    case Timestamp => Time(ZERO_TIME)
    case Duration => Span(0)
    case Nested(ref, _) => (match v
                            case Sub(Some(m)) => Sub(Some(Reset(file, ref, m)))
                            case _ => Sub(None))
    case NestedList(ref, _) => (match v
                                case Subs(ms, spare) => Subs([], spare + Parked(file, ref, ms))
                                case _ => Subs([], map[]))
  }

  /** Elements that were reset, each in its place. */
  function Parked(file: File, ref: nat, ms: seq<Option<Msg>>): map<nat, Msg>
    decreases ms
  {
    map k: nat | k < |ms| && ms[k].Some? :: ResetElement(file, ref, ms[k])
  }

  function ResetElement(file: File, ref: nat, p: Option<Msg>): Msg
    requires p.Some?
    decreases p
  {
    Reset(file, ref, p.value)
  }

  /** ResetCodec: every field, and every discriminator. */
  function Reset(file: File, ref: nat, m: Msg): Msg
    decreases m
  {
    Msg(seq(|m.vals|, i requires 0 <= i < |m.vals| => ResetValue(file, ShapeAt(file, ref, i), m.vals[i])),
        Zeros(|m.discs|))
  }

  lemma {:induction false} ResetQuiet(file: File, ref: nat, m: Msg)
    ensures ShadowOf(file, ref, Reset(file, ref, m)) == Quiet
    decreases m
  {
    var r := Reset(file, ref, m);
    forall i | 0 <= i < |r.vals|
      ensures ShadowValue(file, ShapeAt(file, ref, i), r.vals[i]) == Quiet
    {
      ResetValueQuiet(file, ShapeAt(file, ref, i), m.vals[i]);
    }
  }

  lemma ResetValueQuiet(file: File, shape: Shape, v: Value)
    ensures ShadowValue(file, shape, ResetValue(file, shape, v)) == Quiet
    decreases v
  {
    hide Reset, ShadowOf;
    if shape.Nested? {
      match v
      case Sub(Some(m)) => ResetQuiet(file, shape.ref, m);
      case _ =>
    }
  }

  lemma {:induction false} TypedListAt(file: File, ref: nat, pointer: bool, ms: seq<Option<Msg>>, k: nat)
    requires TypedList(file, ref, pointer, ms) && k < |ms|
    ensures TypedPointer(file, ref, pointer, ms[k])
    decreases k
  {
    hide TypedPointer;
    if k > 0 {
      TypedListAt(file, ref, pointer, ms[1..], k - 1);
    }
  }

  lemma {:induction false} ResetTyped(file: File, ref: nat, m: Msg)
    requires Typed(file, ref, m)
    ensures Typed(file, ref, Reset(file, ref, m))
    decreases m
  {
    hide InKind;
    forall i | 0 <= i < |m.vals|
      ensures TypedValue(file, ShapeAt(file, ref, i), ResetValue(file, ShapeAt(file, ref, i), m.vals[i]))
    {
      ResetValueTyped(file, ShapeAt(file, ref, i), m.vals[i]);
    }
  }

  lemma ResetValueTyped(file: File, shape: Shape, v: Value)
    requires TypedValue(file, shape, v)
    ensures TypedValue(file, shape, ResetValue(file, shape, v))
    decreases v
  {
    hide InKind, Typed, Reset, ShadowOf;
    match shape
    case Nested(r, _) =>
      if v.p.Some? {
        ResetTyped(file, r, v.p.value);
      }
    case NestedList(r, pointer) => ParkedTyped(file, r, pointer, v.ms);
    case _ =>
  }

  lemma ParkedTyped(file: File, r: nat, pointer: bool, ms: seq<Option<Msg>>)
    requires TypedList(file, r, pointer, ms)
    ensures forall k | k in Parked(file, r, ms) ::
              Typed(file, r, Parked(file, r, ms)[k]) && ShadowOf(file, r, Parked(file, r, ms)[k]) == Quiet
    decreases ms
  {
    hide Typed, Reset, ShadowOf, TypedList;
    forall k | 0 <= k < |ms| && ms[k].Some?
      ensures Typed(file, r, Reset(file, r, ms[k].value)) && ShadowOf(file, r, Reset(file, r, ms[k].value)) == Quiet
    {
      TypedListAt(file, r, pointer, ms, k);
      ElementResetTyped(file, r, ms[k]);
    }
  }

  lemma ElementResetTyped(file: File, r: nat, p: Option<Msg>)
    requires p.Some? && Typed(file, r, p.value)
    ensures Typed(file, r, Reset(file, r, p.value)) && ShadowOf(file, r, Reset(file, r, p.value)) == Quiet
    decreases p
  {
    ResetTyped(file, r, p.value);
    ResetQuiet(file, r, p.value);
  }

  /** What a reset leaves of a slice: every object in its place. */
  lemma EmptiedList(file: File, shape: Shape, v: Value)
    requires shape.NestedList? && TypedValue(file, shape, v)
    ensures var x := ResetValue(file, shape, v);
            && x.Subs? && x.ms == []
            && (forall k: nat :: k in x.spare <==> k in v.spare || (k < |v.ms| && v.ms[k].Some?))
            && (forall k: nat | k < |v.ms| && v.ms[k].Some? :: x.spare[k] == Reset(file, shape.ref, v.ms[k].value))
            && (forall k | k in v.spare :: x.spare[k] == v.spare[k])
  {
    hide Reset, Typed, ShadowOf, TypedList;
    var x := ResetValue(file, shape, v);
    forall k: nat | k < |v.ms| && v.ms[k].Some?
      ensures x.spare[k] == Reset(file, shape.ref, v.ms[k].value)
    {
      assert k in Parked(file, shape.ref, v.ms);
      assert ResetElement(file, shape.ref, v.ms[k]) == Reset(file, shape.ref, v.ms[k].value);
    }
  }

  // ---------------------------------------------------------------- what a caller sees

  /** The value without what stands in spare places, at every depth. */
  function Visible(m: Msg): (r: Msg)
    ensures |r.vals| == |m.vals| && r.discs == m.discs
    decreases m
  {
    Msg(seq(|m.vals|, i requires 0 <= i < |m.vals| => VisibleValue(m.vals[i])), m.discs)
  }

  function VisibleValue(v: Value): Value
    decreases v
  {
    match v
    case Sub(p) => Sub(VisiblePointer(p))
    case Subs(ms, _) => Subs(seq(|ms|, k requires 0 <= k < |ms| => VisiblePointer(ms[k])), map[])
    case _ => v
  }

  function VisiblePointer(p: Option<Msg>): Option<Msg>
    decreases p
  {
    match p
    case None => None
    case Some(m) => Some(Visible(m))
  }

  lemma VisibleAt(m: Msg, i: nat)
    requires i < |m.vals|
    ensures Visible(m).vals[i] == VisibleValue(m.vals[i])
  {
    hide VisibleValue;
  }
}
