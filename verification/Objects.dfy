// The emitted structs as objects on the heap: pointers to nested messages,
// slices with spare capacity, and the methods that size, write, reset and
// decode them in place.

module Objects {
  import opened Base
  import opened Wire
  import opened Schema
  import opened Records
  import opened Values
  import opened Encoder
  import opened Decoder
  import opened Typing
  import opened Resets
  import opened Discriminators
  import opened Matching
  import opened Reuse
  import opened Writer
  import opened Reader
  import opened Prescan
  import Bitmap

  /** One field of a struct. A pointer leads to a message, or to a scalar, which
      is an object with a single slot. A message held inline is a `Pointer` that
      is never null; a slice has a backing array, of which the first `len` places
      are in use, and may be nil. In a slice of structs a null spare place stands
      for a zero struct. */
  datatype Slot =
    | Cell(v: Value)
    | Pointer(to: Object?)
    | Slice(back: seq<Object?>, len: nat, none: bool)

  /** A struct of the message `ref`. It owns what it reaches: `lands[i]` holds
      the objects below field `i`, `owned` all of them and itself. */
  class Object {
    const ref: nat
    var slots: seq<Slot>
    var discs: seq<nat>
    ghost var lands: seq<set<Object>>
    ghost var owned: set<Object>

    constructor (ref: nat, slots: seq<Slot>, discs: seq<nat>, ghost lands: seq<set<Object>>, ghost below: set<Object>)
      ensures this.ref == ref && this.slots == slots && this.discs == discs
      ensures this.lands == lands && this.owned == below + {this}
    {
      this.ref, this.slots, this.discs, this.lands, this.owned := ref, slots, discs, lands, below + {this};
    }

    /** No object is reached through two fields, or from itself. */
    ghost predicate Owns()
      reads this
    {
      && this in owned && |lands| == |slots|
      && (forall i | 0 <= i < |lands| :: lands[i] <= owned && this !in lands[i])
      && (forall i, j | 0 <= i < j < |lands| :: lands[i] !! lands[j])
    }

    ghost predicate Valid(file: File)
      reads this, owned
      decreases owned, 0
    {
      && Owns()
      && |slots| == |Fields(file, ref)| && |discs| == |Oneofs(file, ref)|
      && forall i | 0 <= i < |slots| :: SlotValid(file, ShapeAt(file, ref, i), slots[i], lands[i])
    }

    /** The value the object holds. */
    ghost function Abs(file: File): Msg
      requires Valid(file)
      reads this, owned
      decreases owned, 4
    {
      Msg(seq(|slots|, i requires 0 <= i < |slots| && Valid(file) reads this, owned =>
            AbsSlot(file, ShapeAt(file, ref, i), slots[i], lands[i])),
          discs)
    }

    /** ResetCodec: capacities and pointers stay. */
    method ResetCodec(file: File)
      requires Valid(file)
      modifies owned
      ensures Valid(file) && owned == old(owned) && lands == old(lands)
      ensures Abs(file) == Reset(file, ref, old(Abs(file)))
      ensures |slots| == |old(slots)| && forall i | 0 <= i < |slots| :: Kept(ShapeAt(file, ref, i), old(slots[i]), slots[i])
      decreases owned, 0
    {
      hide SlotValid, AbsSlot, Valid, Abs, ResetValue;
      ghost var m := Abs(file);
      var i := 0;
      ValidOwns(file, this);
      while i < |slots|
        invariant Valid(file) && Owns() && owned == old(owned) && lands == old(lands)
        invariant |slots| == |old(slots)| == |m.vals| == |Abs(file).vals| && 0 <= i <= |slots|
        invariant forall j | 0 <= j < |slots| ::
                    if j < i then Kept(ShapeAt(file, ref, j), old(slots[j]), slots[j]) else slots[j] == old(slots[j])
        invariant Abs(file).discs == m.discs == discs
        invariant forall j | 0 <= j < |slots| ::
                    Abs(file).vals[j] == if j < i then ResetValue(file, ShapeAt(file, ref, j), m.vals[j]) else m.vals[j]
      {
        label Before:
        AbsAt(file, this, i);
        var s := ResetSlot(file, ShapeAt(file, ref, i), slots[i], lands[i]);
        slots := slots[i := s];
        FieldChanged@Before(file, this, i);
        ValidOwns(file, this);
        i := i + 1;
      }
      label Cleared:
      discs := Zeros(|discs|);
      DiscsChanged@Cleared(file, this);
      assert Abs(file).vals == Reset(file, ref, m).vals;
    }

    /** SizeCodec: the fields in order, then a switch for each oneof. */
    method SizeCodec(file: File) returns (n: nat)
      requires ValidFile(file) && Valid(file) && |Marshal(file, ref, Abs(file))| < MAX_LEN
      ensures n == |Marshal(file, ref, Abs(file))|
      decreases owned, 0
    {
      hide SlotValid, AbsSlot, Valid, Abs, FieldAlone, OneofAlone, Marshal, ValidFile;
      ghost var m := Abs(file);
      ValidOwns(file, this);
      MarshalOf(file, ref, m);
      n := 0;
      var i := 0;
      while i < |slots|
        invariant 0 <= i <= |slots| && n + |FieldsFrom(file, ref, m, i)| == |FieldsFrom(file, ref, m, 0)|
      {
        if Fields(file, ref)[i].oneof.None? {
          FieldParts(file, this, i);
          var sz := SizeSlot(file, Fields(file, ref)[i], slots[i], lands[i], false);
          n := n + sz;
        } else {
          BranchAlone(file, ref, m, i);
        }
        i := i + 1;
      }
      var j := 0;
      while j < |discs|
        invariant 0 <= j <= |discs| && n + |OneofsFrom(file, ref, m, j)| == |FieldsFrom(file, ref, m, 0)|
      {
        OneofParts(file, this, j);
        var active := Active(file, ref, discs, j);
        if active.Some? {
          var sz := SizeSlot(file, Fields(file, ref)[active.value], slots[active.value], lands[active.value], true);
          n := n + sz;
        }
        j := j + 1;
      }
    }

    /** MarshalCodecInternal: it trusts the buffer to be large enough. */
    method MarshalCodecInternal(file: File, buf: array<byte>, at: nat) returns (n: nat)
      requires ValidFile(file) && Valid(file) && |Marshal(file, ref, Abs(file))| < MAX_LEN
      requires at + |Marshal(file, ref, Abs(file))| <= buf.Length
      modifies buf
      ensures Valid(file) && Abs(file) == old(Abs(file)) && n == |Marshal(file, ref, Abs(file))|
      ensures buf[..] == Splice(old(buf[..]), at, Marshal(file, ref, Abs(file)))
      decreases owned, 1
    {
      hide SlotValid, AbsSlot, Valid, Abs, FieldAlone, OneofAlone, Marshal, ValidFile, Splice;
      ghost var m, was := Abs(file), buf[..];
      ghost var total, done: bytes := FieldsFrom(file, ref, m, 0), [];
      ValidOwns(file, this);
      MarshalOf(file, ref, m);
      SpliceNothing(was, at);
      n := 0;
      var i := 0;
      while i < |slots|
        invariant 0 <= i <= |slots| && |done| == n && done + FieldsFrom(file, ref, m, i) == total
        invariant Valid(file) && Abs(file) == m && buf[..] == Splice(was, at, done)
      {
        if Fields(file, ref)[i].oneof.None? {
          FieldParts(file, this, i);
          ghost var w := FieldAlone(file, ref, m, i);
          Advance(total, done, w, FieldsFrom(file, ref, m, i + 1));
          SpliceSplice(was, at, done, w);
          var c := PutSlot(buf, at + n, file, Fields(file, ref)[i], slots[i], lands[i], false);
          n, done := n + c, done + w;
        } else {
          BranchAlone(file, ref, m, i);
        }
        i := i + 1;
      }
      n := PutOneofs(file, buf, at, n, m, was, done);
    }

    method PutOneofs(file: File, buf: array<byte>, at: nat, from: nat, ghost m: Msg, ghost was: bytes, ghost before: bytes)
      returns (n: nat)
      requires ValidFile(file) && Valid(file) && m == Abs(file) && |Marshal(file, ref, m)| < MAX_LEN
      requires |was| == buf.Length && at + |Marshal(file, ref, m)| <= buf.Length && from == |before|
      requires before + OneofsFrom(file, ref, m, 0) == Marshal(file, ref, m) && buf[..] == Splice(was, at, before)
      modifies buf
      ensures Valid(file) && Abs(file) == m && n == |Marshal(file, ref, m)|
      ensures buf[..] == Splice(was, at, Marshal(file, ref, m))
      decreases owned, 0
    {
      hide SlotValid, AbsSlot, Valid, Abs, OneofAlone, Marshal, ValidFile, Splice;
      ghost var total, done: bytes := Marshal(file, ref, m), before;
      ValidOwns(file, this);
      n := from;
      var j := 0;
      while j < |discs|
        invariant 0 <= j <= |discs| && |done| == n && done + OneofsFrom(file, ref, m, j) == total
        invariant Valid(file) && Abs(file) == m && buf[..] == Splice(was, at, done)
      {
        OneofParts(file, this, j);
        ghost var w := OneofAlone(file, ref, m, j);
        Advance(total, done, w, OneofsFrom(file, ref, m, j + 1));
        SpliceSplice(was, at, done, w);
        var active := Active(file, ref, discs, j);
        if active.Some? {
          var c := PutSlot(buf, at + n, file, Fields(file, ref)[active.value], slots[active.value], lands[active.value], true);
          n := n + c;
        }
        assert w == [] ==> done + w == done;
        done := done + w;
        j := j + 1;
      }
      assert done + [] == done;
    }

    // UnmarshalCodecInternal, in the order of its parts: the reset at the top,
    // the pre-scan, the loop over the records and the nil-out pass.

    method BeginDecode(file: File)
      requires Valid(file)
      modifies owned
      ensures Valid(file) && owned == old(owned)
      ensures Abs(file) == Start(file, ref, old(Abs(file)))
      ensures |slots| == |old(slots)| && forall i | 0 <= i < |slots| :: Begun(file, ref, i, old(slots[i]), slots[i])
    {
      hide SlotValid, AbsSlot, Valid, Abs, ResetValue, Pooled;
      ghost var m := Abs(file);
      var i := 0;
      ValidOwns(file, this);
      while i < |slots|
        invariant Valid(file) && Owns() && owned == old(owned) && lands == old(lands)
        invariant |slots| == |old(slots)| == |m.vals| == |Abs(file).vals| && 0 <= i <= |slots|
        invariant forall j | 0 <= j < |slots| ::
                    if j < i then Begun(file, ref, j, old(slots[j]), slots[j]) else slots[j] == old(slots[j])
        invariant Abs(file).discs == m.discs == discs
        invariant forall j | 0 <= j < |slots| ::
                    Abs(file).vals[j] == if j < i then Start(file, ref, m).vals[j] else m.vals[j]
      {
        if !Pooled(file, ref, i) {
          label Before:
          AbsAt(file, this, i);
          var s := ResetSlot(file, ShapeAt(file, ref, i), slots[i], lands[i]);
          slots := slots[i := s];
          FieldChanged@Before(file, this, i);
          ValidOwns(file, this);
        }
        i := i + 1;
      }
      assert Abs(file).vals == Start(file, ref, m).vals;
    }

    /** One field's case arm. */
    method DecodeField(file: File, k: nat, wire: nat, data: bytes, i: nat, slab: bytes, off: nat) returns (r: Result<nat>)
      requires ValidFile(file) && Valid(file) && k < |Fields(file, ref)| && i <= |data|
      requires NeedsSlab(Fields(file, ref)) ==> Slabbed(data, slab, off)
      modifies owned
      ensures Valid(file) && fresh(owned - old(owned))
      ensures |slots| == |old(slots)| == |Fields(file, ref)| && slots == old(slots)[k := slots[k]]
      ensures Reused(Keeps(file, ref, k), old(slots[k]), slots[k])
      ensures match ReadDelta(file, ShapeAt(file, ref, k), wire, data[i..])
              case Err(e) => r == Err(e)
              case Ok(x) => r == Ok(x.n) && OneMore(old(slots[k]), slots[k])
                            && Abs(file) == Apply(file, ref, old(Abs(file)), Known(k, x.v))
      decreases |data|, 6
    {
      hide SlotValid, AbsSlot, Valid, Abs, Update, ReadDelta, ValidFile, Slabbed, OneMore, Reused, Pooled;
      ghost var m := Abs(file);
      label Before:
      ValidOwns(file, this);
      AbsAt(file, this, k);
      var t: Slot;
      ghost var grown: set<Object>;
      r, t, grown := DecodeSlot(file, ShapeAt(file, ref, k), Pooled(file, ref, k), slots[k], lands[k], wire, data, i, slab, off);
      slots, lands, owned := slots[k := t], lands[k := grown], owned + grown;
      FieldChanged@Before(file, this, k);
      ValidOwns(file, this);
      label Decoded:
      if r.Ok? {
        discs := Decoder.Mark(Fields(file, ref)[k], discs);
        DiscsChanged@Decoded(file, this);
      }
    }

    /** One turn of the main loop. */
    method Turn(file: File, data: bytes, i: nat, slab: bytes, off: nat, seen: Bitmap.bitmap)
      returns (r: Result<nat>, marked: Bitmap.bitmap)
      requires ValidFile(file) && Valid(file) && i <= |data|
      requires NeedsSlab(Fields(file, ref)) ==> Slabbed(data, slab, off)
      modifies owned
      ensures Valid(file) && fresh(owned - old(owned)) && |slots| == |old(slots)| == |Fields(file, ref)|
      ensures match ReadRecord(file, ref, data[i..])
              case Err(e) => r == Err(e)
              case Ok(x) => r == Ok(x.n) && Abs(file) == Apply(file, ref, old(Abs(file)), x.v)
                            && SlotsAfter(file, ref, old(slots), slots, x.v) && SeenAfter(file, ref, seen, marked, x.v)
      decreases |data|, 7
    {
      hide Valid, Abs, ReadDelta, ValidFile, Slabbed, OneMore, Reused, SkipField, ReadVarint, ReadRecord, Pooled,
           SeenAfter, Keeps, Update;
      marked := seen;
      ValidOwns(file, this);
      RecordParts(file, ref, data[i..]);
      var tag, n := DecodeVarint(data[i..]);
      if n < 0 {
        return Err(InvalidTag), seen;
      }
      SliceDrop(data, i, |data|, n);
      match FindField(Fields(file, ref), tag / 8) {
        case None =>
          UnknownSeen(file, ref, seen);
          var skipped := SkipField(data[i + n..], tag % 8);
          r := if skipped.Err? then Err(skipped.error) else Ok(n + skipped.value);
        case Some(k) =>
          r := DecodeField(file, k, tag % 8, data, i + n, slab, off);
          if r.Ok? {
            r := Ok(n + r.value);
            MarkedAsSeen(file, ref, k, seen, ReadDelta(file, ShapeAt(file, ref, k), tag % 8, data[i + n..]).value.v);
            if Pooled(file, ref, k) {
              marked := Bitmap.Mark(seen, Fields(file, ref)[k].num);
            }
          }
      }
    }

    /** Nil slices of messages get room for what the pre-scan counts; there is no
        scan when no slice is nil. Only the counters of repeated messages are
        looked at. */
    method Presize(file: File, data: bytes)
      requires Valid(file)
      modifies this
      ensures Valid(file) && owned == old(owned) && Abs(file) == old(Abs(file))
      ensures |slots| == |old(slots)| == |Fields(file, ref)|
      ensures forall k | 0 <= k < |slots| :: slots[k] == Presized(old(slots[k]), data, Fields(file, ref)[k].num)
    {
      hide SlotValid, AbsSlot, Valid, Abs, Count;
      ghost var m := Abs(file);
      ValidOwns(file, this);
      var fields := Fields(file, ref);
      if forall k | 0 <= k < |slots| :: !slots[k].Slice? || !slots[k].none {
        return;
      }
      var counts := CountAll(data, seq(|fields|, k requires 0 <= k < |fields| => fields[k].num));
      var k := 0;
      while k < |slots|
        invariant Valid(file) && Owns() && owned == old(owned) && Abs(file) == m
        invariant 0 <= k <= |slots| == |old(slots)| == |fields|
        invariant forall j | 0 <= j < |slots| ::
                    slots[j] == if j < k then Presized(old(slots[j]), data, fields[j].num) else old(slots[j])
      {
        if slots[k].Slice? && slots[k].none && counts[k] > 0 {
          label Before:
          AbsAt(file, this, k);
          NilSliceParts(file, ShapeAt(file, ref, k), slots[k], lands[k]);
          EmptySliceHolds(file, ShapeAt(file, ref, k), counts[k], false, lands[k]);
          slots := slots[k := Slice(Nulls(counts[k]), 0, false)];
          FieldChanged@Before(file, this, k);
          ValidOwns(file, this);
          assert Abs(file).vals == m.vals;
        }
        k := k + 1;
      }
    }

    method DecodeRecords(file: File, data: bytes, slab: bytes, off: nat, ghost start: Msg)
      returns (e: Option<Error>, seen: Bitmap.bitmap, ghost recs: seq<Rec>)
      requires ValidFile(file) && Valid(file) && Abs(file) == start
      requires NeedsSlab(Fields(file, ref)) ==> Slabbed(data, slab, off)
      modifies owned
      ensures Valid(file) && fresh(owned - old(owned))
      ensures match ReadMessage(file, ref, data)
              case Err(error) => e == Some(error)
              case Ok(rs) => e == None && recs == rs && Abs(file) == ApplyAll(file, ref, start, rs)
                             && SeenAll(file, ref, seen, rs) && SlotsGrown(file, ref, old(slots), slots, rs)
      decreases |data|, 8
    {
      hide Valid, Abs, ValidFile, Slabbed, ReadMessage, ReadRecord, ApplyAll, Apply, SeenAll, SeenAfter, SlotsAfter,
           SlotsGrown, Following;
      ghost var all, before := ReadMessage(file, ref, data), slots;
      e, seen, recs := None, 0, [];
      NoRecordYet(file, ref, all, start, before);
      var i := 0;
      assert data[0..] == data;
      while i < |data|
        invariant 0 <= i <= |data| && Valid(file) && fresh(owned - old(owned))
        invariant Following(all, ReadMessage(file, ref, data[i..]), recs)
        invariant Abs(file) == ApplyAll(file, ref, start, recs)
        invariant SeenAll(file, ref, seen, recs) && SlotsGrown(file, ref, before, slots, recs)
        decreases |data| - i
      {
        ghost var x, was := ReadRecord(file, ref, data[i..]), slots;
        RecordAhead(file, ref, data, i, all, recs);
        var r, marked := Turn(file, data, i, slab, off, seen);
        if r.Err? {
          return Some(r.error), seen, recs;
        }
        ApplyNext(file, ref, start, recs, x.value.v);
        SeenNext(file, ref, seen, marked, recs, x.value.v);
        GrownNext(file, ref, before, was, slots, recs, x.value.v);
        recs := recs + [x.value.v];
        seen, i := marked, i + r.value;
      }
      assert i == |data|;
      NothingAhead(file, ref, data[i..], all, recs);
    }

    /** The nil-out pass. */
    method NilOut(file: File, seen: Bitmap.bitmap, ghost recs: seq<Rec>)
      requires Valid(file) && SeenAll(file, ref, seen, recs)
      modifies this
      ensures Valid(file) && owned == old(owned) && Abs(file) == Finish(file, ref, old(Abs(file)), recs)
      ensures |slots| == |old(slots)|
      ensures forall k | 0 <= k < |slots| ::
                slots[k] == if Pooled(file, ref, k) && Deltas(recs, k) == [] then Pointer(null) else old(slots[k])
    {
      hide SlotValid, AbsSlot, Valid, Abs, Pooled, Deltas, Bitmap.Marked;
      ghost var m := Abs(file);
      ValidOwns(file, this);
      var k := 0;
      while k < |slots|
        invariant Valid(file) && Owns() && owned == old(owned)
        invariant 0 <= k <= |slots| == |old(slots)| == |Fields(file, ref)| == |Abs(file).vals| == |m.vals|
        invariant Abs(file).discs == m.discs
        invariant forall j | 0 <= j < |slots| ::
                    slots[j] == if j < k && Pooled(file, ref, j) && Deltas(recs, j) == [] then Pointer(null) else old(slots[j])
        invariant forall j | 0 <= j < |slots| :: Abs(file).vals[j] == if j < k then Finish(file, ref, m, recs).vals[j] else m.vals[j]
      {
        if Pooled(file, ref, k) && !Bitmap.Marked(seen, Fields(file, ref)[k].num) {
          label Before:
          NilHolds(file, ShapeAt(file, ref, k), ref, k, lands[k]);
          slots := slots[k := Pointer(null)];
          FieldChanged@Before(file, this, k);
          ValidOwns(file, this);
        }
        k := k + 1;
      }
      assert Abs(file).vals == Finish(file, ref, m, recs).vals;
    }

    /** UnmarshalCodecInternal: decodes `data`, which stands at `off` in the slab. */
    method UnmarshalCodecInternal(file: File, data: bytes, slab: bytes, off: nat) returns (e: Option<Error>)
      requires ValidFile(file) && Valid(file)
      requires NeedsSlab(Fields(file, ref)) ==> Slabbed(data, slab, off)
      modifies owned
      ensures Valid(file) && fresh(owned - old(owned))
      ensures match ReadMessage(file, ref, data)
              case Err(error) => e == Some(error)
              case Ok(recs) => e == None && Abs(file) == Decode(file, ref, old(Abs(file)), recs)
                               && Recycled(file, ref, old(slots), slots, data, recs)
      decreases |data|, 9
    {
      hide Valid, Abs, ValidFile, Slabbed, ReadMessage, ApplyAll, Start, Finish, SeenAll, SlotsGrown, Presized, Begun,
           Recycled, Pooled, Deltas, SlotsFit;
      ghost var m := Abs(file);
      ValidOwns(file, this);
      ValidSlotsFit(file, this);
      BeginDecode(file);
      ghost var s1 := slots;
      ValidOwns(file, this);
      Presize(file, data);
      ghost var s2 := slots;
      var seen: Bitmap.bitmap;
      ghost var recs: seq<Rec>;
      e, seen, recs := DecodeRecords(file, data, slab, off, Start(file, ref, m));
      ghost var s3 := slots;
      ValidOwns(file, this);
      if e.None? {
        NilOut(file, seen, recs);
        RecycledAtLast(file, ref, old(slots), s1, s2, s3, slots, data, recs);
      }
    }
  }

  /** After a reset pointers to messages and backing arrays are the same as
      before; pointers to scalars are nil and slices are empty. */
  predicate Kept(shape: Shape, before: Slot, after: Slot) {
    match before
    case Cell(_) => after.Cell?
    case Pointer(_) => after == if shape.Optional? then Pointer(null) else before
    case Slice(back, _, none) => after == Slice(back, 0, none)
  }

  /** When the loop starts: pooled pointers are what they were, the rest is
      reset. */
  predicate Begun(file: File, ref: nat, i: nat, before: Slot, after: Slot) {
    if Pooled(file, ref, i) then after == before else Kept(ShapeAt(file, ref, i), before, after)
  }

  method ResetSlot(file: File, shape: Shape, s: Slot, ghost land: set<Object>) returns (t: Slot)
    requires SlotValid(file, shape, s, land)
    modifies land
    ensures SlotValid(file, shape, t, land) && Kept(shape, s, t)
    ensures AbsSlot(file, shape, t, land) == ResetValue(file, shape, old(AbsSlot(file, shape, s, land)))
    decreases land, 2
  {
    hide TypedValue, SlotValid, AbsSlot, Reset;
    if Flat(shape) {
      t := Cell(FreshValue(file, 0, shape));
      CellReset(file, shape, s, land);
    } else if shape.Optional? {
      BoxParts(file, shape, s, land);
      BoxHolds(file, shape, null, land);
      t := Pointer(null);
    } else if shape.Nested? {
      t := s;
      PointerParts(file, shape, s, land);
      if s.to != null {
        s.to.ResetCodec(file);
      }
      PointerHolds(file, shape, s.to, land);
    } else {
      SliceParts(file, shape, s, land);
      ghost var ps := Places(file, shape.ref, s.back, land);
      ResetPlaces(file, shape.ref, s.back, s.len, land);
      t := s.(len := 0);
      SliceHolds(file, shape, t, land);
      SliceReset(file, shape, ps, Places(file, shape.ref, s.back, land), s.len);
    }
  }

  /** A slice of length 0 with the elements that were reset beyond it. */
  lemma SliceReset(file: File, shape: Shape, ps: seq<Option<Msg>>, qs: seq<Option<Msg>>, len: nat)
    requires shape.NestedList? && len <= |ps| == |qs|
    requires forall k | 0 <= k < |ps| :: qs[k] == if k < len then ResetAt(file, shape.ref, ps[k]) else ps[k]
    ensures SliceOf(qs, 0) == ResetValue(file, shape, SliceOf(ps, len))
  {
    hide Reset;
    var x, y := SliceOf(qs, 0), ResetValue(file, shape, SliceOf(ps, len));
    var parked := Parked(file, shape.ref, ps[..len]);
    forall k: nat | k < |ps| && ps[k].Some?
      ensures k in y.spare && y.spare[k] == x.spare[k]
    {
      if k < len {
        assert k in parked && parked[k] == ResetElement(file, shape.ref, ps[k]);
      }
    }
    assert x.spare == y.spare;
  }

  function ResetAt(file: File, r: nat, p: Option<Msg>): Option<Msg> {
    match p
    case None => None
    case Some(m) => Some(Reset(file, r, m))
  }

  method ResetPlaces(file: File, r: nat, back: seq<Object?>, len: nat, ghost land: set<Object>)
    requires PlacesValid(file, r, back, land) && len <= |back| && QuietWithin(file, r, back, len, |back|)
    modifies land
    ensures PlacesValid(file, r, back, land) && QuietWithin(file, r, back, 0, |back|)
    ensures forall k | 0 <= k < |back| ::
              Places(file, r, back, land)[k] == var p := old(Places(file, r, back, land)[k]); if k < len then ResetAt(file, r, p) else p
    decreases land, 1
  {
    hide Reset;
    ghost var ps := Places(file, r, back, land);
    var k := 0;
    while k < len
      invariant 0 <= k <= len && PlacesValid(file, r, back, land)
      invariant QuietWithin(file, r, back, len, |back|) && QuietWithin(file, r, back, 0, k)
      invariant forall j | 0 <= j < |back| ::
                  AbsPtr(file, r, back[j], land) == if j < k then ResetAt(file, r, ps[j]) else ps[j]
    {
      if back[k] != null {
        label Before:
        PlaceParts(file, r, back, k, land);
        ghost var was := back[k].Abs(file);
        back[k].ResetCodec(file);
        PlaceChanged@Before(file, r, back, k, land);
        assert land + back[k].owned == land;
        ResetQuiet(file, r, was);
      }
      k := k + 1;
    }
  }

  lemma PlaceParts(file: File, r: nat, back: seq<Object?>, k: nat, land: set<Object>)
    requires PlacesValid(file, r, back, land) && k < |back| && back[k] != null
    ensures back[k].Valid(file) && back[k].ref == r && back[k] in back[k].owned && back[k] in land && back[k].owned <= land
  {
    assert PtrValid(file, r, back[k], land);
  }

  /** `p` is null or a struct of the message `r` within `land`. */
  ghost predicate PtrValid(file: File, r: nat, p: Object?, land: set<Object>)
    reads land
    decreases land, 1
  {
    p != null ==> p in land && p.owned <= land && p.ref == r && p.Valid(file)
  }

  ghost function AbsPtr(file: File, r: nat, p: Object?, land: set<Object>): Option<Msg>
    requires PtrValid(file, r, p, land)
    reads land
    decreases land, 5
  {
    if p == null then None else Some(p.Abs(file))
  }

  /** The places of a backing array hold different objects that share nothing. */
  ghost predicate Apart(back: seq<Object?>)
    reads set k | 0 <= k < |back| && back[k] != null :: back[k]
  {
    forall k, l | 0 <= k < l < |back| && back[k] != null && back[l] != null :: back[k].owned !! back[l].owned
  }

  /** A slot fits its field. The spare places of a slice hold only objects that
      were reset: their discriminators are 0. */
  ghost predicate SlotValid(file: File, shape: Shape, s: Slot, land: set<Object>)
    reads land
    decreases land, 8
  {
    match shape
    case Nested(r, pointer) => s.Pointer? && PtrValid(file, r, s.to, land) && (!pointer ==> s.to != null)
    case NestedList(r, pointer) =>
      && s.Slice? && s.len <= |s.back| && (s.none ==> s.back == [])
      && (forall k | 0 <= k < |s.back| :: PtrValid(file, r, s.back[k], land))
      && Apart(s.back)
      && (!pointer ==> forall k | 0 <= k < s.len :: s.back[k] != null)
      && (forall k | s.len <= k < |s.back| :: Spare(file, r, s.back[k], land))
    case Optional(k) => s.Pointer? && BoxValid(k, s.to, land)
    case _ => s.Cell? && TypedValue(file, shape, s.v)
  }

  /** What a pointer to a scalar leads to. */
  function Unboxed(p: Object?): Option<Scalar>
    reads p
  {
    if p != null && |p.slots| == 1 && p.slots[0].Cell? && p.slots[0].v.Plain? then Some(p.slots[0].v.s) else None
  }

  ghost predicate BoxValid(k: Kind, p: Object?, land: set<Object>)
    reads land
  {
    p != null ==> p in land && Unboxed(p).Some? && InKind(k, Unboxed(p).value)
  }

  /** Fields whose value stands in the struct itself. */
  predicate Flat(shape: Shape) {
    Leaf(shape) && !shape.Optional?
  }

  ghost predicate Spare(file: File, r: nat, p: Object?, land: set<Object>)
    requires PtrValid(file, r, p, land)
    reads land
    decreases land, 6
  {
    p != null ==> ShadowOf(file, r, p.Abs(file)) == Quiet
  }

  ghost function AbsSlot(file: File, shape: Shape, s: Slot, land: set<Object>): Value
    requires SlotValid(file, shape, s, land)
    reads land
    decreases land, 9
  {
    match shape
    case Nested(r, _) => Sub(AbsPtr(file, r, s.to, land))
    case NestedList(r, _) =>
      SliceOf(seq(|s.back|, k requires 0 <= k < |s.back| && SlotValid(file, shape, s, land) reads land =>
                    AbsPtr(file, r, s.back[k], land)),
              s.len)
    case Optional(_) => Opt(Unboxed(s.to))
    case _ => s.v
  }

  /** The value of a slice of length `len` whose array holds these. */
  function SliceOf(ps: seq<Option<Msg>>, len: nat): Value
    requires len <= |ps|
  {
    Subs(ps[..len], map k: nat | len <= k < |ps| && ps[k].Some? :: ps[k].value)
  }

  // ---------------------------------------------------------------- what an object holds

  lemma ValidOwns(file: File, o: Object)
    requires o.Valid(file)
    ensures o.Owns() && |o.slots| == |Fields(file, o.ref)| && |o.discs| == |Oneofs(file, o.ref)|
    ensures |o.Abs(file).vals| == |o.slots| && o.Abs(file).discs == o.discs
  {
    hide SlotValid, AbsSlot;
  }

  lemma AbsAt(file: File, o: Object, i: nat)
    requires o.Valid(file) && i < |o.slots|
    ensures |o.Abs(file).vals| == |o.slots| && o.Abs(file).discs == o.discs
    ensures SlotValid(file, ShapeAt(file, o.ref, i), o.slots[i], o.lands[i])
    ensures o.Abs(file).vals[i] == AbsSlot(file, ShapeAt(file, o.ref, i), o.slots[i], o.lands[i])
  {
    hide SlotValid, AbsSlot;
  }

  /** What an object holds is well-typed. */
  lemma {:induction false} AbsTyped(file: File, o: Object)
    requires o.Valid(file)
    ensures Typed(file, o.ref, o.Abs(file))
    decreases o.owned, 0
  {
    hide SlotValid, AbsSlot, TypedValue;
    forall i | 0 <= i < |o.slots|
      ensures TypedValue(file, ShapeAt(file, o.ref, i), o.Abs(file).vals[i])
    {
      AbsAt(file, o, i);
      SlotTyped(file, ShapeAt(file, o.ref, i), o.slots[i], o.lands[i]);
    }
  }

  lemma SlotTyped(file: File, shape: Shape, s: Slot, land: set<Object>)
    requires SlotValid(file, shape, s, land)
    ensures TypedValue(file, shape, AbsSlot(file, shape, s, land))
    decreases land, 3
  {
    hide InKind, Typed, Apart, Spare;
    match shape
    case Nested(r, pointer) => PtrTyped(file, r, pointer, s.to, land);
    case NestedList(r, pointer) =>
      ListTyped(file, shape, s, land, 0);
      SpareTyped(file, shape, s, land);
    case _ =>
  }

  lemma SpareTyped(file: File, shape: Shape, s: Slot, land: set<Object>)
    requires shape.NestedList? && SlotValid(file, shape, s, land)
    ensures var v := AbsSlot(file, shape, s, land);
            forall k | k in v.spare ::
              |v.ms| <= k && Typed(file, shape.ref, v.spare[k]) && ShadowOf(file, shape.ref, v.spare[k]) == Quiet
    decreases land, 2
  {
    hide Typed, ShadowOf, SlotValid, AbsSlot;
    SliceParts(file, shape, s, land);
    forall k: nat | s.len <= k < |s.back| && s.back[k] != null
      ensures Typed(file, shape.ref, s.back[k].Abs(file))
    {
      PlaceParts(file, shape.ref, s.back, k, land);
      AbsTyped(file, s.back[k]);
    }
  }

  /** Without oneofs any object may stand in a spare place. */
  lemma SpareWithoutOneofs(file: File, r: nat, p: Object?, land: set<Object>)
    requires NoOneofs(file, r) && PtrValid(file, r, p, land)
    ensures Spare(file, r, p, land)
  {
    hide Typed, ShadowOf, NoOneofs;
    if p != null {
      AbsTyped(file, p);
      QuietWithoutOneofs(file, r, p.Abs(file));
    }
  }

  lemma PtrTyped(file: File, r: nat, pointer: bool, p: Object?, land: set<Object>)
    requires PtrValid(file, r, p, land) && (!pointer ==> p != null)
    ensures TypedPointer(file, r, pointer, AbsPtr(file, r, p, land))
    decreases land, 1
  {
    hide Typed;
    if p != null {
      AbsTyped(file, p);
    }
  }

  lemma {:induction false} ListTyped(file: File, shape: Shape, s: Slot, land: set<Object>, from: nat)
    requires shape.NestedList? && SlotValid(file, shape, s, land) && from <= s.len
    ensures TypedList(file, shape.ref, shape.pointer, AbsSlot(file, shape, s, land).ms[from..])
    decreases land, 2, s.len - from
  {
    hide Apart, Spare, TypedPointer;
    var ms := AbsSlot(file, shape, s, land).ms;
    if from < s.len {
      PtrTyped(file, shape.ref, shape.pointer, s.back[from], land);
      ListTyped(file, shape, s, land, from + 1);
      assert ms[from..][1..] == ms[from + 1..];
    }
  }

  lemma CellHolds(file: File, shape: Shape, v: Value, land: set<Object>)
    requires Flat(shape) && TypedValue(file, shape, v)
    ensures SlotValid(file, shape, Cell(v), land) && AbsSlot(file, shape, Cell(v), land) == v
  {
    hide InKind;
  }

  lemma BoxHolds(file: File, shape: Shape, p: Object?, land: set<Object>)
    requires shape.Optional? && BoxValid(shape.k, p, land)
    ensures SlotValid(file, shape, Pointer(p), land) && AbsSlot(file, shape, Pointer(p), land) == Opt(Unboxed(p))
  {
    hide InKind;
  }

  lemma BoxParts(file: File, shape: Shape, s: Slot, land: set<Object>)
    requires shape.Optional? && SlotValid(file, shape, s, land)
    ensures s.Pointer? && BoxValid(shape.k, s.to, land) && (s.to == null <==> Unboxed(s.to).None?)
    ensures AbsSlot(file, shape, s, land) == Opt(Unboxed(s.to)) && TypedValue(file, shape, Opt(Unboxed(s.to)))
  {
    hide InKind;
  }

  lemma PointerHolds(file: File, shape: Shape, p: Object?, land: set<Object>)
    requires shape.Nested? && PtrValid(file, shape.ref, p, land) && (!shape.pointer ==> p != null)
    ensures SlotValid(file, shape, Pointer(p), land)
    ensures AbsSlot(file, shape, Pointer(p), land) == Sub(if p == null then None else Some(p.Abs(file)))
  {
  }

  ghost predicate PlacesValid(file: File, r: nat, back: seq<Object?>, land: set<Object>)
    reads land
  {
    && (forall k | 0 <= k < |back| :: PtrValid(file, r, back[k], land))
    && Apart(back)
  }

  /** The objects in these places hold no discriminator other than 0. */
  ghost predicate QuietWithin(file: File, r: nat, back: seq<Object?>, from: nat, to: nat)
    requires to <= |back| && forall k | 0 <= k < |back| && back[k] != null :: back[k].Valid(file)
    reads (set k | 0 <= k < |back| && back[k] != null :: back[k]),
          set k, x | 0 <= k < |back| && back[k] != null && x in back[k].owned :: x
  {
    forall k | from <= k < to && back[k] != null :: ShadowOf(file, r, back[k].Abs(file)) == Quiet
  }

  lemma PointerParts(file: File, shape: Shape, s: Slot, land: set<Object>)
    requires shape.Nested? && SlotValid(file, shape, s, land)
    ensures s.Pointer? && PtrValid(file, shape.ref, s.to, land) && (!shape.pointer ==> s.to != null)
    ensures AbsSlot(file, shape, s, land) == Sub(if s.to == null then None else Some(s.to.Abs(file)))
  {
  }

  /** What the places of a backing array hold. */
  ghost function Places(file: File, r: nat, back: seq<Object?>, land: set<Object>): (ps: seq<Option<Msg>>)
    requires PlacesValid(file, r, back, land)
    reads land
    ensures |ps| == |back| && forall k | 0 <= k < |back| :: ps[k] == AbsPtr(file, r, back[k], land)
  {
    seq(|back|, k requires 0 <= k < |back| && PlacesValid(file, r, back, land) reads land => AbsPtr(file, r, back[k], land))
  }

  lemma SliceParts(file: File, shape: Shape, s: Slot, land: set<Object>)
    requires shape.NestedList? && SlotValid(file, shape, s, land)
    ensures s.Slice? && s.len <= |s.back| && (s.none ==> s.back == [])
    ensures PlacesValid(file, shape.ref, s.back, land) && QuietWithin(file, shape.ref, s.back, s.len, |s.back|)
    ensures !shape.pointer ==> forall k | 0 <= k < s.len :: s.back[k] != null
    ensures AbsSlot(file, shape, s, land) == SliceOf(Places(file, shape.ref, s.back, land), s.len)
    ensures forall k | 0 <= k < s.len :: AbsSlot(file, shape, s, land).ms[k] == AbsPtr(file, shape.ref, s.back[k], land)
  {
    SliceValue(file, shape, s, land);
  }

  lemma SliceValue(file: File, shape: Shape, s: Slot, land: set<Object>)
    requires shape.NestedList? && SlotValid(file, shape, s, land) && PlacesValid(file, shape.ref, s.back, land)
    ensures AbsSlot(file, shape, s, land) == SliceOf(Places(file, shape.ref, s.back, land), s.len)
  {
    hide SliceOf;
    var ps := seq(|s.back|, k requires 0 <= k < |s.back| && SlotValid(file, shape, s, land) reads land =>
                    AbsPtr(file, shape.ref, s.back[k], land));
    assert ps == Places(file, shape.ref, s.back, land);
  }

  /** The elements alone. */
  lemma SliceElements(file: File, shape: Shape, s: Slot, land: set<Object>)
    requires shape.NestedList? && SlotValid(file, shape, s, land)
    ensures s.Slice? && s.len <= |s.back| && PlacesValid(file, shape.ref, s.back, land)
    ensures AbsSlot(file, shape, s, land).Subs? && |AbsSlot(file, shape, s, land).ms| == s.len
    ensures forall k | 0 <= k < s.len :: AbsSlot(file, shape, s, land).ms[k] == AbsPtr(file, shape.ref, s.back[k], land)
  {
    hide SlotValid, AbsSlot;
    SliceParts(file, shape, s, land);
  }

  lemma CellReset(file: File, shape: Shape, s: Slot, land: set<Object>)
    requires Flat(shape) && SlotValid(file, shape, s, land)
    ensures s.Cell? && AbsSlot(file, shape, s, land) == s.v
    ensures var v := FreshValue(file, 0, shape);
            && v == ResetValue(file, shape, s.v)
            && SlotValid(file, shape, Cell(v), land) && AbsSlot(file, shape, Cell(v), land) == v
  {
    hide InKind;
  }

  lemma SliceHolds(file: File, shape: Shape, s: Slot, land: set<Object>)
    requires shape.NestedList? && s.Slice? && s.len <= |s.back| && (s.none ==> s.back == [])
    requires PlacesValid(file, shape.ref, s.back, land)
    requires !shape.pointer ==> forall k | 0 <= k < s.len :: s.back[k] != null
    requires QuietWithin(file, shape.ref, s.back, s.len, |s.back|)
    ensures SlotValid(file, shape, s, land)
    ensures AbsSlot(file, shape, s, land) == SliceOf(Places(file, shape.ref, s.back, land), s.len)
  {
    forall k | s.len <= k < |s.back|
      ensures PtrValid(file, shape.ref, s.back[k], land) && Spare(file, shape.ref, s.back[k], land)
    {
    }
    assert SlotValid(file, shape, s, land);
    SliceValue(file, shape, s, land);
  }

  lemma EmptySliceHolds(file: File, shape: Shape, n: nat, none: bool, land: set<Object>)
    requires shape.NestedList? && (none ==> n == 0)
    ensures var s := Slice(Nulls(n), 0, none);
            SlotValid(file, shape, s, land) && AbsSlot(file, shape, s, land) == Subs([], map[])
  {
    hide SlotValid, AbsSlot;
    var s := Slice(Nulls(n), 0, none);
    SliceHolds(file, shape, s, land);
    assert SliceOf(Places(file, shape.ref, s.back, land), 0).spare == map[];
  }

  function Nulls(n: nat): (s: seq<Object?>)
    ensures |s| == n && forall k | 0 <= k < n :: s[k] == null
  {
    seq(n, k => null)
  }

  // ---------------------------------------------------------------- changing one field

  /** After an operation inside field `i` that left everything below the other
      fields alone, the object is valid and only that field's value changed. */
  twostate lemma FieldChanged(new file: File, o: Object, new i: nat)
    requires old(o.Valid(file)) && i < |old(o.slots)| == |o.slots| && |o.lands| == |o.slots|
    requires o.slots == old(o.slots)[i := o.slots[i]] && o.lands == old(o.lands)[i := o.lands[i]]
    requires o.discs == old(o.discs) && o.owned == old(o.owned) + o.lands[i]
    requires SlotValid(file, ShapeAt(file, o.ref, i), o.slots[i], o.lands[i])
    requires forall x | x in o.lands[i] :: x in old(o.lands[i]) || fresh(x)
    requires forall x | x in old(o.owned) && x !in old(o.lands[i]) && x != o :: unchanged(x)
    ensures o.Valid(file)
    ensures o.Abs(file) == old(o.Abs(file)).(vals := old(o.Abs(file)).vals[i := AbsSlot(file, ShapeAt(file, o.ref, i), o.slots[i], o.lands[i])])
  {
    hide SlotValid, AbsSlot;
  }

  /** The discriminators concern nothing else. */
  twostate lemma DiscsChanged(new file: File, o: Object)
    requires old(o.Valid(file)) && |o.discs| == |old(o.discs)|
    requires o.slots == old(o.slots) && o.lands == old(o.lands) && o.owned == old(o.owned)
    requires forall x | x in old(o.owned) && x != o :: unchanged(x)
    ensures o.Valid(file) && o.Abs(file) == old(o.Abs(file)).(discs := o.discs)
  {
    hide SlotValid, AbsSlot;
    assert o.Abs(file).vals == old(o.Abs(file)).vals;
  }

  /** The same for one place of a backing array. */
  twostate lemma PlaceChanged(new file: File, new r: nat, new back: seq<Object?>, new k: nat, new land: set<Object>)
    requires k < |back| && back[k] != null && old(allocated(back) && allocated(land))
    requires old(PlacesValid(file, r, back, land))
    requires back[k].Valid(file) && back[k].ref == r && back[k] in back[k].owned
    requires forall x | x in back[k].owned :: x in old(back[k].owned) || fresh(x)
    requires forall x | x in land && x !in old(back[k].owned) :: unchanged(x)
    ensures PlacesValid(file, r, back, land + back[k].owned)
    ensures forall j | 0 <= j < |back| && j != k ::
              AbsPtr(file, r, back[j], land + back[k].owned) == old(AbsPtr(file, r, back[j], land))
  {
    forall j | 0 <= j < |back| && j != k && back[j] != null
      ensures Undisturbed(file, r, back[j], land) && back[j].owned !! back[k].owned
    {
      assert old(back[j].owned) !! old(back[k].owned);
      assert old(PtrValid(file, r, back[j], land) && back[j].Valid(file));
      assert back[j] in old(back[j].owned);
    }
  }

  twostate predicate Undisturbed(new file: File, new r: nat, p: Object, new land: set<Object>)
    reads p, p.owned
  {
    && p.ref == r && p.owned == old(p.owned) && p.owned <= land && p in land
    && old(p.Valid(file)) && p.Valid(file) && p.Abs(file) == old(p.Abs(file))
  }

  // ---------------------------------------------------------------- new(T)

  method New(file: File, r: nat) returns (o: Object)
    requires ValidFile(file)
    ensures o.Valid(file) && fresh(o.owned) && o.ref == r && o.Abs(file) == Fresh(file, r)
    decreases r, 1
  {
    hide SlotValid, AbsSlot, FreshValue, ValidFile;
    var slots: seq<Slot> := [];
    ghost var lands: seq<set<Object>> := [];
    ghost var below: set<Object> := {};
    while |slots| < |Fields(file, r)|
      invariant |lands| == |slots| <= |Fields(file, r)| && fresh(below)
      invariant forall k | 0 <= k < |slots| :: lands[k] <= below && NewSlotDone(file, r, k, slots[k], lands[k])
      invariant forall j, k | 0 <= j < k < |slots| :: lands[j] !! lands[k]
    {
      var s, land := NewSlot(file, r, |slots|);
      slots := slots + [s];
      lands := lands + [land];
      below := below + land;
    }
    o := new Object(r, slots, Zeros(|Oneofs(file, r)|), lands, below);
    assert forall k | 0 <= k < |slots| :: NewSlotDone(file, r, k, slots[k], lands[k]);
    forall k | 0 <= k < |slots|
      ensures SlotValid(file, ShapeAt(file, r, k), slots[k], lands[k])
    {
    }
    assert o.Abs(file) == Fresh(file, r);
  }

  ghost predicate NewSlotDone(file: File, r: nat, i: nat, s: Slot, land: set<Object>)
    reads land
  {
    var shape := ShapeAt(file, r, i);
    SlotValid(file, shape, s, land) && AbsSlot(file, shape, s, land) == FreshValue(file, r, shape)
  }

  method NewSlot(file: File, r: nat, i: nat) returns (s: Slot, ghost land: set<Object>)
    requires ValidFile(file) && i < |Fields(file, r)|
    ensures fresh(land) && NewSlotDone(file, r, i, s, land)
    decreases r, 0
  {
    assert Supported(r, Fields(file, r)[i]) by { assert ValidInfo(r, file[r]); }
    FreshValueTyped(file, r, i);
    hide ValidFile, TypedValue, SlotValid, AbsSlot;
    var shape := ShapeAt(file, r, i);
    land := {};
    if Flat(shape) {
      CellHolds(file, shape, FreshValue(file, r, shape), land);
      s := Cell(FreshValue(file, r, shape));
    } else if shape.Optional? {
      BoxHolds(file, shape, null, land);
      s := Pointer(null);
    } else if shape.NestedList? {
      EmptySliceHolds(file, shape, 0, true, land);
      s := Slice(Nulls(0), 0, true);
    } else if shape.pointer {
      PointerHolds(file, shape, null, land);
      s := Pointer(null);
    } else {
      var o := New(file, shape.ref);
      assert o.Owns();
      land := o.owned;
      PointerHolds(file, shape, o, land);
      s := Pointer(o);
    }
  }

  // ---------------------------------------------------------------- SizeCodec

  lemma BranchAlone(file: File, ref: nat, m: Msg, i: nat)
    requires i < |Fields(file, ref)| && Fields(file, ref)[i].oneof.Some?
    ensures FieldAlone(file, ref, m, i) == []
  {
    hide FieldBytes;
  }

  /** A field outside any oneof, as its slot has to write it. */
  lemma FieldParts(file: File, o: Object, i: nat)
    requires ValidFile(file) && o.Valid(file) && i < |o.slots| && Fields(file, o.ref)[i].oneof.None?
    ensures SlotValid(file, ShapeAt(file, o.ref, i), o.slots[i], o.lands[i])
    ensures o.lands[i] < o.owned && 1 <= Fields(file, o.ref)[i].num < MAX_FIELD_NUM
    ensures FieldAlone(file, o.ref, o.Abs(file), i) ==
            SlotBytes(file, Fields(file, o.ref)[i], o.slots[i], o.lands[i], false)
  {
    hide SlotValid, AbsSlot, EmitField, FieldBytes;
    AbsAt(file, o, i);
    ValidOwns(file, o);
    assert ValidInfo(o.ref, file[o.ref]) && Supported(o.ref, Fields(file, o.ref)[i]);
  }

  /** The active branch of a oneof. */
  lemma OneofParts(file: File, o: Object, j: nat)
    requires ValidFile(file) && o.Valid(file)
    ensures match Active(file, o.ref, o.discs, j)
            case None => OneofAlone(file, o.ref, o.Abs(file), j) == []
            case Some(i) =>
              && i < |o.slots| && |o.lands| == |o.slots|
              && SlotValid(file, ShapeAt(file, o.ref, i), o.slots[i], o.lands[i])
              && o.lands[i] < o.owned && 1 <= Fields(file, o.ref)[i].num < MAX_FIELD_NUM
              && OneofAlone(file, o.ref, o.Abs(file), j) == SlotBytes(file, Fields(file, o.ref)[i], o.slots[i], o.lands[i], true)
  {
    hide SlotValid, AbsSlot, EmitBranch, FieldBytes, Active;
    ValidOwns(file, o);
    match Active(file, o.ref, o.discs, j)
    case None =>
    case Some(i) =>
      AbsAt(file, o, i);
      assert ValidInfo(o.ref, file[o.ref]) && Supported(o.ref, Fields(file, o.ref)[i]);
  }

  ghost function SlotBytes(file: File, f: Field, s: Slot, land: set<Object>, branch: bool): bytes
    requires SlotValid(file, f.shape, s, land)
    reads land
  {
    FieldBytes(file, f, Emitted(file, f.shape, AbsSlot(file, f.shape, s, land), branch))
  }

  method SizeSlot(file: File, f: Field, s: Slot, ghost land: set<Object>, branch: bool) returns (n: nat)
    requires ValidFile(file) && 1 <= f.num < MAX_FIELD_NUM && SlotValid(file, f.shape, s, land)
    requires |SlotBytes(file, f, s, land, branch)| < MAX_LEN
    ensures n == |SlotBytes(file, f, s, land, branch)|
    decreases land, 2
  {
    if Flat(f.shape) {
      hide FieldBytes, EmitField, EmitBranch, TypedValue;
      CellParts(file, f.shape, s, land);
      n := SizeLeaf(file, f, s.v, branch);
    } else if f.shape.Optional? {
      hide FieldBytes, EmitField, EmitBranch, TypedValue, SlotValid, AbsSlot;
      BoxParts(file, f.shape, s, land);
      n := SizeLeaf(file, f, Opt(Unboxed(s.to)), branch);
    } else if f.shape.Nested? {
      n := SizePointer(file, f, s, land, branch);
    } else {
      SliceSlot(file, f, s, land, branch);
      hide SlotBytes;
      n := 0;
      if !branch {
        n := SizePlaces(file, f, s, land);
      }
    }
  }

  method SizePointer(file: File, f: Field, s: Slot, ghost land: set<Object>, branch: bool) returns (n: nat)
    requires ValidFile(file) && 1 <= f.num < MAX_FIELD_NUM && f.shape.Nested? && SlotValid(file, f.shape, s, land)
    requires |SlotBytes(file, f, s, land, branch)| < MAX_LEN
    ensures n == |SlotBytes(file, f, s, land, branch)|
    decreases land, 1
  {
    hide ValidFile, SlotValid, Marshal, TagBytes;
    PointerSlot(file, f, s, land, branch);
    hide SlotBytes;
    n := 0;
    if s.to != null {
      var sz := s.to.SizeCodec(file);
      if branch || sz > 0 {
        var ts := TagSize(f.num);
        n := ts + SizeVarint(sz) + sz;
      }
    }
  }

  /** A singular message as its slot has to write it. */
  lemma PointerSlot(file: File, f: Field, s: Slot, land: set<Object>, branch: bool)
    requires ValidFile(file) && f.shape.Nested? && SlotValid(file, f.shape, s, land)
    ensures s.Pointer? && PtrValid(file, f.shape.ref, s.to, land)
    ensures SlotBytes(file, f, s, land, branch) ==
            if s.to != null && (branch || |Marshal(file, f.shape.ref, s.to.Abs(file))| > 0)
            then SubRecord(file, f, f.shape.ref, s.to.Abs(file)) else []
  {
    hide ValidFile, FieldBytes, SubRecord, Marshal, AbsSlot, SlotValid;
    PointerParts(file, f.shape, s, land);
    PtrTyped(file, f.shape.ref, f.shape.pointer, s.to, land);
    var p := AbsPtr(file, f.shape.ref, s.to, land);
    ElementBytes(file, f, p);
    PointerBytes(file, f, p);
  }

  lemma SliceSlot(file: File, f: Field, s: Slot, land: set<Object>, branch: bool)
    requires f.shape.NestedList? && SlotValid(file, f.shape, s, land)
    ensures AbsSlot(file, f.shape, s, land).Subs?
    ensures SlotBytes(file, f, s, land, branch) ==
            if branch then [] else SubRecords(file, f, f.shape.ref, AbsSlot(file, f.shape, s, land).ms, 0)
  {
    hide FieldBytes, SubRecords, SlotValid, AbsSlot, EmitList;
    SliceParts(file, f.shape, s, land);
    AllSubRecords(file, f, AbsSlot(file, f.shape, s, land).ms);
    NoSingles(file, f, []);
  }

  method SizePlaces(file: File, f: Field, s: Slot, ghost land: set<Object>) returns (n: nat)
    requires ValidFile(file) && 1 <= f.num < MAX_FIELD_NUM && f.shape.NestedList? && SlotValid(file, f.shape, s, land)
    requires AbsSlot(file, f.shape, s, land).Subs?
    requires |SubRecords(file, f, f.shape.ref, AbsSlot(file, f.shape, s, land).ms, 0)| < MAX_LEN
    ensures n == |SubRecords(file, f, f.shape.ref, AbsSlot(file, f.shape, s, land).ms, 0)|
    decreases land, 1
  {
    hide SlotValid, AbsSlot, Marshal, TagBytes, VarintBytes, SubElement, ValidFile;
    SliceElements(file, f.shape, s, land);
    ghost var ms := AbsSlot(file, f.shape, s, land).ms;
    var ts := TagSize(f.num);
    n := 0;
    var k := 0;
    while k < s.len
      invariant 0 <= k <= s.len
      invariant n + |SubRecords(file, f, f.shape.ref, ms, k)| == |SubRecords(file, f, f.shape.ref, ms, 0)|
    {
      SubElementLength(file, f, f.shape.ref, ms[k]);
      if s.back[k] != null {
        PlaceParts(file, f.shape.ref, s.back, k, land);
        var sz := s.back[k].SizeCodec(file);
        n := n + ts + SizeVarint(sz) + sz;
      }
      k := k + 1;
    }
  }

  lemma CellParts(file: File, shape: Shape, s: Slot, land: set<Object>)
    requires Flat(shape) && SlotValid(file, shape, s, land)
    ensures s.Cell? && TypedValue(file, shape, s.v) && AbsSlot(file, shape, s, land) == s.v
  {
    hide InKind;
  }

  // ---------------------------------------------------------------- MarshalCodecInternal

  method PutSlot(buf: array<byte>, at: nat, file: File, f: Field, s: Slot, ghost land: set<Object>, branch: bool) returns (n: nat)
    requires ValidFile(file) && 1 <= f.num < MAX_FIELD_NUM && SlotValid(file, f.shape, s, land)
    requires |SlotBytes(file, f, s, land, branch)| < MAX_LEN && at + |SlotBytes(file, f, s, land, branch)| <= buf.Length
    modifies buf
    ensures SlotValid(file, f.shape, s, land) && n == |SlotBytes(file, f, s, land, branch)|
    ensures SlotBytes(file, f, s, land, branch) == old(SlotBytes(file, f, s, land, branch))
    ensures buf[..] == Splice(old(buf[..]), at, SlotBytes(file, f, s, land, branch))
    decreases land, 4
  {
    hide FieldBytes, EmitField, EmitBranch, TypedValue, Splice, Marshal, ValidFile;
    if Flat(f.shape) {
      CellParts(file, f.shape, s, land);
      n := PutLeaf(buf, at, file, f, s.v, branch);
    } else if f.shape.Optional? {
      BoxParts(file, f.shape, s, land);
      n := PutLeaf(buf, at, file, f, Opt(Unboxed(s.to)), branch);
    } else if f.shape.Nested? {
      n := 0;
      SpliceNothing(buf[..], at);
      PointerSlot(file, f, s, land, branch);
      hide SlotBytes;
      if s.to != null {
        var sz := s.to.SizeCodec(file);
        if branch || sz > 0 {
          n := PutSub(buf, at, file, f, s.to);
        }
      }
    } else {
      n := 0;
      SpliceNothing(buf[..], at);
      SliceSlot(file, f, s, land, branch);
      hide SlotBytes;
      if !branch {
        n := PutPlaces(buf, at, file, f, s, land);
      }
      SliceSlot(file, f, s, land, branch);
    }
  }

  method PutPlaces(buf: array<byte>, at: nat, file: File, f: Field, s: Slot, ghost land: set<Object>) returns (n: nat)
    requires ValidFile(file) && 1 <= f.num < MAX_FIELD_NUM && f.shape.NestedList? && SlotValid(file, f.shape, s, land)
    requires AbsSlot(file, f.shape, s, land).Subs?
    requires var w := SubRecords(file, f, f.shape.ref, AbsSlot(file, f.shape, s, land).ms, 0);
             |w| < MAX_LEN && at + |w| <= buf.Length
    modifies buf
    ensures SlotValid(file, f.shape, s, land) && AbsSlot(file, f.shape, s, land) == old(AbsSlot(file, f.shape, s, land))
    ensures var w := SubRecords(file, f, f.shape.ref, AbsSlot(file, f.shape, s, land).ms, 0);
            n == |w| && buf[..] == Splice(old(buf[..]), at, w)
    decreases land, 3
  {
    hide SlotValid, AbsSlot, SubRecord, TagBytes, ValidFile, Splice;
    SliceElements(file, f.shape, s, land);
    ghost var r, ms, was := f.shape.ref, AbsSlot(file, f.shape, s, land).ms, buf[..];
    ghost var total, done: bytes := SubRecords(file, f, r, ms, 0), [];
    SpliceNothing(was, at);
    n := 0;
    var k := 0;
    while k < s.len
      invariant 0 <= k <= s.len && |done| == n && done + SubRecords(file, f, r, ms, k) == total
      invariant SlotValid(file, f.shape, s, land) && AbsSlot(file, f.shape, s, land).Subs?
      invariant AbsSlot(file, f.shape, s, land).ms == ms && buf[..] == Splice(was, at, done)
    {
      SliceElements(file, f.shape, s, land);
      ghost var w := SubElement(file, f, r, ms[k]);
      Advance(total, done, w, SubRecords(file, f, r, ms, k + 1));
      SpliceSplice(was, at, done, w);
      if s.back[k] != null {
        PlaceParts(file, f.shape.ref, s.back, k, land);
        var c := PutSub(buf, at + n, file, f, s.back[k]);
        n := n + c;
      }
      assert w == [] ==> done + w == done;
      done := done + w;
      k := k + 1;
    }
    assert done + [] == done;
  }

  /** A tag, a size and a nested message; the size is computed once more when
      the nested message is written. */
  method PutSub(buf: array<byte>, at: nat, file: File, f: Field, o: Object) returns (n: nat)
    requires ValidFile(file) && 1 <= f.num < MAX_FIELD_NUM && o.Valid(file)
    requires var w := SubRecord(file, f, o.ref, o.Abs(file)); |w| < MAX_LEN && at + |w| <= buf.Length
    modifies buf
    ensures o.Valid(file) && o.Abs(file) == old(o.Abs(file)) && n == |SubRecord(file, f, o.ref, o.Abs(file))|
    ensures buf[..] == Splice(old(buf[..]), at, SubRecord(file, f, o.ref, o.Abs(file)))
    decreases o.owned, 2
  {
    hide Marshal, ValidFile, Splice, TagBytes;
    ghost var was, p := buf[..], Marshal(file, o.ref, o.Abs(file));
    var sz := o.SizeCodec(file);
    n := PutHeader(buf, at, f.num, sz);
    SpliceSplice(was, at, TagBytes(f.num, LEN_DELIMITED) + VarintBytes(sz), p);
    var c := o.MarshalCodecInternal(file, buf, at + n);
    n := n + c;
  }

  // ---------------------------------------------------------------- one case arm of the decoder

  /** The pointer of the field stays across decodes: to a scalar only when it is
      pooled. */
  predicate Keeps(file: File, ref: nat, k: nat) {
    !ShapeAt(file, ref, k).Optional? || Pooled(file, ref, k)
  }

  /** Objects in a backing array are used again, and so is what a pointer leads
      to that is kept. */
  predicate Reused(keep: bool, before: Slot, after: Slot) {
    match before
    case Cell(_) => after.Cell?
    case Pointer(to) => after.Pointer? && (keep && to != null ==> after == before)
    case Slice(back, len, _) =>
      && after.Slice? && |after.back| >= |back|
      && forall k | 0 <= k < |back| && back[k] != null :: after.back[k] == back[k]
  }

  /** A pointer leads somewhere; a slice has one element more, in the spare place
      when there is one. */
  predicate OneMore(before: Slot, after: Slot) {
    && (before.Pointer? ==> after.Pointer? && after.to != null)
    && (before.Slice? ==>
          after.Slice? && after.len == before.len + 1 && (before.len < |before.back| ==> |after.back| == |before.back|))
  }

  method DecodeSlot(file: File, shape: Shape, pooled: bool, s: Slot, ghost land: set<Object>,
          wire: nat, data: bytes, i: nat, slab: bytes, off: nat)
    returns (r: Result<nat>, t: Slot, ghost grown: set<Object>)
    requires ValidFile(file) && SlotValid(file, shape, s, land)
    requires i <= |data| && (UsesSlab(shape) ==> Slabbed(data, slab, off))
    modifies land
    ensures SlotValid(file, shape, t, grown) && fresh(grown - land) && Reused(!shape.Optional? || pooled, s, t)
    ensures match ReadDelta(file, shape, wire, data[i..])
            case Err(e) => r == Err(e)
            case Ok(x) => r == Ok(x.n) && OneMore(s, t)
                          && AbsSlot(file, shape, t, grown) == Update(file, shape, old(AbsSlot(file, shape, s, land)), x.v)
    decreases |data|, 5
  {
    hide Update, ReadDelta, ValidFile, Slabbed, SlotValid, AbsSlot;
    if Flat(shape) {
      grown := land;
      r, t := DecodeCell(file, shape, s, land, wire, data, i, slab, off);
    } else if shape.Optional? {
      r, t, grown := DecodeBox(file, shape, pooled, s, land, wire, data, i, slab, off);
    } else {
      r, t, grown := DecodeSub(file, shape, s, land, wire, data, i, slab, off);
    }
  }

  /** A scalar behind a pointer: written in place when the pointer is pooled and
      not nil, else into a new object. */
  method DecodeBox(file: File, shape: Shape, pooled: bool, s: Slot, ghost land: set<Object>,
          wire: nat, data: bytes, i: nat, slab: bytes, off: nat)
    returns (r: Result<nat>, t: Slot, ghost grown: set<Object>)
    requires ValidFile(file) && shape.Optional? && SlotValid(file, shape, s, land)
    requires i <= |data| && (UsesSlab(shape) ==> Slabbed(data, slab, off))
    modifies land
    ensures SlotValid(file, shape, t, grown) && fresh(grown - land) && Reused(pooled, s, t)
    ensures match ReadDelta(file, shape, wire, data[i..])
            case Err(e) => r == Err(e)
            case Ok(x) => r == Ok(x.n) && OneMore(s, t)
                          && AbsSlot(file, shape, t, grown) == Update(file, shape, old(AbsSlot(file, shape, s, land)), x.v)
    ensures r.Ok? && s.Pointer? && t.Pointer? && t.to != null && (!pooled || s.to == null) ==> fresh(t.to)
    decreases |data|, 4
  {
    hide ReadDelta, ValidFile, Slabbed, SlotValid, AbsSlot, Update, InKind;
    BoxParts(file, shape, s, land);
    var w := DecodeLeaf(file, shape, Opt(Unboxed(s.to)), wire, data, i, slab, off);
    if w.Err? {
      return Err(w.error), s, land;
    }
    DeltaReadFits(file, shape, wire, data[i..]);
    ScalarReceived(file, shape, Opt(Unboxed(s.to)), ReadDelta(file, shape, wire, data[i..]).value.v);
    var x := w.value.v.o.value;
    if pooled && s.to != null {
      s.to.slots := [Cell(Plain(x))];
      t, grown := s, land;
    } else {
      var box := new Object(0, [Cell(Plain(x))], [], [{}], {});
      t, grown := Pointer(box), land + {box};
    }
    BoxHolds(file, shape, t.to, grown);
    r := Ok(w.value.n);
  }

  lemma ScalarReceived(file: File, shape: Shape, v: Value, d: Delta)
    requires shape.Optional? && DeltaFits(file, shape, d, true)
    ensures d.One? && InKind(shape.k, d.s) && Update(file, shape, v, d) == Opt(Some(d.s))
  {
    hide InKind;
  }

  method DecodeSub(file: File, shape: Shape, s: Slot, ghost land: set<Object>,
          wire: nat, data: bytes, i: nat, slab: bytes, off: nat)
    returns (r: Result<nat>, t: Slot, ghost grown: set<Object>)
    requires ValidFile(file) && !Leaf(shape) && SlotValid(file, shape, s, land)
    requires i <= |data| && Slabbed(data, slab, off)
    modifies land
    ensures SlotValid(file, shape, t, grown) && fresh(grown - land) && Reused(true, s, t)
    ensures match ReadDelta(file, shape, wire, data[i..])
            case Err(e) => r == Err(e)
            case Ok(x) => r == Ok(x.n) && OneMore(s, t)
                          && AbsSlot(file, shape, t, grown) == Update(file, shape, old(AbsSlot(file, shape, s, land)), x.v)
    decreases |data|, 4
  {
    hide Update, ReadDelta, ReadPayload, ReadMessage, ValidFile, Slabbed, SlotValid, AbsSlot, Reused, OneMore;
    SubParts(file, shape, wire, data[i..]);
    SlotReused(s);
    var p := PayloadAt(wire, data, i);
    if p.Err? {
      return Err(p.error), s, land;
    }
    var payload := data[p.value.v..i + p.value.n];
    SlabCut(data, slab, off, p.value.v, i + p.value.n);
    var e: Option<Error>;
    if shape.Nested? {
      e, t, grown := FillPointer(file, shape, s, land, payload, slab, off + p.value.v);
    } else {
      e, t, grown := AppendElement(file, shape, s, land, payload, slab, off + p.value.v);
    }
    r := if e.Some? then Err(e.value) else Ok(p.value.n);
  }

  lemma SlotReused(s: Slot)
    ensures Reused(true, s, s)
  {
  }

  /** A nested message as a record: what its payload says and what that makes of
      the field. */
  lemma SubParts(file: File, shape: Shape, wire: nat, data: bytes)
    requires shape.Nested? || shape.NestedList?
    ensures ReadPayload(wire, data).Err? ==> ReadDelta(file, shape, wire, data) == Err(ReadPayload(wire, data).error)
    ensures ReadPayload(wire, data).Ok? ==>
              var p := ReadPayload(wire, data).value;
              match ReadMessage(file, shape.ref, p.v)
              case Err(e) => ReadDelta(file, shape, wire, data) == Err(e)
              case Ok(recs) => ReadDelta(file, shape, wire, data) == Ok(Read(Tree(recs), p.n))
  {
    hide ReadPayload;
  }

  /** The pointer that is there is used, else a new object. */
  method FillPointer(file: File, shape: Shape, s: Slot, ghost land: set<Object>, data: bytes, slab: bytes, off: nat)
    returns (e: Option<Error>, t: Slot, ghost grown: set<Object>)
    requires ValidFile(file) && shape.Nested? && SlotValid(file, shape, s, land) && Slabbed(data, slab, off)
    modifies land
    ensures SlotValid(file, shape, t, grown) && fresh(grown - land) && Reused(true, s, t) && OneMore(s, t)
    ensures match ReadMessage(file, shape.ref, data)
            case Err(error) => e == Some(error)
            case Ok(recs) =>
              e == None && AbsSlot(file, shape, t, grown) == Update(file, shape, old(AbsSlot(file, shape, s, land)), Tree(recs))
    ensures s.Pointer? && t.Pointer? && t.to != null && s.to == null ==> fresh(t.to)
    decreases |data|, 10
  {
    hide ReadMessage, ValidFile, Slabbed, SlotValid, AbsSlot, Decode, Fresh, Recycled;
    PointerParts(file, shape, s, land);
    var o := s.to;
    if o == null {
      o := New(file, shape.ref);
    }
    SelfOwned(file, o);
    ghost var was := o.Abs(file);
    e := o.UnmarshalCodecInternal(file, data, slab, off);
    SelfOwned(file, o);
    t, grown := Pointer(o), land + o.owned;
    PointerHolds(file, shape, o, grown);
  }

  /** A further element, decoded in place. */
  method AppendElement(file: File, shape: Shape, s: Slot, ghost land: set<Object>, data: bytes, slab: bytes, off: nat)
    returns (e: Option<Error>, t: Slot, ghost grown: set<Object>)
    requires ValidFile(file) && shape.NestedList? && SlotValid(file, shape, s, land) && Slabbed(data, slab, off)
    modifies land
    ensures SlotValid(file, shape, t, grown) && fresh(grown - land) && Reused(true, s, t) && OneMore(s, t)
    ensures match ReadMessage(file, shape.ref, data)
            case Err(error) => e == Some(error)
            case Ok(recs) =>
              e == None && AbsSlot(file, shape, t, grown) == Update(file, shape, old(AbsSlot(file, shape, s, land)), Tree(recs))
    decreases |data|, 11
  {
    hide ReadMessage, ValidFile, Slabbed, SlotValid, AbsSlot, Decode, Next, Update, SliceOf;
    SliceParts(file, shape, s, land);
    ghost var ps := Places(file, shape.ref, s.back, land);
    var back: seq<Object?>;
    back, grown := TakePlace(file, shape.ref, s.back, s.len, land);
    e, grown := DecodePlace(file, shape.ref, back, s.len, grown, data, slab, off);
    t := Slice(back, s.len + 1, false);
    SliceHolds(file, shape, t, grown);
    if ReadMessage(file, shape.ref, data).Ok? {
      SliceAppended(file, shape, ps, Places(file, shape.ref, back, grown), s.len, ReadMessage(file, shape.ref, data).value);
    }
  }

  /** The place behind the last has become an element. */
  lemma SliceAppended(file: File, shape: Shape, ps: seq<Option<Msg>>, qs: seq<Option<Msg>>, len: nat, recs: seq<Rec>)
    requires shape.NestedList? && len <= |ps| && len < |qs|
    requires qs[len] == Some(Decode(file, shape.ref, Next(file, shape.ref, SliceOf(ps, len)), recs))
    requires |ps| <= |qs| && forall k | 0 <= k < |qs| && k != len :: qs[k] == if k < |ps| then ps[k] else None
    ensures SliceOf(qs, len + 1) == Update(file, shape, SliceOf(ps, len), Tree(recs))
  {
    hide Decode, Fresh;
    var v := SliceOf(ps, len);
    var x, y := SliceOf(qs, len + 1), Update(file, shape, v, Tree(recs));
    assert x.ms == y.ms && x.spare == y.spare;
  }

  /** The next place of a slice: the object in spare capacity, or a new one, in
      a larger array when there is no place left. */
  method TakePlace(file: File, r: nat, was: seq<Object?>, len: nat, ghost land: set<Object>)
    returns (back: seq<Object?>, ghost grown: set<Object>)
    requires ValidFile(file) && PlacesValid(file, r, was, land) && len <= |was| && QuietWithin(file, r, was, len, |was|)
    ensures fresh(grown - land) && PlacesValid(file, r, back, grown)
    ensures len < |back| && |was| <= |back| && (len < |was| ==> |back| == |was|)
    ensures forall k | 0 <= k < |was| && was[k] != null :: back[k] == was[k]
    ensures back[..len] == was[..len] && back[len] != null
    ensures QuietWithin(file, r, back, len, |back|)
    ensures var ps, qs := Places(file, r, was, land), Places(file, r, back, grown);
            && qs[len] == Some(Next(file, r, SliceOf(ps, len)))
            && forall k | 0 <= k < |qs| && k != len :: qs[k] == if k < |ps| then ps[k] else None
  {
    hide ValidFile, Fresh, ShadowOf;
    back, grown := was, land;
    if len == |was| || was[len] == null {
      var o := New(file, r);
      FreshQuiet(file, r);
      SelfOwned(file, o);
      grown := land + o.owned;
      var spare: nat := *;
      back := if len == |was| then was + [o] + Nulls(spare) else was[len := o];
      PlaceTaken(file, r, was, len, land, back, o);
    }
  }

  lemma PlaceTaken(file: File, r: nat, was: seq<Object?>, len: nat, land: set<Object>, back: seq<Object?>, o: Object)
    requires PlacesValid(file, r, was, land) && len <= |was| <= |back| && QuietWithin(file, r, was, len, |was|)
    requires o.Valid(file) && o.ref == r && o in o.owned && o.owned !! land && ShadowOf(file, r, o.Abs(file)) == Quiet
    requires len < |back| && back[len] == o
    requires forall k | 0 <= k < |back| && k != len :: back[k] == if k < |was| then was[k] else null
    ensures PlacesValid(file, r, back, land + o.owned) && QuietWithin(file, r, back, len, |back|)
  {
    forall k | 0 <= k < |back| && k != len && back[k] != null
      ensures PtrValid(file, r, back[k], land + o.owned) && back[k].owned <= land
    {
      assert PtrValid(file, r, was[k], land);
    }
  }

  /** An element is decoded into what the object in its place held after the
      reset. */
  method DecodePlace(file: File, r: nat, back: seq<Object?>, k: nat, ghost land: set<Object>, data: bytes, slab: bytes, off: nat)
    returns (e: Option<Error>, ghost grown: set<Object>)
    requires ValidFile(file) && PlacesValid(file, r, back, land) && k < |back| && back[k] != null
    requires QuietWithin(file, r, back, k, |back|) && Slabbed(data, slab, off)
    modifies land
    ensures fresh(grown - land) && PlacesValid(file, r, back, grown) && QuietWithin(file, r, back, k + 1, |back|)
    ensures forall j | 0 <= j < |back| && j != k :: Places(file, r, back, grown)[j] == old(Places(file, r, back, land)[j])
    ensures match ReadMessage(file, r, data)
            case Err(error) => e == Some(error)
            case Ok(recs) =>
              e == None && Places(file, r, back, grown)[k] == Some(Decode(file, r, old(Places(file, r, back, land)[k]).value, recs))
    decreases |data|, 10
  {
    hide ReadMessage, ValidFile, Slabbed, Decode, Fresh, ShadowOf, Recycled;
    label Before:
    PlaceParts(file, r, back, k, land);
    e := back[k].UnmarshalCodecInternal(file, data, slab, off);
    grown := land + back[k].owned;
    SelfOwned(file, back[k]);
    PlaceChanged@Before(file, r, back, k, land);
  }

  lemma SelfOwned(file: File, o: Object)
    requires o.Valid(file)
    ensures o in o.owned
  {
  }

  method DecodeCell(file: File, shape: Shape, s: Slot, ghost land: set<Object>,
          wire: nat, data: bytes, i: nat, slab: bytes, off: nat)
    returns (r: Result<nat>, t: Slot)
    requires ValidFile(file) && Flat(shape) && SlotValid(file, shape, s, land)
    requires i <= |data| && (UsesSlab(shape) ==> Slabbed(data, slab, off))
    ensures SlotValid(file, shape, t, land) && t.Cell? && s.Cell?
    ensures match ReadDelta(file, shape, wire, data[i..])
            case Err(e) => r == Err(e)
            case Ok(x) => r == Ok(x.n) && AbsSlot(file, shape, t, land) == Update(file, shape, AbsSlot(file, shape, s, land), x.v)
  {
    hide Update, ReadDelta, TypedValue, ValidFile, DeltaFits, Slabbed, SlotValid, AbsSlot;
    CellParts(file, shape, s, land);
    var w := DecodeLeaf(file, shape, s.v, wire, data, i, slab, off);
    if w.Err? {
      return Err(w.error), s;
    }
    DeltaReadFits(file, shape, wire, data[i..]);
    UpdateTyped(file, shape, s.v, ReadDelta(file, shape, wire, data[i..]).value.v);
    CellHolds(file, shape, w.value.v, land);
    return Ok(w.value.n), Cell(w.value.v);
  }

  // ---------------------------------------------------------------- the main loop

  /** A record changes the slot of its own field only. */
  predicate SlotsAfter(file: File, ref: nat, before: seq<Slot>, after: seq<Slot>, x: Rec) {
    && |after| == |before|
    && forall k | 0 <= k < |before| ::
         if x.Known? && x.idx == k then Reused(Keeps(file, ref, k), before[k], after[k]) && OneMore(before[k], after[k])
         else after[k] == before[k]
  }

  predicate SeenAfter(file: File, ref: nat, before: Bitmap.bitmap, after: Bitmap.bitmap, x: Rec) {
    forall k | 0 <= k < |Fields(file, ref)| && Pooled(file, ref, k) ::
      Bitmap.Marked(after, Fields(file, ref)[k].num) <==>
      Bitmap.Marked(before, Fields(file, ref)[k].num) || (x.Known? && x.idx == k)
  }

  lemma UnknownSeen(file: File, ref: nat, seen: Bitmap.bitmap)
    ensures SeenAfter(file, ref, seen, seen, Unknown)
  {
  }

  lemma MarkedAsSeen(file: File, ref: nat, k: nat, seen: Bitmap.bitmap, d: Delta)
    requires ValidFile(file) && k < |Fields(file, ref)|
    ensures SeenAfter(file, ref, seen, if Pooled(file, ref, k) then Bitmap.Mark(seen, Fields(file, ref)[k].num) else seen, Known(k, d))
  {
    hide Bitmap.Marked, Bitmap.Mark, Supported;
    var fields := Fields(file, ref);
    assert ValidInfo(ref, file[ref]);
    forall q | 0 <= q < |fields| && Pooled(file, ref, q)
      ensures Pooled(file, ref, k) ==>
                (Bitmap.Marked(Bitmap.Mark(seen, fields[k].num), fields[q].num) <==> Bitmap.Marked(seen, fields[q].num) || q == k)
    {
      Bitmap.MarkMarks(seen, fields[k].num, fields[q].num);
      assert q < k ==> fields[q].num != fields[k].num;
      assert k < q ==> fields[k].num != fields[q].num;
    }
  }

  function Presized(s: Slot, data: bytes, num: nat): Slot {
    if s.Slice? && s.none && Count(data, num) > 0 then Slice(Nulls(Count(data, num)), 0, false) else s
  }

  lemma NilSliceParts(file: File, shape: Shape, s: Slot, land: set<Object>)
    requires SlotValid(file, shape, s, land) && s.Slice? && s.none
    ensures shape.NestedList? && AbsSlot(file, shape, s, land) == Subs([], map[])
  {
    assert shape.NestedList?;
    hide SlotValid, AbsSlot;
    SliceParts(file, shape, s, land);
    assert AbsSlot(file, shape, s, land).ms == [] && AbsSlot(file, shape, s, land).spare == map[];
  }

  lemma NilHolds(file: File, shape: Shape, ref: nat, k: nat, land: set<Object>)
    requires shape == ShapeAt(file, ref, k) && Pooled(file, ref, k)
    ensures SlotValid(file, shape, Pointer(null), land) && AbsSlot(file, shape, Pointer(null), land) == Nil(shape)
  {
    hide SlotValid, AbsSlot, Pooling;
    if shape.Nested? {
      PointerHolds(file, shape, null, land);
    } else {
      BoxHolds(file, shape, null, land);
    }
  }

  /** The records read so far, and the rest still to come. */
  ghost predicate Following(all: Result<seq<Rec>>, rest: Result<seq<Rec>>, done: seq<Rec>) {
    match rest
    case Err(e) => all == Err(e)
    case Ok(rs) => all == Ok(done + rs)
  }

  /** The bitmap holds the pooled fields that had a record. */
  ghost predicate SeenAll(file: File, ref: nat, seen: Bitmap.bitmap, recs: seq<Rec>) {
    forall k | 0 <= k < |Fields(file, ref)| && Pooled(file, ref, k) ::
      Bitmap.Marked(seen, Fields(file, ref)[k].num) <==> Deltas(recs, k) != []
  }

  /** A pointer is not touched before there is a record of its field; a slice
      grows by one for each, and its array only when it has to. */
  ghost predicate SlotsGrown(file: File, ref: nat, before: seq<Slot>, after: seq<Slot>, recs: seq<Rec>) {
    && |after| == |before|
    && forall k | 0 <= k < |before| :: Grown(Keeps(file, ref, k), before[k], after[k], |Deltas(recs, k)|)
  }

  predicate Grown(keep: bool, before: Slot, after: Slot, n: nat) {
    && Reused(keep, before, after)
    && (before.Pointer? ==> if n == 0 then after == before else after.to != null)
    && (before.Slice? ==>
          && after.len == before.len + n
          && (after.len <= |before.back| ==> |after.back| == |before.back|))
  }

  lemma NoRecordYet(file: File, ref: nat, all: Result<seq<Rec>>, start: Msg, before: seq<Slot>)
    ensures Following(all, all, []) && ApplyAll(file, ref, start, []) == start
    ensures SeenAll(file, ref, 0, []) && SlotsGrown(file, ref, before, before, [])
  {
    hide Bitmap.Marked;
    if all.Ok? {
      assert [] + all.value == all.value;
    }
    forall k: nat
      ensures !Bitmap.Marked(0, k)
    {
      Bitmap.NothingMarked(k);
    }
  }

  lemma RecordAhead(file: File, ref: nat, data: bytes, i: nat, all: Result<seq<Rec>>, done: seq<Rec>)
    requires i < |data| && Following(all, ReadMessage(file, ref, data[i..]), done)
    ensures match ReadRecord(file, ref, data[i..])
            case Err(e) => all == Err(e)
            case Ok(x) => Following(all, ReadMessage(file, ref, data[i + x.n..]), done + [x.v])
  {
    hide ReadRecord;
    var x := ReadRecord(file, ref, data[i..]);
    if x.Ok? {
      assert data[i..][x.value.n..] == data[i + x.value.n..];
      var rest := ReadMessage(file, ref, data[i + x.value.n..]);
      if rest.Ok? {
        assert done + ([x.value.v] + rest.value) == done + [x.value.v] + rest.value;
      }
    }
  }

  lemma NothingAhead(file: File, ref: nat, rest: bytes, all: Result<seq<Rec>>, done: seq<Rec>)
    requires rest == [] && Following(all, ReadMessage(file, ref, rest), done)
    ensures all == Ok(done)
  {
    assert done + [] == done;
  }

  lemma ApplyNext(file: File, ref: nat, start: Msg, recs: seq<Rec>, x: Rec)
    ensures ApplyAll(file, ref, start, recs + [x]) == Apply(file, ref, ApplyAll(file, ref, start, recs), x)
  {
    hide Apply;
    ApplyConcat(file, ref, start, recs, [x]);
    assert [x][1..] == [];
  }

  lemma SeenNext(file: File, ref: nat, before: Bitmap.bitmap, after: Bitmap.bitmap, recs: seq<Rec>, x: Rec)
    requires SeenAll(file, ref, before, recs) && SeenAfter(file, ref, before, after, x)
    ensures SeenAll(file, ref, after, recs + [x])
  {
    hide Bitmap.Marked, Pooled, Deltas;
    forall k | 0 <= k < |Fields(file, ref)| && Pooled(file, ref, k)
      ensures Bitmap.Marked(after, Fields(file, ref)[k].num) <==> Deltas(recs + [x], k) != []
    {
      DeltasConcat(recs, [x], k);
      OneRecord(x, k);
    }
  }

  lemma GrownNext(file: File, ref: nat, a: seq<Slot>, b: seq<Slot>, c: seq<Slot>, recs: seq<Rec>, x: Rec)
    requires SlotsGrown(file, ref, a, b, recs) && SlotsAfter(file, ref, b, c, x)
    ensures SlotsGrown(file, ref, a, c, recs + [x])
  {
    hide Deltas, Grown, Reused, OneMore, Keeps;
    forall k | 0 <= k < |a|
      ensures Grown(Keeps(file, ref, k), a[k], c[k], |Deltas(recs + [x], k)|)
    {
      DeltasConcat(recs, [x], k);
      OneRecord(x, k);
      if x.Known? && x.idx == k {
        GrownOnce(Keeps(file, ref, k), a[k], b[k], c[k], |Deltas(recs, k)|);
      }
    }
  }

  lemma GrownOnce(keep: bool, a: Slot, b: Slot, c: Slot, n: nat)
    requires Grown(keep, a, b, n) && Reused(keep, b, c) && OneMore(b, c)
    ensures Grown(keep, a, c, n + 1)
  {
    if a.Slice? {
      forall k | 0 <= k < |a.back| && a.back[k] != null
        ensures c.back[k] == a.back[k]
      {
        assert b.back[k] == a.back[k];
      }
    }
  }

  /** What a decode keeps of the slots: a pooled pointer is nil afterwards
      exactly when its field was absent, and else the pointer it was; slices keep
      their arrays as long as the elements fit, and a nil slice has room for what
      the pre-scan counted. */
  ghost predicate Recycled(file: File, ref: nat, before: seq<Slot>, after: seq<Slot>, data: bytes, recs: seq<Rec>) {
    && |after| == |before| == |Fields(file, ref)|
    && forall k | 0 <= k < |before| ::
         SlotRecycled(Keeps(file, ref, k), Pooled(file, ref, k), before[k], after[k],
                      |Deltas(recs, k)|, Count(data, Fields(file, ref)[k].num))
  }

  predicate SlotRecycled(keep: bool, pooled: bool, before: Slot, after: Slot, n: nat, counted: nat) {
    match before
    case Cell(_) => after.Cell?
    case Pointer(to) =>
      && after.Pointer?
      && if n == 0 then after == if keep && !pooled then before else Pointer(null)
         else after.to != null && (keep && to != null ==> after == before)
    case Slice(back, _, none) =>
      && after.Slice? && after.len == n && |after.back| >= |back|
      && (forall k | 0 <= k < |back| && back[k] != null :: after.back[k] == back[k])
      && var room := if none then counted else |back|; n <= room ==> |after.back| == room
  }

  /** Slots are of the kind their fields ask for, and nil slices have no array. */
  predicate SlotsFit(file: File, ref: nat, slots: seq<Slot>) {
    && |slots| == |Fields(file, ref)|
    && forall k | 0 <= k < |slots| ::
         match ShapeAt(file, ref, k)
         case Nested(_, _) => slots[k].Pointer?
         case Optional(_) => slots[k].Pointer?
         case NestedList(_, _) => slots[k].Slice? && (slots[k].none ==> slots[k].back == [])
         case _ => slots[k].Cell?
  }

  lemma ValidSlotsFit(file: File, o: Object)
    requires o.Valid(file)
    ensures SlotsFit(file, o.ref, o.slots)
  {
    hide AbsSlot, InKind;
    forall k | 0 <= k < |o.slots|
      ensures SlotValid(file, ShapeAt(file, o.ref, k), o.slots[k], o.lands[k])
    {
      AbsAt(file, o, k);
    }
  }

  lemma RecycledAtLast(file: File, ref: nat, s0: seq<Slot>, s1: seq<Slot>, s2: seq<Slot>, s3: seq<Slot>, s4: seq<Slot>,
          data: bytes, recs: seq<Rec>)
    requires |s0| == |s1| == |s2| == |s3| == |s4| == |Fields(file, ref)|
    requires forall k | 0 <= k < |s0| :: Begun(file, ref, k, s0[k], s1[k])
    requires forall k | 0 <= k < |s0| :: s2[k] == Presized(s1[k], data, Fields(file, ref)[k].num)
    requires SlotsGrown(file, ref, s2, s3, recs)
    requires forall k | 0 <= k < |s0| ::
               s4[k] == if Pooled(file, ref, k) && Deltas(recs, k) == [] then Pointer(null) else s3[k]
    requires SlotsFit(file, ref, s0)
    ensures Recycled(file, ref, s0, s4, data, recs)
  {
    hide Kept, Presized, Grown, SlotRecycled, Pooling, Deltas;
    forall k | 0 <= k < |s0|
      ensures SlotRecycled(Keeps(file, ref, k), Pooled(file, ref, k), s0[k], s4[k],
                           |Deltas(recs, k)|, Count(data, Fields(file, ref)[k].num))
    {
      SlotRecycledAtLast(ShapeAt(file, ref, k), Pooled(file, ref, k), s0[k], s1[k], s3[k], s4[k],
                         |Deltas(recs, k)|, data, Fields(file, ref)[k].num);
    }
  }

  lemma SlotRecycledAtLast(shape: Shape, pooled: bool, s0: Slot, s1: Slot, s3: Slot, s4: Slot, n: nat, data: bytes, num: nat)
    requires if pooled then s1 == s0 else Kept(shape, s0, s1)
    requires Grown(!shape.Optional? || pooled, Presized(s1, data, num), s3, n)
    requires s4 == if pooled && n == 0 then Pointer(null) else s3
    requires pooled ==> s0.Pointer?
    requires s0.Slice? && s0.none ==> s0.back == []
    ensures SlotRecycled(!shape.Optional? || pooled, pooled, s0, s4, n, Count(data, num))
  {
    hide Count;
  }

  /** Pointers in terms of the numbers of a message: when the bitmap holds those of
      all pointers, a pointer is nil exactly when its field was not received, and
      else the one that was there, if any; otherwise an absent message stays. */
  lemma PointerAfter(file: File, ref: nat, before: seq<Slot>, after: seq<Slot>, data: bytes, recs: seq<Rec>, k: nat)
    requires Recycled(file, ref, before, after, data, recs)
    requires k < |before| && before[k].Pointer? && HeldByPointer(ShapeAt(file, ref, k))
    ensures after[k].Pointer?
    ensures var held := forall j | 0 <= j < |Fields(file, ref)| && HeldByPointer(Fields(file, ref)[j].shape) ::
                          Fields(file, ref)[j].num <= 63;
            if Received(recs, k) then
              && after[k].to != null
              && (before[k].to != null && (held || ShapeAt(file, ref, k).Nested?) ==> after[k].to == before[k].to)
            else after[k].to == if held || ShapeAt(file, ref, k).Optional? then null else before[k].to
  {
    hide Deltas, Received, Count;
    ReceivedIff(recs, k);
    assert SlotRecycled(Keeps(file, ref, k), Pooled(file, ref, k), before[k], after[k],
                        |Deltas(recs, k)|, Count(data, Fields(file, ref)[k].num));
  }

  /** Where every packed run ends where it says a nil slice ends with its capacity
      equal to its length: the array was never grown. */
  lemma NilSliceFits(file: File, ref: nat, before: seq<Slot>, after: seq<Slot>, data: bytes, k: nat)
    requires ValidFile(file) && ReadMessage(file, ref, data).Ok? && RunsTight(file, ref, data)
    requires Recycled(file, ref, before, after, data, ReadMessage(file, ref, data).value)
    requires k < |before| && ShapeAt(file, ref, k).NestedList? && before[k].Slice? && before[k].none
    ensures after[k].Slice? && |after[k].back| == after[k].len
  {
    hide Supported, OneofsAgree, ReadMessage, RunsTight;
    assert ValidInfo(ref, file[ref]);
    CountIsExact(file, ref, data, k);
  }

  // ---------------------------------------------------------------- the public methods

  /** UnmarshalCodec: one slab for the whole tree, or none where no string can
      be read. Into a receiver whose discriminators are 0 it writes as a decode
      into a new object does, and into one that is forgotten it shows the same. */
  method UnmarshalCodec(file: File, o: Object, data: bytes) returns (e: Option<Error>)
    requires ValidFile(file) && o.Valid(file)
    modifies o.owned
    ensures o.Valid(file) && fresh(o.owned - old(o.owned))
    ensures match ReadMessage(file, o.ref, data)
            case Err(error) => e == Some(error)
            case Ok(recs) =>
              && e == None
              && o.Abs(file) == Decode(file, o.ref, old(o.Abs(file)), recs)
              && (ShadowOf(file, o.ref, old(o.Abs(file))) == Quiet ==>
                    Alike(file, o.ref, o.Abs(file), Decode(file, o.ref, Fresh(file, o.ref), recs)))
              && (Forgotten(file, o.ref, old(o.Abs(file))) ==>
                    Visible(o.Abs(file)) == Visible(Decode(file, o.ref, Fresh(file, o.ref), recs)))
              && Recycled(file, o.ref, old(o.slots), o.slots, data, recs)
  {
    hide ReadMessage, ValidFile, Decode, Fresh, Alike, Recycled, ShadowOf, Forgotten, RecsFit, Typed, Visible;
    ghost var was := o.Abs(file);
    AbsTyped(file, o);
    var slab := if NeedsSlab(Fields(file, o.ref)) then data else [];
    e := o.UnmarshalCodecInternal(file, data, slab, 0);
    if ReadMessage(file, o.ref, data).Ok? {
      ReadFits(file, o.ref, data);
      QuietReceiver(file, o.ref, was, ReadMessage(file, o.ref, data).value);
    }
  }

  /** MarshalCodec. */
  method MarshalCodec(file: File, o: Object?) returns (b: bytes)
    requires ValidFile(file) && (o != null ==> o.Valid(file) && |Marshal(file, o.ref, o.Abs(file))| < MAX_LEN)
    ensures b == if o == null then [] else Marshal(file, o.ref, o.Abs(file))
  {
    hide ValidFile, Marshal, Splice;
    if o == null {
      return [];
    }
    var size := o.SizeCodec(file);
    if size == 0 {
      return [];
    }
    var buf := new byte[size];
    ghost var was := buf[..];
    var n := o.MarshalCodecInternal(file, buf, 0);
    SpliceAll(was, Marshal(file, o.ref, o.Abs(file)));
    return buf[..n];
  }

  /** MarshalToCodec: refuses a buffer that is too short, and leaves what lies
      behind the message alone. */
  method MarshalToCodec(file: File, o: Object?, buf: array<byte>) returns (r: Result<nat>)
    requires ValidFile(file) && (o != null ==> o.Valid(file) && |Marshal(file, o.ref, o.Abs(file))| < MAX_LEN)
    modifies buf
    ensures o != null ==> o.Valid(file) && o.Abs(file) == old(o.Abs(file))
    ensures var w := if o == null then [] else Marshal(file, o.ref, o.Abs(file));
            if |w| <= buf.Length then r == Ok(|w|) && buf[..] == Splice(old(buf[..]), 0, w)
            else r == Err(BufferTooShort) && buf[..] == old(buf[..])
  {
    hide ValidFile, Marshal, Splice;
    if o == null {
      SpliceNothing(buf[..], 0);
      return Ok(0);
    }
    var size := o.SizeCodec(file);
    if buf.Length < size {
      return Err(BufferTooShort);
    }
    var n := o.MarshalCodecInternal(file, buf, 0);
    return Ok(n);
  }
}
