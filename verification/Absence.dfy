// What a field that is not written means: the same as an explicit zero, in a
// message and in a map entry.

module Absence {
  import opened Base
  import opened Wire
  import opened Wkt
  import opened Schema
  import opened Records
  import opened Values
  import opened Encoder
  import opened Decoder
  import opened RoundTrip
  import opened Format

  // ---------------------------------------------------------------- zeros on the wire

  function ZeroRun(n: nat): (s: bytes)
    ensures |s| == n && forall j | 0 <= j < n :: s[j] == 0
  {
    seq(n, j => 0)
  }

  /** A zero after its tag: the varint 0, a word of zeros, the empty string, or
      as many zeros as the field has bytes. */
  function ZeroBytes(k: Kind): bytes {
    if k.FixedBytes? then VarintBytes(k.len) + ZeroRun(k.len)
    else ZeroRun(if EightBytes(k) then 8 else if FourBytes(k) then 4 else 1)
  }

  lemma {:induction false} ZeroWord(w: nat)
    ensures LittleEndian(0, w) == ZeroRun(w)
  {
    if w > 0 {
      ZeroWord(w - 1);
    }
  }

  lemma DefaultBytes(k: Kind)
    ensures ScalarBytes(k, Default(k)) == ZeroBytes(k)
  {
    ZeroWord(4);
    ZeroWord(8);
    assert VarintBytes(0) == ZeroRun(1);
    if WireTypeOf(k) != 2 {
      NumberFormat(k, 0);
    } else if k.FixedBytes? {
      assert Default(k) == Text(ZeroRun(k.len));
    }
  }

  /** An explicit zero is read as the zero value, whatever follows. */
  lemma ZeroMeansDefault(k: Kind, suffix: bytes)
    requires |ZeroBytes(k)| < MAX_LEN
    ensures ReadScalar(k, ZeroBytes(k) + suffix) == Ok(Read(Default(k), |ZeroBytes(k)|))
  {
    hide Default, ZeroBytes, ScalarBytes, ReadScalar;
    DefaultBytes(k);
    ScalarRoundTrip(k, Default(k), suffix);
  }

  /** A singular scalar is left out exactly when it would be written as zeros. */
  lemma OmittedIff(file: File, k: Kind, s: Scalar)
    requires InKind(k, s) && |ScalarBytes(k, s)| < MAX_LEN
    ensures EmitField(file, Singular(k), Plain(s)) == [] <==> ScalarBytes(k, s) == ZeroBytes(k)
  {
    hide Default, ZeroBytes, ScalarBytes, ReadScalar, InKind;
    DefaultBytes(k);
    if ScalarBytes(k, s) == ZeroBytes(k) {
      ScalarRoundTrip(k, s, []);
      ScalarRoundTrip(k, Default(k), []);
    }
  }

  // ---------------------------------------------------------------- messages

  /** Fields without a pointer, outside every oneof. */
  predicate HeldDirectly(file: File, ref: nat, i: nat) {
    && i < |Fields(file, ref)| && Fields(file, ref)[i].oneof == None
    && var shape := Fields(file, ref)[i].shape; shape.Singular? || shape.Timestamp? || shape.Duration?
  }

  /** A zero of a field under its tag; an empty body for the well-known types. */
  function ZeroField(f: Field): bytes {
    TagBytes(f.num, WireOfShape(f.shape)) + if f.shape.Singular? then ZeroBytes(f.shape.k) else [0]
  }

  function ZeroDelta(shape: Shape): Delta {
    if shape.Singular? then One(Default(shape.k)) else Body(Stamp(0, 0))
  }

  lemma ZeroFieldRead(file: File, ref: nat, i: nat, suffix: bytes)
    requires ValidFile(file) && HeldDirectly(file, ref, i) && |ZeroField(Fields(file, ref)[i])| < MAX_LEN
    ensures var w := ZeroField(Fields(file, ref)[i]);
            && w != []
            && ReadRecord(file, ref, w + suffix) == Ok(Read(Known(i, ZeroDelta(Fields(file, ref)[i].shape)), |w|))
  {
    hide Default, ZeroBytes, ScalarBytes, ReadRecord, InKind, TagBytes, ValidFile;
    var shape := Fields(file, ref)[i].shape;
    if shape.Singular? {
      DefaultBytes(shape.k);
    }
    var r := Known(i, ZeroDelta(shape));
    assert DeltaBytes(file, shape, ZeroDelta(shape)) == if shape.Singular? then ZeroBytes(shape.k) else [0] by {
      assert Framed([]) == [0];
    }
    assert RecordBytes(file, ref, r) == ZeroField(Fields(file, ref)[i]);
    RecordRoundTrip(file, ref, r, suffix);
  }

  /** Such a record first changes nothing of a receiver that was just reset. */
  lemma ZeroApplied(file: File, ref: nat, recv: Msg, i: nat)
    requires HeldDirectly(file, ref, i) && |recv.vals| == |Fields(file, ref)|
    ensures var st := Start(file, ref, recv); Apply(file, ref, st, Known(i, ZeroDelta(Fields(file, ref)[i].shape))) == st
  {
    hide Default, Pooling;
    var st := Start(file, ref, recv);
    var shape := Fields(file, ref)[i].shape;
    assert st.vals[i] == ResetValue(file, shape, recv.vals[i]);
    assert Update(file, shape, st.vals[i], ZeroDelta(shape)) == st.vals[i];
    assert st.vals[i := st.vals[i]] == st.vals;
  }

  lemma ZeroDecoded(file: File, ref: nat, recv: Msg, i: nat, recs: seq<Rec>)
    requires HeldDirectly(file, ref, i) && |recv.vals| == |Fields(file, ref)|
    ensures Decode(file, ref, recv, [Known(i, ZeroDelta(Fields(file, ref)[i].shape))] + recs) == Decode(file, ref, recv, recs)
  {
    hide Start, Apply, Pooling;
    var r := Known(i, ZeroDelta(Fields(file, ref)[i].shape));
    var st := Start(file, ref, recv);
    ZeroApplied(file, ref, recv, i);
    assert ([r] + recs)[1..] == recs;
    assert !Pooled(file, ref, i);
    var end := ApplyAll(file, ref, st, recs);
    forall k | 0 <= k < |end.vals|
      ensures Pooled(file, ref, k) ==> Deltas([r] + recs, k) == Deltas(recs, k)
    {
    }
    assert Finish(file, ref, end, [r] + recs).vals == Finish(file, ref, end, recs).vals;
  }

  /** An explicit zero in front of any data changes nothing: the receiver ends
      up, or fails, as it would without. */
  lemma ExplicitZero(file: File, ref: nat, recv: Msg, i: nat, data: bytes)
    requires ValidFile(file) && HeldDirectly(file, ref, i) && |recv.vals| == |Fields(file, ref)|
    requires |ZeroField(Fields(file, ref)[i])| < MAX_LEN
    ensures Unmarshal(file, ref, recv, ZeroField(Fields(file, ref)[i]) + data) == Unmarshal(file, ref, recv, data)
  {
    hide ValidFile, ReadMessage, ReadRecord, Decode, ZeroField, ZeroDelta;
    var w := ZeroField(Fields(file, ref)[i]);
    ZeroFieldRead(file, ref, i, data);
    ReadMessageStep(file, ref, w, data, Known(i, ZeroDelta(Fields(file, ref)[i].shape)));
    if ReadMessage(file, ref, data).Ok? {
      ZeroDecoded(file, ref, recv, i, ReadMessage(file, ref, data).value);
    }
  }

  /** So a new object holds what explicit zeros say. */
  lemma NewHoldsZeros(file: File, ref: nat, i: nat)
    requires ValidFile(file) && HeldDirectly(file, ref, i) && |ZeroField(Fields(file, ref)[i])| < MAX_LEN
    ensures Unmarshal(file, ref, Fresh(file, ref), ZeroField(Fields(file, ref)[i])) == Ok(Fresh(file, ref))
  {
    hide ValidFile, ReadRecord, Decode, ZeroField, FreshValue;
    var w := ZeroField(Fields(file, ref)[i]);
    FreshAt(file, ref, i);
    ExplicitZero(file, ref, Fresh(file, ref), i, []);
    assert w + [] == w;
    NothingDecoded(file, ref);
  }

  // ---------------------------------------------------------------- map entries

  /** A zero key or value in front of an entry changes nothing: a part that is
      missing is zero. */
  lemma ExplicitZeroInEntry(file: File, kk: Kind, vk: Kind, num: nat, p: bytes)
    requires 1 <= num <= 2
    requires |ZeroBytes(if num == 1 then kk else vk)| < MAX_LEN
    ensures var k := if num == 1 then kk else vk;
            ReadFramed(file, Map(kk, vk), [8 * num + WireTypeOf(k)] + ZeroBytes(k) + p) == ReadFramed(file, Map(kk, vk), p)
  {
    hide Default, ZeroBytes, ScalarBytes, ReadEntryField, WireTypeOf, WireOf, InKind, EntryKind, ReadEntry;
    var k := if num == 1 then kk else vk;
    var e := EmptyEntry(kk, vk);
    EntryZero(k);
    DefaultBytes(EntryKind(k));
    WireTypes(k);
    EntryFieldRoundTrip(kk, vk, e, num, Default(EntryKind(k)), p);
    ReadEntryStep(kk, vk, e, [8 * num + WireTypeOf(k)] + ZeroBytes(k), p, e);
  }

  lemma EntryZero(k: Kind)
    ensures ZeroBytes(EntryKind(k)) == ZeroBytes(k)
    ensures WireTypeOf(k) < 8
  {
  }
}
