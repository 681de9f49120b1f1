// How AnalyzeMessage (internal/core/analysis.go) ties fields to oneofs, and
// what the emitters make of it.

module Analysis {
  import opened Base
  import opened Schema
  import opened Encoder

  /** The oneof a number is tagged with: the last one that lists it. */
  function LastListing(oneofs: seq<seq<nat>>, num: nat): (r: Option<nat>)
    ensures r.Some? ==> r.value < |oneofs| && num in oneofs[r.value]
    ensures r.None? ==> forall j | 0 <= j < |oneofs| :: num !in oneofs[j]
  {
    if oneofs == [] then None
    else if num in oneofs[|oneofs| - 1] then Some(|oneofs| - 1)
    else LastListing(oneofs[..|oneofs| - 1], num)
  }

  /** branchToOneof: filled oneof by oneof, branch by branch. */
  method IndexBranches(oneofs: seq<seq<nat>>) returns (index: map<nat, nat>)
    ensures forall num :: LastListing(oneofs, num) == if num in index then Some(index[num]) else None
  {
    index := map[];
    var j := 0;
    while j < |oneofs|
      invariant 0 <= j <= |oneofs|
      invariant forall num :: LastListing(oneofs[..j], num) == if num in index then Some(index[num]) else None
    {
      ghost var before := index;
      var b := 0;
      while b < |oneofs[j]|
        invariant 0 <= b <= |oneofs[j]|
        invariant forall num :: num in index <==> num in before || num in oneofs[j][..b]
        invariant forall num | num in index :: index[num] == if num in oneofs[j][..b] then j else before[num]
      {
        index := index[oneofs[j][b] := j];
        b := b + 1;
      }
      assert oneofs[j][..b] == oneofs[j];
      assert oneofs[..j + 1][..j] == oneofs[..j];
      j := j + 1;
    }
    assert oneofs[..j] == oneofs;
  }

  /** The field loop: each field is tagged with its oneof. */
  method TagFields(fields: seq<Field>, oneofs: seq<seq<nat>>) returns (info: Info)
    ensures info.oneofs == oneofs && |info.fields| == |fields|
    ensures forall i | 0 <= i < |fields| :: info.fields[i] == fields[i].(oneof := LastListing(oneofs, fields[i].num))
    ensures ListedOnce(fields, oneofs) ==> OneofsAgree(info)
  {
    hide OneofsAgree, ListedOnce;
    var index := IndexBranches(oneofs);
    var tagged: seq<Field> := [];
    for i := 0 to |fields|
      invariant |tagged| == i
      invariant forall k | 0 <= k < i :: tagged[k] == fields[k].(oneof := LastListing(oneofs, fields[k].num))
    {
      var num := fields[i].num;
      tagged := tagged + [fields[i].(oneof := if num in index then Some(index[num]) else None)];
    }
    info := Info(tagged, oneofs);
    if ListedOnce(fields, oneofs) {
      TaggingAgrees(fields, info);
    }
  }

  /** Branches belong to one oneof each and are fields, as protoc sees to. */
  ghost predicate ListedOnce(fields: seq<Field>, oneofs: seq<seq<nat>>) {
    && (forall j, k, n | 0 <= j < k < |oneofs| && n in oneofs[j] :: n !in oneofs[k])
    && (forall j, n | 0 <= j < |oneofs| && n in oneofs[j] :: exists i :: 0 <= i < |fields| && fields[i].num == n)
  }

  lemma {:induction false} ListedIn(oneofs: seq<seq<nat>>, num: nat, j: nat)
    requires j < |oneofs| && num in oneofs[j]
    requires forall k | 0 <= k < |oneofs| && k != j :: num !in oneofs[k]
    ensures LastListing(oneofs, num) == Some(j)
    decreases |oneofs|
  {
    if j < |oneofs| - 1 {
      ListedIn(oneofs[..|oneofs| - 1], num, j);
    }
  }

  /** The tagging makes fields and oneofs agree, in both directions. */
  lemma TaggingAgrees(fields: seq<Field>, info: Info)
    requires ListedOnce(fields, info.oneofs) && |info.fields| == |fields|
    requires forall i | 0 <= i < |fields| :: info.fields[i] == fields[i].(oneof := LastListing(info.oneofs, fields[i].num))
    ensures OneofsAgree(info)
  {
    hide LastListing;
    forall i, j | 0 <= i < |info.fields| && 0 <= j < |info.oneofs| && info.fields[i].num in info.oneofs[j]
      ensures info.fields[i].oneof == Some(j)
    {
      ListedIn(info.oneofs, info.fields[i].num, j);
    }
    forall j, n | 0 <= j < |info.oneofs| && n in info.oneofs[j]
      ensures FindField(info.fields, n).Some?
    {
      var i :| 0 <= i < |fields| && fields[i].num == n;
      assert info.fields[i].num == n;
    }
  }

  /** Every field is written in exactly one place: in the main loop when it is
      in no oneof, else by the one switch arm of its own oneof that its number
      selects. */
  lemma WrittenInOnePlace(file: File, ref: nat, i: nat, discs: seq<nat>, j: nat)
    requires ValidFile(file) && i < |Fields(file, ref)| && |discs| == |Oneofs(file, ref)|
    ensures Active(file, ref, discs, j) == Some(i) <==>
            j < |discs| && Fields(file, ref)[i].oneof == Some(j) && discs[j] == Fields(file, ref)[i].num
    ensures InOneof(file, ref, i) <==>
            exists k, choice: seq<nat> :: |choice| == |Oneofs(file, ref)| && Active(file, ref, choice, k) == Some(i)
  {
    hide FindField, Active, Supported;
    ArmIff(file, ref, i, discs, j);
    if InOneof(file, ref, i) {
      assert ValidInfo(ref, file[ref]);
      var k := Fields(file, ref)[i].oneof.value;
      var choice := seq(|Oneofs(file, ref)|, _ => Fields(file, ref)[i].num);
      ArmIff(file, ref, i, choice, k);
      assert Active(file, ref, choice, k) == Some(i);
    }
    forall k, choice: seq<nat> | |choice| == |Oneofs(file, ref)| && Active(file, ref, choice, k) == Some(i)
      ensures InOneof(file, ref, i)
    {
      ArmIff(file, ref, i, choice, k);
    }
  }

  lemma ArmIff(file: File, ref: nat, i: nat, discs: seq<nat>, j: nat)
    requires ValidFile(file) && i < |Fields(file, ref)| && |discs| == |Oneofs(file, ref)|
    ensures Active(file, ref, discs, j) == Some(i) <==>
            j < |discs| && Fields(file, ref)[i].oneof == Some(j) && discs[j] == Fields(file, ref)[i].num
  {
    hide Supported;
    assert ValidInfo(ref, file[ref]);
    FieldAt(Fields(file, ref), i);
  }
}
