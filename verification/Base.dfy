// Bytes, results and the sentinel errors of lang/go/codec/errors.go.

module Base {
  type byte = b: int | 0 <= b < 256
  type bytes = seq<byte>

  const U32 := 0x1_0000_0000
  const U64 := 0x1_0000_0000_0000_0000
  /** Lengths are Go ints: no buffer, string or slice reaches this many bytes. */
  const MAX_LEN := 0x8000_0000_0000_0000

  datatype Option<+T> = None | Some(value: T)

  datatype Error =
    | InvalidLength
    | InvalidWireType
    | InvalidTag
    | InvalidVarint
    | BufferTooShort

  datatype Result<+T> = Ok(value: T) | Err(error: Error) {
    predicate IsFailure() {
      Err?
    }

    function PropagateFailure<U>(): Result<U>
      requires Err?
    {
      Err(error)
    }

    function Extract(): T
      requires Ok?
    {
      value
    }
  }

  /** What a reader returns: the value and the number of bytes it consumed. */
  datatype Read<+T> = Read(v: T, n: nat)

  /** `s` with the bytes from `at` on overwritten by `w`. */
  function Splice(s: bytes, at: nat, w: bytes): (r: bytes)
    requires at + |w| <= |s|
    ensures |r| == |s|
  {
    s[..at] + w + s[at + |w|..]
  }

  lemma SpliceSplice(s: bytes, at: nat, a: bytes, b: bytes)
    requires at + |a| + |b| <= |s|
    ensures Splice(Splice(s, at, a), at + |a|, b) == Splice(s, at, a + b)
  {
    var m := Splice(s, at, a);
    assert m[..at + |a|] == s[..at] + a;
    assert m[at + |a| + |b|..] == s[at + |a| + |b|..];
    assert s[..at] + a + b + s[at + |a| + |b|..] == s[..at] + (a + b) + s[at + |a| + |b|..];
  }

  /** Writing the next byte extends the spliced part by that byte. */
  lemma SplicePut(s: bytes, at: nat, w: bytes, b: byte)
    requires at + |w| < |s|
    ensures Splice(s, at, w)[at + |w| := b] == Splice(s, at, w + [b])
  {
  }

  lemma SpliceNothing(s: bytes, at: nat)
    requires at <= |s|
    ensures Splice(s, at, []) == s
  {
  }

  lemma DropAppend(a: bytes, b: bytes, n: nat)
    requires n <= |a|
    ensures (a + b)[n..] == a[n..] + b
  {
  }

  lemma SliceSlice(s: bytes, a: nat, b: nat, c: nat, d: nat)
    requires a <= b <= |s| && c <= d <= b - a
    ensures s[a..b][c..d] == s[a + c..a + d]
  {
    forall k | 0 <= k < d - c
      ensures s[a..b][c..d][k] == s[a + c..a + d][k]
    {
    }
  }

  lemma SliceDrop(s: bytes, a: nat, b: nat, c: nat)
    requires a <= b <= |s| && c <= b - a
    ensures s[a..b][c..] == s[a + c..b]
  {
  }

  lemma SpliceAll(s: bytes, w: bytes)
    requires |w| == |s|
    ensures Splice(s, 0, w) == w
  {
  }

  /** `b` is at least as long as `a` and starts with the same `n` bytes. */
  predicate SameStart(a: bytes, b: bytes, n: nat) {
    n <= |a| <= |b| && a[..n] == b[..n]
  }

  lemma SameStartDrop(a: bytes, b: bytes, n: nat, k: nat)
    requires SameStart(a, b, n) && k <= n
    ensures SameStart(a[k..], b[k..], n - k)
  {
    assert a[k..][..n - k] == a[..n][k..] && b[k..][..n - k] == b[..n][k..];
  }

  lemma SameStartSlice(a: bytes, b: bytes, n: nat, i: nat, j: nat)
    requires SameStart(a, b, n) && i <= j <= n
    ensures a[i..j] == b[i..j] && a[..i] == b[..i]
  {
    assert a[i..j] == a[..n][i..j] && b[i..j] == b[..n][i..j];
    assert a[..i] == a[..n][..i] && b[..i] == b[..n][..i];
  }

  /** What follows `a` replaced by something no shorter. */
  lemma SameStartAppend(a: bytes, s: bytes, t: bytes)
    requires |s| <= |t|
    ensures SameStart(a + s, a + t, |a|)
  {
  }
}
