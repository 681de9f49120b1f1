// The seenOptional bitmap of a decode: a uint64 with one bit a field number.

module Bitmap {
  import opened Base

  type bitmap = n: nat | n < U64

  const WIDTH := 64

  /** seen & (1 << p) != 0 */
  predicate Marked(seen: nat, p: nat) {
    if p == 0 then seen % 2 == 1 else Marked(seen / 2, p - 1)
  }

  /** seen | (1 << p), bit by bit; a bit beyond the width is shifted out. */
  function SetBit(seen: nat, p: nat, width: nat): nat {
    if p >= width then seen
    else if p == 0 then seen - seen % 2 + 1
    else 2 * SetBit(seen / 2, p - 1, width - 1) + seen % 2
  }

  function Power2(width: nat): nat {
    if width == 0 then 1 else 2 * Power2(width - 1)
  }

  lemma {:induction false} SetBitFits(seen: nat, p: nat, width: nat)
    requires seen < Power2(width)
    ensures SetBit(seen, p, width) < Power2(width)
  {
    if 0 < p < width {
      SetBitFits(seen / 2, p - 1, width - 1);
    }
  }

  lemma Power2Width()
    ensures Power2(WIDTH) == U64
  {
    assert Power2(8) == 0x100 by { assert Power2(4) == 0x10; }
    Power2Plus8(8);
    Power2Plus8(16);
    Power2Plus8(24);
    Power2Plus8(32);
    Power2Plus8(40);
    Power2Plus8(48);
    Power2Plus8(56);
  }

  lemma Power2Plus8(w: nat)
    ensures Power2(w + 8) == 0x100 * Power2(w)
  {
    assert Power2(w + 4) == 0x10 * Power2(w) by { assert Power2(w + 2) == 4 * Power2(w); }
    assert Power2(w + 6) == 4 * Power2(w + 4);
  }

  /** seenOptional |= 1 << p */
  function Mark(seen: bitmap, p: nat): bitmap {
    Power2Width();
    SetBitFits(seen, p, WIDTH);
    SetBit(seen, p, WIDTH)
  }

  lemma {:induction false} NothingMarked(p: nat)
    ensures !Marked(0, p)
  {
    if p > 0 {
      NothingMarked(p - 1);
    }
  }

  lemma {:induction false} SetBitMarks(seen: nat, p: nat, width: nat, q: nat)
    ensures Marked(SetBit(seen, p, width), q) <==> (p == q && p < width) || Marked(seen, q)
  {
    if p < width && p > 0 && q > 0 {
      SetBitMarks(seen / 2, p - 1, width - 1, q - 1);
    }
  }

  /** Marking a field marks it, and no other, exactly when its number is at most
      63: a higher one is lost. */
  lemma MarkMarks(seen: bitmap, p: nat, q: nat)
    ensures Marked(Mark(seen, p), q) <==> (p == q && p <= 63) || Marked(seen, q)
  {
    SetBitMarks(seen, p, WIDTH, q);
  }
}
