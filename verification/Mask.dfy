/** The mask table of the switch: five 32-bit ANDs that must amount to keeping the
    first `len` bytes of the speculative 20-byte DCID and zeroing the rest. */
module Mask {
  import opened Wire

  datatype Mask = Mask(m0: bv32, m1: bv32, m2: bv32, m3: bv32, m4: bv32)

  const NO_MASK := Mask(0, 0, 0, 0, 0)

  /** The constant entries of mask_tbl and its default action. */
  function MaskTable(len: nat): Mask {
    match len
    case 0 => Mask(0x00000000, 0x00000000, 0x00000000, 0x00000000, 0x00000000)
    case 1 => Mask(0xff000000, 0x00000000, 0x00000000, 0x00000000, 0x00000000)
    case 2 => Mask(0xffff0000, 0x00000000, 0x00000000, 0x00000000, 0x00000000)
    case 3 => Mask(0xffffff00, 0x00000000, 0x00000000, 0x00000000, 0x00000000)
    case 4 => Mask(0xffffffff, 0x00000000, 0x00000000, 0x00000000, 0x00000000)
    case 5 => Mask(0xffffffff, 0xff000000, 0x00000000, 0x00000000, 0x00000000)
    case 6 => Mask(0xffffffff, 0xffff0000, 0x00000000, 0x00000000, 0x00000000)
    case 7 => Mask(0xffffffff, 0xffffff00, 0x00000000, 0x00000000, 0x00000000)
    case 8 => Mask(0xffffffff, 0xffffffff, 0x00000000, 0x00000000, 0x00000000)
    case 9 => Mask(0xffffffff, 0xffffffff, 0xff000000, 0x00000000, 0x00000000)
    case 10 => Mask(0xffffffff, 0xffffffff, 0xffff0000, 0x00000000, 0x00000000)
    case 11 => Mask(0xffffffff, 0xffffffff, 0xffffff00, 0x00000000, 0x00000000)
    case 12 => Mask(0xffffffff, 0xffffffff, 0xffffffff, 0x00000000, 0x00000000)
    case 13 => Mask(0xffffffff, 0xffffffff, 0xffffffff, 0xff000000, 0x00000000)
    case 14 => Mask(0xffffffff, 0xffffffff, 0xffffffff, 0xffff0000, 0x00000000)
    case 15 => Mask(0xffffffff, 0xffffffff, 0xffffffff, 0xffffff00, 0x00000000)
    case 16 => Mask(0xffffffff, 0xffffffff, 0xffffffff, 0xffffffff, 0x00000000)
    case 17 => Mask(0xffffffff, 0xffffffff, 0xffffffff, 0xffffffff, 0xff000000)
    case 18 => Mask(0xffffffff, 0xffffffff, 0xffffffff, 0xffffffff, 0xffff0000)
    case 19 => Mask(0xffffffff, 0xffffffff, 0xffffffff, 0xffffffff, 0xffffff00)
    case 20 => Mask(0xffffffff, 0xffffffff, 0xffffffff, 0xffffffff, 0xffffffff)
    case _ => NO_MASK
  }

  /** Four bytes as a 32-bit slice, most significant byte first. */
  function Word(a: bv8, b: bv8, c: bv8, d: bv8): bv32 {
    ((a as bv32) << 24) | ((b as bv32) << 16) | ((c as bv32) << 8) | (d as bv32)
  }

  /** One AND of the set_mask action, on the four bytes of a slice. */
  function MaskSlice(a: bv8, b: bv8, c: bv8, d: bv8, m: bv32): (r: Bytes)
    ensures |r| == 4
  {
    var w := Word(a, b, c, d) & m;
    [(w >> 24) as bv8, ((w >> 16) & 0xff) as bv8, ((w >> 8) & 0xff) as bv8, (w & 0xff) as bv8]
  }

  /** The set_mask action: one AND per 32-bit slice. */
  function SetMask(dcid: Bytes, m: Mask): (r: Bytes)
    requires |dcid| == PAD_LEN
    ensures |r| == PAD_LEN
  {
    MaskSlice(dcid[0], dcid[1], dcid[2], dcid[3], m.m0) +
    MaskSlice(dcid[4], dcid[5], dcid[6], dcid[7], m.m1) +
    MaskSlice(dcid[8], dcid[9], dcid[10], dcid[11], m.m2) +
    MaskSlice(dcid[12], dcid[13], dcid[14], dcid[15], m.m3) +
    MaskSlice(dcid[16], dcid[17], dcid[18], dcid[19], m.m4)
  }

  function Masked(dcid: Bytes, len: nat): (r: Bytes)
    requires |dcid| == PAD_LEN
    ensures |r| == PAD_LEN
  {
    SetMask(dcid, MaskTable(len))
  }

  /** The number of DCID bytes that survive the table: lengths over 20 miss it. */
  function Kept(len: nat): (k: nat)
    ensures k <= PAD_LEN
  {
    if len <= PAD_LEN then len else 0
  }

  function KeepByte(keep: nat, j: nat): bv8 {
    if j < keep then 0xff else 0
  }

  /** The mask word that keeps the first `keep` bytes of a slice. */
  function KeepWord(keep: nat): bv32 {
    Word(KeepByte(keep, 0), KeepByte(keep, 1), KeepByte(keep, 2), KeepByte(keep, 3))
  }

  function KeepIn(len: nat, start: nat): (k: nat)
    ensures k <= 4
  {
    if len <= start then 0 else Min(len - start, 4)
  }

  function WordAt(m: Mask, i: nat): bv32 {
    match i
    case 0 => m.m0
    case 1 => m.m1
    case 2 => m.m2
    case 3 => m.m3
    case _ => m.m4
  }

  lemma KeepWords()
    ensures KeepWord(0) == 0 && KeepWord(1) == 0xff000000 && KeepWord(2) == 0xffff0000
    ensures KeepWord(3) == 0xffffff00 && KeepWord(4) == 0xffffffff
  {
  }

  lemma TableKeepsPrefix(len: nat, i: nat)
    requires i < 5
    ensures WordAt(MaskTable(len), i) == KeepWord(KeepIn(Kept(len), 4 * i))
  {
    KeepWords();
  }

  /** A 32-bit AND acts on each of its four bytes. */
  lemma AndIsBytewise(a: bv8, b: bv8, c: bv8, d: bv8, m: bv8, n: bv8, o: bv8, p: bv8)
    ensures MaskSlice(a, b, c, d, Word(m, n, o, p)) == [a & m, b & n, c & o, d & p]
  {
  }

  lemma ByteMask(b: bv8)
    ensures b & 0xff == b && b & 0 == 0
  {
  }

  function KeptAt(dcid: Bytes, k: nat, i: nat): bv8
    requires i < |dcid|
  {
    if i < k then dcid[i] else 0
  }

  function KeepIf(keep: bool, x: bv8): bv8 {
    if keep then x else 0
  }

  lemma WordBits(a: bv8, b: bv8, c: bv8, d: bv8, n: nat)
    ensures MaskSlice(a, b, c, d, KeepWord(n))
         == [KeepIf(0 < n, a), KeepIf(1 < n, b), KeepIf(2 < n, c), KeepIf(3 < n, d)]
  {
    AndIsBytewise(a, b, c, d, KeepByte(n, 0), KeepByte(n, 1), KeepByte(n, 2), KeepByte(n, 3));
    ByteMask(a);
    ByteMask(b);
    ByteMask(c);
    ByteMask(d);
  }

  lemma SliceBits(dcid: Bytes, k: nat, i: nat)
    requires i + 4 <= |dcid|
    ensures MaskSlice(dcid[i], dcid[i + 1], dcid[i + 2], dcid[i + 3], KeepWord(KeepIn(k, i)))
         == [KeptAt(dcid, k, i), KeptAt(dcid, k, i + 1), KeptAt(dcid, k, i + 2), KeptAt(dcid, k, i + 3)]
  {
    WordBits(dcid[i], dcid[i + 1], dcid[i + 2], dcid[i + 3], KeepIn(k, i));
  }

  lemma PaddedSlice(dcid: Bytes, k: nat, i: nat)
    requires |dcid| == PAD_LEN && k <= PAD_LEN && i + 4 <= PAD_LEN
    ensures [KeptAt(dcid, k, i), KeptAt(dcid, k, i + 1), KeptAt(dcid, k, i + 2), KeptAt(dcid, k, i + 3)]
         == Pad20(dcid[..k])[i..i + 4]
  {
    var p := Pad20(dcid[..k]);
    assert p[i..i + 4] == [p[i], p[i + 1], p[i + 2], p[i + 3]];
  }

  lemma JoinSlices(dcid: Bytes, m: Mask, p: Bytes)
    requires |dcid| == PAD_LEN == |p|
    requires MaskSlice(dcid[0], dcid[1], dcid[2], dcid[3], m.m0) == p[0..4]
    requires MaskSlice(dcid[4], dcid[5], dcid[6], dcid[7], m.m1) == p[4..8]
    requires MaskSlice(dcid[8], dcid[9], dcid[10], dcid[11], m.m2) == p[8..12]
    requires MaskSlice(dcid[12], dcid[13], dcid[14], dcid[15], m.m3) == p[12..16]
    requires MaskSlice(dcid[16], dcid[17], dcid[18], dcid[19], m.m4) == p[16..20]
    ensures SetMask(dcid, m) == p
  {
    assert p[0..4] + p[4..8] + p[8..12] + p[12..16] + p[16..20] == p;
  }

  function KeepMask(k: nat): Mask {
    Mask(KeepWord(KeepIn(k, 0)), KeepWord(KeepIn(k, 4)), KeepWord(KeepIn(k, 8)),
         KeepWord(KeepIn(k, 12)), KeepWord(KeepIn(k, 16)))
  }

  lemma TableIsKeepMask(len: nat)
    ensures MaskTable(len) == KeepMask(Kept(len))
  {
    var m := MaskTable(len);
    assert forall i :: 0 <= i < 5 ==> WordAt(m, i) == KeepWord(KeepIn(Kept(len), 4 * i)) by {
      forall i | 0 <= i < 5 ensures WordAt(m, i) == KeepWord(KeepIn(Kept(len), 4 * i)) {
        TableKeepsPrefix(len, i);
      }
    }
    assert m == Mask(WordAt(m, 0), WordAt(m, 1), WordAt(m, 2), WordAt(m, 3), WordAt(m, 4));
  }

  /** Each masked slice is the corresponding slice of the padded connection ID. */
  lemma SliceKept(dcid: Bytes, k: nat, i: nat)
    requires |dcid| == PAD_LEN && k <= PAD_LEN && i + 4 <= PAD_LEN
    ensures MaskSlice(dcid[i], dcid[i + 1], dcid[i + 2], dcid[i + 3], KeepWord(KeepIn(k, i)))
         == Pad20(dcid[..k])[i..i + 4]
  {
    SliceBits(dcid, k, i);
    PaddedSlice(dcid, k, i);
  }

  lemma KeepMaskPads(dcid: Bytes, k: nat)
    requires |dcid| == PAD_LEN && k <= PAD_LEN
    ensures SetMask(dcid, KeepMask(k)) == Pad20(dcid[..k])
  {
    SliceKept(dcid, k, 0);
    SliceKept(dcid, k, 4);
    SliceKept(dcid, k, 8);
    SliceKept(dcid, k, 12);
    SliceKept(dcid, k, 16);
    JoinSlices(dcid, KeepMask(k), Pad20(dcid[..k]));
  }

  /** Slice masking is zero padding of the real connection ID. */
  lemma MaskingIsPadding(dcid: Bytes, len: nat)
    requires |dcid| == PAD_LEN
    ensures Masked(dcid, len) == Pad20(dcid[..Kept(len)])
  {
    TableIsKeepMask(len);
    KeepMaskPads(dcid, Kept(len));
  }

  /** All DCID bytes between the two surviving lengths are zero. */
  predicate ZeroBetween(dcid: Bytes, a: nat, b: nat)
    requires |dcid| == PAD_LEN && a <= PAD_LEN && b <= PAD_LEN
  {
    forall i :: 0 <= i < PAD_LEN && (a <= i < b || b <= i < a) ==> dcid[i] == 0
  }

  lemma PaddingsAgree(dcid: Bytes, a: nat, b: nat)
    requires |dcid| == PAD_LEN && a <= PAD_LEN && b <= PAD_LEN
    ensures Pad20(dcid[..a]) == Pad20(dcid[..b]) <==> ZeroBetween(dcid, a, b)
  {
    var p, q := Pad20(dcid[..a]), Pad20(dcid[..b]);
    if p == q {
      forall i | 0 <= i < PAD_LEN && (a <= i < b || b <= i < a) ensures dcid[i] == 0 {
        assert p[i] == q[i];
      }
    }
  }

  /** Two lengths send a DCID to the same hash input exactly when the bytes they
      disagree about are all zero. */
  lemma LengthsAgree(dcid: Bytes, a: nat, b: nat)
    requires |dcid| == PAD_LEN
    ensures Masked(dcid, a) == Masked(dcid, b) <==> ZeroBetween(dcid, Kept(a), Kept(b))
  {
    MaskingIsPadding(dcid, a);
    MaskingIsPadding(dcid, b);
    PaddingsAgree(dcid, Kept(a), Kept(b));
  }
}
