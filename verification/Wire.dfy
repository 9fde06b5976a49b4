/** Bytes on the wire, the two hash functions, and the 20-byte zero padding that
    every part of the system applies to a connection ID before hashing it. */
module Wire {

  type Bytes = seq<bv8>

  datatype Option<+T> = None | Some(value: T)

  /** Ways in which a tool stops instead of producing a result. */
  datatype Error = EmptyFile | ShortRead | BadMagic | BadNumber

  datatype Result<+T> = Ok(value: T) | Err(error: Error)

  /** Source and destination address and port of one datagram. */
  datatype FourTuple = FourTuple(src: Bytes, dst: Bytes, sport: nat, dport: nat)

  /** The two CRCs as arbitrary total functions: every theorem holds for all of them. */
  datatype Hashes = Hashes(crc16: FourTuple -> nat, crc32: Bytes -> nat)

  const PAD_LEN: nat := 20
  const BUCKETS: nat := 0x2_0000
  const KEYS: nat := 0x1_0000
  const QUIC_PORT: nat := 443

  /** The 16-bit index into the length register. */
  function FlowKey(h: Hashes, t: FourTuple): (k: nat)
    ensures k < KEYS
  {
    h.crc16(t) % 0x1_0000
  }

  /** The low 17 bits of the CRC-32 of a hash input. */
  function HashBucket(h: Hashes, input: Bytes): (b: nat)
    ensures b < BUCKETS
  {
    h.crc32(input) % 0x2_0000
  }

  function Min(a: nat, b: nat): nat {
    if a < b then a else b
  }

  /** The first `n` bytes, or all of them: the slice `b[:n]`. */
  function Take(b: Bytes, n: nat): (r: Bytes)
    ensures |r| == Min(n, |b|)
    ensures forall i :: 0 <= i < |r| ==> r[i] == b[i]
  {
    b[..Min(n, |b|)]
  }

  function Zeros(n: nat): (z: Bytes)
    ensures |z| == n
    ensures forall i :: 0 <= i < n ==> z[i] == 0
  {
    seq(n, i => 0)
  }

  /** Right-pad with zeros, or cut, to exactly 20 bytes. */
  function Pad20(b: Bytes): (r: Bytes)
    ensures |r| == PAD_LEN
    ensures forall i :: 0 <= i < PAD_LEN ==> r[i] == if i < |b| then b[i] else 0
  {
    (b + Zeros(PAD_LEN))[..PAD_LEN]
  }

  /** The bucket of a connection ID, as the offline tools compute it. */
  function CidBucket(h: Hashes, cid: Bytes): (b: nat)
    ensures b < BUCKETS
  {
    HashBucket(h, Pad20(cid))
  }

  /** `y` is `x` followed by zero bytes only. */
  predicate ZeroExtends(x: Bytes, y: Bytes) {
    |x| <= |y| && y[..|x|] == x && forall i :: |x| <= i < |y| ==> y[i] == 0
  }

  /** Two connection IDs of legal length share a hash input exactly when one is the
      other extended by zero bytes; the classifier can tell apart all other pairs. */
  lemma PaddingCollision(x: Bytes, y: Bytes)
    requires |x| <= PAD_LEN && |y| <= PAD_LEN
    ensures Pad20(x) == Pad20(y) <==> ZeroExtends(x, y) || ZeroExtends(y, x)
  {
    var p, q := Pad20(x), Pad20(y);
    if p == q {
      var s, l := if |x| <= |y| then x else y, if |x| <= |y| then y else x;
      assert forall i :: 0 <= i < |l| ==> l[i] == if i < |s| then s[i] else 0 by {
        forall i | 0 <= i < |l| ensures l[i] == if i < |s| then s[i] else 0 {
          assert p[i] == q[i];
        }
      }
      assert l[..|s|] == s;
    } else if ZeroExtends(x, y) || ZeroExtends(y, x) {
      var s, l := if ZeroExtends(x, y) then x else y, if ZeroExtends(x, y) then y else x;
      forall i | 0 <= i < PAD_LEN ensures p[i] == q[i] {
        if i < |s| {
          assert l[i] == l[..|s|][i];
        }
      }
    }
  }

  // ---- every CRC-32 ----

  function WithCrc32(h: Hashes, crc32: Bytes -> nat): Hashes {
    h.(crc32 := crc32)
  }

  /** A CRC that singles out one hash input. */
  function Marking(input: Bytes): Bytes -> nat {
    x => if x == input then 1 else 0
  }

  lemma MarkingSeparates(h: Hashes, x: Bytes, y: Bytes)
    requires Pad20(x) != Pad20(y)
    ensures CidBucket(WithCrc32(h, Marking(Pad20(x))), x) == 1 && CidBucket(WithCrc32(h, Marking(Pad20(x))), y) == 0
  {
  }

  /** Two connection IDs share a bucket under every CRC-32 exactly when they share a hash
      input. */
  lemma SameUnderEveryCrc32(h: Hashes, x: Bytes, y: Bytes)
    ensures (forall crc32: Bytes -> nat :: CidBucket(WithCrc32(h, crc32), x) == CidBucket(WithCrc32(h, crc32), y))
       <==> Pad20(x) == Pad20(y)
  {
    if Pad20(x) != Pad20(y) {
      MarkingSeparates(h, x, y);
    }
  }

  /** A bucket is the low 17 bits of the CRC-32: whatever the input, each of the 2^17 values is
      kept as it is, and what lies above is dropped. */
  lemma BucketIsLow17(h: Hashes, input: Bytes, n: nat)
    ensures n < 0x2_0000 ==> HashBucket(WithCrc32(h, _ => n), input) == n
    ensures HashBucket(WithCrc32(h, _ => n + 0x2_0000), input) == HashBucket(WithCrc32(h, _ => n), input)
    ensures CidBucket(WithCrc32(h, _ => n), input) == HashBucket(WithCrc32(h, _ => n), input)
  {
  }

  /** A flow key is the low 16 bits of the CRC-16 of the 4-tuple. */
  lemma KeyIsLow16(h: Hashes, t: FourTuple, n: nat)
    ensures n < 0x1_0000 ==> FlowKey(h.(crc16 := _ => n), t) == n
    ensures FlowKey(h.(crc16 := _ => n + 0x1_0000), t) == FlowKey(h.(crc16 := _ => n), t)
    ensures FlowKey(h, t) == FlowKey(h.(crc16 := _ => h.crc16(t)), t)
  {
  }

  // ---- fixed-width integers ----

  /** Big-endian 16-bit value at offset `i`. */
  function U16(b: Bytes, i: nat): (n: nat)
    requires i + 2 <= |b|
    ensures n < 0x1_0000
  {
    (b[i] as int) * 256 + (b[i + 1] as int)
  }
}
