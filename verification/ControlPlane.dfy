/** The control-plane side of a digest: from the 160-bit integer back to the bucket. */
module ControlPlane {
  import opened Wire
  import opened Mask
  import opened IngressParser
  import opened Runs
  import opened Switch
  import opened Hex

  /** The value of a bit string, most significant byte first. */
  function Be(b: Bytes): nat {
    if b == [] then 0 else Be(b[..|b| - 1]) * 256 + b[|b| - 1] as int
  }

  /** Hexadecimal digits without leading zeros. */
  function HexDigits(n: nat): (s: string)
    ensures |s| >= 1
  {
    if n < 16 then [Digit(n)] else HexDigits(n / 16) + [Digit(n % 16)]
  }

  function ZeroChars(n: nat): (s: string)
    ensures |s| == n
  {
    if n == 0 then "" else "0" + ZeroChars(n - 1)
  }

  /** The format "{:040x}" for width 40: at least `width` digits. */
  function ZeroPadded(n: nat, width: nat): string {
    var s := HexDigits(n);
    if |s| >= width then s else ZeroChars(width - |s|) + s
  }

  /** The last `width` hexadecimal digits of a number. */
  function FixedHex(n: nat, width: nat): (s: string)
    ensures |s| == width
  {
    if width == 0 then "" else FixedHex(n / 16, width - 1) + [Digit(n % 16)]
  }

  lemma {:induction false} ZeroCharsSnoc(n: nat)
    ensures ZeroChars(n) + "0" == ZeroChars(n + 1)
  {
    if n > 0 {
      ZeroCharsSnoc(n - 1);
    }
  }

  lemma {:induction false} FixedHexZero(width: nat)
    ensures FixedHex(0, width) == ZeroChars(width)
  {
    if width > 0 {
      FixedHexZero(width - 1);
      ZeroCharsSnoc(width - 1);
    }
  }

  lemma {:induction false} PaddedIsFixed(n: nat, width: nat)
    requires |HexDigits(n)| <= width
    ensures ZeroPadded(n, width) == FixedHex(n, width)
  {
    if n < 16 {
      FixedHexZero(width - 1);
    } else {
      PaddedIsFixed(n / 16, width - 1);
    }
  }

  lemma TwoDigits(n: nat, x: nat)
    requires x < 256
    ensures (n * 256 + x) / 16 / 16 == n && (n * 256 + x) / 16 % 16 == x / 16 && (n * 256 + x) % 16 == x % 16
  {
  }

  lemma FixedHexTwo(n: nat, x: nat, width: nat)
    requires x < 256
    ensures FixedHex(n * 256 + x, width + 2) == FixedHex(n, width) + [Digit(x / 16), Digit(x % 16)]
  {
    var m := n * 256 + x;
    TwoDigits(n, x);
    assert FixedHex(m, width + 2) == FixedHex(m / 16, width + 1) + [Digit(m % 16)];
    assert FixedHex(m / 16, width + 1) == FixedHex(m / 16 / 16, width) + [Digit(m / 16 % 16)];
  }

  lemma DigitsTwo(n: nat, x: nat)
    requires x < 256
    ensures |HexDigits(n * 256 + x)| <= if n == 0 then 2 else |HexDigits(n)| + 2
  {
    var m := n * 256 + x;
    TwoDigits(n, x);
    if m >= 16 {
      assert HexDigits(m) == HexDigits(m / 16) + [Digit(m % 16)];
      if m / 16 >= 16 {
        assert HexDigits(m / 16) == HexDigits(m / 16 / 16) + [Digit(m / 16 % 16)];
      }
    }
  }

  lemma {:induction false} FixedHexOfBytes(b: Bytes)
    ensures FixedHex(Be(b), 2 * |b|) == HexOf(b)
  {
    if b != [] {
      var init := b[..|b| - 1];
      FixedHexOfBytes(init);
      FixedHexTwo(Be(init), b[|b| - 1] as int, 2 * |init|);
    }
  }

  lemma {:induction false} DigitsFit(b: Bytes)
    requires b != []
    ensures |HexDigits(Be(b))| <= 2 * |b|
  {
    var init := b[..|b| - 1];
    DigitsTwo(Be(init), b[|b| - 1] as int);
    if Be(init) != 0 {
      DigitsFit(init);
    }
  }

  /** The rendering of the 160-bit integer is the rendering of its bytes. */
  lemma IntegerRendersAsBytes(b: Bytes)
    requires b != []
    ensures ZeroPadded(Be(b), 2 * |b|) == HexOf(b)
  {
    DigitsFit(b);
    PaddedIsFixed(Be(b), 2 * |b|);
    FixedHexOfBytes(b);
  }

  function TakeChars(s: string, n: nat): string {
    s[..Min(n, |s|)]
  }

  /** The 2*len leading digits of the digest's DCID, as the monitor shows them. */
  function DigestHex(raw: nat, len: nat): string {
    TakeChars(ZeroPadded(raw, 40), len * 2)
  }

  /** bytes.ljust(20) with zero bytes. */
  function LeftJustify(b: Bytes): Bytes {
    if |b| >= PAD_LEN then b else b + Zeros(PAD_LEN - |b|)
  }

  /** The 20 bytes that the monitor hashes for a digest; it skips length 0. */
  function MonitorInput(raw: nat, len: nat): Option<Bytes> {
    if len == 0 then None else Some(LeftJustify(FromHex(DigestHex(raw, len))))
  }

  function MonitorBucket(h: Hashes, raw: nat, len: nat): Option<nat> {
    match MonitorInput(raw, len)
    case None => None
    case Some(input) => Some(HashBucket(h, input))
  }

  lemma {:induction false} HexPrefix(b: Bytes, n: nat)
    requires n <= |b|
    ensures HexOf(b)[..2 * n] == HexOf(b[..n])
  {
    if n == |b| {
      assert b[..n] == b;
    } else {
      var init := b[..|b| - 1];
      HexPrefix(init, n);
      assert init[..n] == b[..n];
      assert HexOf(b)[..2 * n] == HexOf(init)[..2 * n];
    }
  }

  /** Truncating the digits and padding the bytes is zero-padding the leading bytes. */
  lemma MonitorInputIsPadding(dcid: Bytes, len: nat)
    requires |dcid| == PAD_LEN && len > 0
    ensures MonitorInput(Be(dcid), len) == Some(Pad20(Take(dcid, len)))
  {
    var n := Min(len, 20);
    IntegerRendersAsBytes(dcid);
    HexPrefix(dcid, n);
    assert DigestHex(Be(dcid), len) == HexOf(dcid[..n]);
    HexRoundTrip(dcid[..n]);
    assert LeftJustify(dcid[..n]) == Pad20(dcid[..n]);
  }

  /** Exactly when the monitor recomputes the switch's hash input for a digest: when the DCID
      bytes between the effective length and the digest's length field are zero. That field
      is the wire length for a Long header and 20 for a Short one. */
  lemma DigestAgreesExactly(h: Hashes, run: seq<Obs>, f: Bytes, force: nat)
    requires ParseSpec(f).Accepted? && ParseSpec(f).dcidLen > 0
    ensures var p := ParseSpec(f);
      var o := Obs(p.tuple, p.quic, force, |f|);
      MonitorInput(Be(DigestOf(p).dcid), DigestOf(p).dcidLen) == Some(Pad20(Cid(h, run, o))) <==>
        ZeroBetween(p.quic.Dcid(), Kept(EffLen(h, run, o)), Min(p.dcidLen, 20))
  {
    var p := ParseSpec(f);
    var o := Obs(p.tuple, p.quic, force, |f|);
    var dcid := p.quic.Dcid();
    MonitorInputIsPadding(dcid, p.dcidLen);
    PaddingsAgree(dcid, Kept(EffLen(h, run, o)), Min(p.dcidLen, 20));
  }

  /** Digest round trip: under the length-aware arm the monitor finds the bucket that the
      switch incremented, for every Long header with length 1 to 20 and for every Short
      header whose recalled length is 20. */
  lemma DigestRoundTrip(h: Hashes, run: seq<Obs>, f: Bytes)
    requires DigestFor(h, run, f, 0).Some?
    requires var p := ParseSpec(f);
      match p.quic
      case Long(l) => 1 <= l.dcidLen <= 20
      case Short(_) => Learned(h, run, FlowKey(h, p.tuple)) == 20
    ensures var d, p := DigestFor(h, run, f, 0).value, ParseSpec(f);
      MonitorBucket(h, Be(d.dcid), d.dcidLen) == Some(BucketOf(h, run, Obs(p.tuple, p.quic, 0, |f|)))
  {
    var p := ParseSpec(f);
    MonitorInputIsPadding(p.quic.Dcid(), p.dcidLen);
  }
}
