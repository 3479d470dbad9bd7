/**
 * The DHT22 (AM2302) data frame: 40 bits received most significant bit
 * first and packed into the five bytes of `dht22_dat`, the checksum test on
 * the fifth byte and the conversion of a valid frame into a humidity and a
 * temperature, both in tenths.
 */
module Frame {

  /** Bytes in a frame (`dht22_dat[5]`) and data bits in a complete frame. */
  const FrameBytes := 5
  const FrameBits := 40

  type Byte = x: int | 0 <= x < 256

  /** A reading in tenths: 403 is 40.3 %RH, -12 is -1.2 degrees Celsius. */
  datatype Reading = Reading(humidity: int, temperature: int)

  function Bit(b: bool): nat { if b then 1 else 0 }

  function Pow2(n: nat): (p: nat)
    ensures p >= 1
  {
    if n == 0 then 1 else 2 * Pow2(n - 1)
  }

  lemma {:induction false} Pow2Monotone(m: nat, n: nat)
    requires m <= n
    ensures Pow2(m) <= Pow2(n)
  {
    if m < n {
      Pow2Monotone(m, n - 1);
    }
  }

  /** The number a bit string denotes when read most significant bit first,
      which is what shifting each bit in with `x <<= 1; x |= bit` builds. */
  function BitsValue(s: seq<bool>): (v: nat)
    ensures v < Pow2(|s|)
  {
    if s == [] then 0 else 2 * BitsValue(s[..|s| - 1]) + Bit(s[|s| - 1])
  }

  /** Shifting one more bit in doubles the value and adds the bit. */
  lemma BitsValueSnoc(s: seq<bool>, b: bool)
    ensures BitsValue(s + [b]) == 2 * BitsValue(s) + Bit(b)
  {
    assert (s + [b])[..|s|] == s;
  }

  /** The n low bits of v, most significant first. */
  function ToBits(v: nat, n: nat): (s: seq<bool>)
    ensures |s| == n
  {
    if n == 0 then [] else ToBits(v / 2, n - 1) + [v % 2 == 1]
  }

  lemma {:induction false} ToBitsValue(v: nat, n: nat)
    requires v < Pow2(n)
    ensures BitsValue(ToBits(v, n)) == v
  {
    if n > 0 {
      ToBitsValue(v / 2, n - 1);
      BitsValueSnoc(ToBits(v / 2, n - 1), v % 2 == 1);
    }
  }

  lemma {:induction false} BitsValueToBits(s: seq<bool>)
    ensures ToBits(BitsValue(s), |s|) == s
  {
    if s != [] {
      var p := s[..|s| - 1];
      BitsValueToBits(p);
      assert s == p + [s[|s| - 1]];
    }
  }

  /** The bits that byte k of the buffer received: bits 8k .. 8k+7, or the
      part of them collected so far. */
  function Chunk(bits: seq<bool>, k: nat): (c: seq<bool>)
    ensures |c| <= 8
  {
    var lo := 8 * k;
    if |bits| <= lo then []
    else if |bits| < lo + 8 then bits[lo..]
    else bits[lo..lo + 8]
  }

  predicate IsFrame(d: seq<int>)
  {
    |d| == FrameBytes && forall k :: 0 <= k < FrameBytes ==> 0 <= d[k] < 256
  }

  /** Byte k of the buffer after the given bits were shifted in. */
  function ByteOf(bits: seq<bool>, k: nat): (v: nat)
    ensures v < 256
  {
    Pow2Monotone(|Chunk(bits, k)|, 8);
    BitsValue(Chunk(bits, k))
  }

  /** The contents of `dht22_dat` after the given bits were shifted into a
      zeroed buffer, bit m going into byte m / 8. */
  function Pack(bits: seq<bool>): (d: seq<int>)
    requires |bits| <= FrameBits
    ensures IsFrame(d)
  {
    seq(FrameBytes, k requires 0 <= k < FrameBytes => ByteOf(bits, k))
  }

  /** Appending a bit extends the chunk of byte |bits| / 8 and no other. */
  lemma ByteOfSnoc(bits: seq<bool>, b: bool, k: nat)
    ensures ByteOf(bits + [b], k)
         == if k == |bits| / 8 then 2 * ByteOf(bits, k) + Bit(b) else ByteOf(bits, k)
  {
    var nb := bits + [b];
    var k0 := |bits| / 8;
    assert 8 * k0 <= |bits| < 8 * k0 + 8;
    if k == k0 {
      assert Chunk(nb, k) == Chunk(bits, k) + [b];
      BitsValueSnoc(Chunk(bits, k), b);
    } else {
      assert Chunk(nb, k) == Chunk(bits, k);
    }
  }

  /** Shifting bit number |bits| into byte |bits| / 8 of the packed buffer
      packs the longer bit string: the step the decoder loop repeats. */
  lemma PackSnoc(bits: seq<bool>, b: bool)
    requires |bits| < FrameBits
    ensures Pack(bits + [b]) == Pack(bits)[|bits| / 8 := 2 * Pack(bits)[|bits| / 8] + Bit(b)]
  {
    var k0 := |bits| / 8;
    var after, before := Pack(bits + [b]), Pack(bits);
    var expected := before[k0 := 2 * before[k0] + Bit(b)];
    forall k | 0 <= k < FrameBytes
      ensures after[k] == expected[k]
    {
      ByteOfSnoc(bits, b, k);
    }
  }

  /** A zeroed buffer is the packing of no bits. */
  lemma PackEmpty()
    ensures Pack([]) == [0, 0, 0, 0, 0]
  {
  }

  /** The 40 bits a frame carries, byte 0 first, each byte most significant
      bit first. */
  function Unpack(d: seq<int>): (bits: seq<bool>)
    requires IsFrame(d)
    ensures |bits| == FrameBits
  {
    ToBits(d[0], 8) + ToBits(d[1], 8) + ToBits(d[2], 8) + ToBits(d[3], 8) + ToBits(d[4], 8)
  }

  /** Byte k of a full frame holds exactly bits 8k .. 8k+7. */
  lemma {:induction false} PackHoldsChunks(bits: seq<bool>, k: nat)
    requires |bits| == FrameBits && k < FrameBytes
    ensures ToBits(Pack(bits)[k], 8) == bits[8 * k..8 * k + 8]
  {
    BitsValueToBits(bits[8 * k..8 * k + 8]);
  }

  /** A frame whose bytes carry bits 0..7, 8..15, .. of a bit string
      unpacks to that bit string. */
  lemma UnpackChunks(d: seq<int>, bits: seq<bool>)
    requires IsFrame(d) && |bits| == FrameBits
    requires ToBits(d[0], 8) == bits[0..8] && ToBits(d[1], 8) == bits[8..16]
    requires ToBits(d[2], 8) == bits[16..24] && ToBits(d[3], 8) == bits[24..32]
    requires ToBits(d[4], 8) == bits[32..40]
    ensures Unpack(d) == bits
  {
    SliceConcat(bits, 8, 16);
    SliceConcat(bits, 16, 24);
    SliceConcat(bits, 24, 32);
    SliceConcat(bits, 32, 40);
    assert bits[0..40] == bits;
  }

  lemma SliceConcat(s: seq<bool>, b: nat, c: nat)
    requires b <= c <= |s|
    ensures s[0..c] == s[0..b] + s[b..c]
  {
  }

  lemma UnpackPack(bits: seq<bool>)
    requires |bits| == FrameBits
    ensures Unpack(Pack(bits)) == bits
  {
    PackHoldsChunks(bits, 0);
    PackHoldsChunks(bits, 1);
    PackHoldsChunks(bits, 2);
    PackHoldsChunks(bits, 3);
    PackHoldsChunks(bits, 4);
    UnpackChunks(Pack(bits), bits);
  }

  lemma PackUnpack(d: seq<int>)
    requires IsFrame(d)
    ensures Pack(Unpack(d)) == d
  {
    var bits := Unpack(d);
    forall k | 0 <= k < FrameBytes
      ensures Pack(bits)[k] == d[k]
    {
      assert Chunk(bits, k) == ToBits(d[k], 8);
      ToBitsValue(d[k], 8);
    }
  }

  /** C's `&` on non-negative integers, one bit position at a time. */
  function And(a: nat, b: nat): (r: nat)
    ensures r <= a && r <= b
  {
    if a == 0 || b == 0 then 0
    else 2 * And(a / 2, b / 2) + (if a % 2 == 1 && b % 2 == 1 then 1 else 0)
  }

  lemma MulStep(m: nat, k: nat)
    ensures m * (k + 1) == m * k + m
  {
  }

  lemma {:induction false} MulAtLeast(m: nat, k: nat)
    requires k >= 1
    ensures m * k >= m
  {
    MulStep(m, k - 1);
  }

  lemma DivModUnique(a: nat, m: nat, q: nat, r: nat)
    requires m >= 1 && a == m * q + r && r < m
    ensures a / m == q && a % m == r
  {
    var q', r' := a / m, a % m;
    assert m * q' + r' == m * q + r;
    if q' > q {
      assert m * q' - m * q == m * (q' - q);
      MulAtLeast(m, q' - q);
    } else if q' < q {
      assert m * q - m * q' == m * (q - q');
      MulAtLeast(m, q - q');
    }
  }

  /** Halving, then dividing by p, is dividing by 2p; the remainders agree. */
  lemma HalveThenDivide(a: nat, p: nat)
    requires p >= 1
    ensures (a / 2) / p == a / (2 * p)
    ensures a % (2 * p) == 2 * ((a / 2) % p) + a % 2
  {
    var h := a / 2;
    var q, r := h / p, h % p;
    assert h == p * q + r;
    assert a == 2 * h + a % 2;
    assert 2 * (p * q) == (2 * p) * q;
    assert a == (2 * p) * q + (2 * r + a % 2);
    DivModUnique(a, 2 * p, q, 2 * r + a % 2);
  }

  /** One step of `&` on two positive numbers: the low bit, then the rest. */
  lemma AndStep(a: nat, b: nat)
    requires a > 0 && b > 0
    ensures And(a, b) == 2 * And(a / 2, b / 2) + (if a % 2 == 1 && b % 2 == 1 then 1 else 0)
  {
  }

  /** Masking with 2^n - 1 keeps the n low bits: `a & (2^n - 1) == a % 2^n`. */
  lemma {:induction false} AndLowMask(a: nat, n: nat)
    ensures And(a, Pow2(n) - 1) == a % Pow2(n)
  {
    if n == 0 {
      assert Pow2(n) - 1 == 0;
    } else if a == 0 {
      DivModUnique(0, Pow2(n), 0, 0);
    } else {
      var p := Pow2(n - 1);
      var m := Pow2(n) - 1;
      assert m == 2 * (p - 1) + 1;
      DivModUnique(m, 2, p - 1, 1);
      AndStep(a, m);
      AndLowMask(a / 2, n - 1);
      HalveThenDivide(a, p);
    }
  }

  /** Masking with 2^n tests bit n: `(a & 2^n) != 0` iff bit n of a is set. */
  lemma {:induction false} AndSingleBit(a: nat, n: nat)
    ensures And(a, Pow2(n)) != 0 <==> (a / Pow2(n)) % 2 == 1
  {
    if n == 0 {
      AndOne(a);
    } else if a == 0 {
      DivModUnique(0, Pow2(n), 0, 0);
    } else {
      var p := Pow2(n - 1);
      AndEvenMask(a, p);
      HalveThenDivide(a, p);
      assert Pow2(n) == 2 * p;
      AndSingleBit(a / 2, n - 1);
    }
  }

  /** `a & 1` is the low bit of a. */
  lemma AndOne(a: nat)
    ensures And(a, 1) == a % 2
  {
    if a > 0 {
      AndStep(a, 1);
      assert And(a / 2, 0) == 0;
    }
  }

  /** An even mask drops the low bit: `a & 2p == 2 * ((a / 2) & p)`. */
  lemma AndEvenMask(a: nat, p: nat)
    requires a > 0 && p >= 1
    ensures And(a, 2 * p) == 2 * And(a / 2, p)
    ensures And(a, 2 * p) != 0 <==> And(a / 2, p) != 0
  {
    DivModUnique(2 * p, 2, p, 0);
    AndStep(a, 2 * p);
  }

  /** `s & 0xFF`: the low byte of a non-negative sum. */
  function LowByte(s: nat): (r: Byte)
    ensures r == s % 256
  {
    AndLowMask(s, 8);
    And(s, 0xFF)
  }

  /** `b & 0x7F`: the magnitude bits of the temperature's high byte. */
  function LowSeven(b: Byte): (r: int)
    ensures r == b % 128
  {
    AndLowMask(b, 7);
    And(b, 0x7F)
  }

  /** `(b & 0x80) != 0`: the sign flag of the temperature's high byte. */
  predicate SignSet(b: Byte)
    ensures SignSet(b) <==> b >= 128
  {
    AndSingleBit(b, 7);
    And(b, 0x80) != 0
  }

  /** The checksum the fifth byte must carry. */
  function Checksum(d: seq<int>): (c: Byte)
    requires IsFrame(d)
    ensures (d[0] + d[1] + d[2] + d[3] - c) % 256 == 0
  {
    (d[0] + d[1] + d[2] + d[3]) % 256
  }

  /** The acceptance test of one attempt: at least 40 bits were collected
      and byte 4 is the low byte of the sum of bytes 0..3. */
  predicate Accepts(d: seq<int>, collected: nat)
    requires IsFrame(d)
    ensures Accepts(d, collected) <==> collected >= FrameBits && (d[0] + d[1] + d[2] + d[3] - d[4]) % 256 == 0
  {
    collected >= FrameBits && d[4] == Checksum(d)
  }

  /** Relative humidity in tenths: bytes 0 and 1, big-endian. */
  function Humidity(d: seq<int>): (h: int)
    requires IsFrame(d)
    ensures 0 <= h < 0x1_0000
    ensures h / 256 == d[0] && h % 256 == d[1]
  {
    d[0] * 256 + d[1]
  }

  /** Temperature in tenths: 15 magnitude bits from bytes 2 and 3, negated
      when bit 7 of byte 2 is set. */
  function Temperature(d: seq<int>): (t: int)
    requires IsFrame(d)
    ensures -0x8000 < t < 0x8000
    ensures t < 0 ==> d[2] >= 128
    ensures t > 0 ==> d[2] < 128
    ensures (if t < 0 then -t else t) == (d[2] % 128) * 256 + d[3]
  {
    var magnitude := (d[2] % 128) * 256 + d[3];
    if d[2] >= 128 then -magnitude else magnitude
  }

  function Decode(d: seq<int>): (r: Reading)
    requires IsFrame(d)
    ensures Representable(r)
  {
    Reading(Humidity(d), Temperature(d))
  }

  predicate Representable(r: Reading)
  {
    0 <= r.humidity < 0x1_0000 && -0x8000 < r.temperature < 0x8000
  }

  /** The frame a sensor sends for a reading: the inverse of Decode. */
  function Encode(r: Reading): (d: seq<int>)
    requires Representable(r)
    ensures IsFrame(d) && d[4] == Checksum(d)
  {
    var m := if r.temperature < 0 then -r.temperature else r.temperature;
    var hi := m / 256 + (if r.temperature < 0 then 128 else 0);
    var d := [r.humidity / 256, r.humidity % 256, hi, m % 256, 0];
    d[4 := Checksum(d)]
  }

  lemma DecodeEncode(r: Reading)
    requires Representable(r)
    ensures Decode(Encode(r)) == r
  {
  }

  /** Every valid frame except the "negative zero" one (byte 2 = 0x80,
      byte 3 = 0, which decodes like 0x00 0x00) is the encoding of what it
      decodes to. */
  lemma EncodeDecode(d: seq<int>)
    requires IsFrame(d) && d[4] == Checksum(d)
    requires !(d[2] == 128 && d[3] == 0)
    ensures Representable(Decode(d)) && Encode(Decode(d)) == d
  {
    var r := Decode(d);
    var m := (d[2] % 128) * 256 + d[3];
    DivModUnique(m, 256, d[2] % 128, d[3]);
    assert d[2] >= 128 ==> m > 0;
    assert r.temperature < 0 <==> d[2] >= 128;
    var e := Encode(r);
    assert e[0] == d[0] && e[1] == d[1];
    assert e[2] == d[2] && e[3] == d[3];
    assert e[4] == d[4];
    assert |e| == |d|;
  }

  /** Changing any one byte of a frame whose checksum holds makes the
      checksum fail. */
  lemma SingleByteChangeDetected(d: seq<int>, k: nat, v: Byte)
    requires IsFrame(d) && d[4] == Checksum(d)
    requires k < FrameBytes && v != d[k]
    ensures IsFrame(d[k := v]) && !Accepts(d[k := v], FrameBits)
  {
    var e := d[k := v];
    if k < 4 {
      var s := d[0] + d[1] + d[2] + d[3];
      var s' := e[0] + e[1] + e[2] + e[3];
      assert s' == s - d[k] + v;
      assert -256 < s' - s < 256 && s' != s;
    }
  }
}
