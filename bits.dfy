/**
 * Bits and bytes shared by the three variants of the codec.
 *
 * A code is a bit string, most significant (first transmitted) bit first.
 * A payload is a byte string; each byte holds eight bits of the stream, the
 * first of them in bit 7.
 */
module Bits {

  /** C's unsigned char. */
  type byte = x: int | 0 <= x < 256

  function Pow2(n: nat): (r: nat)
    ensures r >= 1
  {
    if n == 0 then 1 else 2 * Pow2(n - 1)
  }

  lemma Pow2Add(a: nat, b: nat)
    ensures Pow2(a + b) == Pow2(a) * Pow2(b)
  {
    if a > 0 {
      Pow2Add(a - 1, b);
    }
  }

  lemma {:induction false} Pow2Mono(a: nat, b: nat)
    requires a <= b
    ensures Pow2(a) <= Pow2(b)
  {
    if a < b {
      Pow2Mono(a, b - 1);
    }
  }

  /** `mask >>= 1` on a single-bit mask moves it one bit down. */
  lemma Pow2Half(m: nat)
    requires m >= 1
    ensures Pow2(m) >= 2 && Pow2(m) / 2 == Pow2(m - 1)
  {
  }

  /** Bit i of v: C's `(v >> i) & 1`. */
  predicate BitAt(v: nat, i: nat)
  {
    (v / Pow2(i)) % 2 == 1
  }

  /** The n low-order bits of v, most significant first. */
  function CodeBits(v: nat, n: nat): (s: seq<bool>)
    ensures |s| == n
  {
    if n == 0 then [] else CodeBits(v / 2, n - 1) + [v % 2 == 1]
  }

  /** The number a bit string denotes, read most significant bit first. */
  function ValueOf(s: seq<bool>): nat
  {
    if s == [] then 0 else 2 * ValueOf(s[..|s| - 1]) + (if s[|s| - 1] then 1 else 0)
  }

  function Zeros(n: nat): (s: seq<bool>)
    ensures |s| == n
    ensures forall k :: 0 <= k < n ==> !s[k]
  {
    seq(n, _ => false)
  }

  lemma MulAtLeast(d: nat, x: nat)
    requires x >= 1
    ensures d * x >= d
  {
  }

  lemma DivUnique(v: nat, d: nat, q: nat, r: nat)
    requires d >= 1 && v == d * q + r && r < d
    ensures v / d == q
  {
    var q', r' := v / d, v % d;
    assert v == d * q' + r';
    if q' < q {
      MulAtLeast(d, q - q');
      assert false;
    } else if q' > q {
      MulAtLeast(d, q' - q);
      assert false;
    }
  }

  lemma DivHalf(v: nat, p: nat)
    requires p >= 1
    ensures v / (2 * p) == (v / 2) / p
  {
    var q := (v / 2) / p;
    var r := (v / 2) % p;
    assert v / 2 == p * q + r;
    assert v == 2 * (p * q + r) + v % 2;
    assert v == (2 * p) * q + (2 * r + v % 2);
    DivUnique(v, 2 * p, q, 2 * r + v % 2);
  }

  /** The loop `for (i = n - 1; i >= 0; i--) bit = (v >> i) & 1` emits CodeBits(v, n). */
  lemma {:induction false} CodeBitsAt(v: nat, n: nat, k: nat)
    requires k < n
    ensures CodeBits(v, n)[k] == BitAt(v, n - 1 - k)
  {
    if k < n - 1 {
      CodeBitsAt(v / 2, n - 1, k);
      DivHalf(v, Pow2(n - 2 - k));
    }
  }

  lemma {:induction false} CodeBitsOfValue(s: seq<bool>)
    ensures CodeBits(ValueOf(s), |s|) == s
  {
    if s != [] {
      var t := s[..|s| - 1];
      CodeBitsOfValue(t);
      assert s == t + [s[|s| - 1]];
    }
  }

  lemma {:induction false} ValueOfBound(s: seq<bool>)
    ensures ValueOf(s) < Pow2(|s|)
  {
    if s != [] {
      ValueOfBound(s[..|s| - 1]);
    }
  }

  /** A non-empty path is its parent's path and its last bit. */
  lemma InitLast(c: seq<bool>)
    requires |c| >= 1
    ensures c[..|c| - 1] + [c[|c| - 1]] == c
  {
  }

  /** Taking one more element of a sequence appends that element. */
  lemma TakeSnoc<T>(s: seq<T>, i: nat)
    requires i < |s|
    ensures s[..i + 1] == s[..i] + [s[i]]
  {
  }

  lemma ValueOfSnoc(s: seq<bool>, b: bool)
    ensures ValueOf(s + [b]) == 2 * ValueOf(s) + (if b then 1 else 0)
  {
    assert (s + [b])[..|s|] == s;
  }

  /** Shifting left by m appends m zero bits. */
  lemma {:induction false} CodeBitsShift(x: nat, n: nat, m: nat)
    ensures CodeBits(x * Pow2(m), n + m) == CodeBits(x, n) + Zeros(m)
  {
    if m > 0 {
      CodeBitsShift(x, n, m - 1);
      var y := x * Pow2(m - 1);
      assert x * Pow2(m) == 2 * y;
      assert Zeros(m) == Zeros(m - 1) + [false];
    }
  }

  // ---------------------------------------------------------------------------
  // Packing a bit stream into bytes

  function CeilDiv8(n: nat): nat
  {
    (n + 7) / 8
  }

  /** A value of n bits, moved up by 8 - n, still fits in a byte. */
  lemma ShiftBound(v: nat, n: nat)
    requires n <= 8 && v < Pow2(n)
    ensures v * Pow2(8 - n) < 256
  {
    var p := Pow2(8 - n);
    Pow2Add(n, 8 - n);
    assert Pow2(8) == 256;
    MulLe(v, Pow2(n) - 1, p);
  }

  lemma MulLe(a: nat, b: nat, c: nat)
    requires a <= b
    ensures a * c <= b * c
  {
  }

  /** The byte holding the bits s in its high positions and zeros below. */
  function PadByte(s: seq<bool>): (b: byte)
    requires |s| <= 8
  {
    ValueOfBound(s);
    ShiftBound(ValueOf(s), |s|);
    ValueOf(s) * Pow2(8 - |s|)
  }

  /** `byte <<= 8 - nBits`: the nb pending bits of acc moved to the high end of a byte. */
  function ShiftUp(acc: nat, nb: nat): nat
    requires nb <= 8
  {
    acc * Pow2(8 - nb)
  }

  /** The bytes a bit stream is packed into: eight bits per byte, the last byte zero-padded. */
  function Pack(s: seq<bool>): seq<byte>
    decreases |s|
  {
    if |s| == 0 then []
    else if |s| <= 8 then [PadByte(s)]
    else [PadByte(s[..8])] + Pack(s[8..])
  }

  /** The bits of a byte string, each byte most significant bit first. */
  function Unpack(bs: seq<byte>): (s: seq<bool>)
    ensures |s| == 8 * |bs|
  {
    if bs == [] then [] else CodeBits(bs[0], 8) + Unpack(bs[1..])
  }

  lemma {:induction false} PackLength(s: seq<bool>)
    ensures |Pack(s)| == CeilDiv8(|s|)
    decreases |s|
  {
    if |s| > 8 {
      PackLength(s[8..]);
    }
  }

  lemma {:induction false} PackAppend(s: seq<bool>, t: seq<bool>)
    requires |s| % 8 == 0
    ensures Pack(s + t) == Pack(s) + Pack(t)
    decreases |s|
  {
    if s == [] {
      assert s + t == t;
    } else if t == [] {
      assert s + t == s;
    } else {
      var u := s + t;
      assert |u| > 8;
      assert u[..8] == s[..8];
      assert u[8..] == s[8..] + t;
      assert Pack(u) == [PadByte(s[..8])] + Pack(s[8..] + t);
      PackAppend(s[8..], t);
      if |s| == 8 {
        assert s[..8] == s;
        assert s[8..] + t == t;
        assert Pack(s) == [PadByte(s)];
      } else {
        assert Pack(s) == [PadByte(s[..8])] + Pack(s[8..]);
      }
    }
  }

  /** The byte a string of at most eight bits is padded into unpacks to those bits followed by zeros. */
  lemma PadByteBits(s: seq<bool>)
    requires |s| <= 8
    ensures CodeBits(PadByte(s), 8) == s + Zeros(8 - |s|)
  {
    CodeBitsShift(ValueOf(s), |s|, 8 - |s|);
    CodeBitsOfValue(s);
  }

  /** Unpacking a packed stream gives the stream back followed by the zero pad bits. */
  lemma {:induction false} UnpackPack(s: seq<bool>)
    ensures Unpack(Pack(s)) == s + Zeros(8 * CeilDiv8(|s|) - |s|)
    decreases |s|
  {
    if |s| == 0 {
    } else if |s| <= 8 {
      PadByteBits(s);
      assert CeilDiv8(|s|) == 1;
    } else {
      PadByteBits(s[..8]);
      UnpackPack(s[8..]);
      assert CeilDiv8(|s|) == 1 + CeilDiv8(|s| - 8);
      assert s == s[..8] + s[8..];
    }
  }

  lemma {:induction false} UnpackAppend(a: seq<byte>, b: seq<byte>)
    ensures Unpack(a + b) == Unpack(a) + Unpack(b)
  {
    if a != [] {
      assert (a + b)[1..] == a[1..] + b;
      UnpackAppend(a[1..], b);
    } else {
      assert a + b == b;
    }
  }

  /** Bit k of the unpacked stream is bit 7 - (k % 8) of byte k / 8: C's `(b >> (7 - k)) & 1`. */
  lemma {:induction false} UnpackAt(bs: seq<byte>, i: nat, k: nat)
    requires i < |bs| && k < 8
    ensures Unpack(bs)[8 * i + k] == BitAt(bs[i], 7 - k)
  {
    if i == 0 {
      CodeBitsAt(bs[0], 8, k);
    } else {
      UnpackAt(bs[1..], i - 1, k);
      assert Unpack(bs)[8 * i + k] == Unpack(bs[1..])[8 * (i - 1) + k];
    }
  }

  lemma UnpackTake(bs: seq<byte>, n: nat)
    requires n <= |bs|
    ensures Unpack(bs[..n]) == Unpack(bs)[..8 * n]
  {
    UnpackAppend(bs[..n], bs[n..]);
    assert bs[..n] + bs[n..] == bs;
  }

  lemma UnpackDrop(bs: seq<byte>, n: nat)
    requires n <= |bs|
    ensures Unpack(bs[n..]) == Unpack(bs)[8 * n..]
  {
    UnpackAppend(bs[..n], bs[n..]);
    assert bs[..n] + bs[n..] == bs;
  }

  // ---------------------------------------------------------------------------
  // The byte accumulator of the encoders: a byte `acc` holding `nb` pending bits

  /**
   * After emitting the bits e, the flushed bytes `out` hold the first
   * 8 * |out| of them and `acc` holds the remaining nb < 8.
   */
  ghost predicate Accumulating(out: seq<byte>, acc: nat, nb: nat, e: seq<bool>)
  {
    && nb < 8
    && |e| == 8 * |out| + nb
    && out == Pack(e[..8 * |out|])
    && acc == ValueOf(e[8 * |out|..])
  }

  lemma AccumulatingStart()
    ensures Accumulating([], 0, 0, [])
  {
  }

  /** `acc = (acc << 1) | bit`, flushing the byte when it holds eight bits. */
  lemma PushBit(out: seq<byte>, acc: nat, nb: nat, e: seq<bool>, b: bool)
    requires Accumulating(out, acc, nb, e)
    ensures 2 * acc + (if b then 1 else 0) < 256
    ensures nb + 1 == 8 ==> Accumulating(out + [2 * acc + (if b then 1 else 0)], 0, 0, e + [b])
    ensures nb + 1 < 8 ==> Accumulating(out, 2 * acc + (if b then 1 else 0), nb + 1, e + [b])
  {
    var k := 8 * |out|;
    var e' := e + [b];
    var bit := if b then 1 else 0;
    assert e'[..k] == e[..k];
    assert e'[k..] == e[k..] + [b];
    ValueOfSnoc(e[k..], b);
    ValueOfBound(e'[k..]);
    assert 2 * acc + bit == ValueOf(e'[k..]);
    if nb + 1 == 8 {
      assert Pow2(8) == 256;
      assert e'[..k + 8] == e'[..k] + e'[k..];
      PackAppend(e'[..k], e'[k..]);
      assert e'[k..][..8] == e'[k..];
      assert Pack(e'[k..]) == [PadByte(e'[k..])];
      assert e'[8 * |out + [2 * acc + bit]|..] == [];
    } else {
      Pow2Mono(nb + 1, 7);
      assert Pow2(7) == 128;
    }
  }

  /** `if (nBits > 0) byte <<= 8 - nBits` and write it: the bytes written are Pack of every bit emitted. */
  lemma Flush(out: seq<byte>, acc: nat, nb: nat, e: seq<bool>)
    requires Accumulating(out, acc, nb, e)
    ensures ShiftUp(acc, nb) < 256
    ensures (if nb > 0 then out + [ShiftUp(acc, nb)] else out) == Pack(e)
  {
    var k := 8 * |out|;
    var tail := e[k..];
    assert e == e[..k] + tail;
    PackAppend(e[..k], tail);
    assert PadByte(tail) == ShiftUp(acc, nb);
    if nb == 0 {
      assert tail == [];
      assert e[..k] == e;
    }
  }

  // ---------------------------------------------------------------------------
  // The bit stream a byte string is encoded into

  /**
   * The concatenation of the codes of the bytes of data; codes[c] is the code
   * of byte c (empty for a byte that contributes no bits).
   */
  function Encode(codes: seq<seq<bool>>, data: seq<byte>): seq<bool>
    requires |codes| == 256
  {
    if data == [] then [] else Encode(codes, data[..|data| - 1]) + codes[data[|data| - 1]]
  }

  lemma {:induction false} EncodeAppend(codes: seq<seq<bool>>, a: seq<byte>, b: seq<byte>)
    requires |codes| == 256
    ensures Encode(codes, a + b) == Encode(codes, a) + Encode(codes, b)
    decreases |b|
  {
    if b == [] {
      assert a + b == a;
    } else {
      var b', x := b[..|b| - 1], b[|b| - 1];
      assert (a + b)[..|a + b| - 1] == a + b' && (a + b)[|a + b| - 1] == x;
      calc {
        Encode(codes, a + b);
        Encode(codes, a + b') + codes[x];
        { EncodeAppend(codes, a, b'); }
        Encode(codes, a) + Encode(codes, b') + codes[x];
        Encode(codes, a) + Encode(codes, b);
      }
    }
  }

  lemma EncodeCons(codes: seq<seq<bool>>, x: byte, data: seq<byte>)
    requires |codes| == 256
    ensures Encode(codes, [x] + data) == codes[x] + Encode(codes, data)
  {
    EncodeAppend(codes, [x], data);
    assert [x][..0] == [];
  }

  /** The total number of bits the bytes of data are encoded into. */
  function EncodedLength(codes: seq<seq<bool>>, data: seq<byte>): (n: nat)
    requires |codes| == 256
    ensures n == |Encode(codes, data)|
  {
    if data == [] then 0 else EncodedLength(codes, data[..|data| - 1]) + |codes[data[|data| - 1]]|
  }

  /** No code longer than m bits: the encoding of data is at most m bits per byte. */
  lemma {:induction false} EncodeBound(codes: seq<seq<bool>>, data: seq<byte>, m: nat)
    requires |codes| == 256 && forall c: byte :: |codes[c]| <= m
    ensures |Encode(codes, data)| <= m * |data|
  {
    if data != [] {
      EncodeBound(codes, data[..|data| - 1], m);
    }
  }

  /** A count converted to a C `int`: the low 32 bits, read as two's complement. */
  function Int32Of(v: nat): (r: int)
    ensures v < 0x8000_0000 ==> r == v
  {
    var w := v % 0x1_0000_0000;
    if w >= 0x8000_0000 then w - 0x1_0000_0000 else w
  }
}
