/** The bit-addressable buffer of lib/bitset.js.  Bit 0 is the most
    significant bit of byte 0.  Positions at or beyond `count` are reported
    with the sentinel -1 instead of an error, and that sentinel takes part in
    `read`'s 32-bit arithmetic. */
module Bits {
  import opened Common

  /** `count` is fixed by the size given at construction, independently of
      how many bytes the wrapped buffer really has: a position below `count`
      whose byte is missing reads as 0 (JavaScript's `undefined & mask`) and
      writes to it are dropped, as typed-array stores past the end are. */
  datatype Bitset = Bitset(count: nat, bytes: seq<Byte>)

  /** The bitset owns exactly `count / 8` bytes. */
  predicate Sized(b: Bitset) {
    b.count == 8 * |b.bytes|
  }

  /** `new Bitset(size)`: a zero-filled buffer of `size` bytes. */
  function Create(size: nat): (b: Bitset)
    ensures Sized(b) && b.count == size * 8
    ensures forall p: nat :: p < b.count ==> Get(b, p) == 0
  {
    Bitset(size * 8, seq(size, _ => 0 as bv8))
  }

  /** `new Bitset(size, buffer)`: `count` comes from `size`, not from the buffer. */
  function Wrap(size: nat, buffer: seq<Byte>): Bitset {
    Bitset(size * 8, buffer)
  }

  /** The mask `1 << (7 - position % 8)` that selects a position inside its byte,
      tabulated (MaskAtIsShift proves it equal to the shift). */
  function MaskAt(p: nat): Byte {
    var k := p % 8;
    if k == 0 then 0x80 else if k == 1 then 0x40 else if k == 2 then 0x20 else if k == 3 then 0x10
    else if k == 4 then 0x08 else if k == 5 then 0x04 else if k == 6 then 0x02 else 0x01
  }

  lemma MaskAtIsShift(p: nat)
    ensures MaskAt(p) == (1 as bv8) << (7 - p % 8)
  {
  }

  function Get(b: Bitset, p: nat): (r: int)
    ensures -1 <= r <= 1
    ensures r == -1 <==> p >= b.count
  {
    if p >= b.count then -1
    else if p / 8 < |b.bytes| && Selected(b.bytes[p / 8], p) then 1
    else 0
  }

  /** Whether the bit of position p is set in its byte `x`. */
  predicate Selected(x: Byte, p: nat) {
    x & MaskAt(p) != 0
  }

  /** Two different positions of the same byte select different bits. */
  lemma MaskAtDistinct(p: nat, q: nat, x: Byte)
    requires p != q && p / 8 == q / 8
    ensures (x | MaskAt(p)) & MaskAt(q) == x & MaskAt(q)
    ensures (x & !MaskAt(p)) & MaskAt(q) == x & MaskAt(q)
  {
    assert p % 8 != q % 8;
  }

  lemma MaskAtSelf(p: nat, x: Byte)
    ensures (x | MaskAt(p)) & MaskAt(p) != 0
    ensures (x & !MaskAt(p)) & MaskAt(p) == 0
  {
  }

  /** The byte update shared by `set` (`|= mask`) and `unset` (`&= ~mask`). */
  function PutBit(b: Bitset, p: nat, one: bool): (r: Bitset)
    ensures r.count == b.count && |r.bytes| == |b.bytes|
  {
    if p < b.count && p / 8 < |b.bytes| then
      var x := b.bytes[p / 8];
      b.(bytes := b.bytes[p / 8 := if one then x | MaskAt(p) else x & !MaskAt(p)])
    else b
  }

  /** The selected bit of a byte after `|= mask` / `&= ~mask`. */
  lemma SelectAfterPut(x: Byte, p: nat, q: nat, one: bool)
    requires p / 8 == q / 8
    ensures Selected(if one then x | MaskAt(p) else x & !MaskAt(p), q) == if q == p then one else Selected(x, q)
  {
    if q == p {
      MaskAtSelf(p, x);
    } else {
      MaskAtDistinct(p, q, x);
    }
  }

  lemma GetPutBitSameByte(b: Bitset, p: nat, one: bool, q: nat)
    requires p < b.count && p / 8 < |b.bytes| && q / 8 == p / 8
    ensures Get(PutBit(b, p, one), q) == if q == p then (if one then 1 else 0) else Get(b, q)
  {
    var x := b.bytes[p / 8];
    var r := PutBit(b, p, one);
    assert r.bytes[q / 8] == if one then x | MaskAt(p) else x & !MaskAt(p);
    SelectAfterPut(x, p, q, one);
  }

  lemma GetPutBit(b: Bitset, p: nat, one: bool, q: nat)
    ensures Get(PutBit(b, p, one), q)
         == if q == p && p < b.count && p / 8 < |b.bytes| then (if one then 1 else 0) else Get(b, q)
  {
    if p < b.count && p / 8 < |b.bytes| {
      if q / 8 == p / 8 {
        GetPutBitSameByte(b, p, one, q);
      } else {
        var r := PutBit(b, p, one);
        assert q / 8 < |b.bytes| ==> r.bytes[q / 8] == b.bytes[q / 8];
      }
    }
  }

  function Set(b: Bitset, p: nat): (r: (Bitset, int))
    ensures r.0.count == b.count && |r.0.bytes| == |b.bytes|
    ensures p >= b.count ==> r == (b, -1)
    ensures p < b.count ==> r.1 == 0
    ensures p < b.count && p / 8 < |b.bytes| ==> Get(r.0, p) == 1
    ensures forall q: nat :: q != p ==> Get(r.0, q) == Get(b, q)
  {
    if p >= b.count then (b, -1)
    else
      var r := PutBit(b, p, true);
      assert forall q: nat :: Get(r, q) == if q == p && p / 8 < |b.bytes| then 1 else Get(b, q) by {
        forall q: nat {
          GetPutBit(b, p, true, q);
        }
      }
      (r, 0)
  }

  function Unset(b: Bitset, p: nat): (r: (Bitset, int))
    ensures r.0.count == b.count && |r.0.bytes| == |b.bytes|
    ensures p >= b.count ==> r == (b, -1)
    ensures p < b.count ==> r.1 == 0 && Get(r.0, p) == 0
    ensures forall q: nat :: q != p ==> Get(r.0, q) == Get(b, q)
  {
    if p >= b.count then (b, -1)
    else
      var r := PutBit(b, p, false);
      assert forall q: nat :: Get(r, q) == if q == p && p / 8 < |b.bytes| then 0 else Get(b, q) by {
        forall q: nat {
          GetPutBit(b, p, false, q);
        }
      }
      (r, 0)
  }

  /** One turn of `read`'s loop, `value = (value << 1) | bit`, on the unsigned
      32-bit pattern of `value`; or-ing the sentinel -1 sets all 32 bits. */
  function Shift(acc: int, bit: int): int
    requires 0 <= acc < U32 && -1 <= bit <= 1
  {
    if bit == -1 then U32 - 1
    else if 2 * acc >= U32 then 2 * acc - U32 + bit  // `<< 1` drops the top bit
    else 2 * acc + bit
  }

  /** `read(position, length)`; the final `>>> 0` is the unsigned pattern itself. */
  function Read(b: Bitset, p: nat, len: nat): (r: int)
    ensures 0 <= r < U32
    ensures len >= 1 && p + len > b.count ==> r == U32 - 1
  {
    if len == 0 then 0 else Shift(Read(b, p, len - 1), Get(b, p + len - 1))
  }

  /** Reference meaning of a field: Σ get(p+i)·2^(len-1-i), most significant bit first. */
  function Weighted(b: Bitset, p: nat, len: nat): int
    decreases len
  {
    if len == 0 then 0 else Get(b, p) * Pow2(len - 1) + Weighted(b, p + 1, len - 1)
  }

  lemma {:induction false} WeightedSnoc(b: Bitset, p: nat, len: nat)
    requires len >= 1
    ensures Weighted(b, p, len) == 2 * Weighted(b, p, len - 1) + Get(b, p + len - 1)
    decreases len
  {
    if len > 1 {
      var g, k, y, t := Get(b, p), Pow2(len - 2), Weighted(b, p + 1, len - 2), Get(b, p + len - 1);
      WeightedSnoc(b, p + 1, len - 1);
      assert Weighted(b, p + 1, len - 1) == 2 * y + t;
      assert Weighted(b, p, len - 1) == g * k + y;
      assert Weighted(b, p, len) == g * (2 * k) + (2 * y + t);
      SnocStep(g, k, y, t);
    }
  }

  /** The arithmetic of one WeightedSnoc step: g·2k + (2y + t) = 2(g·k + y) + t. */
  lemma SnocStep(g: int, k: int, y: int, t: int)
    ensures g * (2 * k) + (2 * y + t) == 2 * (g * k + y) + t
  {
  }

  lemma {:induction false} WeightedBounds(b: Bitset, p: nat, len: nat)
    requires p + len <= b.count
    ensures 0 <= Weighted(b, p, len) < Pow2(len)
    ensures len >= 1 ==> (Get(b, p) == 1 <==> Weighted(b, p, len) >= Pow2(len - 1))
    decreases len
  {
    if len >= 1 {
      WeightedBounds(b, p + 1, len - 1);
      BitStep(Get(b, p), Pow2(len - 1), Weighted(b, p + 1, len - 1));
    }
  }

  /** A leading bit g above a value y < k: the sum stays below 2k and reaches k exactly when g is set. */
  lemma BitStep(g: int, k: int, y: int)
    requires 0 <= g <= 1 && 0 <= y < k
    ensures 0 <= g * k + y < 2 * k
    ensures g == 1 <==> g * k + y >= k
  {
  }

  /** Inside the buffer, `read` of at most 32 bits is the MSB-first value of those bits. */
  lemma {:induction false} ReadIsWeightedSum(b: Bitset, p: nat, len: nat)
    requires p + len <= b.count && len <= 32
    ensures Read(b, p, len) == Weighted(b, p, len)
    ensures Read(b, p, len) < Pow2(len)
  {
    WeightedBounds(b, p, len);
    if len >= 1 {
      ReadIsWeightedSum(b, p, len - 1);
      WeightedSnoc(b, p, len);
      Pow2Word(len);
      ShiftIn(Read(b, p, len - 1), Get(b, p + len - 1), Pow2(len - 1));
    }
  }

  /** Below 2^31 the doubling in Shift never wraps. */
  lemma ShiftIn(acc: int, bit: int, m: int)
    requires 0 <= acc < m && 2 * m <= U32 && 0 <= bit <= 1
    ensures Shift(acc, bit) == 2 * acc + bit
  {
  }

  function Bit(x: Byte, p: nat): int {
    if Selected(x, p) then 1 else 0
  }

  lemma ByteValue(x: Byte)
    ensures x as int == 128 * Bit(x, 0) + 64 * Bit(x, 1) + 32 * Bit(x, 2) + 16 * Bit(x, 3)
                        + 8 * Bit(x, 4) + 4 * Bit(x, 5) + 2 * Bit(x, 6) + Bit(x, 7)
  {
  }

  lemma GetInByte(b: Bitset, i: nat, j: nat)
    requires Sized(b) && i < |b.bytes| && j < 8
    ensures Get(b, 8 * i + j) == Bit(b.bytes[i], j)
  {
    assert (8 * i + j) / 8 == i && (8 * i + j) % 8 == j;
    assert MaskAt(8 * i + j) == MaskAt(j);
  }

  /** Two positions with the same offset inside equal bytes read alike. */
  lemma GetSameBit(b: Bitset, p: nat, c: Bitset, q: nat)
    requires p < b.count && q < c.count && p % 8 == q % 8
    requires (p / 8 < |b.bytes|) == (q / 8 < |c.bytes|)
    requires p / 8 < |b.bytes| ==> b.bytes[p / 8] == c.bytes[q / 8]
    ensures Get(b, p) == Get(c, q)
  {
    MaskAtResidue(p);
    MaskAtResidue(q);
  }

  /** The mask depends on the position only through its residue. */
  lemma MaskAtResidue(p: nat)
    ensures MaskAt(p) == MaskAt(p % 8)
  {
    assert (p % 8) % 8 == p % 8;
  }

  /** Bit 0 is the most significant bit of byte 0: reading the 8 bits of a
      byte, in order, gives that byte's value. */
  lemma ReadByte(b: Bitset, i: nat, n: nat)
    requires Sized(b) && i < |b.bytes| && n == 8
    ensures Read(b, 8 * i, n) == b.bytes[i] as int
  {
    var x := b.bytes[i];
    var p := 8 * i;
    ByteGets(b, i);
    ReadEightBits(b, p, n, Bit(x, 0), Bit(x, 1), Bit(x, 2), Bit(x, 3), Bit(x, 4), Bit(x, 5), Bit(x, 6), Bit(x, 7));
    ByteValue(x);
  }

  lemma ByteGets(b: Bitset, i: nat)
    requires Sized(b) && i < |b.bytes|
    ensures var x, p := b.bytes[i], 8 * i;
      Get(b, p) == Bit(x, 0) && Get(b, p + 1) == Bit(x, 1) && Get(b, p + 2) == Bit(x, 2) && Get(b, p + 3) == Bit(x, 3) &&
      Get(b, p + 4) == Bit(x, 4) && Get(b, p + 5) == Bit(x, 5) && Get(b, p + 6) == Bit(x, 6) && Get(b, p + 7) == Bit(x, 7)
  {
    ByteGetsHalf(b, i, 0);
    ByteGetsHalf(b, i, 4);
  }

  lemma ByteGetsHalf(b: Bitset, i: nat, j: nat)
    requires Sized(b) && i < |b.bytes| && j <= 4
    ensures var x, p := b.bytes[i], 8 * i + j;
      Get(b, p) == Bit(x, j) && Get(b, p + 1) == Bit(x, j + 1) && Get(b, p + 2) == Bit(x, j + 2) && Get(b, p + 3) == Bit(x, j + 3)
  {
    GetInByte(b, i, j);
    GetInByte(b, i, j + 1);
    GetInByte(b, i, j + 2);
    GetInByte(b, i, j + 3);
  }

  lemma ReadEightBits(b: Bitset, p: nat, n: nat, g0: int, g1: int, g2: int, g3: int, g4: int, g5: int, g6: int, g7: int)
    requires n == 8 && p + n <= b.count
    requires Get(b, p) == g0 && Get(b, p + 1) == g1 && Get(b, p + 2) == g2 && Get(b, p + 3) == g3
    requires Get(b, p + 4) == g4 && Get(b, p + 5) == g5 && Get(b, p + 6) == g6 && Get(b, p + 7) == g7
    ensures Read(b, p, n) == 128 * g0 + 64 * g1 + 32 * g2 + 16 * g3 + 8 * g4 + 4 * g5 + 2 * g6 + g7
  {
    ReadIsWeightedSum(b, p, n);
    WeightedOfByte2(b, p, n);
  }

  /** Unrolls one step of Weighted, for a length the verifier should not unfold further. */
  lemma WeightedStep(b: Bitset, p: nat, len: nat, w: int)
    requires len >= 1 && w == Pow2(len - 1)
    ensures Weighted(b, p, len) == w * Get(b, p) + Weighted(b, p + 1, len - 1)
  {
  }

  lemma WeightedOfByte2(b: Bitset, p: nat, n: nat)
    requires n == 8
    ensures Weighted(b, p, n) == 128 * Get(b, p) + 64 * Get(b, p + 1) + 32 * Get(b, p + 2) + 16 * Get(b, p + 3)
          + 8 * Get(b, p + 4) + 4 * Get(b, p + 5) + 2 * Get(b, p + 6) + Get(b, p + 7)
  {
    Pow2Values();
    assert Pow2(7) == 128 && Pow2(6) == 64 && Pow2(5) == 32 && Pow2(4) == 16;
    assert Pow2(3) == 8 && Pow2(2) == 4;
    WeightedStep(b, p, n, 128);
    WeightedStep(b, p + 1, n - 1, 64);
    WeightedStep(b, p + 2, n - 2, 32);
    WeightedStep(b, p + 3, n - 3, 16);
    WeightedStep(b, p + 4, n - 4, 8);
    WeightedStep(b, p + 5, n - 5, 4);
    WeightedStep(b, p + 6, n - 6, 2);
    WeightedStep(b, p + 7, n - 7, 1);
    assert Weighted(b, p + 8, n - 8) == 0;
  }
  /** `write`'s loop once `value` is a 32-bit integer: the low bit goes to
      the last position of the span, then `value >> 1` fills the rest. */
  function WriteBits(b: Bitset, p: nat, len: nat, w: int): (r: Bitset)
    ensures r.count == b.count && |r.bytes| == |b.bytes|
    ensures forall q: nat :: q < p || q >= p + len ==> Get(r, q) == Get(b, q)
    decreases len
  {
    if len == 0 then b
    else
      var b' := PutBit(b, p + len - 1, w % 2 == 1);
      var r := WriteBits(b', p, len - 1, w / 2);
      assert forall q: nat :: q < p || q >= p + len ==> Get(r, q) == Get(b, q) by {
        forall q: nat | q < p || q >= p + len {
          GetPutBit(b, p + len - 1, w % 2 == 1, q);
        }
      }
      r
  }

  /** `write(position, length, value)`: the first `value & 0x01` already sees `value` as ToInt32. */
  function Write(b: Bitset, p: nat, len: nat, v: int): (r: Bitset)
    ensures r.count == b.count && |r.bytes| == |b.bytes|
    ensures forall q: nat :: q < p || q >= p + len ==> Get(r, q) == Get(b, q)
  {
    WriteBits(b, p, len, ToInt32(v))
  }

  /** Bit i of an integer as `>>` and `& 1` see it: i halvings, then the low bit. */
  function BitOf(w: int, i: nat): int
    decreases i
  {
    if i == 0 then w % 2 else BitOf(w / 2, i - 1)
  }

  /** `write` puts bit i of the value at position p+len-1-i. */
  lemma {:induction false} WritePlacesBits(b: Bitset, p: nat, len: nat, v: int, i: nat)
    requires Sized(b) && i < len && p + len - 1 - i < b.count
    ensures Get(Write(b, p, len, v), p + len - 1 - i) == BitOf(ToInt32(v), i)
  {
    WriteBitsPlacesBits(b, p, len, ToInt32(v), i);
  }

  lemma {:induction false} WriteBitsPlacesBits(b: Bitset, p: nat, len: nat, w: int, i: nat)
    requires Sized(b) && i < len && p + len - 1 - i < b.count
    ensures Get(WriteBits(b, p, len, w), p + len - 1 - i) == BitOf(w, i)
    decreases len
  {
    if i > 0 {
      var b' := PutBit(b, p + len - 1, w % 2 == 1);
      WriteBitsPlacesBits(b', p, len - 1, w / 2, i - 1);
      WriteBitsEarlier(b, p, len, w, i, b');
    } else {
      WriteBitsLast(b, p, len, w);
    }
  }

  /** Bits before the last come from the rest of the loop, which writes w / 2. */
  lemma WriteBitsEarlier(b: Bitset, p: nat, len: nat, w: int, i: nat, b': Bitset)
    requires 0 < i < len && b' == PutBit(b, p + len - 1, w % 2 == 1)
    requires Get(WriteBits(b', p, len - 1, w / 2), p + (len - 1) - 1 - (i - 1)) == BitOf(w / 2, i - 1)
    ensures Get(WriteBits(b, p, len, w), p + len - 1 - i) == BitOf(w, i)
  {
    WriteBitsUnfold(b, p, len, w);
  }

  /** Reading back what was written gives the written value modulo 2^len. */
  lemma {:induction false} ReadAfterWriteBits(b: Bitset, p: nat, len: nat, w: int)
    requires Sized(b) && p + len <= b.count && len <= 32
    ensures Read(WriteBits(b, p, len, w), p, len) == w % Pow2(len)
    decreases len
  {
    if len >= 1 {
      var b' := PutBit(b, p + len - 1, w % 2 == 1);
      var r := WriteBits(b', p, len - 1, w / 2);
      WriteBitsUnfold(b, p, len, w);
      ReadAfterWriteBits(b', p, len - 1, w / 2);
      WriteBitsLast(b, p, len, w);
      Pow2Word(len);
      ShiftLowBit(w, Pow2(len - 1));
      assert Read(r, p, len) == Shift(Read(r, p, len - 1), Get(r, p + len - 1));
    }
  }

  /** The first turn of `write`'s loop stores the low bit at the end of the span. */
  lemma WriteBitsLast(b: Bitset, p: nat, len: nat, w: int)
    requires len >= 1 && p + len <= b.count && Sized(b)
    ensures Get(WriteBits(b, p, len, w), p + len - 1) == w % 2
  {
    var last, one := p + len - 1, w % 2 == 1;
    var b' := PutBit(b, last, one);
    WriteBitsUnfold(b, p, len, w);
    WriteBitsBeyond(b', p, len - 1, w / 2, last);
    GetPutBitHere(b, last, one);
  }

  lemma WriteBitsUnfold(b: Bitset, p: nat, len: nat, w: int)
    requires len >= 1
    ensures WriteBits(b, p, len, w) == WriteBits(PutBit(b, p + len - 1, w % 2 == 1), p, len - 1, w / 2)
  {
  }

  lemma GetPutBitHere(b: Bitset, p: nat, one: bool)
    requires p < b.count && Sized(b)
    ensures Get(PutBit(b, p, one), p) == if one then 1 else 0
  {
    GetPutBitSameByte(b, p, one, p);
  }

  lemma WriteBitsBeyond(b: Bitset, p: nat, len: nat, w: int, q: nat)
    requires q >= p + len
    ensures Get(WriteBits(b, p, len, w), q) == Get(b, q)
  {
  }

  /** Shifting in the low bit of w after its higher bits gives w modulo twice the modulus. */
  lemma ShiftLowBit(w: int, m: int)
    requires 1 <= m && 2 * m <= U32
    ensures Shift((w / 2) % m, w % 2) == w % (2 * m)
  {
    ModDouble(w, m);
  }

  /** Round trip: a value of at most `len` bits written inside the buffer reads back unchanged. */
  lemma ReadAfterWrite(b: Bitset, p: nat, len: nat, v: int)
    requires Sized(b) && p + len <= b.count && len <= 32
    ensures Read(Write(b, p, len, v), p, len) == v % Pow2(len)
    ensures 0 <= v < Pow2(len) ==> Read(Write(b, p, len, v), p, len) == v
  {
    ReadAfterWriteBits(b, p, len, ToInt32(v));
    Int32ModPow2(v, len);
    if 0 <= v < Pow2(len) {
      ModUnique(v, Pow2(len), 0, v);
    }
  }

  /** ToInt32 keeps the low 32 bits, hence every lower bit-field. */
  lemma Int32ModPow2(v: int, len: nat)
    requires len <= 32
    ensures ToInt32(v) % Pow2(len) == v % Pow2(len)
  {
    Pow2Split32(len);
    Int32ModDivisor(v, Pow2(len), Pow2(32 - len));
  }

  lemma Int32ModDivisor(v: int, d: int, e: int)
    requires d > 0 && e > 0 && d * e == U32
    ensures ToInt32(v) % d == v % d
  {
    var u := v % U32;
    assert u % d == v % d by { ModOfMod(v, d, e); }
    if u >= I32 {
      assert ToInt32(v) == u + d * (-e) by { assert d * (-e) == -(d * e); }
      ModAddMultiple(u, d, -e);
    }
  }
}
