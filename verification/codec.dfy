/** The field decoders of lib/protocol.js.  Each one reads a variable of a
    command out of the frame's data bitset, given the variable's start bit and
    bit length, with JavaScript's 32-bit operators written out. */
module Codec {
  import opened Common
  import opened Bits
  import opened Schema

  /** `x & y` on two unsigned bit patterns, taking the k low bits. */
  function AndBits(x: nat, y: nat, k: nat): (r: nat)
    ensures r < Pow2(k)
    decreases k
  {
    if k == 0 then 0
    else 2 * AndBits(x / 2, y / 2, k - 1) + (if x % 2 == 1 && y % 2 == 1 then 1 else 0)
  }

  /** ECMAScript `a & b` on integral numbers. */
  function And32(a: int, b: int): (r: int)
    ensures -I32 <= r < I32
  {
    ToInt32(AndBits(ToUint32(a), ToUint32(b), 32))
  }

  /** ECMAScript `~a`: the bit pattern of the result is the complement of a's. */
  function Not32(a: int): (r: int)
    ensures ToUint32(r) == U32 - 1 - ToUint32(a)
  {
    var t := ToInt32(a);
    var u := ToUint32(a);
    ModUnique(-t - 1, U32, if t == u then -1 else 0, U32 - 1 - u);
    -t - 1
  }

  /** `1 << n`: the count is taken modulo 32 and the result read as an int32. */
  function ShiftLeftOne(n: nat): int {
    ToInt32(Pow2(n % 32))
  }

  /** `a >> n`: arithmetic shift of the int32 reading, the count taken modulo 32. */
  function ShiftRight(a: int, n: nat): int {
    ToInt32(a) / Pow2(n % 32)
  }

  /** `mask` after `for (n = 0; n < L; n++) mask += (1 << n)`; the sum is a plain
      number and is not wrapped. */
  function MaskSum(L: nat): int {
    if L == 0 then 0 else MaskSum(L - 1) + ShiftLeftOne(L - 1)
  }

  lemma {:induction false} MaskSumSmall(L: nat)
    requires L <= 31
    ensures MaskSum(L) == Pow2(L) - 1
  {
    if L > 0 {
      MaskSumSmall(L - 1);
      ShiftLeftOneSmall(L - 1);
    }
  }

  lemma ShiftLeftOneSmall(n: nat)
    requires n <= 30
    ensures ShiftLeftOne(n) == Pow2(n)
  {
    assert n % 32 == n;
    Pow2Word(n);
    ToInt32Small(Pow2(n));
  }

  /** For every field length up to 32, the loop builds a mask whose 32-bit
      pattern has exactly the L low bits set (for L = 32 the sum is -1). */
  lemma MaskSumLow(L: nat)
    requires L <= 32
    ensures ToUint32(MaskSum(L)) == Pow2(L) - 1
  {
    if L <= 31 {
      MaskSumSmall(L);
      Pow2Word(L);
      ToUint32Small(Pow2(L) - 1);
    } else {
      MaskSumFull(L);
    }
  }

  /** At 32 bits `1 << 31` is -2^31 and the sum comes to -1. */
  lemma MaskSumFull(L: nat)
    requires L == 32
    ensures ToUint32(MaskSum(L)) == Pow2(L) - 1
  {
    MaskSumSmall(L - 1);
    Pow2Word(L - 1);
    Pow2Word(L);
    assert (L - 1) % 32 == L - 1;
    Int32Wraps();
    assert ShiftLeftOne(L - 1) == -I32;
    assert MaskSum(L) == -1;
  }

  lemma {:induction false} AndZero(x: nat, k: nat)
    ensures AndBits(x, 0, k) == 0 && AndBits(0, x, k) == 0
    decreases k
  {
    if k > 0 {
      AndZero(x / 2, k - 1);
    }
  }

  /** And-ing with the L-low-bits mask keeps x modulo 2^L. */
  lemma {:induction false} AndLowMask(x: nat, L: nat, k: nat)
    requires L <= k
    ensures AndBits(x, Pow2(L) - 1, k) == x % Pow2(L)
    decreases k
  {
    var p := Pow2(L);
    if L == 0 {
      assert p == 1;
      AndZero(x, k);
    } else {
      var m := Pow2(L - 1);
      assert p == 2 * m;
      AndLowMask(x / 2, L - 1, k - 1);
      AndLowStep(x, m, p, k, AndBits(x / 2, m - 1, k - 1));
    }
  }

  /** One bit of AndLowMask: with the mask 2m - 1 the low bit of x survives
      and the rest is the halves and-ed with m - 1. */
  lemma AndLowStep(x: nat, m: nat, p: nat, k: nat, rest: nat)
    requires m >= 1 && p == 2 * m && k >= 1 && rest == AndBits(x / 2, m - 1, k - 1) && rest == (x / 2) % m
    ensures AndBits(x, p - 1, k) == x % p
  {
    HalveMask(m);
    assert AndBits(x, 2 * m - 1, k) == 2 * rest + x % 2;
    ModDouble(x, m);
  }

  /** The low-bits mask 2m - 1 has its low bit set and halves to m - 1. */
  lemma HalveMask(m: int)
    requires m >= 1
    ensures (2 * m - 1) / 2 == m - 1 && (2 * m - 1) % 2 == 1
  {
  }

  /** Complementing a value of the field within 32 bits and keeping the L low
      bits gives its complement within L bits. */
  lemma ComplementInField(raw: int, L: nat)
    requires 1 <= L <= 32 && 0 <= raw < Pow2(L)
    ensures (U32 - 1 - raw) % Pow2(L) == Pow2(L) - 1 - raw
  {
    Pow2Split32(L);
    ComplementSplit(raw, Pow2(L), Pow2(32 - L));
  }

  lemma ComplementSplit(raw: int, d: int, e: int)
    requires d * e == U32 && 0 <= raw < d
    ensures (U32 - 1 - raw) % d == d - 1 - raw
  {
    assert U32 - 1 - raw == d * (e - 1) + (d - 1 - raw);
    ModUnique(U32 - 1 - raw, d, e - 1, d - 1 - raw);
  }

  /** The set-sign branch `-((~raw) & mask)` on a raw value whose top field bit
      is set: the complement of raw within the field's L bits. */
  lemma SignedComplement(raw: int, L: nat)
    requires 1 <= L <= 32 && Pow2(L - 1) <= raw < Pow2(L)
    ensures And32(Not32(raw), MaskSum(L)) == Pow2(L) - 1 - raw
  {
    Pow2Word(L);
    var c := Pow2(L) - 1 - raw;
    var u := ToUint32(Not32(raw));
    assert u == U32 - 1 - raw by {
      ToUint32Small(raw);
    }
    assert u % Pow2(L) == c by {
      ComplementInField(raw, L);
    }
    assert 0 <= c < I32 by {
      ComplementBelowHalf(raw, Pow2(L), Pow2(L - 1));
    }
    MaskSumLow(L);
    AndWithLowMask(Not32(raw), MaskSum(L), L);
    ToInt32Small(c);
  }

  lemma ComplementBelowHalf(raw: int, p: int, h: int)
    requires p == 2 * h && h <= raw < p && h <= I32
    ensures 0 <= p - 1 - raw < I32
  {
  }

  /** `a & mask` where mask's pattern is the L low bits. */
  lemma AndWithLowMask(a: int, mask: int, L: nat)
    requires L <= 32 && ToUint32(mask) == Pow2(L) - 1
    ensures And32(a, mask) == ToInt32(ToUint32(a) % Pow2(L))
  {
    AndLowMask(ToUint32(a), L, 32);
  }

  /** `_decodeInt`: the first bit of the field is a sign flag; when it is set
      the value is minus the complement of the raw bits within the field. */
  function DecodeInt(b: Bitset, s: nat, L: nat): int {
    var raw := Read(b, s, L);
    if Get(b, s) == 1 then -And32(Not32(raw), MaskSum(L)) else raw
  }

  /** Inside the buffer the rule is ones' complement: a clear sign bit gives the
      raw value, a set one gives raw - (2^L - 1), so an all-ones field is 0. */
  lemma DecodeIntValue(b: Bitset, s: nat, L: nat)
    requires 1 <= L <= 32 && s + L <= b.count
    ensures Get(b, s) != 1 ==> DecodeInt(b, s, L) == Weighted(b, s, L)
    ensures Get(b, s) == 1 ==> DecodeInt(b, s, L) == Weighted(b, s, L) - (Pow2(L) - 1)
  {
    ReadIsWeightedSum(b, s, L);
    WeightedBounds(b, s, L);
    if Get(b, s) == 1 {
      SignedComplement(Read(b, s, L), L);
    }
  }

  /** The decoded value of an in-buffer field lies in ±(2^(L-1) - 1). */
  lemma DecodeIntRange(b: Bitset, s: nat, L: nat)
    requires 1 <= L <= 32 && s + L <= b.count
    ensures -(Pow2(L - 1) - 1) <= DecodeInt(b, s, L) <= Pow2(L - 1) - 1
  {
    DecodeIntValue(b, s, L);
    WeightedBounds(b, s, L);
    assert Pow2(L) == 2 * Pow2(L - 1);
  }

  /** A field that runs past the buffer reads as 2^32-1; with its first bit
      set (the first bit itself inside) that complements to 0. */
  lemma DecodeIntOutOfRange(b: Bitset, s: nat, L: nat)
    requires L >= 1 && s + L > b.count
    ensures DecodeInt(b, s, L) == if Get(b, s) == 1 then 0 else U32 - 1
  {
    if Get(b, s) == 1 {
      assert ToUint32(Not32(U32 - 1)) == 0;
      AndZero(ToUint32(MaskSum(L)), 32);
    }
  }

  /** The stored pattern of a signed value: itself when non-negative, and
      `(~(-v)) & mask` = 2^L - 1 + v when negative. */
  function OnesComplement(v: int, L: nat): int {
    if v >= 0 then v else Pow2(L) - 1 + v
  }

  /** Writing the ones' complement pattern and decoding it gives the value back,
      for every value the field can represent. */
  lemma DecodeIntInverts(b: Bitset, s: nat, L: nat, v: int)
    requires Sized(b) && 1 <= L <= 32 && s + L <= b.count
    requires -(Pow2(L - 1) - 1) <= v <= Pow2(L - 1) - 1
    ensures DecodeInt(Write(b, s, L, OnesComplement(v, L)), s, L) == v
  {
    var c := OnesComplement(v, L);
    assert Pow2(L) == 2 * Pow2(L - 1);
    assert 0 <= c < Pow2(L);
    assert c >= Pow2(L - 1) <==> v < 0;
    var b' := Write(b, s, L, c);
    ReadAfterWrite(b, s, L, c);
    ReadIsWeightedSum(b', s, L);
    WeightedBounds(b', s, L);
    DecodeIntValue(b', s, L);
  }

  /** `_decodeUint` is `read` itself. */
  function DecodeUint(b: Bitset, s: nat, L: nat): (r: int)
    ensures 0 <= r < U32
    ensures s + L <= b.count && L <= 32 ==> r == Weighted(b, s, L) && r < Pow2(L)
    ensures L >= 1 && s + L > b.count ==> r == U32 - 1
  {
    if s + L <= b.count && L <= 32 then
      ReadIsWeightedSum(b, s, L);
      Read(b, s, L)
    else
      Read(b, s, L)
  }

  /** `_decodeFloat`: the signed value in units of 1/64, exactly. */
  function DecodeFloat(b: Bitset, s: nat, L: nat): (r: real)
    ensures r * 64.0 == DecodeInt(b, s, L) as real
    ensures 1 <= L <= 32 && s + L <= b.count ==>
              -((Pow2(L - 1) - 1) as real) / 64.0 <= r <= (Pow2(L - 1) - 1) as real / 64.0
  {
    if 1 <= L <= 32 && s + L <= b.count then
      DecodeIntRange(b, s, L);
      DecodeInt(b, s, L) as real / 64.0
    else
      DecodeInt(b, s, L) as real / 64.0
  }

  /** Width of the window `_decodeAscii` reads for one character. */
  const CharBits: nat := 8

  /** `read(p, 8)`: below 256 inside the buffer, 2^32-1 past it. */
  function Octet(b: Bitset, p: nat): (r: int)
    ensures 0 <= r && (r < 256 || r == U32 - 1)
    ensures p + CharBits <= b.count ==> r < 256
  {
    OctetRange(b, p, CharBits);
    Read(b, p, CharBits)
  }

  lemma OctetRange(b: Bitset, p: nat, n: nat)
    requires n == 8
    ensures Read(b, p, n) < 256 || Read(b, p, n) == U32 - 1
    ensures p + n <= b.count ==> Read(b, p, n) == Weighted(b, p, n) && Read(b, p, n) < 256
  {
    Pow2Values();
    if p + n <= b.count {
      ReadIsWeightedSum(b, p, n);
    }
  }

  /** `String.fromCharCode(read(p, 8))`: the code is taken modulo 2^16, so the
      past-the-end value 2^32-1 becomes U+FFFF. */
  function CharAt(b: Bitset, p: nat): (c: char)
    ensures c as int == Octet(b, p) % 0x1_0000
  {
    FromCharCode(Octet(b, p))
  }

  function FromCharCode(code: int): (c: char)
    requires 0 <= code && (code < 256 || code == U32 - 1)
    ensures c as int == code % 0x1_0000
  {
    if code < 256 then code as char else 0xFFFF as char
  }

  /** `_decodeAscii`: one character per bit of the field, the n-th read from
      the 8-bit window starting at bit s + n. */
  function DecodeAscii(b: Bitset, s: nat, L: nat): (r: string)
    ensures |r| == L
    ensures forall n :: 0 <= n < L ==> r[n] as int == Octet(b, s + n) % 0x1_0000
  {
    if L == 0 then "" else DecodeAscii(b, s, L - 1) + [CharAt(b, s + L - 1)]
  }

  /** Consecutive characters overlap in seven bits: the next code is the
      previous one shifted left by one bit, plus the bit after the window. */
  lemma AsciiWindowShift(b: Bitset, s: nat, L: nat, n: nat)
    requires n + 1 < L && s + n + CharBits + 1 <= b.count
    ensures DecodeAscii(b, s, L)[n + 1] as int
         == (2 * (DecodeAscii(b, s, L)[n] as int)) % 256 + Get(b, s + n + CharBits)
  {
    var p := s + n;
    AsciiCharIsOctet(b, s, L, n);
    AsciiCharIsOctet(b, s, L, n + 1);
    OctetShift(b, p);
  }

  lemma AsciiCharIsOctet(b: Bitset, s: nat, L: nat, n: nat)
    requires n < L && s + n + CharBits <= b.count
    ensures DecodeAscii(b, s, L)[n] as int == Octet(b, s + n) < 256
  {
  }

  lemma OctetShift(b: Bitset, p: nat)
    requires p + CharBits + 1 <= b.count
    ensures Octet(b, p + 1) == (2 * Octet(b, p)) % 256 + Get(b, p + CharBits)
  {
    OctetRange(b, p, CharBits);
    OctetRange(b, p + 1, CharBits);
    WindowShift(b, p, CharBits);
  }

  lemma WindowShift(b: Bitset, p: nat, n: nat)
    requires n == 8 && p + n + 1 <= b.count
    ensures Weighted(b, p + 1, n) == (2 * Weighted(b, p, n)) % 256 + Get(b, p + n)
  {
    Pow2Values();
    assert Pow2(n - 1) * 2 == Pow2(n);
    WeightedSnoc(b, p, n + 1);
    WeightedBounds(b, p, n);
    var w := Weighted(b, p, n);
    var g := Get(b, p);
    assert Weighted(b, p, n + 1) == g * Pow2(n) + Weighted(b, p + 1, n);
    ModUnique(2 * w, 256, g, 2 * w - 256 * g);
  }

  /** On a byte boundary a character is the byte at that position. */
  lemma AsciiAligned(b: Bitset, s: nat, L: nat, n: nat)
    requires Sized(b) && n < L && (s + n) % 8 == 0 && s + n + CharBits <= b.count
    ensures DecodeAscii(b, s, L)[n] as int == b.bytes[(s + n) / 8] as int
  {
    var i := (s + n) / 8;
    assert 8 * i == s + n;
    ReadByte(b, i, CharBits);
  }

  const HexDigits: string := "0123456789ABCDEF"

  /** `code >= hex.length ? "-" : hex[code]`. */
  function HexDigit(code: nat): (c: char)
    ensures code < 16 ==> HexValue(c) == Some(code)
    ensures code >= 16 ==> c == '-' && HexValue(c).None?
  {
    if code >= |HexDigits| then '-' else HexDigits[code]
  }

  /** The number an upper-case hex digit stands for. */
  function HexValue(c: char): Option<nat> {
    if '0' <= c <= '9' then Some(c as nat - '0' as nat)
    else if 'A' <= c <= 'F' then Some(c as nat - 'A' as nat + 10)
    else None
  }

  /** `_decodeHexstring`: `value` is declared `const`, so the first `+=` of the
      loop raises a TypeError; only an empty field returns (the empty string). */
  function DecodeHexstring(b: Bitset, s: nat, L: nat): (r: Result<string>)
    ensures r.Ok? <==> L == 0
    ensures r.Ok? ==> r.value == ""
    ensures r.Err? ==> r.error == ConstAssignment
  {
    if L == 0 then Ok("")
    else
      var _ := HexDigit(Octet(b, s));
      Err(ConstAssignment)
  }

  /** The enum branch: the name of the first value whose id equals the raw
      number, or `undefined`. */
  function DecodeEnum(values: seq<EnumValue>, raw: int): (r: Value)
    ensures r == Undefined <==> forall i :: 0 <= i < |values| ==> values[i].id != raw
    ensures r != Undefined ==>
              exists i :: 0 <= i < |values| && values[i].id == raw && r == Str(values[i].name)
                          && forall j :: 0 <= j < i ==> values[j].id != raw
  {
    match FirstIndex(values, (e: EnumValue) => e.id == raw)
    case None => Undefined
    case Some(i) => Str(values[i].name)
  }

  /** The type dispatch of `_decode`; a type other than the five named ones
      decodes as "uint". */
  function DecodeField(b: Bitset, v: Variable): (r: Result<Value>)
    ensures r.Err? <==> v.kind == "hexstring" && v.bitLength >= 1
    ensures r.Err? ==> r.error == ConstAssignment
    ensures v.kind == "hexstring" && v.bitLength == 0 ==> r == Ok(Str(""))
    ensures v.kind == "int" ==> r == Ok(Num(DecodeInt(b, v.startBit, v.bitLength) as real))
    ensures v.kind == "float" ==> r == Ok(Num(DecodeFloat(b, v.startBit, v.bitLength)))
    ensures v.kind == "ascii" ==> r == Ok(Str(DecodeAscii(b, v.startBit, v.bitLength)))
    ensures v.kind == "enum" ==> r == Ok(DecodeEnum(v.values, DecodeUint(b, v.startBit, v.bitLength)))
    ensures v.kind !in {"int", "float", "ascii", "hexstring", "enum"} ==>
              r == Ok(Num(DecodeUint(b, v.startBit, v.bitLength) as real))
  {
    var s, L := v.startBit, v.bitLength;
    if v.kind == "int" then Ok(Num(DecodeInt(b, s, L) as real))
    else if v.kind == "float" then Ok(Num(DecodeFloat(b, s, L)))
    else if v.kind == "ascii" then Ok(Str(DecodeAscii(b, s, L)))
    else if v.kind == "hexstring" then
      var h :- DecodeHexstring(b, s, L);
      Ok(Str(h))
    else if v.kind == "enum" then Ok(DecodeEnum(v.values, DecodeUint(b, s, L)))
    else Ok(Num(DecodeUint(b, s, L) as real))
  }
}
