/** Shared vocabulary of the gateway model: optional and failing results, the
    byte type, powers of two, JavaScript's 32-bit integer conversions and the
    dynamic values a decoded field can hold. */
module Common {

  datatype Option<+T> = None | Some(value: T)

  /** The exceptions the modelled JavaScript code can raise. */
  datatype Error =
    | RangeError       // Buffer.writeUInt8 past the end of the 64-byte frame buffer
    | ConstAssignment  // `value +=` on the `const value` of _decodeHexstring
    | NoDefinition     // a frame completed before a schema was loaded
    | UnknownNode      // a module List for a HardwareId no Heartbeat announced
    | MissingInstance  // `instance.name` read on a null or undefined module instance lookup

  datatype Result<+T> = Ok(value: T) | Err(error: Error) {
    predicate IsFailure() { Err? }
    function PropagateFailure<U>(): Result<U> requires Err? { Err(error) }
    function Extract(): T requires Ok? { value }
  }

  type Byte = bv8

  /** Values a decoded field, or a discriminator of an alias entry, can hold. */
  datatype Value = Num(n: real) | Str(s: string) | Bool(b: bool) | Undefined

  /** JavaScript truthiness (`!x` is false exactly for these). */
  predicate Truthy(v: Value) {
    match v
    case Num(n) => n != 0.0
    case Str(s) => s != ""
    case Bool(b) => b
    case Undefined => false
  }

  function Pow2(n: nat): (r: nat)
    ensures r >= 1
  {
    if n == 0 then 1 else 2 * Pow2(n - 1)
  }

  /** 2^32, the modulus of JavaScript's bitwise operators. */
  const U32: int := 0x1_0000_0000
  const I32: int := 0x8000_0000

  /** ECMAScript ToUint32 on an integral number. */
  function ToUint32(x: int): (r: int)
    ensures 0 <= r < U32
  {
    x % U32
  }

  /** ECMAScript ToInt32 on an integral number. */
  function ToInt32(x: int): (r: int)
    ensures -I32 <= r < I32
    ensures ToUint32(r) == ToUint32(x)
  {
    var u := x % U32;
    if u >= I32 then u - U32 else u
  }

  lemma Pow2Add(a: nat, b: nat)
    ensures Pow2(a + b) == Pow2(a) * Pow2(b)
  {
    if a > 0 {
      Pow2Add(a - 1, b);
    }
  }

  lemma Pow2Values()
    ensures Pow2(0) == 1 && Pow2(1) == 2 && Pow2(8) == 256
    ensures Pow2(31) == I32 && Pow2(32) == U32
  {
    assert Pow2(8) == 256;
    assert Pow2(16) == 65536 by { Pow2Add(8, 8); }
    assert Pow2(32) == U32 by { Pow2Add(16, 16); }
    assert Pow2(31) * 2 == Pow2(32);
  }

  lemma Pow2Monotone(a: nat, b: nat)
    requires a <= b
    ensures Pow2(a) <= Pow2(b)
  {
    if a < b {
      Pow2Monotone(a, b - 1);
    }
  }

  /** Powers of two up to the 32-bit modulus, stated without literal exponents
      so that callers do not unfold Pow2. */
  lemma Pow2Word(n: nat)
    requires n <= 32
    ensures Pow2(n) <= U32
    ensures n >= 1 ==> Pow2(n) == 2 * Pow2(n - 1) && Pow2(n - 1) <= I32
    ensures n <= 31 ==> Pow2(n) <= I32
    ensures n <= 30 ==> Pow2(n) < I32
    ensures n == 31 ==> Pow2(n) == I32
    ensures n == 32 ==> Pow2(n) == U32
  {
    Pow2Values();
    Pow2Monotone(n, 32);
    if n <= 31 {
      Pow2Monotone(n, 31);
    }
    if n <= 30 {
      Pow2Monotone(n, 30);
      assert Pow2(30) * 2 == Pow2(31);
    }
  }

  /** 2^L · 2^(32-L) = 2^32. */
  lemma Pow2Split32(L: nat)
    requires L <= 32
    ensures Pow2(L) * Pow2(32 - L) == U32
  {
    Pow2Add(L, 32 - L);
    Pow2Values();
  }

  lemma ToUint32Small(x: int)
    requires 0 <= x < U32
    ensures ToUint32(x) == x
  {
  }

  /** The two wrap-arounds `1 << 31` and `mask = -1` rely on. */
  lemma Int32Wraps()
    ensures ToInt32(I32) == -I32 && ToUint32(-1) == U32 - 1
  {
  }

  lemma ToInt32Small(x: int)
    requires 0 <= x < I32
    ensures ToInt32(x) == x
  {
  }

  /** Euclidean division is unique: a remainder in range is the remainder. */
  lemma ModUnique(x: int, d: int, q: int, m: int)
    requires d > 0 && 0 <= m < d && x == d * q + m
    ensures x % d == m && x / d == q
  {
    var q', m' := x / d, x % d;
    assert x == d * q' + m';
    var t := q - q';
    assert d * t == m' - m by { assert d * q - d * q' == d * (q - q'); }
  }

  /** Halving and doubling: the low bit plus twice the higher bits, both taken modulo. */
  lemma ModDouble(w: int, p: int)
    requires p >= 1
    ensures 2 * ((w / 2) % p) + w % 2 == w % (2 * p)
  {
    var q, r := w / 2, w % 2;
    var k, s := q / p, q % p;
    assert q == p * k + s;
    assert w == (2 * p) * k + (2 * s + r);
    ModUnique(w, 2 * p, k, 2 * s + r);
  }

  /** Adding a multiple of the modulus does not change the remainder. */
  lemma ModAddMultiple(x: int, d: int, k: int)
    requires d > 0
    ensures (x + d * k) % d == x % d
  {
    var q, m := x / d, x % d;
    assert x + d * k == d * (q + k) + m;
    ModUnique(x + d * k, d, q + k, m);
  }

  /** Reducing modulo a multiple of d first does not change the remainder modulo d. */
  lemma ModOfMod(x: int, d: int, e: int)
    requires d > 0 && e > 0
    ensures (x % (d * e)) % d == x % d
  {
    var q := x / (d * e);
    assert x == (d * e) * q + x % (d * e);
    ModAddMultiple(x % (d * e), d, e * q);
    assert d * (e * q) == (d * e) * q;
  }

  lemma SeqAssoc<T>(x: seq<T>, p: seq<T>, q: seq<T>)
    ensures x + (p + q) == (x + p) + q
  {
  }

  lemma SliceAppend<T>(a: seq<T>, b: seq<T>)
    requires |a| >= 1
    ensures (a + b)[0] == a[0] && (a + b)[1..] == a[1..] + b
  {
  }
}
