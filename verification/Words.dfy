/** Fixed-width unsigned words as bounded integers, the bitwise operators on them,
    and the native loads and stores of a big- or little-endian host. */
module Words {

  type u8 = x: int | 0 <= x < 0x100
  type u16 = x: int | 0 <= x < 0x1_0000
  type u32 = x: int | 0 <= x < 0x1_0000_0000
  type u64 = x: int | 0 <= x < 0x1_0000_0000_0000_0000

  function Not16(x: u16): u16 {
    0xffff - x
  }

  function WrappingAdd16(x: u16, y: u16): u16 {
    (x + y) % 0x1_0000
  }

  function WrappingSub16(x: u16, y: u16): u16 {
    (x - y) % 0x1_0000
  }

  function Min(x: nat, y: nat): nat {
    if x < y then x else y
  }

  function Pow2(k: nat): (r: nat)
    ensures r >= 1
  {
    if k == 0 then 1 else 2 * Pow2(k - 1)
  }

  lemma {:induction false} Pow2Monotone(j: nat, k: nat)
    requires j <= k
    ensures Pow2(j) <= Pow2(k)
  {
    if j < k {
      Pow2Monotone(j, k - 1);
    }
  }

  lemma {:induction false} Regroup<T>(xs: seq<T>, ys: seq<T>, zs: seq<T>)
    ensures xs + (ys + zs) == (xs + ys) + zs
  {
  }

  // -------------------------------------------------- Bitwise operators

  /** Bitwise AND, digit by binary digit. */
  function BitAnd(x: nat, y: nat): nat {
    if x == 0 then 0
    else 2 * BitAnd(x / 2, y / 2) + (if x % 2 == 1 && y % 2 == 1 then 1 else 0)
  }

  /** Bitwise OR, digit by binary digit. */
  function BitOr(x: nat, y: nat): nat
    decreases x + y
  {
    if x == 0 && y == 0 then 0
    else 2 * BitOr(x / 2, y / 2) + (if x % 2 == 1 || y % 2 == 1 then 1 else 0)
  }

  function Shl(x: nat, k: nat): nat {
    x * Pow2(k)
  }

  function Shr(x: nat, k: nat): nat {
    DivNonNegative(x, Pow2(k));
    x / Pow2(k)
  }

  lemma {:induction false} DivNonNegative(x: nat, d: nat)
    requires d >= 1
    ensures x / d >= 0 && 0 <= x % d < d && x == d * (x / d) + x % d
  {
  }

  lemma {:induction false} ModDouble(x: nat, m: nat)
    requires m > 0
    ensures x % (2 * m) == 2 * (x / 2 % m) + x % 2
  {
    var q, r := x / 2 / m, x / 2 % m;
    assert x / 2 == m * q + r;
    assert x == (2 * m) * q + (2 * r + x % 2);
    DivModUnique(x, 2 * m, q, 2 * r + x % 2);
  }

  lemma {:induction false} DivModUnique(x: int, d: int, q: int, r: int)
    requires d > 0 && 0 <= r < d
    requires x == d * q + r
    ensures x / d == q && x % d == r
  {
    var q', r' := x / d, x % d;
    assert d * (q - q') == r' - r;
    MulGrows(d, q - q');
  }

  lemma {:induction false} MulGrows(d: int, t: int)
    requires d > 0
    ensures t >= 1 ==> d * t >= d
    ensures t <= -1 ==> d * t <= -d
  {
  }

  /** The number with its k low binary digits cleared. */
  function Cleared(x: nat, k: nat): nat {
    if k == 0 then x else 2 * Cleared(x / 2, k - 1)
  }

  lemma {:induction false} ClearedIsSubtraction(x: nat, k: nat)
    ensures Cleared(x, k) == x - x % Pow2(k)
  {
    if k > 0 {
      ClearedIsSubtraction(x / 2, k - 1);
      ModDouble(x, Pow2(k - 1));
    }
  }

  lemma {:induction false} AndClears(x: nat, k: nat, n: nat)
    requires k <= n && x < Pow2(n)
    ensures Pow2(k) <= Pow2(n)
    ensures BitAnd(x, Pow2(n) - Pow2(k)) == Cleared(x, k)
  {
    Pow2Monotone(k, n);
    if k == 0 {
      AndAllOnes(x, n);
    } else {
      AndClears(x / 2, k - 1, n - 1);
      AndEvenMask(x, Pow2(n - 1) - Pow2(k - 1));
    }
  }

  lemma {:induction false} AndAllOnes(x: nat, n: nat)
    requires x < Pow2(n)
    ensures BitAnd(x, Pow2(n) - 1) == x
  {
    if n > 0 {
      AndAllOnes(x / 2, n - 1);
      var mask := Pow2(n) - 1;
      assert mask / 2 == Pow2(n - 1) - 1 && mask % 2 == 1;
    }
  }

  /** A mask of ones above bit k keeps what a division by 2^k keeps. */
  lemma {:induction false} AndPrefixMask(x: nat, k: nat, n: nat)
    requires k <= n && x < Pow2(n)
    ensures Pow2(k) <= Pow2(n)
    ensures BitAnd(x, Pow2(n) - Pow2(k)) == x - x % Pow2(k)
  {
    AndClears(x, k, n);
    ClearedIsSubtraction(x, k);
  }

  lemma {:induction false} AndEvenMask(x: nat, mask: nat)
    ensures BitAnd(x, 2 * mask) == 2 * BitAnd(x / 2, mask)
  {
  }

  /** A mask of k low ones keeps the remainder modulo 2^k. */
  lemma {:induction false} AndLowMask(x: nat, k: nat)
    ensures BitAnd(x, Pow2(k) - 1) == x % Pow2(k)
  {
    if k == 0 {
      AndZero(x);
    } else {
      var m := Pow2(k - 1);
      AndLowMask(x / 2, k - 1);
      DivNonNegative(x / 2, m);
      AndLowMaskStep(x, m, x / 2 % m);
      ModDouble(x, m);
    }
  }

  lemma {:induction false} AndLowMaskStep(x: nat, m: nat, r: nat)
    requires m >= 1 && BitAnd(x / 2, m - 1) == r
    ensures BitAnd(x, 2 * m - 1) == 2 * r + x % 2
  {
    var mask := 2 * m - 1;
    assert mask / 2 == m - 1 && mask % 2 == 1;
  }

  lemma {:induction false} AndZero(x: nat)
    ensures BitAnd(x, 0) == 0
  {
    if x > 0 {
      AndZero(x / 2);
    }
  }

  /** OR-ing into vacant low bits is addition. */
  lemma {:induction false} OrVacant(x: nat, k: nat, y: nat)
    requires y < Pow2(k)
    ensures BitOr(Shl(x, k), y) == Shl(x, k) + y
  {
    if k == 0 {
      OrZero(x);
    } else {
      OrVacant(x, k - 1, y / 2);
      ShlStep(x, k);
      OrVacantStep(Shl(x, k - 1), y);
    }
  }

  lemma {:induction false} ShlStep(x: nat, k: nat)
    requires k > 0
    ensures Shl(x, k) == 2 * Shl(x, k - 1)
  {
  }

  lemma {:induction false} OrVacantStep(z: nat, y: nat)
    requires BitOr(z, y / 2) == z + y / 2
    ensures BitOr(2 * z, y) == 2 * z + y
  {
  }

  lemma {:induction false} OrZero(x: nat)
    ensures BitOr(x, 0) == x
  {
    if x > 0 {
      OrZero(x / 2);
    }
  }

  // -------------------------------------------------- Byte order

  datatype Endian = Big | Little

  /** The value of a big-endian byte pair (`from_be_bytes`). */
  function Be16(b: seq<u8>): u16
    requires |b| == 2
  {
    b[0] as int * 0x100 + b[1]
  }

  function Be32(b: seq<u8>): u32
    requires |b| == 4
  {
    b[0] as int * 0x100_0000 + b[1] as int * 0x1_0000 + b[2] as int * 0x100 + b[3]
  }

  function ToBeBytes16(x: u16): (b: seq<u8>)
    ensures |b| == 2
  {
    [x / 0x100, x % 0x100]
  }

  function ToBeBytes32(x: u32): (b: seq<u8>)
    ensures |b| == 4
  {
    [x / 0x100_0000, x / 0x1_0000 % 0x100, x / 0x100 % 0x100, x % 0x100]
  }

  /** What a host finds in a register after loading these bytes. */
  function Load16(e: Endian, b: seq<u8>): u16
    requires |b| == 2
  {
    if e.Big? then Be16(b) else Be16([b[1], b[0]])
  }

  function Load32(e: Endian, b: seq<u8>): u32
    requires |b| == 4
  {
    if e.Big? then Be32(b) else Be32([b[3], b[2], b[1], b[0]])
  }

  /** The bytes a host leaves in memory after storing this register. */
  function Store16(e: Endian, x: u16): (b: seq<u8>)
    ensures |b| == 2
  {
    if e.Big? then [x / 0x100, x % 0x100] else [x % 0x100, x / 0x100]
  }

  function Store32(e: Endian, x: u32): (b: seq<u8>)
    ensures |b| == 4
  {
    var b := ToBeBytes32(x);
    if e.Big? then b else [b[3], b[2], b[1], b[0]]
  }

  function Swap16(x: u16): u16 {
    x % 0x100 * 0x100 + x / 0x100
  }

  function Swap32(x: u32): u32 {
    var b := ToBeBytes32(x);
    Be32([b[3], b[2], b[1], b[0]])
  }

  function FromBe16(e: Endian, x: u16): u16 {
    if e.Big? then x else Swap16(x)
  }

  function FromBe32(e: Endian, x: u32): u32 {
    if e.Big? then x else Swap32(x)
  }

  function ToBe16(e: Endian, x: u16): u16 {
    if e.Big? then x else Swap16(x)
  }

  /** The two kinds of host keep their words in opposite orders. */
  lemma {:induction false} NativeOrders(b: seq<u8>, x: u32)
    requires |b| == 4
    ensures Load32(Big, b) == b[0] as int * 0x100_0000 + b[1] as int * 0x1_0000 + b[2] as int * 0x100 + b[3]
    ensures Load32(Little, b) == b[3] as int * 0x100_0000 + b[2] as int * 0x1_0000 + b[1] as int * 0x100 + b[0]
    ensures Load16(Big, b[..2]) == b[0] as int * 0x100 + b[1]
    ensures Load16(Little, b[..2]) == b[1] as int * 0x100 + b[0]
    ensures Load32(Big, Store32(Big, x)) == x && Load32(Little, Store32(Little, x)) == x
  {
    BeOfBytes32(x);
  }

  lemma {:induction false} BytesOfBe32(b: seq<u8>)
    requires |b| == 4
    ensures ToBeBytes32(Be32(b)) == b
  {
    var x := Be32(b);
    assert x / 0x100_0000 == b[0];
    assert x / 0x1_0000 == b[0] as int * 0x100 + b[1];
    assert x / 0x100 == b[0] as int * 0x1_0000 + b[1] as int * 0x100 + b[2];
  }

  lemma {:induction false} BeOfBytes32(x: u32)
    ensures Be32(ToBeBytes32(x)) == x
  {
    var x1, x2 := x / 0x100, x / 0x1_0000;
    assert x1 / 0x100 == x2 && x2 / 0x100 == x / 0x100_0000;
    assert x == x1 * 0x100 + x % 0x100;
    assert x1 == x2 * 0x100 + x1 % 0x100;
    assert x2 == x2 / 0x100 * 0x100 + x2 % 0x100;
  }

  /** Loading natively and converting from network order reads the big-endian value on either host. */
  lemma {:induction false} NetworkRead(e: Endian, b: seq<u8>)
    ensures |b| == 2 ==> FromBe16(e, Load16(e, b)) == Be16(b)
    ensures |b| == 4 ==> FromBe32(e, Load32(e, b)) == Be32(b)
  {
    if |b| == 4 && e.Little? {
      BytesOfBe32([b[3], b[2], b[1], b[0]]);
    }
  }

  /** Converting to network order and storing natively writes the big-endian bytes on either host;
      a word moved without conversion keeps its bytes. */
  lemma {:induction false} NetworkWrite(e: Endian, x: u16, b: seq<u8>)
    requires |b| == 4
    ensures Store16(e, ToBe16(e, x)) == ToBeBytes16(x)
    ensures Store32(e, Load32(e, b)) == b
  {
    BytesOfBe32(b);
    BytesOfBe32([b[3], b[2], b[1], b[0]]);
  }
}
