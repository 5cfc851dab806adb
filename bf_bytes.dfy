/**
 * Bytes and fixed-width integers, as the Brainfuck compiler lays them out.
 *
 * compiler_asm_ins spells an instruction constant most significant byte
 * first; compiler_asm_imm copies an integer out of memory, which on the
 * x86-64 host is least significant byte first.
 */
module BfBytes {
  type Byte = x: int | 0 <= x < 256

  /** 2^32: uint32_t arithmetic wraps modulo this. */
  const U32: nat := 0x1_0000_0000

  function Pow256(n: nat): (r: nat)
    ensures r >= 1
  {
    if n == 0 then 1 else 256 * Pow256(n - 1)
  }

  /** `x >> (8 * i)` for an unsigned x. */
  function Shr8(x: nat, i: nat): nat
  {
    if i == 0 then x else Shr8(x / 256, i - 1)
  }

  /**
   * The low `n` bytes of `x`, least significant first. A negative x gives
   * its two's-complement bytes, since `/` and `%` here round toward
   * negative infinity.
   */
  function LittleEndian(n: nat, x: int): (r: seq<Byte>)
    ensures |r| == n
  {
    if n == 0 then [] else [x % 256] + LittleEndian(n - 1, x / 256)
  }

  /** The low `n` bytes of `x`, most significant first. */
  function BigEndian(n: nat, x: nat): (r: seq<Byte>)
    ensures |r| == n
  {
    if n == 0 then [] else BigEndian(n - 1, x / 256) + [x % 256]
  }

  /** The unsigned integer stored least significant byte first in `bs`. */
  function FromLittleEndian(bs: seq<Byte>): nat
  {
    if bs == [] then 0 else bs[0] + 256 * FromLittleEndian(bs[1..])
  }

  /** Reading back `n` little-endian bytes gives the value, when it fits in `n` bytes. */
  lemma {:induction false} LittleEndianRoundTrip(n: nat, x: int)
    requires 0 <= x < Pow256(n)
    ensures FromLittleEndian(LittleEndian(n, x)) == x
    decreases n
  {
    if n > 0 {
      LittleEndianRoundTrip(n - 1, x / 256);
      assert LittleEndian(n, x)[1..] == LittleEndian(n - 1, x / 256);
    }
  }

  /** Byte k of the little-endian form is `(x >> 8k) & 0xff`. */
  lemma {:induction false} LittleEndianBytes(n: nat, x: nat, k: nat)
    requires k < n
    ensures LittleEndian(n, x)[k] == Shr8(x, k) % 256
    decreases n
  {
    if k > 0 {
      LittleEndianBytes(n - 1, x / 256, k - 1);
    }
  }

  /** Byte k of the big-endian form is `(x >> 8(n-1-k)) & 0xff`. */
  lemma {:induction false} BigEndianBytes(n: nat, x: nat, k: nat)
    requires k < n
    ensures BigEndian(n, x)[k] == Shr8(x, n - 1 - k) % 256
    decreases n
  {
    if k < n - 1 {
      BigEndianBytes(n - 1, x / 256, k);
    }
  }

  /** The two byte orders are each other's reverse. */
  lemma BigEndianReversesLittleEndian(n: nat, x: nat, k: nat)
    requires k < n
    ensures BigEndian(n, x)[k] == LittleEndian(n, x)[n - 1 - k]
  {
    BigEndianBytes(n, x, k);
    LittleEndianBytes(n, x, n - 1 - k);
  }

  /** Storing x in n bytes keeps x modulo 256^n: a uint32_t cast before the copy changes nothing. */
  lemma {:induction false} LittleEndianWrap(n: nat, x: int)
    ensures LittleEndian(n, x) == LittleEndian(n, x % Pow256(n))
    decreases n
  {
    if n > 0 {
      WrapDigits(x, Pow256(n - 1));
      LittleEndianWrap(n - 1, x / 256);
    }
  }

  /** The low byte and the rest of x modulo 256p. */
  lemma WrapDigits(x: int, p: nat)
    requires p > 0
    ensures (x % (256 * p)) % 256 == x % 256
    ensures (x % (256 * p)) / 256 == (x / 256) % p
  {
    var m := x % (256 * p);
    var q := x / (256 * p);
    var r := m % 256;
    var s := m / 256;
    assert m == 256 * s + r;
    assert 0 <= s < p;
    assert x == 256 * (p * q + s) + r;
    DivModUnique(x, 256, p * q + s, r);
    DivModUnique(p * q + s, p, q, s);
  }

  /** Quotient and remainder are the only ones with 0 <= r < d. */
  lemma DivModUnique(x: int, d: int, a: int, r: int)
    requires d > 0 && x == d * a + r && 0 <= r < d
    ensures x / d == a && x % d == r
  {
    var a' := x / d;
    var r' := x % d;
    assert d * (a - a') == r' - r;
    if a > a' {
      MulAtLeast(d, a - a');
    } else if a < a' {
      MulAtLeast(d, a' - a);
    }
  }

  lemma MulAtLeast(d: int, k: int)
    requires d > 0 && k >= 1
    ensures d * k >= d
  {
    assert d * k == d + d * (k - 1);
  }
}
