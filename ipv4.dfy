/**
 * IPv4 address arithmetic used by the CIDR treemap builder
 * (vnD3Visualization/server.js, helpers of buildCIDRTreemap).
 *
 * An address is a 32-bit unsigned integer; a dotted quad is four octets.
 * A CIDR block is an address and a prefix length.
 */
module IPv4 {

  const TWO31: int := 0x8000_0000
  const TWO32: int := 0x1_0000_0000

  type Octet = x: int | 0 <= x < 256
  type U32 = x: int | 0 <= x < 0x1_0000_0000
  type Prefix = x: int | 0 <= x <= 32

  /** A dotted quad a.b.c.d. */
  datatype Quad = Quad(a: Octet, b: Octet, c: Octet, d: Octet)

  /** A CIDR block `addr/len`; the address may have host bits set, as in the source's strings. */
  datatype Cidr = Cidr(addr: U32, len: Prefix)

  // ---------------------------------------------------------------- powers of two

  function Pow2(n: nat): (r: nat)
    ensures r >= 1
  {
    if n == 0 then 1 else 2 * Pow2(n - 1)
  }

  lemma {:induction false} Pow2Add(a: nat, b: nat)
    ensures Pow2(a + b) == Pow2(a) * Pow2(b)
  {
    if a > 0 {
      Pow2Add(a - 1, b);
      assert Pow2(a + b) == 2 * Pow2(a - 1 + b);
    }
  }

  lemma {:induction false} Pow2Monotone(a: nat, b: nat)
    requires a <= b
    ensures Pow2(a) <= Pow2(b)
  {
    if a < b {
      Pow2Monotone(a, b - 1);
    }
  }

  lemma Pow2Values()
    ensures Pow2(31) == TWO31 && Pow2(32) == TWO32
  {
    assert Pow2(4) == 16 by {
      assert Pow2(1) == 2;
      assert Pow2(2) == 4;
      assert Pow2(3) == 8;
    }
    Pow2Add(4, 4);
    Pow2Add(8, 8);
    Pow2Add(16, 8);
    Pow2Add(16, 16);
    assert Pow2(31) == 0x100_0000 * 128 by {
      Pow2Add(24, 7);
      assert Pow2(7) == 128 by {
        assert Pow2(5) == 32;
      }
    }
    assert Pow2(32) == 2 * Pow2(31);
  }

  // ---------------------------------------------------------------- integer helpers

  lemma MulNonNeg(a: int, b: int)
    requires a >= 0 && b >= 0
    ensures a * b >= 0
  {
  }

  lemma MulMono(a: int, b: int, s: int)
    requires a <= b && s >= 0
    ensures a * s <= b * s
  {
    assert b * s - a * s == (b - a) * s;
    MulNonNeg(b - a, s);
  }

  lemma LessMul(q: int, m: int, s: int)
    requires s > 0 && q * s < m * s
    ensures q < m
  {
    if q >= m {
      MulMono(m, q, s);
    }
  }

  /** Euclidean division is determined by quotient and remainder. */
  lemma DivModUnique(x: int, s: int, q: int, r: int)
    requires s > 0 && x == q * s + r && 0 <= r < s
    ensures x / s == q && x % s == r
  {
    var q', r' := x / s, x % s;
    assert (q - q') * s == r' - r;
    if q - q' >= 1 {
      MulMono(1, q - q', s);
    } else if q' - q >= 1 {
      MulMono(1, q' - q, s);
    }
  }

  // ---------------------------------------------------------------- 32-bit views

  /** JavaScript's ToInt32: the signed 32-bit value with the same low 32 bits. */
  function ToInt32(x: int): (r: int)
    ensures -TWO31 <= r < TWO31
  {
    var m := x % TWO32;
    if m >= TWO31 then m - TWO32 else m
  }

  /** JavaScript's ToUint32 (the conversion done by `>>>`). */
  function ToUint32(x: int): U32 {
    x % TWO32
  }

  /** The signed reading of an unsigned 32-bit value. */
  function Signed(v: U32): (r: int)
    ensures -TWO31 <= r < TWO31
    ensures 0 <= r <==> v < TWO31
  {
    if v >= TWO31 then v - TWO32 else v
  }

  // ---------------------------------------------------------------- dotted quads

  function ToLong(q: Quad): U32 {
    q.a * 0x100_0000 + q.b * 0x1_0000 + q.c * 0x100 + q.d
  }

  function FromLong(v: U32): Quad {
    Quad(v / 0x100_0000, (v / 0x1_0000) % 0x100, (v / 0x100) % 0x100, v % 0x100)
  }

  lemma FromToLong(q: Quad)
    ensures FromLong(ToLong(q)) == q
  {
    var v := ToLong(q);
    DivModUnique(v, 0x100_0000, q.a, q.b * 0x1_0000 + q.c * 0x100 + q.d);
    DivModUnique(v, 0x1_0000, q.a * 0x100 + q.b, q.c * 0x100 + q.d);
    DivModUnique(q.a * 0x100 + q.b, 0x100, q.a, q.b);
    DivModUnique(v, 0x100, q.a * 0x1_0000 + q.b * 0x100 + q.c, q.d);
    DivModUnique(q.a * 0x1_0000 + q.b * 0x100 + q.c, 0x100, q.a * 0x100 + q.b, q.c);
  }

  lemma ToFromLong(v: U32)
    ensures ToLong(FromLong(v)) == v
  {
    var a, r1 := v / 0x100_0000, v % 0x100_0000;
    var b, r2 := r1 / 0x1_0000, r1 % 0x1_0000;
    var c, d := r2 / 0x100, r2 % 0x100;
    DivModUnique(v, 0x1_0000, a * 0x100 + b, r2);
    DivModUnique(a * 0x100 + b, 0x100, a, b);
    DivModUnique(v, 0x100, a * 0x1_0000 + b * 0x100 + c, d);
    DivModUnique(a * 0x1_0000 + b * 0x100 + c, 0x100, a * 0x100 + b, c);
  }

  /**
   * `ip2long` as written: `reduce((acc, octet) => (acc << 8) + octet, 0)`.
   * `<<` converts its operand with ToInt32, so the last step wraps.
   */
  function Ip2Long(q: Quad): int {
    var acc1 := ToInt32(0 * 0x100) + q.a;
    var acc2 := ToInt32(acc1 * 0x100) + q.b;
    var acc3 := ToInt32(acc2 * 0x100) + q.c;
    ToInt32(acc3 * 0x100) + q.d
  }

  /** `ip2long` is the signed reading of the address. */
  lemma Ip2LongSigned(q: Quad)
    ensures Ip2Long(q) == Signed(ToLong(q))
  {
    var acc3 := q.a * 0x1_0000 + q.b * 0x100 + q.c;
    assert ToInt32(0 * 0x100) == 0;
    DivModUnique(q.a * 0x100, TWO32, 0, q.a * 0x100);
    DivModUnique((q.a * 0x100 + q.b) * 0x100, TWO32, 0, (q.a * 0x100 + q.b) * 0x100);
    DivModUnique(acc3 * 0x100, TWO32, 0, acc3 * 0x100);
  }

  /**
   * `incrementIP(ip, k)`: the four shifted octets are OR-ed into a signed
   * 32-bit value (they occupy disjoint bits, so the OR is their sum read as
   * int32), `k` is added in floating point (exact below 2^53), and the octets
   * are read back with `>>>` and `& 255`.
   */
  function IncrementIP(q: Quad, k: nat): Quad
    requires k < TWO32
  {
    var value := Signed(ToLong(q)) + k;
    var u := ToUint32(value);
    Quad(u / 0x100_0000, (u / 0x1_0000) % 0x100, (u / 0x100) % 0x100, u % 0x100)
  }

  /** `incrementIP` is addition modulo 2^32 on the address. */
  lemma IncrementIPAdds(q: Quad, k: nat)
    requires k < TWO32
    ensures ToLong(IncrementIP(q, k)) == (ToLong(q) + k) % TWO32
  {
    var v := ToLong(q);
    var value := Signed(v) + k;
    if v >= TWO31 {
      DivModUnique(value, TWO32, (v + k) / TWO32 - 1, (v + k) % TWO32);
    }
    ToFromLong(ToUint32(value));
  }

  lemma IncrementByZero(q: Quad)
    ensures IncrementIP(q, 0) == q
  {
    var r := IncrementIP(q, 0);
    IncrementIPAdds(q, 0);
    DivModUnique(ToLong(q), TWO32, 0, ToLong(q));
    assert ToLong(r) == ToLong(q);
    FromToLong(q);
    FromToLong(r);
  }

  // ---------------------------------------------------------------- CIDR blocks

  /** The number of addresses in a block of prefix length `len`. */
  function BlockSize(len: Prefix): (r: nat)
    ensures r >= 1
  {
    Pow2(32 - len)
  }

  /** 2^len blocks of prefix length `len` fill the address space. */
  lemma BlockCount(len: Prefix)
    ensures Pow2(len) * BlockSize(len) == TWO32
  {
    Pow2Add(len, 32 - len);
    Pow2Values();
  }

  /** `v` with its `n` lowest bits cleared, one bit at a time. */
  function ClearLow(v: nat, n: nat): (r: nat)
    ensures r <= v
  {
    if n == 0 then v else 2 * ClearLow(v / 2, n - 1)
  }

  /** Clearing the `n` low bits rounds down to a multiple of 2^n. */
  lemma {:induction false} ClearLowDivMul(v: nat, n: nat)
    ensures ClearLow(v, n) == (v / Pow2(n)) * Pow2(n)
  {
    if n > 0 {
      var p := Pow2(n - 1);
      ClearLowDivMul(v / 2, n - 1);
      HalveDiv(v, p);
    }
  }

  /** Halving first, then dividing by `p`, is dividing by `2 * p`. */
  lemma HalveDiv(v: nat, p: nat)
    requires p > 0
    ensures 2 * ((v / 2 / p) * p) == (v / (2 * p)) * (2 * p)
  {
    var q, r := v / (2 * p), v % (2 * p);
    assert v == q * (2 * p) + r;
    MulAssoc(q, p, 2);
    DivModUnique(v, 2, q * p + r / 2, r % 2);
    DivModUnique(v / 2, p, q, r / 2);
    MulAssoc(q, 2, p);
  }

  lemma MulAssoc(a: int, b: int, c: int)
    ensures a * (b * c) == (a * b) * c
  {
  }

  /** `ip-cidr`'s start(): the address with its host bits cleared. */
  function BlockStart(c: Cidr): U32 {
    ClearLow(c.addr, 32 - c.len)
  }

  /** The start of a block is its address rounded down to a multiple of the block size. */
  lemma StartDivMul(c: Cidr)
    ensures BlockStart(c) == (c.addr / BlockSize(c.len)) * BlockSize(c.len)
  {
    ClearLowDivMul(c.addr, 32 - c.len);
  }

  /** Rounding `v` down to a multiple of `s` stays within `[0, n * s)`. */
  lemma IndexBounds(v: int, s: int, n: int)
    requires s > 0 && 0 <= v < n * s
    ensures 0 <= v / s < n
    ensures (v / s) * s <= v < (v / s) * s + s <= n * s
  {
    var q, r := v / s, v % s;
    assert v == q * s + r && 0 <= r < s;
    if q < 0 {
      MulMono(q, -1, s);
    }
    MulNonNeg(q, s);
    LessMul(q, n, s);
    MulMono(q + 1, n, s);
  }

  /** The start of a block, as a block index times the block size. */
  lemma StartIndex(c: Cidr)
    ensures BlockStart(c) == (c.addr / BlockSize(c.len)) * BlockSize(c.len)
    ensures 0 <= c.addr / BlockSize(c.len) < Pow2(c.len)
    ensures BlockStart(c) <= c.addr < BlockStart(c) + BlockSize(c.len) <= TWO32
  {
    StartDivMul(c);
    BlockCount(c.len);
    IndexBounds(c.addr, BlockSize(c.len), Pow2(c.len));
  }

  /** `ip-cidr`'s end(): the last address of the block. */
  function BlockEnd(c: Cidr): U32 {
    StartIndex(c);
    BlockStart(c) + BlockSize(c.len) - 1
  }

  /** `isInSubnet(child, parent)` as written: inclusive range test on `ip2long` values. */
  predicate IsInSubnet(child: Cidr, parent: Cidr) {
    var parentStart := Ip2Long(FromLong(BlockStart(parent)));
    var parentEnd := Ip2Long(FromLong(BlockEnd(parent)));
    var childStart := Ip2Long(FromLong(BlockStart(child)));
    var childEnd := Ip2Long(FromLong(BlockEnd(child)));
    childStart >= parentStart && childEnd <= parentEnd
  }

  /** Range containment on unsigned addresses: the child's block lies inside the parent's. */
  predicate Within(child: Cidr, parent: Cidr) {
    BlockStart(parent) <= BlockStart(child) && BlockEnd(child) <= BlockEnd(parent)
  }

  /**
   * The same test stated on the signed readings of the unsigned block bounds;
   * `IsInSubnetSigned` shows it equal to `IsInSubnet`.
   */
  predicate SignedWithin(child: Cidr, parent: Cidr) {
    Signed(BlockStart(child)) >= Signed(BlockStart(parent)) &&
    Signed(BlockEnd(child)) <= Signed(BlockEnd(parent))
  }

  /** The signed test, read back on unsigned addresses. */
  lemma IsInSubnetSigned(child: Cidr, parent: Cidr)
    ensures IsInSubnet(child, parent) <==> SignedWithin(child, parent)
  {
    ToFromLong(BlockStart(child));
    ToFromLong(BlockEnd(child));
    ToFromLong(BlockStart(parent));
    ToFromLong(BlockEnd(parent));
    Ip2LongSigned(FromLong(BlockStart(child)));
    Ip2LongSigned(FromLong(BlockEnd(child)));
    Ip2LongSigned(FromLong(BlockStart(parent)));
    Ip2LongSigned(FromLong(BlockEnd(parent)));
  }

  /** A multiple of `s` below another multiple of `s` is at least `s` below it. */
  lemma MultipleGap(q: int, h: int, s: int)
    requires s > 0 && q * s < h * s
    ensures q * s + s <= h * s
  {
    LessMul(q, h, s);
    MulMono(q + 1, h, s);
  }

  /** A block of prefix length at least 1 lies entirely on one side of 128.0.0.0. */
  lemma OneSide(c: Cidr)
    requires c.len >= 1
    ensures BlockStart(c) < TWO31 <==> BlockEnd(c) < TWO31
  {
    var s := BlockSize(c.len);
    var q := c.addr / s;
    var h := Pow2(c.len - 1);
    StartIndex(c);
    assert h * s == TWO31 by {
      Pow2Add(c.len - 1, 32 - c.len);
      Pow2Values();
    }
    if q * s < h * s {
      MultipleGap(q, h, s);
    }
  }

  /** With both prefixes at least 1, the signed test of the source is plain range containment. */
  lemma SignedWithinIsWithin(child: Cidr, parent: Cidr)
    requires child.len >= 1 && parent.len >= 1
    ensures SignedWithin(child, parent) <==> Within(child, parent)
  {
    OneSide(child);
    OneSide(parent);
  }

  lemma IsInSubnetIsWithin(child: Cidr, parent: Cidr)
    requires child.len >= 1 && parent.len >= 1
    ensures IsInSubnet(child, parent) <==> Within(child, parent)
  {
    SignedWithinIsWithin(child, parent);
    IsInSubnetSigned(child, parent);
  }

  /** The /0 block is the whole address space. */
  lemma SlashZeroBlock(c: Cidr)
    requires c.len == 0
    ensures BlockStart(c) == 0 && BlockEnd(c) == TWO32 - 1
  {
    var s := BlockSize(0);
    StartIndex(c);
    BlockCount(0);
    assert Pow2(0) == 1;
    assert c.addr / s == 0;
  }

  /**
   * A /0 parent: its end address reads as -1, so the signed test rejects every
   * child of prefix at least 1, although the block contains them all; only
   * another /0 block passes.
   */
  lemma SlashZeroContainsNothing(child: Cidr, parent: Cidr)
    requires parent.len == 0
    ensures IsInSubnet(child, parent) <==> child.len == 0
    ensures Within(child, parent)
  {
    SlashZeroBlock(parent);
    StartIndex(child);
    if child.len == 0 {
      SlashZeroBlock(child);
    } else {
      OneSide(child);
    }
    IsInSubnetSigned(child, parent);
  }

  /** Containment implies the child's prefix is at least the parent's. */
  lemma WithinLen(child: Cidr, parent: Cidr)
    requires Within(child, parent)
    ensures child.len >= parent.len
  {
    StartIndex(child);
    StartIndex(parent);
    if child.len < parent.len {
      Pow2Monotone(32 - parent.len + 1, 32 - child.len);
    }
  }
}
