/**
 * Subnet enumeration of the treemap builder: `createSubnets` splits one
 * block into equal sub-blocks of a longer prefix, and
 * `generateNestedSubnets` does so level by level from the supernet's own
 * prefix down to /31, also recording the suffix of every level.
 */
module Subnets {
  import opened Wrappers
  import opened IPv4
  import opened Text

  /** The error `createSubnets` throws when asked for a shorter prefix. */
  datatype SubnetError = InvalidSuffix(suffix: int, mask: Prefix)

  /** The deepest level `buildCIDRTreemap` asks for. */
  const EndSuffix: Prefix := 31

  lemma MulDistrib(a: int, b: int, c: int)
    ensures a * c + b * c == (a + b) * c
  {
  }

  /** The number of sub-blocks of prefix `s` in a block of prefix `len`. */
  function SubnetCount(len: Prefix, s: Prefix): (r: nat)
    requires len <= s
    ensures r >= 1
  {
    Pow2(s - len)
  }

  /** The sub-blocks of prefix `s` exactly tile the block of prefix `len`. */
  lemma SubnetTiling(len: Prefix, s: Prefix)
    requires len <= s
    ensures SubnetCount(len, s) * BlockSize(s) == BlockSize(len)
  {
    Pow2Add(s - len, 32 - s);
  }

  /** The i-th sub-block of prefix `s` lies inside `c`'s block. */
  lemma SubnetFits(c: Cidr, s: Prefix, i: nat)
    requires c.len <= s && i < SubnetCount(c.len, s)
    ensures BlockStart(c) + i * BlockSize(s) + BlockSize(s) <= BlockStart(c) + BlockSize(c.len) <= TWO32
  {
    var b := BlockSize(s);
    SubnetTiling(c.len, s);
    MulMono(i + 1, SubnetCount(c.len, s), b);
    MulDistrib(i, 1, b);
    assert i * b + b <= BlockSize(c.len);
    StartIndex(c);
  }

  /** The i-th sub-block of prefix `s` of `c`'s block. */
  function SubnetAt(c: Cidr, s: Prefix, i: nat): (r: Cidr)
    requires c.len <= s && i < SubnetCount(c.len, s)
    ensures r.len == s
  {
    SubnetFits(c, s, i);
    Cidr(BlockStart(c) + Offset(c, s, i), s)
  }

  /** All sub-blocks of prefix `s` of `c`'s block, lowest address first. */
  function Split(c: Cidr, s: Prefix): (r: seq<Cidr>)
    requires c.len <= s
  {
    seq(SubnetCount(c.len, s), i requires 0 <= i < SubnetCount(c.len, s) => SubnetAt(c, s, i))
  }

  /**
   * A sub-block is aligned to its own size, so its start is its address, and
   * it lies inside the block it was cut from.
   */
  lemma SplitProperties(c: Cidr, s: Prefix)
    requires c.len <= s
    ensures |Split(c, s)| == Pow2(s - c.len)
    ensures forall i :: 0 <= i < |Split(c, s)| ==>
      Split(c, s)[i].len == s && BlockStart(Split(c, s)[i]) == Split(c, s)[i].addr &&
      Within(Split(c, s)[i], c)
  {
    forall i | 0 <= i < |Split(c, s)|
      ensures BlockStart(Split(c, s)[i]) == Split(c, s)[i].addr && Within(Split(c, s)[i], c)
    {
      SubnetAligned(c, s, i);
      SubnetFits(c, s, i);
    }
  }

  /** An address that is a multiple of the block size is its block's start. */
  lemma AlignedStart(m: nat, len: Prefix)
    requires m * BlockSize(len) < TWO32
    ensures BlockStart(Cidr(m * BlockSize(len), len)) == m * BlockSize(len)
  {
    DivModUnique(m * BlockSize(len), BlockSize(len), m, 0);
    StartDivMul(Cidr(m * BlockSize(len), len));
  }

  /** The start of `c`'s block is a multiple of every longer prefix's block size. */
  lemma StartMultiple(c: Cidr, s: Prefix) returns (m: nat)
    requires c.len <= s
    ensures BlockStart(c) == m * BlockSize(s)
  {
    StartIndex(c);
    var q: nat := c.addr / BlockSize(c.len);
    var n := SubnetCount(c.len, s);
    var b := BlockSize(s);
    SubnetTiling(c.len, s);
    assert BlockStart(c) == q * (n * b);
    MulAssoc(q, n, b);
    MulNonNeg(q, n);
    m := q * n;
  }

  lemma SubnetAligned(c: Cidr, s: Prefix, i: nat)
    requires c.len <= s && i < SubnetCount(c.len, s)
    ensures BlockStart(SubnetAt(c, s, i)) == SubnetAt(c, s, i).addr
  {
    var b := BlockSize(s);
    var x := SubnetAt(c, s, i);
    var m: nat :| m * b < TWO32 && x == Cidr(m * b, s) by {
      var m0 := StartMultiple(c, s);
      MulDistrib(m0, i, b);
      assert x == Cidr((m0 + i) * b, s);
    }
    AlignedStart(m, s);
  }

  /** The distance of the i-th sub-block from the block start. */
  function Offset(c: Cidr, s: Prefix, i: nat): (k: nat)
    requires c.len <= s && i < SubnetCount(c.len, s)
    ensures k < TWO32
  {
    SubnetFits(c, s, i);
    MulNonNeg(i, BlockSize(s));
    i * BlockSize(s)
  }

  /** Stepping from the block start by the i-th offset lands on the i-th sub-block. */
  lemma IncrementLands(c: Cidr, s: Prefix, i: nat)
    requires c.len <= s && i < SubnetCount(c.len, s)
    ensures ToLong(IncrementIP(FromLong(BlockStart(c)), Offset(c, s, i))) == SubnetAt(c, s, i).addr
  {
    var start := BlockStart(c);
    var k := Offset(c, s, i);
    SubnetFits(c, s, i);
    IncrementIPAdds(FromLong(start), k);
    ToFromLong(start);
    DivModUnique(start + k, TWO32, 0, start + k);
  }

  /**
   * `createSubnets(cidr, suffix)`: walks the sub-blocks from the block start
   * with `incrementIP`. Fails when the suffix is shorter than the prefix;
   * otherwise yields exactly the sub-blocks of `Split`.
   */
  method CreateSubnets(cidr: Cidr, suffix: int) returns (r: Result<seq<Cidr>, SubnetError>)
    requires suffix <= 32
    ensures r.Failure? <==> suffix < cidr.len
    ensures r.Failure? ==> r.error == InvalidSuffix(suffix, cidr.len)
    ensures r.Success? ==> r.value == Split(cidr, suffix)
  {
    if suffix < cidr.len {
      return Failure(InvalidSuffix(suffix, cidr.len));
    }
    var subnetList: seq<Cidr> := [];
    var startIP := FromLong(BlockStart(cidr));
    var totalSubnets := Pow2(suffix - cidr.len);
    var i := 0;
    while i < totalSubnets
      invariant 0 <= i <= totalSubnets
      invariant subnetList == Split(cidr, suffix)[..i]
    {
      var increment := Offset(cidr, suffix, i);
      var offsetIP := IncrementIP(startIP, increment);
      IncrementLands(cidr, suffix, i);
      subnetList := subnetList + [Cidr(ToLong(offsetIP), suffix)];
      i := i + 1;
    }
    return Success(subnetList);
  }

  /** The sub-blocks of every block in `cs`, in order. */
  function SplitAll(cs: seq<Cidr>, s: Prefix): (r: seq<Cidr>)
    requires forall c :: c in cs ==> c.len <= s
  {
    if cs == [] then [] else SplitAll(cs[..|cs| - 1], s) + Split(cs[|cs| - 1], s)
  }

  /** Extending the list by one block extends its split by that block's split. */
  lemma SplitAllStep(cs: seq<Cidr>, s: Prefix, j: nat)
    requires j < |cs| && forall c :: c in cs ==> c.len <= s
    ensures SplitAll(cs[..j + 1], s) == SplitAll(cs[..j], s) + Split(cs[j], s)
  {
    assert cs[..j + 1][..j] == cs[..j];
  }

  /** If block k of `upper` splits into blocks 2k and 2k+1 of `lower`, the whole of `upper` splits into `lower`. */
  lemma {:induction false} SplitAllPairs(upper: seq<Cidr>, lower: seq<Cidr>, s: Prefix, j: nat)
    requires forall c :: c in upper ==> c.len <= s
    requires |lower| == 2 * |upper| && j <= |upper|
    requires forall k :: 0 <= k < |upper| ==> Split(upper[k], s) == lower[2 * k..2 * k + 2]
    ensures SplitAll(upper[..j], s) == lower[..2 * j]
  {
    if j > 0 {
      SplitAllPairs(upper, lower, s, j - 1);
      SplitAllStep(upper, s, j - 1);
      SliceTwo(lower, 2 * (j - 1));
    }
  }

  /** Splitting the level above again yields the next level of the supernet. */
  lemma SplitAgain(sup: Cidr, s: Prefix)
    requires sup.len < s
    ensures forall c :: c in Split(sup, s - 1) ==> c.len <= s
    ensures SplitAll(Split(sup, s - 1), s) == Split(sup, s)
  {
    var upper := Split(sup, s - 1);
    var lower := Split(sup, s);
    SplitProperties(sup, s - 1);
    assert |lower| == 2 * |upper| by {
      Pow2Add(s - 1 - sup.len, 1);
      assert Pow2(1) == 2;
    }
    forall k | 0 <= k < |upper|
      ensures Split(upper[k], s) == lower[2 * k..2 * k + 2]
    {
      SplitPairSlice(sup, s, k);
    }
    SplitAllPairs(upper, lower, s, |upper|);
    assert upper[..|upper|] == upper;
    assert lower[..2 * |upper|] == lower;
  }

  lemma SliceTwo<T>(xs: seq<T>, k: nat)
    requires k + 2 <= |xs|
    ensures xs[..k + 2] == xs[..k] + xs[k..k + 2]
  {
  }

  /** The same, read as slices of the two levels. */
  lemma SplitPairSlice(sup: Cidr, s: Prefix, j: nat)
    requires sup.len < s && j < |Split(sup, s - 1)|
    ensures 2 * j + 2 <= |Split(sup, s)|
    ensures Split(Split(sup, s - 1)[j], s) == Split(sup, s)[2 * j..2 * j + 2]
  {
    SplitPair(sup, s, j);
    var lower := Split(sup, s);
    assert lower[2 * j] == SubnetAt(sup, s, 2 * j);
    assert lower[2 * j + 1] == SubnetAt(sup, s, 2 * j + 1);
  }

  /** Block j of the level above splits into blocks 2j and 2j+1. */
  lemma SplitPair(sup: Cidr, s: Prefix, j: nat)
    requires sup.len < s && j < SubnetCount(sup.len, s - 1)
    ensures 2 * j + 1 < SubnetCount(sup.len, s)
    ensures Split(SubnetAt(sup, s - 1, j), s) == [SubnetAt(sup, s, 2 * j), SubnetAt(sup, s, 2 * j + 1)]
  {
    var b := BlockSize(s);
    var start := BlockStart(sup);
    assert Pow2(1) == 2;
    Pow2Add(s - 1 - sup.len, 1);
    Pow2Add(1, 32 - s);
    assert BlockSize(s - 1) == 2 * b;
    var x := SubnetAt(sup, s - 1, j);
    SubnetAligned(sup, s - 1, j);
    MulAssoc(j, 2, b);
    assert Offset(sup, s - 1, j) == (2 * j) * b;
    assert BlockStart(x) == start + (2 * j) * b;
    MulDistrib(2 * j, 1, b);
    assert Offset(sup, s, 2 * j + 1) == (2 * j) * b + b;
    assert SubnetCount(x.len, s) == 2;
    assert Offset(x, s, 0) == 0 && Offset(x, s, 1) == b;
    var pair := Split(x, s);
    assert pair[0] == SubnetAt(sup, s, 2 * j);
    assert pair[1] == SubnetAt(sup, s, 2 * j + 1);
  }

  /** All levels from `from` down to `to`, one after the other. */
  function Nested(sup: Cidr, from: Prefix, to: int): (r: seq<Cidr>)
    requires sup.len <= from && to <= 32
    decreases 33 - from + to
  {
    if to < from then [] else Nested(sup, from, to - 1) + Split(sup, to)
  }

  /** The suffixes `from`..`to` as decimal strings. */
  function SuffixStrings(from: int, to: int): (r: seq<string>)
    decreases to - from
  {
    if to < from then [] else SuffixStrings(from, to - 1) + [IntString(to)]
  }

  /** `cidrSuffixes` holds one decimal string per level, in order. */
  lemma {:induction false} SuffixStringsDecimal(from: int, to: int)
    decreases to - from
    ensures |SuffixStrings(from, to)| == (if to < from then 0 else to - from + 1)
    ensures forall k :: 0 <= k < |SuffixStrings(from, to)| ==> SuffixStrings(from, to)[k] == IntString(from + k)
  {
    if from <= to {
      var init := SuffixStrings(from, to - 1);
      var r := init + [IntString(to)];
      assert SuffixStrings(from, to) == r;
      SuffixStringsDecimal(from, to - 1);
      forall k | 0 <= k < |r|
        ensures r[k] == IntString(from + k)
      {
        if k < |init| {
          assert r[k] == init[k];
        } else {
          assert from + k == to;
        }
      }
    }
  }

  /** Every generated subnet is an aligned block inside the supernet, with a prefix in range. */
  lemma {:induction false} NestedInside(sup: Cidr, from: Prefix, to: int)
    requires sup.len <= from && to <= 32
    ensures forall c :: c in Nested(sup, from, to) ==> Within(c, sup) && from <= c.len <= to
    ensures forall c :: c in Nested(sup, from, to) ==> BlockStart(c) == c.addr
    decreases 33 - from + to
  {
    if from <= to {
      NestedInside(sup, from, to - 1);
      SplitProperties(sup, to);
    }
  }

  /** The first level under a supernet of prefix `len` is the supernet's block alone. */
  lemma FirstLevel(sup: Cidr)
    ensures Split(sup, sup.len) == [Cidr(BlockStart(sup), sup.len)]
  {
    assert Pow2(0) == 1;
    assert 0 * BlockSize(sup.len) == 0;
  }

  /**
   * One pass of `generateNestedSubnets`: every block of the current level is
   * split with `createSubnets`, stopping at the first block that fails.
   */
  method NextLevel(current: seq<Cidr>, suffix: Prefix) returns (r: Result<seq<Cidr>, SubnetError>)
    ensures r.Failure? <==> exists c :: c in current && suffix < c.len
    ensures r.Success? ==> forall c :: c in current ==> c.len <= suffix
    ensures r.Success? ==> r.value == SplitAll(current, suffix)
  {
    var nextLevelSubnets: seq<Cidr> := [];
    var j := 0;
    while j < |current|
      invariant 0 <= j <= |current|
      invariant forall c :: c in current[..j] ==> c.len <= suffix
      invariant nextLevelSubnets == SplitAll(current[..j], suffix)
    {
      var subnets := CreateSubnets(current[j], suffix);
      if subnets.Failure? {
        return Failure(subnets.error);
      }
      assert current[..j + 1][..j] == current[..j];
      nextLevelSubnets := nextLevelSubnets + subnets.value;
      j := j + 1;
    }
    assert current[..j] == current;
    return Success(nextLevelSubnets);
  }

  /**
   * `generateNestedSubnets(supernet, startSuffix, endSuffix)`: level by level,
   * each block of the previous level is split once more. Fails exactly when
   * the first level asks for a prefix shorter than the supernet's.
   */
  method GenerateNestedSubnets(supernet: Cidr, startSuffix: Prefix, endSuffix: int)
    returns (r: Result<(seq<Cidr>, seq<string>), SubnetError>)
    requires endSuffix <= 32
    ensures r.Failure? <==> startSuffix <= endSuffix && startSuffix < supernet.len
    ensures r.Success? && startSuffix <= endSuffix ==>
      supernet.len <= startSuffix && r.value.0 == Nested(supernet, startSuffix, endSuffix)
    ensures r.Success? && endSuffix < startSuffix ==> r.value.0 == []
    ensures r.Success? ==> r.value.1 == SuffixStrings(startSuffix, endSuffix)
  {
    var result: seq<Cidr> := [];
    var cidrSuffixes: seq<string> := [];
    var currentSubnets := [supernet];
    var suffix := startSuffix;
    while suffix <= endSuffix
      invariant suffix == startSuffix || startSuffix < suffix <= endSuffix + 1
      invariant suffix == startSuffix ==> currentSubnets == [supernet] && result == []
      invariant suffix > startSuffix ==> supernet.len <= startSuffix && 0 <= suffix - 1 <= 32
      invariant suffix > startSuffix ==>
        currentSubnets == Split(supernet, suffix - 1) && result == Nested(supernet, startSuffix, suffix - 1)
      invariant cidrSuffixes == SuffixStrings(startSuffix, suffix - 1)
      decreases endSuffix - suffix
    {
      var next := NextLevel(currentSubnets, suffix);
      if next.Failure? {
        return Failure(next.error);
      }
      var nextLevelSubnets := next.value;
      if suffix > startSuffix {
        SplitAgain(supernet, suffix);
      }
      result := result + nextLevelSubnets;
      cidrSuffixes := cidrSuffixes + [IntString(suffix)];
      currentSubnets := nextLevelSubnets;
      suffix := suffix + 1;
    }
    return Success((result, cidrSuffixes));
  }

  /** Two blocks are either nested, the longer prefix inside the shorter, or disjoint. */
  lemma NestedOrDisjoint(c: Cidr, e: Cidr)
    requires c.len <= e.len
    ensures Within(e, c) || BlockEnd(e) < BlockStart(c) || BlockEnd(c) < BlockStart(e)
  {
    var b := BlockSize(e.len);
    var k := SubnetCount(c.len, e.len);
    SubnetTiling(c.len, e.len);
    var mc := StartMultiple(c, e.len);
    var me := StartMultiple(e, e.len);
    MulDistrib(mc, k, b);
    MulDistrib(me, 1, b);
    if BlockStart(c) <= BlockEnd(e) && BlockStart(e) <= BlockEnd(c) {
      LessMul(mc, me + 1, b);
      MulMono(mc, me, b);
      LessMul(me, mc + k, b);
      MulMono(me + 1, mc + k, b);
    }
  }
}
