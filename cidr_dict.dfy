/**
 * The `cidrDict` object the treemap builder receives and rewrites: an
 * insertion-ordered dictionary from CIDR keys to `{value, label, vuln}`
 * entries, the filling of missing subnets, the removal of the supernet key,
 * and the comparator that orders the entries before the tree is built.
 *
 * A key is identified with its parsed (address, prefix) pair.
 */
module CidrDict {
  import opened Wrappers
  import opened IPv4

  /**
   * One `cidrDict` entry: `{ value, label, vuln }` (`label` is a Dafny keyword,
   * so the field is called `caption`); `vuln` is absent on filled-in subnets.
   */
  datatype Entry = Entry(value: Cidr, caption: string, vuln: Option<int>)

  /** The label the builder gives to the subnets it fills in. */
  const NewLabel: string := "my_pool"

  /** An insertion-ordered dictionary: `keys` is the order of `Object.entries`. */
  datatype Dict = Dict(keys: seq<Cidr>, entries: map<Cidr, Entry>) {
    ghost predicate Valid() {
      Distinct(keys) &&
      (forall k :: k in entries <==> k in keys)
    }
  }

  // ------------------------------------------------------------ filling in

  /** The subnets of `subs` not among `known`, each once, in order of first occurrence. */
  function Unseen(known: set<Cidr>, subs: seq<Cidr>): (r: seq<Cidr>)
  {
    if subs == [] then []
    else
      var u := Unseen(known, subs[..|subs| - 1]);
      var s := subs[|subs| - 1];
      if s in known || s in u then u else u + [s]
  }

  /** `Unseen` lists exactly the new subnets, without repetition. */
  lemma {:induction false} UnseenExactly(known: set<Cidr>, subs: seq<Cidr>)
    ensures forall x :: x in Unseen(known, subs) <==> x in subs && x !in known
    ensures Distinct(Unseen(known, subs))
  {
    if subs != [] {
      var init := subs[..|subs| - 1];
      UnseenExactly(known, init);
      assert subs == init + [subs[|subs| - 1]];
    }
  }

  /**
   * The loop over `allSubnets`: a subnet that is not yet a key is added with
   * the label `my_pool` and no `vuln`; existing entries are left alone.
   */
  method Fill(d: Dict, subs: seq<Cidr>) returns (r: Dict)
    requires d.Valid()
    ensures r.Valid()
    ensures r.keys == d.keys + Unseen(d.entries.Keys, subs)
    ensures forall k :: k in d.entries ==> k in r.entries && r.entries[k] == d.entries[k]
    ensures forall k :: k in r.entries && k !in d.entries ==> r.entries[k] == Entry(k, NewLabel, None)
    ensures forall s :: s in subs ==> s in r.entries
  {
    r := d;
    var i := 0;
    while i < |subs|
      invariant 0 <= i <= |subs|
      invariant FilledUpTo(d, subs, i, r)
    {
      var sub := subs[i];
      FillStep(d, subs, i, r);
      if sub !in r.entries {
        r := Dict(r.keys + [sub], r.entries[sub := Entry(sub, NewLabel, None)]);
      }
      i := i + 1;
    }
    assert subs[..i] == subs;
    UnseenExactly(d.entries.Keys, subs);
    ConcatDistinct(d.keys, Unseen(d.entries.Keys, subs));
  }

  /** What the fill loop has built after the first `i` subnets. */
  ghost predicate FilledUpTo(d: Dict, subs: seq<Cidr>, i: nat, r: Dict)
    requires i <= |subs|
  {
    && r.keys == d.keys + Unseen(d.entries.Keys, subs[..i])
    && (forall k :: k in r.entries <==> k in r.keys)
    && (forall k :: k in d.entries ==> k in r.entries && r.entries[k] == d.entries[k])
    && (forall k :: k in r.entries && k !in d.entries ==> r.entries[k] == Entry(k, NewLabel, None))
  }

  /** One pass of the fill loop keeps `FilledUpTo`. */
  lemma FillStep(d: Dict, subs: seq<Cidr>, i: nat, r: Dict)
    requires d.Valid() && i < |subs| && FilledUpTo(d, subs, i, r)
    ensures var sub := subs[i];
      FilledUpTo(d, subs, i + 1,
        if sub !in r.entries then Dict(r.keys + [sub], r.entries[sub := Entry(sub, NewLabel, None)]) else r)
  {
    assert subs[..i + 1][..i] == subs[..i];
    UnseenExactly(d.entries.Keys, subs[..i]);
  }

  /** Two repetition-free sequences with no element in common concatenate to one. */
  lemma ConcatDistinct<T>(a: seq<T>, b: seq<T>)
    requires Distinct(a) && Distinct(b)
    requires forall x :: x in b ==> x !in a
    ensures Distinct(a + b)
  {
    forall i, j | 0 <= i < j < |a + b| ensures (a + b)[i] != (a + b)[j] {
      if j >= |a| && i < |a| {
        assert (a + b)[j] in b;
      } else if j >= |a| {
        assert (a + b)[i] == b[i - |a|];
      }
    }
  }

  /** `delete cidrDict[key]`: the key goes, every other entry keeps its place and value. */
  function Delete(d: Dict, key: Cidr): (r: Dict)
    requires d.Valid()
    ensures r.Valid()
    ensures key !in r.entries
    ensures forall k :: k != key ==> (k in r.entries <==> k in d.entries)
    ensures forall k :: k in r.entries ==> r.entries[k] == d.entries[k]
    ensures forall i :: 0 <= i < |r.keys| ==> r.keys[i] in d.keys
    ensures key in d.entries ==> |r.keys| == |d.keys| - 1
    ensures key in d.entries ==>
      exists i :: 0 <= i < |d.keys| && d.keys[i] == key && r.keys == d.keys[..i] + d.keys[i + 1..]
    ensures key !in d.entries ==> r == d
  {
    if key !in d.entries then d
    else
      var i :| 0 <= i < |d.keys| && d.keys[i] == key;
      DeleteAt(d, i)
  }

  function DeleteAt(d: Dict, i: nat): (r: Dict)
    requires d.Valid() && i < |d.keys|
    ensures r.Valid()
    ensures r.keys == d.keys[..i] + d.keys[i + 1..]
    ensures r.entries == map k | k in d.entries && k != d.keys[i] :: d.entries[k]
  {
    var keys := d.keys[..i] + d.keys[i + 1..];
    assert forall k :: k in keys <==> k in d.keys && k != d.keys[i] by {
      forall k ensures k in keys <==> k in d.keys && k != d.keys[i] {
        if k in d.keys && k != d.keys[i] {
          var j :| 0 <= j < |d.keys| && d.keys[j] == k;
          if j < i { assert keys[j] == k; } else { assert keys[j - 1] == k; }
        }
      }
    }
    Dict(keys, map k | k in d.entries && k != d.keys[i] :: d.entries[k])
  }

  // ------------------------------------------------------------ ordering

  /** The third dotted-quad octet of a key's address. */
  function ThirdOctet(c: Cidr): Octet {
    (c.addr / 0x100) % 0x100
  }

  /** The fourth dotted-quad octet of a key's address. */
  function FourthOctet(c: Cidr): Octet {
    c.addr % 0x100
  }

  /** The comparator handed to `Array.prototype.sort`, as written. */
  function Compare(a: Cidr, b: Cidr): int {
    if a.len != b.len then a.len - b.len
    else if ThirdOctet(a) == ThirdOctet(b) then FourthOctet(a) - FourthOctet(b)
    else ThirdOctet(a) - ThirdOctet(b)
  }

  /** The order the comparator means: prefix length, then third octet, then fourth octet. */
  predicate KeyLe(a: Cidr, b: Cidr) {
    a.len < b.len ||
    (a.len == b.len && (ThirdOctet(a) < ThirdOctet(b) ||
      (ThirdOctet(a) == ThirdOctet(b) && FourthOctet(a) <= FourthOctet(b))))
  }

  /** The comparator is consistent: its sign is the lexicographic order, and it is antisymmetric. */
  lemma CompareMeansKeyLe(a: Cidr, b: Cidr)
    ensures Compare(a, b) <= 0 <==> KeyLe(a, b)
    ensures Compare(a, b) == -Compare(b, a)
    ensures Compare(a, b) == 0 <==> a.len == b.len && ThirdOctet(a) == ThirdOctet(b) && FourthOctet(a) == FourthOctet(b)
  {
  }

  /** The first two octets play no part in the order. */
  lemma CompareIgnoresHighOctets(a: Cidr, b: Cidr, c: Cidr)
    requires a.len == b.len && ThirdOctet(a) == ThirdOctet(b) && FourthOctet(a) == FourthOctet(b)
    ensures Compare(a, c) == Compare(b, c)
  {
  }

  lemma KeyLeTotal(a: Cidr, b: Cidr)
    ensures KeyLe(a, b) || KeyLe(b, a)
  {
  }

  lemma KeyLeTransitive(a: Cidr, b: Cidr, c: Cidr)
    requires KeyLe(a, b) && KeyLe(b, c)
    ensures KeyLe(a, c)
  {
  }

  ghost predicate Sorted(s: seq<Cidr>) {
    forall i, j :: 0 <= i < j < |s| ==> KeyLe(s[i], s[j])
  }

  /** Places `k` after every key that does not compare greater than it. */
  function InsertKey(sorted: seq<Cidr>, k: Cidr): (r: seq<Cidr>)
  {
    if sorted == [] then [k]
    else if Compare(sorted[|sorted| - 1], k) <= 0 then sorted + [k]
    else InsertKey(sorted[..|sorted| - 1], k) + [sorted[|sorted| - 1]]
  }

  /**
   * `Array.prototype.sort` with the comparator: a stable sort, written as an
   * insertion sort.
   */
  function SortKeys(keys: seq<Cidr>): (r: seq<Cidr>)
  {
    if keys == [] then [] else InsertKey(SortKeys(keys[..|keys| - 1]), keys[|keys| - 1])
  }

  lemma {:induction false} InsertKeySorted(sorted: seq<Cidr>, k: Cidr)
    requires Sorted(sorted)
    ensures Sorted(InsertKey(sorted, k))
    ensures multiset(InsertKey(sorted, k)) == multiset(sorted) + multiset{k}
    ensures |InsertKey(sorted, k)| == |sorted| + 1
  {
    if sorted == [] {
    } else {
      var init, last := sorted[..|sorted| - 1], sorted[|sorted| - 1];
      assert sorted == init + [last];
      CompareMeansKeyLe(last, k);
      if Compare(last, k) <= 0 {
        AppendSorted(sorted, k);
      } else {
        KeyLeTotal(last, k);
        InsertKeySorted(init, k);
        InsertBeforeLast(init, last, k);
      }
    }
  }

  /** A key no smaller than the last one may go at the end. */
  lemma AppendSorted(sorted: seq<Cidr>, k: Cidr)
    requires Sorted(sorted) && sorted != [] && KeyLe(sorted[|sorted| - 1], k)
    ensures Sorted(sorted + [k])
  {
    var last := sorted[|sorted| - 1];
    forall i, j | 0 <= i < j < |sorted| + 1 ensures KeyLe((sorted + [k])[i], (sorted + [k])[j]) {
      if j == |sorted| && i < |sorted| - 1 {
        KeyLeTransitive(sorted[i], last, k);
      }
    }
  }

  /** Re-appending the last key after inserting `k` into the rest keeps the order. */
  lemma InsertBeforeLast(init: seq<Cidr>, last: Cidr, k: Cidr)
    requires Sorted(init + [last]) && KeyLe(k, last)
    requires Sorted(InsertKey(init, k))
    requires multiset(InsertKey(init, k)) == multiset(init) + multiset{k}
    ensures Sorted(InsertKey(init, k) + [last])
  {
    var r0 := InsertKey(init, k);
    assert forall x :: x in multiset(r0) ==> x == k || x in multiset(init);
    forall i, j | 0 <= i < j < |r0| + 1 ensures KeyLe((r0 + [last])[i], (r0 + [last])[j]) {
      if j == |r0| {
        assert r0[i] in multiset(r0);
        if r0[i] != k {
          assert r0[i] in init;
          var m :| 0 <= m < |init| && init[m] == r0[i];
          assert (init + [last])[m] == r0[i] && (init + [last])[|init|] == last;
          assert KeyLe(r0[i], last);
        }
      }
    }
  }

  /** The sort yields the keys in comparator order, each exactly as often as before. */
  lemma {:induction false} SortKeysSortsPermutes(keys: seq<Cidr>)
    ensures Sorted(SortKeys(keys))
    ensures multiset(SortKeys(keys)) == multiset(keys)
  {
    if keys != [] {
      var init, last := keys[..|keys| - 1], keys[|keys| - 1];
      SortKeysSortsPermutes(init);
      InsertKeySorted(SortKeys(init), last);
      SnocMultiset(keys);
    }
  }

  lemma SnocMultiset(keys: seq<Cidr>)
    requires keys != []
    ensures multiset(keys) == multiset(keys[..|keys| - 1]) + multiset{keys[|keys| - 1]}
  {
    assert keys == keys[..|keys| - 1] + [keys[|keys| - 1]];
  }

  /** The keys of `s` that the comparator ties with `k`, in their order in `s`. */
  function Ties(s: seq<Cidr>, k: Cidr): (r: seq<Cidr>)
  {
    if s == [] then []
    else Ties(s[..|s| - 1], k) + (if Compare(s[|s| - 1], k) == 0 then [s[|s| - 1]] else [])
  }

  lemma TiesAppend(s: seq<Cidr>, x: Cidr, k: Cidr)
    ensures Ties(s + [x], k) == Ties(s, k) + (if Compare(x, k) == 0 then [x] else [])
  {
    assert (s + [x])[..|s|] == s;
  }

  lemma {:induction false} InsertKeyStable(sorted: seq<Cidr>, x: Cidr, k: Cidr)
    ensures Ties(InsertKey(sorted, x), k) == Ties(sorted, k) + (if Compare(x, k) == 0 then [x] else [])
  {
    if sorted != [] {
      var init, last := sorted[..|sorted| - 1], sorted[|sorted| - 1];
      assert sorted == init + [last];
      TiesAppend(init, last, k);
      if Compare(last, x) <= 0 {
        TiesAppend(sorted, x, k);
      } else {
        InsertKeyStable(init, x, k);
        TiesAppend(InsertKey(init, x), last, k);
        CompareMeansKeyLe(last, k);
        CompareMeansKeyLe(x, k);
        CompareMeansKeyLe(last, x);
      }
    }
  }

  /** The sort is stable: keys the comparator ties keep their relative order. */
  lemma {:induction false} SortKeysStable(keys: seq<Cidr>, k: Cidr)
    ensures Ties(SortKeys(keys), k) == Ties(keys, k)
  {
    if keys != [] {
      var init, last := keys[..|keys| - 1], keys[|keys| - 1];
      assert SortKeys(keys) == InsertKey(SortKeys(init), last);
      SortKeysStable(init, k);
      InsertKeyStable(SortKeys(init), last, k);
    }
  }
}
