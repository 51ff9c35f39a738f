/**
 * `processDuplicates` of the D3 server: keeps the first of the query records
 * that share a Neo4j identity, in their original order.
 */
module Dedup {

  /** A query record: the low word of its Neo4j identity, and the rest of it. */
  datatype Record<T> = Record(low: int, payload: T)

  function Identities<T>(s: seq<Record<T>>): set<int> {
    set i | 0 <= i < |s| :: s[i].low
  }

  /** The records that no earlier record shares an identity with. */
  function FirstOccurrences<T>(s: seq<Record<T>>): seq<Record<T>> {
    if s == [] then []
    else
      var init := s[..|s| - 1];
      if s[|s| - 1].low in Identities(init) then FirstOccurrences(init)
      else FirstOccurrences(init) + [s[|s| - 1]]
  }

  lemma IdentitiesAppend<T>(s: seq<Record<T>>, x: Record<T>)
    ensures Identities(s + [x]) == Identities(s) + {x.low}
  {
    var t := s + [x];
    assert forall i :: 0 <= i < |s| ==> t[i] == s[i];
    assert t[|s|] == x;
  }

  /**
   * `processDuplicates(myArray)`: a loop that remembers the identities it has
   * seen in a `Set`.
   */
  method ProcessDuplicates<T>(myArray: seq<Record<T>>) returns (results: seq<Record<T>>)
    ensures results == FirstOccurrences(myArray)
  {
    results := [];
    var recorded: set<int> := {};
    var i := 0;
    while i < |myArray|
      invariant 0 <= i <= |myArray|
      invariant results == FirstOccurrences(myArray[..i])
      invariant recorded == Identities(myArray[..i])
    {
      var ele := myArray[i];
      assert myArray[..i + 1][..i] == myArray[..i];
      IdentitiesAppend(myArray[..i], ele);
      assert myArray[..i + 1] == myArray[..i] + [ele];
      if ele.low !in recorded {
        recorded := recorded + {ele.low};
        results := results + [ele];
      }
      i := i + 1;
    }
    assert myArray[..i] == myArray;
  }

  /** The result carries exactly the identities of the input. */
  lemma {:induction false} FirstOccurrencesIdentities<T>(s: seq<Record<T>>)
    ensures Identities(FirstOccurrences(s)) == Identities(s)
  {
    if s != [] {
      var init := s[..|s| - 1];
      var x := s[|s| - 1];
      FirstOccurrencesIdentities(init);
      assert s == init + [x];
      IdentitiesAppend(init, x);
      if x.low !in Identities(init) {
        IdentitiesAppend(FirstOccurrences(init), x);
      }
    }
  }

  /** No two records of the result share an identity. */
  lemma {:induction false} FirstOccurrencesDistinct<T>(s: seq<Record<T>>)
    ensures forall i, j :: 0 <= i < j < |FirstOccurrences(s)| ==> FirstOccurrences(s)[i].low != FirstOccurrences(s)[j].low
  {
    if s != [] {
      var init := s[..|s| - 1];
      var x := s[|s| - 1];
      FirstOccurrencesDistinct(init);
      FirstOccurrencesIdentities(init);
      var r0 := FirstOccurrences(init);
      if x.low !in Identities(init) {
        var r := r0 + [x];
        assert FirstOccurrences(s) == r;
        forall i, j | 0 <= i < j < |r|
          ensures r[i].low != r[j].low
        {
          if j == |r0| {
            assert r[i] == r0[i];
            assert r0[i].low in Identities(r0);
          } else {
            assert r[i] == r0[i] && r[j] == r0[j];
          }
        }
      }
    }
  }

  /** Every record of the result is a record of the input that no earlier record shares an identity with. */
  lemma {:induction false} FirstOccurrencesOrigin<T>(s: seq<Record<T>>, i: nat)
    requires i < |FirstOccurrences(s)|
    ensures exists k :: 0 <= k < |s| && s[k] == FirstOccurrences(s)[i] && s[k].low !in Identities(s[..k])
  {
    var init := s[..|s| - 1];
    var x := s[|s| - 1];
    var r0 := FirstOccurrences(init);
    if i < |r0| {
      FirstOccurrencesOrigin(init, i);
      var k :| 0 <= k < |init| && init[k] == r0[i] && init[k].low !in Identities(init[..k]);
      assert s[k] == init[k] && s[..k] == init[..k];
      assert FirstOccurrences(s)[i] == r0[i];
    } else {
      assert FirstOccurrences(s) == r0 + [x];
      assert s[..|s| - 1] == init;
    }
  }
}
