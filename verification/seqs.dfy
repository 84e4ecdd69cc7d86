/**
 * Duplicate-free sequences and first-encounter de-duplication, the list
 * discipline of the loops that build `magazines()` and `contributors()`
 * ("append unless already present").
 */
module Seqs {

  predicate NoDup<T(==)>(s: seq<T>) {
    forall i, j :: 0 <= i < j < |s| ==> s[i] != s[j]
  }

  /** The position of the first occurrence of `x` in `s`, or `|s|` when there is none. */
  function FirstIndex<T(==)>(s: seq<T>, x: T): (k: nat)
    ensures k <= |s| && x !in s[..k]
    ensures k < |s| ==> s[k] == x
  {
    if s == [] then 0
    else if s[0] == x then 0
    else 1 + FirstIndex(s[1..], x)
  }

  /**
   * `s` with every element kept at its first occurrence only: scan from the
   * left and append each element not already collected.
   */
  function Dedup<T(==)>(s: seq<T>): (r: seq<T>)
    ensures |r| <= |s|
    ensures forall i :: 0 <= i < |r| ==> r[i] in s
  {
    if s == [] then []
    else
      var d := Dedup(s[..|s| - 1]);
      var x := s[|s| - 1];
      if x in d then d else d + [x]
  }

  /** De-duplication keeps exactly the elements of the input. */
  lemma {:induction false} DedupMember<T>(s: seq<T>, x: T)
    ensures x in Dedup(s) <==> x in s
  {
    if s != [] {
      var p := s[..|s| - 1];
      assert s == p + [s[|s| - 1]];
      DedupMember(p, x);
    }
  }

  /** De-duplication lists no element twice. */
  lemma {:induction false} DedupNoDup<T>(s: seq<T>)
    ensures NoDup(Dedup(s))
  {
    if s != [] {
      DedupNoDup(s[..|s| - 1]);
    }
  }

  /** Appending keeps the first occurrence of everything already present. */
  lemma FirstIndexSnoc<T>(s: seq<T>, x: T, y: T)
    requires y in s
    ensures FirstIndex(s + [x], y) == FirstIndex(s, y)
  {
    var k, k' := FirstIndex(s + [x], y), FirstIndex(s, y);
    assert (s + [x])[k'] == y;
    assert k <= k';
    assert s[k] == y;
  }

  /** An element appended to a sequence that lacked it first occurs at the end. */
  lemma FirstIndexFresh<T>(s: seq<T>, x: T)
    requires x !in s
    ensures FirstIndex(s + [x], x) == |s|
  {
    var t := s + [x];
    var k := FirstIndex(t, x);
    assert t[..|t|] == t && t[|s|] == x;
    assert k < |t|;
    assert t[..|s|] == s;
  }

  /**
   * De-duplication keeps first-encounter order: earlier elements of the
   * result first occur earlier in the input.
   */
  lemma {:induction false} DedupFirstEncounter<T>(s: seq<T>)
    ensures forall i, j :: 0 <= i < j < |Dedup(s)| ==>
              FirstIndex(s, Dedup(s)[i]) < FirstIndex(s, Dedup(s)[j])
  {
    if s != [] {
      var p, x := s[..|s| - 1], s[|s| - 1];
      assert s == p + [x];
      DedupFirstEncounter(p);
      var d, r := Dedup(p), Dedup(s);
      forall i, j | 0 <= i < j < |r|
        ensures FirstIndex(s, r[i]) < FirstIndex(s, r[j])
      {
        DedupMember(p, r[i]);
        FirstIndexSnoc(p, x, r[i]);
        if j < |d| {
          DedupMember(p, r[j]);
          FirstIndexSnoc(p, x, r[j]);
        } else {
          DedupMember(p, x);
          assert r[j] == x && x !in p;
          FirstIndexFresh(p, x);
        }
      }
    }
  }

  /** First-encounter order, in the form used to compare two positions. */
  lemma DedupOrder<T>(s: seq<T>, i: nat, j: nat)
    requires i <= j < |Dedup(s)|
    ensures FirstIndex(s, Dedup(s)[i]) <= FirstIndex(s, Dedup(s)[j])
  {
    DedupFirstEncounter(s);
  }

  /** Every element of the input has a position in the de-duplicated sequence. */
  lemma DedupPosition<T>(s: seq<T>, x: T) returns (k: nat)
    requires x in s
    ensures k < |Dedup(s)| && Dedup(s)[k] == x
  {
    DedupMember(s, x);
    k := FirstIndex(Dedup(s), x);
  }
}
