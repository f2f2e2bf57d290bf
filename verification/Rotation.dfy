/** Rotations of a list, and the test for them that the cycle finder uses. */
module Rotation {
  import opened Wrappers

  function Rotate<T>(a: seq<T>, k: nat): seq<T>
    requires k <= |a|
  {
    a[k..] + a[..k]
  }

  /** b starts at some place of a, runs to its end and goes on from its beginning. */
  ghost predicate IsRotation<T(!new)>(a: seq<T>, b: seq<T>) {
    exists k :: 0 <= k < |a| && b == Rotate(a, k)
  }

  /** Rotating by k and then by m is one rotation. */
  lemma RotateTwice<T>(a: seq<T>, k: nat, m: nat)
    requires k < |a| && m < |a|
    ensures Rotate(Rotate(a, k), m) == Rotate(a, if k + m < |a| then k + m else k + m - |a|)
  {
    var n := |a|;
    var both := if k + m < n then k + m else k + m - n;
    forall i | 0 <= i < n
      ensures Rotate(Rotate(a, k), m)[i] == Rotate(a, both)[i]
    {
      var j := if i + m < n then i + m else i + m - n;
      assert Rotate(Rotate(a, k), m)[i] == Rotate(a, k)[j];
    }
  }

  lemma RotationTransitive<T(!new)>(a: seq<T>, b: seq<T>, c: seq<T>)
    requires IsRotation(a, b) && IsRotation(b, c)
    ensures IsRotation(a, c)
  {
    var k :| 0 <= k < |a| && b == Rotate(a, k);
    var m :| 0 <= m < |b| && c == Rotate(b, m);
    RotateTwice(a, k, m);
  }

  lemma RotationSymmetric<T(!new)>(a: seq<T>, b: seq<T>)
    requires IsRotation(a, b)
    ensures IsRotation(b, a)
  {
    var k :| 0 <= k < |a| && b == Rotate(a, k);
    var back := if k == 0 then 0 else |a| - k;
    RotateTwice(a, k, back);
    assert a == Rotate(b, back);
  }

  /**
    Whether seq1 is a rotation of seq2, tried from every place where seq1 holds
    seq2's first item.  Two empty lists have no first item: that is an error.
   */
  method IsRotated<T(==, !new)>(seq1: seq<T>, seq2: seq<T>) returns (r: Option<bool>)
    ensures r.None? <==> seq1 == [] && seq2 == []
    ensures r.Some? ==> r.value == IsRotation(seq1, seq2)
  {
    if |seq1| != |seq2| {
      return Some(false);
    }
    if seq2 == [] {
      return None;
    }
    var startIndexes := [];
    var headItem := seq2[0];
    for index1 := 0 to |seq1|
      invariant forall k :: k in startIndexes <==> 0 <= k < index1 && seq1[k] == headItem
    {
      if seq1[index1] == headItem {
        startIndexes := startIndexes + [index1];
      }
    }
    var doubleSeq1 := seq1 + seq1;
    for i := 0 to |startIndexes|
      invariant forall j :: 0 <= j < i ==>
        startIndexes[j] in startIndexes && Rotate(seq1, startIndexes[j]) != seq2
    {
      var index1 := startIndexes[i];
      assert index1 in startIndexes;
      assert doubleSeq1[index1..index1 + |seq1|] == Rotate(seq1, index1);
      if doubleSeq1[index1..index1 + |seq1|] == seq2 {
        return Some(true);
      }
    }
    forall k | 0 <= k < |seq1|
      ensures seq2 != Rotate(seq1, k)
    {
      if k !in startIndexes {
        assert Rotate(seq1, k)[0] == seq1[k];
      }
    }
    return Some(false);
  }
}
