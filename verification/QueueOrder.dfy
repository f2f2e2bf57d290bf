/**
  The order in which a queue frees items: first those without parents, then each
  item when the last of its parents is taken from the queue, at the last place
  where that parent lists it.
 */
module QueueOrder {
  import Sequences
  import opened Graph

  ghost predicate IsRoot(g: Adjacency, x: Node) {
    forall p :: !Edge(g, p, x)
  }

  predicate LastPlace(listed: seq<Node>, x: Node, m: int) {
    && 0 <= m < |listed| && listed[m] == x
    && forall m' :: m < m' < |listed| ==> listed[m'] != x
  }

  /** Item k is the last parent of item j in the answer, and lists it last at place m. */
  ghost predicate FreedAt(g: Adjacency, answer: seq<Node>, j: int, k: int, m: int) {
    && 0 <= k < j < |answer| && answer[k] in g && LastPlace(g[answer[k]], answer[j], m)
    && forall k' :: k < k' < j ==> !Edge(g, answer[k'], answer[j])
  }

  predicate Earlier(k: int, m: int, k': int, m': int) {
    k < k' || (k == k' && m < m')
  }

  ghost predicate RootsFirst(g: Adjacency, answer: seq<Node>) {
    forall i, j {:trigger IsRoot(g, answer[i]), IsRoot(g, answer[j])} ::
      0 <= i < j < |answer| && IsRoot(g, answer[j]) ==> IsRoot(g, answer[i])
  }

  /** First in, first out: behind the roots the items stand in the order in which they were freed. */
  ghost predicate InQueueOrder(g: Adjacency, answer: seq<Node>) {
    && RootsFirst(g, answer)
    && forall i, j, k, m, k', m' {:trigger FreedAt(g, answer, i, k, m), FreedAt(g, answer, j, k', m')} ::
         i < j && FreedAt(g, answer, i, k, m) && FreedAt(g, answer, j, k', m') ==> Earlier(k, m, k', m')
  }

  /** Nothing was freed at or behind place n0 of item k0. */
  ghost predicate FreedUpTo(g: Adjacency, answer: seq<Node>, k0: int, n0: int) {
    forall j, k, m {:trigger FreedAt(g, answer, j, k, m)} ::
      FreedAt(g, answer, j, k, m) ==> Earlier(k, m, k0, n0)
  }

  // ----- the order while the answer grows

  lemma OnlyRoots(g: Adjacency, answer: seq<Node>)
    requires forall x, p :: x in answer ==> !Edge(g, p, x)
    ensures InQueueOrder(g, answer) && FreedUpTo(g, answer, 0, 0)
  {
    forall j, k, m | FreedAt(g, answer, j, k, m)
      ensures false
    {
      assert Edge(g, answer[k], answer[j]);
    }
  }

  lemma FreedEarlierItem(g: Adjacency, answer: seq<Node>, x: Node, j: int, k: int, m: int)
    requires j < |answer|
    ensures FreedAt(g, answer + [x], j, k, m) <==> FreedAt(g, answer, j, k, m)
  {
    var more := answer + [x];
    if 0 <= j {
      assert forall i :: 0 <= i <= j ==> more[i] == answer[i];
    }
  }

  lemma FreedNow(g: Adjacency, answer: seq<Node>, x: Node, k0: nat, n0: nat, k: int, m: int)
    requires k0 < |answer| && Sequences.Distinct(answer)
    requires answer[k0] in g && LastPlace(g[answer[k0]], x, n0)
    requires forall p :: Edge(g, p, x) ==> p in answer[..k0 + 1]
    ensures FreedAt(g, answer + [x], |answer|, k, m) <==> k == k0 && m == n0
  {
    var more := answer + [x];
    assert forall i :: 0 <= i < |answer| ==> more[i] == answer[i];
    assert Edge(g, more[k0], x);
    forall k' | k0 < k' < |answer|
      ensures !Edge(g, more[k'], x)
    {
      assert answer[k'] !in answer[..k0 + 1];
    }
    if FreedAt(g, more, |answer|, k, m) {
      assert Edge(g, more[k], x);
      assert k == k0;
    }
  }

  /** A child freed at place n0 of the item k0 at hand joins the end of the answer. */
  lemma FreedNext(g: Adjacency, answer: seq<Node>, x: Node, k0: nat, n0: nat)
    requires InQueueOrder(g, answer) && FreedUpTo(g, answer, k0, n0)
    requires k0 < |answer| && Sequences.Distinct(answer)
    requires answer[k0] in g && LastPlace(g[answer[k0]], x, n0)
    requires forall p :: Edge(g, p, x) ==> p in answer[..k0 + 1]
    ensures InQueueOrder(g, answer + [x]) && FreedUpTo(g, answer + [x], k0, n0 + 1)
  {
    var more := answer + [x];
    forall j, k, m | FreedAt(g, more, j, k, m)
      ensures j < |answer| ==> FreedAt(g, answer, j, k, m)
      ensures j == |answer| ==> k == k0 && m == n0
    {
      if j < |answer| {
        FreedEarlierItem(g, answer, x, j, k, m);
      } else {
        FreedNow(g, answer, x, k0, n0, k, m);
      }
    }
    NewIsNoRoot(g, answer, x, k0);
  }

  lemma NewIsNoRoot(g: Adjacency, answer: seq<Node>, x: Node, k0: nat)
    requires RootsFirst(g, answer) && k0 < |answer| && Edge(g, answer[k0], x)
    ensures RootsFirst(g, answer + [x])
  {
    var more := answer + [x];
    forall i, j | 0 <= i < j < |more| && IsRoot(g, more[j])
      ensures IsRoot(g, more[i])
    {
      assert !IsRoot(g, x);
      assert IsRoot(g, answer[j]) && answer[i] == more[i];
    }
  }

  // ----- the order determines the answer

  /** Distinct items, each behind all its parents. */
  ghost predicate ParentsFirst(g: Adjacency, answer: seq<Node>) {
    && Sequences.Distinct(answer)
    && forall j, p :: 0 <= j < |answer| && Edge(g, p, answer[j]) ==> p in answer[..j]
  }

  lemma LastPlaceExists(listed: seq<Node>, x: Node) returns (m: nat)
    requires x in listed
    ensures LastPlace(listed, x, m)
  {
    m := |listed| - 1;
    while listed[m] != x
      invariant m < |listed| && forall m' :: m < m' < |listed| ==> listed[m'] != x
      invariant x in listed
      decreases m
    {
      m := m - 1;
    }
  }

  /** Every item but the roots was freed somewhere. */
  lemma FreedSomewhere(g: Adjacency, answer: seq<Node>, j: nat) returns (k: int, m: int)
    requires ParentsFirst(g, answer) && j < |answer| && !IsRoot(g, answer[j])
    ensures FreedAt(g, answer, j, k, m)
  {
    var x := answer[j];
    var p :| Edge(g, p, x);
    assert p in answer[..j];
    k := j - 1;
    while !Edge(g, answer[k], x)
      invariant 0 <= k < j && forall k' :: k < k' < j ==> !Edge(g, answer[k'], x)
      invariant exists i :: 0 <= i <= k && Edge(g, answer[i], x)
      decreases k
    {
      k := k - 1;
    }
    m := LastPlaceExists(g[answer[k]], x);
  }

  /** With the same items in front, and all parents among them, an item is freed at the same place. */
  lemma FreedAlike(g: Adjacency, a: seq<Node>, b: seq<Node>, i: nat, j: nat, n: nat, k: int, m: int)
    requires n <= i < |a| && n <= j < |b| && a[..n] == b[..n] && a[i] == b[j]
    requires Sequences.Distinct(a) && Sequences.Distinct(b)
    requires forall p :: Edge(g, p, a[i]) ==> p in a[..n]
    requires FreedAt(g, a, i, k, m)
    ensures FreedAt(g, b, j, k, m)
  {
    assert Edge(g, a[k], a[i]);
    assert forall h :: 0 <= h < n ==> a[..n][h] == a[h] && b[..n][h] == b[h];
    forall k' | k < k' < j
      ensures !Edge(g, b[k'], b[j])
    {
      if k' >= n {
        assert b[k'] !in b[..n];
      }
    }
  }

  ghost predicate SameRoots(g: Adjacency, a: seq<Node>, b: seq<Node>) {
    forall i {:trigger IsRoot(g, a[i])} :: 0 <= i < |a| && IsRoot(g, a[i]) ==> i < |b| && b[i] == a[i]
  }

  lemma PlaceBehind(a: seq<Node>, b: seq<Node>, n: nat) returns (j: nat)
    requires n < |a| && n <= |b| && a[..n] == b[..n]
    requires Sequences.Distinct(a) && forall x :: x in a ==> x in b
    ensures n <= j < |b| && b[j] == a[n]
  {
    assert a[n] in b;
    j :| 0 <= j < |b| && b[j] == a[n];
    assert forall h :: 0 <= h < n ==> a[..n][h] == a[h] && b[..n][h] == b[h];
  }

  /** Behind the same beginning both answers go on with the same item. */
  lemma NextAgrees(g: Adjacency, a: seq<Node>, b: seq<Node>, n: nat)
    requires ParentsFirst(g, a) && InQueueOrder(g, a) && ParentsFirst(g, b) && InQueueOrder(g, b)
    requires (forall x :: x in a <==> x in b) && SameRoots(g, a, b) && SameRoots(g, b, a)
    requires n < |a| && n < |b| && a[..n] == b[..n]
    ensures a[n] == b[n]
  {
    var i := PlaceBehind(b, a, n);
    var j := PlaceBehind(a, b, n);
    if IsRoot(g, a[n]) || IsRoot(g, b[n]) {
      return;
    }
    if a[n] != b[n] {
      var k, m := FreedSomewhere(g, a, n);
      var k', m' := FreedSomewhere(g, b, n);
      FreedAlike(g, a, b, n, j, n, k, m);
      FreedAlike(g, b, a, n, i, n, k', m');
      assert false;
    }
  }

  lemma {:induction false} AgreesUpTo(g: Adjacency, a: seq<Node>, b: seq<Node>, n: nat)
    requires ParentsFirst(g, a) && InQueueOrder(g, a) && ParentsFirst(g, b) && InQueueOrder(g, b)
    requires (forall x :: x in a <==> x in b) && SameRoots(g, a, b) && SameRoots(g, b, a)
    requires n <= |a| && n <= |b|
    ensures a[..n] == b[..n]
  {
    if n > 0 {
      AgreesUpTo(g, a, b, n - 1);
      NextAgrees(g, a, b, n - 1);
      assert a[..n] == a[..n - 1] + [a[n - 1]] && b[..n] == b[..n - 1] + [b[n - 1]];
    }
  }

  /**
    The items and the order of the roots leave one answer only: the queue has no
    choice behind the root scan.
   */
  lemma OrderDetermined(g: Adjacency, a: seq<Node>, b: seq<Node>)
    requires ParentsFirst(g, a) && InQueueOrder(g, a) && ParentsFirst(g, b) && InQueueOrder(g, b)
    requires (forall x :: x in a <==> x in b) && SameRoots(g, a, b) && SameRoots(g, b, a)
    ensures a == b
  {
    var n := if |a| <= |b| then |a| else |b|;
    AgreesUpTo(g, a, b, n);
    if |a| < |b| {
      var j := PlaceBehind(b, a, n);
    } else if |b| < |a| {
      var j := PlaceBehind(a, b, n);
    }
  }
}
