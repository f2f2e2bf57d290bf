/**
  All orders of a list, built by inserting its first item at every position of
  every order of the rest.
 */
module Permutations {
  import opened Sequences

  /** The items of a list. */
  type Item(==)

  function Factorial(n: nat): nat {
    if n == 0 then 1 else n * Factorial(n - 1)
  }

  /** list.insert(i, x) on a copy of p: past the end it appends. */
  function Inserted(p: seq<Item>, i: nat, x: Item): seq<Item> {
    if i <= |p| then p[..i] + [x] + p[i..] else p + [x]
  }

  /** p with x inserted at each of the positions below n. */
  function Inserts(p: seq<Item>, x: Item, n: nat): (r: seq<seq<Item>>)
    ensures |r| == n
  {
    if n == 0 then [] else Inserts(p, x, n - 1) + [Inserted(p, n - 1, x)]
  }

  /** Each of the first k lists of ps with x inserted at each of the positions below n. */
  function AllInserts(ps: seq<seq<Item>>, x: Item, n: nat, k: nat): seq<seq<Item>>
    requires k <= |ps|
  {
    if k == 0 then [] else AllInserts(ps, x, n, k - 1) + Inserts(ps[k - 1], x, n)
  }

  /** What permutations() computes. */
  function Orders(s: seq<Item>): seq<seq<Item>> {
    if |s| <= 1 then [s]
    else
      var sublists := Orders(s[1..]);
      AllInserts(sublists, s[0], |s|, |sublists|)
  }

  method Permutations(items: seq<Item>) returns (lists: seq<seq<Item>>)
    ensures lists == Orders(items)
    decreases |items|
  {
    lists := [];
    if |items| > 1 {
      var item := items[0];
      var sublists := Permutations(items[1..]);
      for k := 0 to |sublists|
        invariant lists == AllInserts(sublists, item, |items|, k)
      {
        ghost var done := lists;
        var sublist := sublists[k];
        assert done == done + Inserts(sublist, item, 0);
        for i := 0 to |items|
          invariant lists == done + Inserts(sublist, item, i)
        {
          ConcatAssociative(done, Inserts(sublist, item, i), [Inserted(sublist, i, item)]);
          lists := lists + [Inserted(sublist, i, item)];
        }
      }
    } else {
      lists := [items];
    }
  }

  // ----- how many

  lemma {:induction false} AllInsertsCount(ps: seq<seq<Item>>, x: Item, n: nat, k: nat)
    requires k <= |ps|
    ensures |AllInserts(ps, x, n, k)| == k * n
  {
    if k > 0 {
      AllInsertsCount(ps, x, n, k - 1);
      assert (k - 1) * n + n == k * n;
    }
  }

  /** A list of n items has n! orders, counted with repetition. */
  lemma {:induction false} OrdersCount(s: seq<Item>)
    ensures |Orders(s)| == Factorial(|s|)
  {
    if |s| > 1 {
      OrdersCount(s[1..]);
      AllInsertsCount(Orders(s[1..]), s[0], |s|, |Orders(s[1..])|);
    } else {
      assert Factorial(0) == 1;
    }
  }

  // ----- which

  ghost predicate InsertedBelow(q: seq<Item>, p: seq<Item>, x: Item, n: nat)
  {
    exists i :: 0 <= i < n && q == Inserted(p, i, x)
  }

  lemma {:induction false} InInserts(q: seq<Item>, p: seq<Item>, x: Item, n: nat)
    ensures q in Inserts(p, x, n) <==> InsertedBelow(q, p, x, n)
  {
    if n > 0 {
      InInserts(q, p, x, n - 1);
    }
  }

  lemma {:induction false} InAllInserts(q: seq<Item>, ps: seq<seq<Item>>, x: Item, n: nat, k: nat)
    requires k <= |ps|
    ensures q in AllInserts(ps, x, n, k)
       <==> exists m :: 0 <= m < k && q in Inserts(ps[m], x, n)
  {
    if k > 0 {
      InAllInserts(q, ps, x, n, k - 1);
    }
  }

  lemma InsertedItems(p: seq<Item>, i: nat, x: Item)
    ensures multiset(Inserted(p, i, x)) == multiset(p) + multiset{x}
  {
    if i <= |p| {
      assert p == p[..i] + p[i..];
    }
  }

  lemma RemoveItem(q: seq<Item>, i: nat, s: seq<Item>)
    requires i < |q| && |s| > 0 && q[i] == s[0] && multiset(q) == multiset(s)
    ensures var p := q[..i] + q[i + 1..];
            q == Inserted(p, i, s[0]) && multiset(p) == multiset(s[1..])
  {
    var p := q[..i] + q[i + 1..];
    assert p[..i] == q[..i] && p[i..] == q[i + 1..];
    assert q == Inserted(p, i, s[0]);
    InsertedItems(p, i, s[0]);
    assert s == [s[0]] + s[1..];
    assert multiset(p) + multiset{s[0]} == multiset(s[1..]) + multiset{s[0]};
    assert multiset(p) == multiset(q) - multiset{s[0]} == multiset(s[1..]);
  }

  lemma {:induction false} OrderIsRearrangement(s: seq<Item>, q: seq<Item>)
    requires q in Orders(s)
    ensures multiset(q) == multiset(s)
  {
    if |s| > 1 {
      var x, rest := s[0], Orders(s[1..]);
      InAllInserts(q, rest, x, |s|, |rest|);
      var k :| 0 <= k < |rest| && q in Inserts(rest[k], x, |s|);
      InInserts(q, rest[k], x, |s|);
      var i :| 0 <= i < |s| && q == Inserted(rest[k], i, x);
      OrderIsRearrangement(s[1..], rest[k]);
      InsertedItems(rest[k], i, x);
      ItemsOfHead(s);
    }
  }

  lemma ItemsOfHead(s: seq<Item>)
    requires s != []
    ensures multiset(s) == multiset(s[1..]) + multiset{s[0]}
  {
    assert s == [s[0]] + s[1..];
  }

  lemma {:induction false} RearrangementIsOrder(s: seq<Item>, q: seq<Item>)
    requires multiset(q) == multiset(s)
    ensures q in Orders(s)
  {
    SameSize(q, s);
    if |s| <= 1 {
      SmallRearrangement(s, q);
    } else {
      assert s[0] in multiset(q);
      var i :| 0 <= i < |q| && q[i] == s[0];
      var p := q[..i] + q[i + 1..];
      RemoveItem(q, i, s);
      RearrangementIsOrder(s[1..], p);
      InsertedIsOrder(s, p, i);
    }
  }

  lemma InsertedIsOrder(s: seq<Item>, p: seq<Item>, i: nat)
    requires |s| > 1 && i < |s| && |p| == |s| - 1 && p in Orders(s[1..])
    ensures Inserted(p, i, s[0]) in Orders(s)
  {
    var rest := Orders(s[1..]);
    var k :| 0 <= k < |rest| && rest[k] == p;
    InInserts(Inserted(p, i, s[0]), p, s[0], |s|);
    InAllInserts(Inserted(p, i, s[0]), rest, s[0], |s|, |rest|);
  }

  lemma SmallRearrangement(s: seq<Item>, q: seq<Item>)
    requires multiset(q) == multiset(s) && |q| == |s| <= 1
    ensures q == s
  {
    if |s| == 1 {
      assert q[0] in multiset(q);
      assert multiset(s) == multiset{s[0]} by {
        assert s == [s[0]];
      }
    }
  }

  /** The lists returned are exactly the rearrangements of the input. */
  lemma OrdersIff(s: seq<Item>, q: seq<Item>)
    ensures q in Orders(s) <==> multiset(q) == multiset(s)
  {
    if q in Orders(s) {
      OrderIsRearrangement(s, q);
    }
    if multiset(q) == multiset(s) {
      RearrangementIsOrder(s, q);
    }
  }

  lemma SameSize(q: seq<Item>, s: seq<Item>)
    requires multiset(q) == multiset(s)
    ensures |q| == |s|
  {
    assert |multiset(q)| == |q| && |multiset(s)| == |s|;
  }

  // ----- how often

  lemma InsertedOnce(p: seq<Item>, i: nat, p': seq<Item>, i': nat, x: Item)
    requires i <= |p| && i' <= |p'| && x !in p && x !in p'
    requires Inserted(p, i, x) == Inserted(p', i', x)
    ensures p == p' && i == i'
  {
    var q := Inserted(p, i, x);
    assert q[i] == x && q[i'] == x;
    assert forall j :: 0 <= j < i ==> q[j] == p[j];
    assert forall j :: 0 <= j < i' ==> q[j] == p'[j];
    assert p == q[..i] + q[i + 1..];
    assert p' == q[..i'] + q[i' + 1..];
  }

  lemma InsertsDistinct(p: seq<Item>, x: Item, n: nat)
    requires n <= |p| + 1 && x !in p
    ensures Distinct(Inserts(p, x, n))
  {
    var r := Inserts(p, x, n);
    forall i, j | 0 <= i < j < n
      ensures r[i] != r[j]
    {
      InsertsAt(p, x, n, i);
      InsertsAt(p, x, n, j);
      if r[i] == r[j] {
        InsertedOnce(p, i, p, j, x);
      }
    }
  }

  lemma {:induction false} AllInsertsDistinct(ps: seq<seq<Item>>, x: Item, n: nat, k: nat)
    requires k <= |ps| && Distinct(ps)
    requires forall m :: 0 <= m < k ==> |ps[m]| + 1 == n
    requires forall m :: 0 <= m < k ==> x !in ps[m]
    ensures Distinct(AllInserts(ps, x, n, k))
  {
    if k > 0 {
      var last := ps[k - 1];
      AllInsertsDistinct(ps, x, n, k - 1);
      InsertsDistinct(last, x, n);
      var a, b := AllInserts(ps, x, n, k - 1), Inserts(last, x, n);
      forall i, j | 0 <= i < |a| && 0 <= j < |b|
        ensures a[i] != b[j]
      {
        if a[i] == b[j] {
          InAllInserts(a[i], ps, x, n, k - 1);
          var m :| 0 <= m < k - 1 && a[i] in Inserts(ps[m], x, n);
          InsertsApart(a[i], ps[m], last, x, n);
        }
      }
      DistinctConcat(a, b);
    }
  }

  lemma InsertsApart(q: seq<Item>, p: seq<Item>, p': seq<Item>, x: Item, n: nat)
    requires |p| == |p'| == n - 1 && x !in p && x !in p'
    requires q in Inserts(p, x, n) && q in Inserts(p', x, n)
    ensures p == p'
  {
    InInserts(q, p, x, n);
    InInserts(q, p', x, n);
    var i :| 0 <= i < n && q == Inserted(p, i, x);
    var j :| 0 <= j < n && q == Inserted(p', j, x);
    InsertedOnce(p, i, p', j, x);
  }

  /** A list that occurs twice makes the result repeat. */
  lemma {:induction false} RepeatedListRepeats(ps: seq<seq<Item>>, x: Item, n: nat, k: nat, i: nat, j: nat)
    requires i < j < k <= |ps| && ps[i] == ps[j] && n > 0
    ensures !Distinct(AllInserts(ps, x, n, k))
  {
    var a, b := AllInserts(ps, x, n, k - 1), Inserts(ps[k - 1], x, n);
    if j < k - 1 {
      RepeatedListRepeats(ps, x, n, k - 1, i, j);
    } else {
      InAllInserts(b[0], ps, x, n, k - 1);
      assert !Apart(a, b);
    }
    DistinctConcat(a, b);
  }

  /** A list whose insertions repeat makes the result repeat. */
  lemma {:induction false} RepeatedInsertsRepeat(ps: seq<seq<Item>>, x: Item, n: nat, k: nat, m: nat)
    requires m < k <= |ps| && !Distinct(Inserts(ps[m], x, n))
    ensures !Distinct(AllInserts(ps, x, n, k))
  {
    if m < k - 1 {
      RepeatedInsertsRepeat(ps, x, n, k - 1, m);
    }
    DistinctConcat(AllInserts(ps, x, n, k - 1), Inserts(ps[k - 1], x, n));
  }

  lemma DistinctHead(s: seq<Item>)
    requires s != []
    ensures Distinct(s) <==> Distinct(s[1..]) && s[0] !in s[1..]
  {
    DistinctConcat([s[0]], s[1..]);
    assert s == [s[0]] + s[1..];
    assert s[0] in s[1..] <==> !Apart([s[0]], s[1..]);
  }

  lemma {:induction false} OrdersDistinct(s: seq<Item>)
    requires Distinct(s)
    ensures Distinct(Orders(s))
  {
    if |s| > 1 {
      var x, rest := s[0], s[1..];
      DistinctHead(s);
      OrdersDistinct(rest);
      var ps := Orders(rest);
      forall m | 0 <= m < |ps|
        ensures x !in ps[m] && |ps[m]| == |rest|
      {
        OrdersIff(rest, ps[m]);
        SameSize(ps[m], rest);
        assert x !in multiset(rest);
      }
      AllInsertsDistinct(ps, x, |s|, |ps|);
    }
  }

  lemma FirstAgainRepeats(s: seq<Item>)
    requires |s| > 1 && s[0] in s[1..]
    ensures !Distinct(Orders(s))
  {
    var ps := Orders(s[1..]);
    var p := InFront(s[1..], s[0]);
    var m :| 0 <= m < |ps| && ps[m] == p;
    RepeatedInsertsRepeat(ps, s[0], |s|, |ps|, m);
  }

  lemma RestRepeats(s: seq<Item>)
    requires |s| > 1 && !Distinct(Orders(s[1..]))
    ensures !Distinct(Orders(s))
  {
    var ps := Orders(s[1..]);
    var i, j :| 0 <= i < j < |ps| && ps[i] == ps[j];
    RepeatedListRepeats(ps, s[0], |s|, |ps|, i, j);
  }

  lemma {:induction false} OrdersRepeat(s: seq<Item>)
    requires !Distinct(s)
    ensures !Distinct(Orders(s))
  {
    DistinctHead(s);
    if Distinct(s[1..]) {
      FirstAgainRepeats(s);
    } else {
      OrdersRepeat(s[1..]);
      RestRepeats(s);
    }
  }

  /** No order is listed twice exactly when no item is. */
  lemma OrdersDistinctIff(s: seq<Item>)
    ensures Distinct(Orders(s)) <==> Distinct(s)
  {
    if Distinct(s) {
      OrdersDistinct(s);
    } else {
      OrdersRepeat(s);
    }
  }

  /** Some order of a list that holds x starts with x: inserting x before or after that x is the same. */
  lemma InFront(s: seq<Item>, x: Item) returns (p: seq<Item>)
    requires x in s
    ensures p in Orders(s) && |p| == |s| && !Distinct(Inserts(p, x, |s| + 1))
  {
    var k :| 0 <= k < |s| && s[k] == x;
    var others := s[..k] + s[k + 1..];
    p := [x] + others;
    TakenToFront(s, k);
    OrdersIff(s, p);
    BeforeOrAfter(x, others);
    var r := Inserts(p, x, |s| + 1);
    InsertsAt(p, x, |s| + 1, 0);
    InsertsAt(p, x, |s| + 1, 1);
    assert r[0] == r[1];
  }

  lemma TakenToFront(s: seq<Item>, k: nat)
    requires k < |s|
    ensures multiset([s[k]] + (s[..k] + s[k + 1..])) == multiset(s)
  {
    assert s == s[..k] + [s[k]] + s[k + 1..];
  }

  lemma BeforeOrAfter(x: Item, others: seq<Item>)
    ensures Inserted([x] + others, 0, x) == Inserted([x] + others, 1, x)
  {
  }

  lemma {:induction false} InsertsAt(p: seq<Item>, x: Item, n: nat, i: nat)
    requires i < n
    ensures Inserts(p, x, n)[i] == Inserted(p, i, x)
  {
    if i < n - 1 {
      InsertsAt(p, x, n - 1, i);
    }
  }

  // ----- in which order

  lemma {:induction false} AllInsertsAt(ps: seq<seq<Item>>, x: Item, n: nat, k: nat, q: nat, i: nat)
    requires q < k <= |ps| && i < n
    ensures q * n + i < |AllInserts(ps, x, n, k)|
    ensures AllInserts(ps, x, n, k)[q * n + i] == Inserted(ps[q], i, x)
  {
    var before, last := AllInserts(ps, x, n, k - 1), Inserts(ps[k - 1], x, n);
    AllInsertsCount(ps, x, n, k - 1);
    if q == k - 1 {
      InsertsAt(ps[q], x, n, i);
      assert (before + last)[|before| + i] == last[i];
    } else {
      AllInsertsAt(ps, x, n, k - 1, q, i);
    }
  }

  /** For each order of the rest in turn, the first item at each place from the front to the back. */
  lemma OrdersAt(s: seq<Item>, q: nat, i: nat)
    requires |s| > 1 && q < |Orders(s[1..])| && i < |s|
    ensures q * |s| + i < |Orders(s)|
    ensures var rest := Orders(s[1..])[q];
      i <= |rest| && Orders(s)[q * |s| + i] == rest[..i] + [s[0]] + rest[i..]
  {
    var ps := Orders(s[1..]);
    AllInsertsAt(ps, s[0], |s|, |ps|, q, i);
    OrderIsRearrangement(s[1..], ps[q]);
    SameSize(ps[q], s[1..]);
  }
}
