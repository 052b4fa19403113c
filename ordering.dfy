/** The ascending card-number order of the card listings, and the sort
    that produces it. */
module Ordering {
  import opened Ledger

  /** Lexicographic order on card numbers, character by character. */
  predicate NumberLe(a: string, b: string)
    decreases |a|
  {
    |a| == 0 || (|b| != 0 && (a[0] < b[0] || (a[0] == b[0] && NumberLe(a[1..], b[1..]))))
  }

  lemma {:induction false} NumberLeTotal(a: string, b: string)
    ensures NumberLe(a, b) || NumberLe(b, a)
    decreases |a|
  {
    if |a| != 0 && |b| != 0 && a[0] == b[0] {
      NumberLeTotal(a[1..], b[1..]);
    }
  }

  lemma {:induction false} NumberLeTransitive(a: string, b: string, c: string)
    requires NumberLe(a, b) && NumberLe(b, c)
    ensures NumberLe(a, c)
    decreases |a|
  {
    if |a| != 0 && |b| != 0 && |c| != 0 && a[0] == b[0] && b[0] == c[0] {
      NumberLeTransitive(a[1..], b[1..], c[1..]);
    }
  }

  /** Every card comes no later than the cards after it. */
  predicate SortedByNumber(cs: seq<Card>) {
    forall i, j :: 0 <= i < j < |cs| ==> NumberLe(cs[i].cardNumber, cs[j].cardNumber)
  }

  /** No card appears twice. */
  predicate DistinctIds(cs: seq<Card>) {
    forall i, j :: 0 <= i < j < |cs| ==> cs[i].id != cs[j].id
  }

  /** Puts c before the first card whose number it does not follow. */
  function Insert(c: Card, cs: seq<Card>): (r: seq<Card>)
    ensures multiset(r) == multiset(cs) + multiset{c}
  {
    if cs == [] then [c]
    else if NumberLe(c.cardNumber, cs[0].cardNumber) then [c] + cs
    else
      assert cs == [cs[0]] + cs[1..];
      [cs[0]] + Insert(c, cs[1..])
  }

  /** Insertion sort by card number: a permutation of its input in
      ascending order, with no card added or lost. */
  function SortByNumber(cs: seq<Card>): (r: seq<Card>)
    ensures multiset(r) == multiset(cs)
    ensures SortedByNumber(r)
  {
    if cs == [] then []
    else
      assert cs == [cs[0]] + cs[1..];
      var rest := SortByNumber(cs[1..]);
      InsertKeepsSorted(cs[0], rest);
      Insert(cs[0], rest)
  }

  lemma {:induction false} InsertKeepsSorted(c: Card, cs: seq<Card>)
    requires SortedByNumber(cs)
    ensures SortedByNumber(Insert(c, cs))
    decreases |cs|
  {
    if cs == [] {
    } else if NumberLe(c.cardNumber, cs[0].cardNumber) {
      forall j | 0 < j < |cs|
        ensures NumberLe(c.cardNumber, cs[j].cardNumber)
      {
        NumberLeTransitive(c.cardNumber, cs[0].cardNumber, cs[j].cardNumber);
      }
    } else {
      NumberLeTotal(c.cardNumber, cs[0].cardNumber);
      var tail := cs[1..];
      InsertKeepsSorted(c, tail);
      var r := Insert(c, tail);
      forall j | 0 <= j < |r|
        ensures NumberLe(cs[0].cardNumber, r[j].cardNumber)
      {
        assert r[j] in multiset(r);
        if r[j] != c {
          assert r[j] in multiset(tail);
          var i :| 0 <= i < |tail| && tail[i] == r[j];
          assert cs[i + 1] == r[j];
        }
      }
    }
  }

  lemma {:induction false} InsertKeepsDistinct(c: Card, cs: seq<Card>)
    requires DistinctIds(cs)
    requires forall d :: d in cs ==> d.id != c.id
    ensures DistinctIds(Insert(c, cs))
    decreases |cs|
  {
    if cs != [] && !NumberLe(c.cardNumber, cs[0].cardNumber) {
      var tail := cs[1..];
      InsertKeepsDistinct(c, tail);
      var r := Insert(c, tail);
      forall j | 0 <= j < |r|
        ensures r[j].id != cs[0].id
      {
        assert r[j] in multiset(r);
        if r[j] != c {
          assert r[j] in multiset(tail);
          var i :| 0 <= i < |tail| && tail[i] == r[j];
          assert cs[i + 1] == r[j];
        }
      }
    }
  }

  /** Sorting keeps every card of a listing in which no card appears twice
      exactly once. */
  lemma {:induction false} SortKeepsDistinct(cs: seq<Card>)
    requires DistinctIds(cs)
    ensures DistinctIds(SortByNumber(cs))
    decreases |cs|
  {
    if cs != [] {
      var tail := cs[1..];
      SortKeepsDistinct(tail);
      var rest := SortByNumber(tail);
      forall d | d in rest
        ensures d.id != cs[0].id
      {
        assert d in multiset(rest);
        var i :| 0 <= i < |tail| && tail[i] == d;
        assert cs[i + 1] == d;
      }
      InsertKeepsDistinct(cs[0], rest);
    }
  }
}
