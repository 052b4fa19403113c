/** The three repositories: the query methods the services call on them,
    as functions of the tables' contents, and the Store object that holds
    the tables and that the services update in place. */
module Repositories {
  import opened Ledger
  import opened Ordering

  /** The keys below n whose rows satisfy p, in ascending order. Every
      key of a table is below its next IDENTITY value, so with n that
      value this enumerates the table in id order. */
  function KeysWhere<V>(m: map<Id, V>, n: nat, p: V -> bool): (ks: seq<Id>)
    ensures forall i, j :: 0 <= i < j < |ks| ==> ks[i] < ks[j]
    ensures forall k :: k in ks <==> k in m && k < n && p(m[k])
  {
    if n == 0 then []
    else
      var rest := KeysWhere(m, n - 1, p);
      assert forall i :: 0 <= i < |rest| ==> rest[i] in rest;
      if n - 1 in m && p(m[n - 1]) then rest + [n - 1] else rest
  }

  /** What CardRepository.findByCardNumber, declared with an Optional
      result, gives: no row, the one matching row, or a failure because
      the query matched several rows. */
  datatype Lookup = NoCard | OneCard(id: Id) | ManyCards

  /** CardRepository.findByCardNumber. */
  function FindByCardNumber(db: Db, number: string): (r: Lookup)
    requires IdsFresh(db)
    ensures r.NoCard? <==> forall k :: k in db.cards ==> db.cards[k].cardNumber != number
    ensures r.OneCard? ==>
      && r.id in db.cards
      && db.cards[r.id].cardNumber == number
      && forall k :: k in db.cards && db.cards[k].cardNumber == number ==> k == r.id
    ensures r.ManyCards? <==>
      exists j, k :: j in db.cards && k in db.cards && j != k
        && db.cards[j].cardNumber == number && db.cards[k].cardNumber == number
  {
    var ks := KeysWhere(db.cards, db.nextCardId, (c: Card) => c.cardNumber == number);
    if |ks| == 0 then NoCard
    else if |ks| == 1 then
      assert ks[0] in ks;
      OneCard(ks[0])
    else
      assert ks[0] in ks && ks[1] in ks;
      ManyCards
  }

  /** The cards satisfying p, in id order. */
  function CardsWhere(db: Db, p: Card -> bool): (cs: seq<Card>)
    requires IdsFresh(db)
    ensures DistinctIds(cs)
    ensures forall c :: c in cs <==> c in db.cards.Values && p(c)
  {
    var ks := KeysWhere(db.cards, db.nextCardId, p);
    var cs := seq(|ks|, i requires 0 <= i < |ks| => db.cards[ks[i]]);
    assert forall c :: c in db.cards.Values && p(c) ==> c in cs by {
      forall c | c in db.cards.Values && p(c)
        ensures c in cs
      {
        var k :| k in db.cards && db.cards[k] == c;
        var i :| 0 <= i < |ks| && ks[i] == k;
        assert cs[i] == c;
      }
    }
    cs
  }

  /** CardRepository.findAllByOrderByCardNumberAsc (p accepts every card)
      and findAllByStatusOrderByCardNumberAsc (p tests the status): the
      matching cards, each once, in ascending card-number order. */
  function CardsOrderedByNumber(db: Db, p: Card -> bool): (cs: seq<Card>)
    requires IdsFresh(db)
    ensures SortedByNumber(cs)
    ensures DistinctIds(cs)
    ensures forall c :: c in cs <==> c in db.cards.Values && p(c)
    ensures |cs| == 0 <==> forall k :: k in db.cards ==> !p(db.cards[k])
  {
    var unsorted := CardsWhere(db, p);
    SortKeepsDistinct(unsorted);
    var cs := SortByNumber(unsorted);
    assert forall c :: c in cs <==> c in multiset(unsorted);
    cs
  }

  /** TransactionRepository.findAll: every transaction once, in id order. */
  function TransactionsInIdOrder(db: Db): (ts: seq<Transaction>)
    requires IdsFresh(db)
    ensures forall i, j :: 0 <= i < j < |ts| ==> ts[i].id < ts[j].id
    ensures forall t :: t in ts <==> t in db.transactions.Values
  {
    var ks := KeysWhere(db.transactions, db.nextTransactionId, (t: Transaction) => true);
    var ts := seq(|ks|, i requires 0 <= i < |ks| => db.transactions[ks[i]]);
    assert forall t :: t in db.transactions.Values ==> t in ts by {
      forall t | t in db.transactions.Values
        ensures t in ts
      {
        var k :| k in db.transactions && db.transactions[k] == t;
        var i :| 0 <= i < |ks| && ks[i] == k;
        assert ts[i] == t;
      }
    }
    ts
  }

  /** The card, balance and transaction tables, updated in place by the
      services. */
  class Store {
    var cards: map<Id, Card>
    var balances: map<Id, Money>
    var transactions: map<Id, Transaction>
    var nextCardId: Id
    var nextBalanceId: Id
    var nextTransactionId: Id

    /** The tables' current contents as a value. */
    function Snapshot(): Db
      reads this
    {
      Db(cards, balances, transactions, nextCardId, nextBalanceId, nextTransactionId)
    }

    predicate Valid()
      reads this
    {
      Consistent(Snapshot())
    }

    constructor ()
      ensures Valid() && Snapshot() == EmptyDb()
    {
      cards, balances, transactions := map[], map[], map[];
      nextCardId, nextBalanceId, nextTransactionId := 1, 1, 1;
    }
  }
}
