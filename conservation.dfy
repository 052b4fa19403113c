/** What the ledger holds in total: the value of every balance row plus
    the value of every recorded transaction. A debit moves value from a
    balance into a new transaction, its reversal moves it back, and a new
    balance row starts at zero, so no service operation creates or
    destroys value. */
module Conservation {
  import opened Ledger
  import TransactionSpec
  import CardSpec

  /** The sum of f over the rows stored under keys below n. */
  function SumBelow<V>(m: map<Id, V>, n: nat, f: V -> real): real
  {
    if n == 0 then 0.0
    else SumBelow(m, n - 1, f) + (if n - 1 in m then f(m[n - 1]) else 0.0)
  }

  function BalanceValue(b: Money): real { b }

  function TransactionValue(t: Transaction): real { t.value }

  /** Every balance plus every recorded transaction value. */
  function Holdings(db: Db): real {
    SumBelow(db.balances, db.nextBalanceId, BalanceValue)
    + SumBelow(db.transactions, db.nextTransactionId, TransactionValue)
  }

  lemma {:induction false} SumAgree<V>(m1: map<Id, V>, m2: map<Id, V>, n: nat, f: V -> real)
    requires forall k :: k < n ==> (k in m1 <==> k in m2)
    requires forall k :: k < n && k in m1 ==> f(m1[k]) == f(m2[k])
    ensures SumBelow(m1, n, f) == SumBelow(m2, n, f)
  {
    if n > 0 {
      SumAgree(m1, m2, n - 1, f);
    }
  }

  lemma {:induction false} SumRemove<V>(m: map<Id, V>, k: Id, n: nat, f: V -> real)
    requires k in m && k < n
    ensures SumBelow(m, n, f) == SumBelow(m - {k}, n, f) + f(m[k])
  {
    if n - 1 == k {
      SumAgree(m, m - {k}, n - 1, f);
    } else {
      SumRemove(m, k, n - 1, f);
    }
  }

  /** Overwriting a row changes the sum by the difference. */
  lemma SumReplace<V>(m: map<Id, V>, k: Id, v: V, n: nat, f: V -> real)
    requires k in m && k < n
    ensures SumBelow(m[k := v], n, f) == SumBelow(m, n, f) - f(m[k]) + f(v)
  {
    SumRemove(m, k, n, f);
    SumRemove(m[k := v], k, n, f);
    assert m[k := v] - {k} == m - {k};
  }

  /** A row stored under the next key adds its value. */
  lemma SumAppend<V>(m: map<Id, V>, v: V, n: nat, f: V -> real)
    requires forall k :: k in m ==> k < n
    ensures SumBelow(m[n := v], n + 1, f) == SumBelow(m, n, f) + f(v)
  {
    SumAgree(m[n := v], m, n, f);
  }

  /** updateBalance moves exactly the value out of (debit) or into
      (credit) the ledger; when it fails nothing moves. */
  lemma UpdateBalanceMovesValue(db: Db, card: Card, value: Money, kind: string)
    requires IdsFresh(db)
    ensures var s := TransactionSpec.UpdateBalance(db, card, value, kind);
      Holdings(s.db) == Holdings(db)
        + (if s.result.Err? then 0.0 else if kind == TransactionSpec.DebitType then -value else value)
  {
    if card.balance in db.balances {
      var s := TransactionSpec.UpdateBalance(db, card, value, kind);
      SumReplace(db.balances, card.balance, s.db.balances[card.balance], db.nextBalanceId, BalanceValue);
    }
  }

  /** A transaction save moves value from a balance into the new
      transaction: the total stays the same, whether it succeeds or not. */
  lemma SaveTransactionConserves(db: Db, req: TransactionSpec.TransactionRequest)
    requires Consistent(db)
    ensures Holdings(TransactionSpec.Save(db, req).db) == Holdings(db)
  {
    var a := TransactionSpec.Authorize(db, req);
    if a.Ok? {
      var card := db.cards[a.value];
      UpdateBalanceMovesValue(db, card, req.value, TransactionSpec.DebitType);
      var debited := TransactionSpec.UpdateBalance(db, card, req.value, TransactionSpec.DebitType).db;
      var t := Transaction(debited.nextTransactionId, a.value, req.value);
      SumAppend(debited.transactions, t, debited.nextTransactionId, TransactionValue);
    }
  }

  /** A reversal moves the transaction's value back into a balance. */
  lemma DeleteTransactionConserves(db: Db, id: Id)
    requires Consistent(db)
    ensures Holdings(TransactionSpec.DeleteById(db, id).db) == Holdings(db)
  {
    if TransactionSpec.DeleteById(db, id).result.Ok? {
      var t := db.transactions[id];
      var card := db.cards[t.card];
      var removed := db.(transactions := db.transactions - {id});
      SumRemove(db.transactions, id, db.nextTransactionId, TransactionValue);
      UpdateBalanceMovesValue(removed, card, t.value, TransactionSpec.CreditType);
    }
  }

  /** Creating a card adds a balance row worth zero. */
  lemma SaveCardConserves(db: Db, req: CardSpec.CardCreateRequest, now: Timestamp)
    requires Consistent(db)
    ensures Holdings(CardSpec.Save(db, req, now).db) == Holdings(db)
  {
    var s := CardSpec.Save(db, req, now);
    if s.result.Ok? {
      SumAppend(db.balances, 0.0, db.nextBalanceId, BalanceValue);
    }
  }

  /** Replacing a card keeps its balance row, or adds one worth zero. */
  lemma UpdateCardConserves(db: Db, id: Id, rep: CardSpec.CardReplacement)
    requires IdsFresh(db)
    requires !CardSpec.IsBlank(rep.cardNumber)
    ensures Holdings(CardSpec.Update(db, id, rep).db) == Holdings(db)
  {
    if id in db.cards && db.cards[id].balance !in db.balances {
      SumAppend(db.balances, 0.0, db.nextBalanceId, BalanceValue);
    }
  }

  /** Deleting a card leaves its balance row and its transactions. */
  lemma DeleteCardConserves(db: Db, id: Id)
    ensures Holdings(CardSpec.DeleteCardById(db, id).db) == Holdings(db)
  {
  }
}
