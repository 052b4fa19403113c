/** Whether balances stay non-negative. The funds check of save only
    compares the balance with the requested value, so this holds exactly
    as long as no request carries a negative value: the service itself
    never checks the sign. */
module Solvency {
  import opened Ledger
  import opened Repositories
  import TransactionSpec
  import CardSpec

  /** No balance is negative and no recorded transaction debited a
      negative value. */
  predicate Solvent(db: Db) {
    && (forall b :: b in db.balances ==> db.balances[b] >= 0.0)
    && (forall t :: t in db.transactions ==> db.transactions[t].value >= 0.0)
  }

  lemma SaveTransactionKeepsSolvent(db: Db, req: TransactionSpec.TransactionRequest)
    requires Consistent(db) && Solvent(db)
    requires req.value >= 0.0
    ensures Solvent(TransactionSpec.Save(db, req).db)
  {
  }

  lemma DeleteTransactionKeepsSolvent(db: Db, id: Id)
    requires Consistent(db) && Solvent(db)
    ensures Solvent(TransactionSpec.DeleteById(db, id).db)
  {
  }

  lemma SaveCardKeepsSolvent(db: Db, req: CardSpec.CardCreateRequest, now: Timestamp)
    requires Consistent(db) && Solvent(db)
    ensures Solvent(CardSpec.Save(db, req, now).db)
  {
  }

  lemma UpdateCardKeepsSolvent(db: Db, id: Id, rep: CardSpec.CardReplacement)
    requires IdsFresh(db) && Solvent(db)
    requires !CardSpec.IsBlank(rep.cardNumber)
    ensures Solvent(CardSpec.Update(db, id, rep).db)
  {
  }

  /** An active card with a zero balance, under card number "1". */
  function OneEmptyCard(): (db: Db)
    ensures Consistent(db) && Solvent(db)
  {
    Db(map[1 := Card(1, "1", "p", 1, Ativo, 0)], map[1 := 0.0], map[], 2, 2, 1)
  }

  /** With a negative value the funds check always passes: paying -5.00,
      then paying the 5.00 this credited, then deleting the first
      transaction leaves the balance at -5.00. */
  lemma {:induction false} NegativeValueOverdraws()
    ensures var first := TransactionSpec.Save(OneEmptyCard(), TransactionSpec.TransactionRequest("1", "p", -5.0));
      var second := TransactionSpec.Save(first.db, TransactionSpec.TransactionRequest("1", "p", 5.0));
      var reversed := TransactionSpec.DeleteById(second.db, 1);
      && first.result.Ok? && second.result.Ok? && reversed.result.Ok?
      && reversed.db.balances[1] == -5.0
      && !Solvent(reversed.db)
  {
    var db := OneEmptyCard();
    assert FindByCardNumber(db, "1") == OneCard(1);
    var first := TransactionSpec.Save(db, TransactionSpec.TransactionRequest("1", "p", -5.0));
    assert first.db.balances[1] == 5.0;
    assert FindByCardNumber(first.db, "1") == OneCard(1);
    var second := TransactionSpec.Save(first.db, TransactionSpec.TransactionRequest("1", "p", 5.0));
    assert second.db.balances[1] == 0.0;
    assert second.db.transactions[1] == Transaction(1, 1, -5.0);
    assert FindByCardNumber(second.db, "1") == OneCard(1);
    var reversed := TransactionSpec.DeleteById(second.db, 1);
    assert reversed.db.balances[1] == -5.0;
  }
}
