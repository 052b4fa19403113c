/** The ledger's worked example, on concrete tables: a new card starts at
    zero and cannot pay 10.00; once its balance is 50.00 the same request
    succeeds and leaves 40.00; deleting that transaction returns it to
    50.00. */
module Scenario {
  import opened Ledger
  import opened Repositories
  import TransactionSpec
  import CardSpec

  const Number: string := "1111111111"

  lemma {:induction false} CreateDebitReverse(now: Timestamp)
    ensures var created := CardSpec.Save(EmptyDb(), CardSpec.CardCreateRequest(Number, "p", Some(Inativo)), now);
      && created.result.Ok?
      && created.result.value.status == Ativo
      && CardSpec.FindCardByNumber(created.db, Number) == Ok(0.0)
    ensures var created := CardSpec.Save(EmptyDb(), CardSpec.CardCreateRequest(Number, "p", Some(Inativo)), now);
      var req := TransactionSpec.TransactionRequest(Number, "p", 10.0);
      TransactionSpec.Save(created.db, req) == Step(Err(InsufficientBalance), created.db)
    ensures var created := CardSpec.Save(EmptyDb(), CardSpec.CardCreateRequest(Number, "p", Some(Inativo)), now);
      var funded := created.db.(balances := created.db.balances[1 := 50.0]);
      var req := TransactionSpec.TransactionRequest(Number, "p", 10.0);
      var paid := TransactionSpec.Save(funded, req);
      var reversed := TransactionSpec.DeleteById(paid.db, 1);
      && paid.result == Ok(TransactionSpec.SaveMessage)
      && CardSpec.FindCardByNumber(paid.db, Number) == Ok(40.0)
      && reversed.result == Ok(TransactionSpec.ReversalMessage)
      && CardSpec.FindCardByNumber(reversed.db, Number) == Ok(50.0)
  {
    var created := CardSpec.Save(EmptyDb(), CardSpec.CardCreateRequest(Number, "p", Some(Inativo)), now);
    assert FindByCardNumber(EmptyDb(), Number) == NoCard;
    assert !CardSpec.IsBlank(Number) by { assert Number[0] > ' '; }
    var c := created.result.value;
    assert c == Card(1, Number, "p", 1, Ativo, now);
    CardSpec.SavedCardHasZeroBalance(EmptyDb(), CardSpec.CardCreateRequest(Number, "p", Some(Inativo)), now);
    assert FindByCardNumber(created.db, Number) == OneCard(1);
    var funded := created.db.(balances := created.db.balances[1 := 50.0]);
    assert FindByCardNumber(funded, Number) == OneCard(1);
    var req := TransactionSpec.TransactionRequest(Number, "p", 10.0);
    var paid := TransactionSpec.Save(funded, req);
    assert paid.db.balances[1] == 40.0;
    assert FindByCardNumber(paid.db, Number) == OneCard(1);
    assert paid.db.transactions[1] == Transaction(1, 1, 10.0);
    var reversed := TransactionSpec.DeleteById(paid.db, 1);
    assert reversed.db.balances[1] == 50.0;
    assert FindByCardNumber(reversed.db, Number) == OneCard(1);
  }
}
