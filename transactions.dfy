/** TransactionService as an object: its methods read the shared tables,
    run the checks and update the balance and transaction tables in
    place, step by step, each as TransactionSpec describes. */
module Transactions {
  import opened Ledger
  import opened Repositories
  import TransactionSpec

  class TransactionService {
    const store: Store

    constructor (store: Store)
      ensures this.store == store
    {
      this.store := store;
    }

    /** updateBalance: the one place where a balance value changes. */
    method UpdateBalance(card: Card, value: Money, kind: string) returns (r: Result<()>)
      requires store.Valid()
      modifies store
      ensures store.Valid()
      ensures Step(r, store.Snapshot()) == TransactionSpec.UpdateBalance(old(store.Snapshot()), card, value, kind)
    {
      if card.balance !in store.balances {
        return Err(TransactionNotFound);
      }
      var current := store.balances[card.balance];
      var updated := if kind == TransactionSpec.DebitType then current - value else current + value;
      store.balances := store.balances[card.balance := updated];
      r := Ok(());
    }

    /** save: the guarded debit. */
    method Save(req: TransactionSpec.TransactionRequest) returns (r: Result<string>)
      requires store.Valid()
      modifies store
      ensures store.Valid()
      ensures Step(r, store.Snapshot()) == TransactionSpec.Save(old(store.Snapshot()), req)
    {
      var found := FindByCardNumber(store.Snapshot(), req.cardNumber);
      if found.ManyCards? {
        return Err(NonUniqueResult);
      }
      if found.NoCard? {
        return Err(InvalidNumberCard);
      }
      var card := store.cards[found.id];
      if card.status != Ativo {
        return Err(InactiveCard);
      }
      if card.password != req.password {
        return Err(InvalidPassword);
      }
      if store.balances[card.balance] < req.value {
        return Err(InsufficientBalance);
      }
      var debited := UpdateBalance(card, req.value, TransactionSpec.DebitType);
      assert debited.Ok?;
      var t := Transaction(store.nextTransactionId, card.id, req.value);
      store.transactions := store.transactions[t.id := t];
      store.nextTransactionId := t.id + 1;
      r := Ok(TransactionSpec.SaveMessage);
    }

    /** deleteById: the reversal. The checks all come before the first
        change, so a failure leaves the tables as they were. */
    method DeleteById(id: Id) returns (r: Result<string>)
      requires store.Valid()
      modifies store
      ensures store.Valid()
      ensures Step(r, store.Snapshot()) == TransactionSpec.DeleteById(old(store.Snapshot()), id)
    {
      if id !in store.transactions {
        return Err(TransactionNotFound);
      }
      var t := store.transactions[id];
      if t.card !in store.cards {
        return Err(TransactionNotFound);
      }
      var found := FindByCardNumber(store.Snapshot(), store.cards[t.card].cardNumber);
      if found.ManyCards? {
        return Err(NonUniqueResult);
      }
      var card := store.cards[found.id];
      store.transactions := store.transactions - {id};
      var credited := UpdateBalance(card, t.value, TransactionSpec.CreditType);
      assert credited.Ok?;
      r := Ok(TransactionSpec.ReversalMessage);
    }
  }
}
