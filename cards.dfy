/** CardService as an object: its methods read the shared tables and
    insert, replace or delete card and balance rows in place, step by
    step, each as CardSpec describes. */
module Cards {
  import opened Ledger
  import opened Repositories
  import CardSpec

  class CardService {
    const store: Store

    constructor (store: Store)
      ensures this.store == store
    {
      this.store := store;
    }

    /** save: the entity validation runs before any row is written, which
        is what the rollback of the enclosing transaction amounts to. */
    method Save(req: CardSpec.CardCreateRequest, now: Timestamp) returns (r: Result<Card>)
      requires store.Valid()
      modifies store
      ensures store.Valid()
      ensures Step(r, store.Snapshot()) == CardSpec.Save(old(store.Snapshot()), req, now)
    {
      var present := CardSpec.ExistCard(store.Snapshot(), req.cardNumber);
      if present.Err? {
        return Err(present.error);
      }
      if present.value {
        return Err(CardExists);
      }
      if CardSpec.IsBlank(req.cardNumber) {
        return Err(ErrorCreating);
      }
      var b := store.nextBalanceId;
      store.balances := store.balances[b := 0.0];
      store.nextBalanceId := b + 1;
      var card := Card(store.nextCardId, req.cardNumber, req.password, b, Ativo, now);
      store.cards := store.cards[card.id := card];
      store.nextCardId := card.id + 1;
      r := Ok(card);
    }

    /** update: the stored card's balance row always exists in a valid
        store, so the replacement always keeps it. */
    method Update(id: Id, rep: CardSpec.CardReplacement) returns (r: Result<Card>)
      requires store.Valid()
      requires !CardSpec.IsBlank(rep.cardNumber)
      modifies store
      ensures store.Valid()
      ensures Step(r, store.Snapshot()) == CardSpec.Update(old(store.Snapshot()), id, rep)
    {
      if id !in store.cards {
        return Err(CardNotFound);
      }
      var stored := store.cards[id];
      var status := if rep.status.Some? then rep.status.value else Ativo;
      var card := Card(id, rep.cardNumber, rep.password, stored.balance, status, stored.createdAt);
      store.cards := store.cards[id := card];
      r := Ok(card);
    }

    /** deleteCardById */
    method DeleteCardById(id: Id) returns (r: Result<string>)
      requires store.Valid()
      modifies store
      ensures store.Valid()
      ensures Step(r, store.Snapshot()) == CardSpec.DeleteCardById(old(store.Snapshot()), id)
    {
      if id !in store.cards {
        return Err(CardNotFound);
      }
      store.cards := store.cards - {id};
      r := Ok(CardSpec.DeletedMessage);
    }
  }
}
