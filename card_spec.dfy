/** CardService as functions of the tables' contents: the lookups, the two
    listings, creation with its fresh balance, full-replace update, and
    deletion. */
module CardSpec {
  import opened Ledger
  import opened Ordering
  import opened Repositories

  /** api.model.CardCreateModel: the requested status is ignored. */
  datatype CardCreateRequest = CardCreateRequest(cardNumber: string, password: string, status: Option<CardStatus>)

  /** The CardEntity a client sends to update: id, balance and createdAt
      are accepted but overridden. */
  datatype CardReplacement = CardReplacement(
    id: Option<Id>,
    cardNumber: string,
    password: string,
    balance: Option<Id>,
    status: Option<CardStatus>,
    createdAt: Option<Timestamp>)

  const DeletedMessage: string := "Card deleted."

  /** Hibernate Validator's @NotBlank: nothing is left once the characters
      up to U+0020 are trimmed from both ends. */
  predicate IsBlank(s: string) {
    forall i :: 0 <= i < |s| ==> s[i] <= ' '
  }

  /** findCardByNumber: the balance value of the card with that number;
      no such card is INVALID_NUMBER_CARD, not NOT_FOUND. */
  function FindCardByNumber(db: Db, number: string): (r: Result<Money>)
    requires IdsFresh(db) && BalancesAttached(db)
    ensures r == Err(InvalidNumberCard) <==> forall k :: k in db.cards ==> db.cards[k].cardNumber != number
    ensures r == Err(NonUniqueResult) <==> FindByCardNumber(db, number).ManyCards?
    ensures r.Ok? <==> FindByCardNumber(db, number).OneCard?
    ensures r.Ok? ==> r.value == db.balances[db.cards[FindByCardNumber(db, number).id].balance]
  {
    match FindByCardNumber(db, number)
    case NoCard => Err(InvalidNumberCard)
    case ManyCards => Err(NonUniqueResult)
    case OneCard(k) => Ok(db.balances[db.cards[k].balance])
  }

  /** findCardById: the stored card, or NOT_FOUND. */
  function FindCardById(db: Db, id: Id): (r: Result<Card>)
    ensures r.Ok? <==> id in db.cards
    ensures r.Ok? ==> r.value == db.cards[id]
    ensures r.Err? ==> r.error == CardNotFound
  {
    if id in db.cards then Ok(db.cards[id]) else Err(CardNotFound)
  }

  /** findAllByOrderByCardNumberAsc: every card once, ascending by number;
      an empty table is NOT_FOUND rather than an empty list. */
  function FindAllByOrderByCardNumberAsc(db: Db): (r: Result<seq<Card>>)
    requires IdsFresh(db)
    ensures r.Err? <==> db.cards == map[]
    ensures r.Err? ==> r.error == CardNotFound
    ensures r.Ok? ==> SortedByNumber(r.value) && DistinctIds(r.value)
    ensures r.Ok? ==> forall c :: c in r.value <==> c in db.cards.Values
  {
    var cs := CardsOrderedByNumber(db, (c: Card) => true);
    if |cs| == 0 then Err(CardNotFound) else Ok(cs)
  }

  /** findAllByStatusOrderByCardNumberAsc: every card with that status
      once, ascending by number; none is NOT_FOUND. */
  function FindAllByStatusOrderByCardNumberAsc(db: Db, status: CardStatus): (r: Result<seq<Card>>)
    requires IdsFresh(db)
    ensures r.Err? <==> forall k :: k in db.cards ==> db.cards[k].status != status
    ensures r.Err? ==> r.error == CardNotFound
    ensures r.Ok? ==> SortedByNumber(r.value) && DistinctIds(r.value)
    ensures r.Ok? ==> forall c :: c in r.value <==> c in db.cards.Values && c.status == status
  {
    var cs := CardsOrderedByNumber(db, (c: Card) => c.status == status);
    if |cs| == 0 then Err(CardNotFound) else Ok(cs)
  }

  /** existCard: whether some card has the number; the lookup fails when
      several do. */
  function ExistCard(db: Db, number: string): (r: Result<bool>)
    requires IdsFresh(db)
    ensures r.Ok? ==> (r.value <==> exists k :: k in db.cards && db.cards[k].cardNumber == number)
    ensures r.Err? <==>
      exists j, k :: j in db.cards && k in db.cards && j != k
        && db.cards[j].cardNumber == number && db.cards[k].cardNumber == number
    ensures r.Err? ==> r.error == NonUniqueResult
  {
    match FindByCardNumber(db, number)
    case NoCard => Ok(false)
    case OneCard(_) => Ok(true)
    case ManyCards => Err(NonUniqueResult)
  }

  /** save: a number already in use is CARD_EXISTS; a number the entity
      validation rejects is ERROR_CREATING; either way no row is created.
      Otherwise a zero balance row and an active card attached to it are
      created under fresh ids, whatever status was requested. */
  function Save(db: Db, req: CardCreateRequest, now: Timestamp): (s: Step<Card>)
    requires Consistent(db)
    ensures Consistent(s.db)
    ensures s.result == Err(CardExists) <==> FindByCardNumber(db, req.cardNumber).OneCard?
    ensures s.result == Err(NonUniqueResult) <==> FindByCardNumber(db, req.cardNumber).ManyCards?
    ensures s.result == Err(ErrorCreating) <==>
      FindByCardNumber(db, req.cardNumber).NoCard? && IsBlank(req.cardNumber)
    ensures s.result.Ok? <==>
      FindByCardNumber(db, req.cardNumber).NoCard? && !IsBlank(req.cardNumber)
    ensures s.result.Err? ==> s.db == db
    ensures s.result.Ok? ==>
      var c := s.result.value;
      && c.cardNumber == req.cardNumber && c.password == req.password
      && c.status == Ativo && c.createdAt == now
      && c.id !in db.cards && c.balance !in db.balances
      && s.db.cards == db.cards[c.id := c]
      && s.db.balances == db.balances[c.balance := 0.0]
      && s.db.transactions == db.transactions
      && forall k :: k in s.db.cards && k != c.id ==> s.db.cards[k].balance != c.balance
  {
    match ExistCard(db, req.cardNumber)
    case Err(e) => Step(Err(e), db)
    case Ok(present) =>
      if present then Step(Err(CardExists), db)
      else if IsBlank(req.cardNumber) then Step(Err(ErrorCreating), db)
      else
        var b := db.nextBalanceId;
        var card := Card(db.nextCardId, req.cardNumber, req.password, b, Ativo, now);
        Step(Ok(card), db.(balances := db.balances[b := 0.0], nextBalanceId := b + 1,
                           cards := db.cards[card.id := card], nextCardId := card.id + 1))
  }

  /** update: an unknown id is NOT_FOUND and changes nothing. Otherwise the
      stored card is replaced: the id is the path's, the balance is the
      stored card's own row (or a new zero row when that row is missing),
      number and password are the replacement's, a missing status becomes
      ATIVO, and createdAt is the stored card's. */
  function Update(db: Db, id: Id, rep: CardReplacement): (s: Step<Card>)
    requires IdsFresh(db)
    requires !IsBlank(rep.cardNumber)
    ensures s.result.Err? <==> id !in db.cards
    ensures s.result.Err? ==> s.result.error == CardNotFound && s.db == db
    ensures s.result.Ok? ==>
      var stored := db.cards[id];
      var c := s.result.value;
      && c.id == id && c.cardNumber == rep.cardNumber && c.password == rep.password
      && (rep.status.Some? ==> c.status == rep.status.value)
      && (rep.status.None? ==> c.status == Ativo)
      && c.createdAt == stored.createdAt
      && s.db.cards == db.cards[id := c]
      && s.db.transactions == db.transactions
      && (stored.balance in db.balances ==> c.balance == stored.balance && s.db.balances == db.balances)
      && (stored.balance !in db.balances ==>
            c.balance !in db.balances && s.db.balances == db.balances[c.balance := 0.0])
    ensures IdsFresh(s.db)
    ensures Consistent(db) ==> Consistent(s.db)
  {
    if id !in db.cards then Step(Err(CardNotFound), db)
    else
      var stored := db.cards[id];
      var status := if rep.status.Some? then rep.status.value else Ativo;
      if stored.balance in db.balances then
        var card := Card(id, rep.cardNumber, rep.password, stored.balance, status, stored.createdAt);
        Step(Ok(card), db.(cards := db.cards[id := card]))
      else
        var b := db.nextBalanceId;
        var card := Card(id, rep.cardNumber, rep.password, b, status, stored.createdAt);
        Step(Ok(card), db.(balances := db.balances[b := 0.0], nextBalanceId := b + 1,
                           cards := db.cards[id := card]))
  }

  /** deleteCardById: an unknown id is NOT_FOUND; otherwise only that card
      row goes. Its balance row and its transactions stay. */
  function DeleteCardById(db: Db, id: Id): (s: Step<string>)
    ensures s.result.Err? <==> id !in db.cards
    ensures s.result.Err? ==> s.result.error == CardNotFound && s.db == db
    ensures s.result.Ok? ==>
      && s.result.value == DeletedMessage
      && s.db.cards == db.cards - {id}
      && s.db == db.(cards := s.db.cards)
    ensures Consistent(db) ==> Consistent(s.db)
  {
    if id !in db.cards then Step(Err(CardNotFound), db)
    else Step(Ok(DeletedMessage), db.(cards := db.cards - {id}))
  }

  /** The fields of the replacement that update overrides cannot change
      its outcome. */
  lemma UpdateIgnoresOverriddenFields(db: Db, id: Id, rep: CardReplacement,
                                      otherId: Option<Id>, otherBalance: Option<Id>, otherCreatedAt: Option<Timestamp>)
    requires IdsFresh(db)
    requires !IsBlank(rep.cardNumber)
    ensures Update(db, id, rep)
         == Update(db, id, rep.(id := otherId, balance := otherBalance, createdAt := otherCreatedAt))
  {
  }

  /** A card just created reads back, by its number, a zero balance. */
  lemma {:induction false} SavedCardHasZeroBalance(db: Db, req: CardCreateRequest, now: Timestamp)
    requires Consistent(db)
    requires Save(db, req, now).result.Ok?
    ensures FindCardByNumber(Save(db, req, now).db, req.cardNumber) == Ok(0.0)
  {
    var s := Save(db, req, now);
    var c := s.result.value;
    assert FindByCardNumber(s.db, req.cardNumber) == OneCard(c.id) by {
      assert c.id in s.db.cards && s.db.cards[c.id].cardNumber == req.cardNumber;
    }
  }

  /** update does not look for other cards with the new number, so it can
      give a second card a number already in use; from then on every
      lookup of that number fails. */
  lemma {:induction false} UpdateCanDuplicateNumber()
    ensures !IsBlank("1")
    ensures var db := Db(map[1 := Card(1, "1", "p", 1, Ativo, 0), 2 := Card(2, "2", "p", 2, Ativo, 0)],
                         map[1 := 0.0, 2 := 0.0], map[], 3, 3, 1);
      var s := Update(db, 2, CardReplacement(None, "1", "p", None, None, None));
      && Consistent(db) && FindByCardNumber(db, "1") == OneCard(1)
      && s.result.Ok? && Consistent(s.db)
      && FindCardByNumber(s.db, "1") == Err(NonUniqueResult)
      && ExistCard(s.db, "1") == Err(NonUniqueResult)
  {
    var db := Db(map[1 := Card(1, "1", "p", 1, Ativo, 0), 2 := Card(2, "2", "p", 2, Ativo, 0)],
                 map[1 := 0.0, 2 := 0.0], map[], 3, 3, 1);
    assert !IsBlank("1") by { assert "1"[0] > ' '; }
    assert FindByCardNumber(db, "1") == OneCard(1) by {
      assert db.cards[2].cardNumber != "1";
    }
    var s := Update(db, 2, CardReplacement(None, "1", "p", None, None, None));
    assert s.db.cards[1].cardNumber == "1" && s.db.cards[2].cardNumber == "1";
  }
}
