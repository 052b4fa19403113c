/** The ledger's data model: the entities kept by the card, balance and
    transaction tables, the error constants the services raise, and the
    invariants the tables keep between service calls. */
module Ledger {

  /** java.math.BigDecimal: exact decimal arithmetic, modelled as a real. */
  type Money = real

  /** Store-assigned row identifiers (IDENTITY columns). */
  type Id = nat

  /** Hibernate-managed timestamps, kept only as an opaque value. */
  type Timestamp = int

  datatype Option<+T> = None | Some(value: T)

  /** api.enums.CardStatus */
  datatype CardStatus = Ativo | Inativo

  /** The error constants of CardErrors, CommonErrors and TransactionErrors,
      plus NonUniqueResult: the repository's own failure when a
      findByCardNumber query matches more than one row. */
  datatype Error =
    | CardNotFound         // CardErrors.NOT_FOUND
    | InvalidNumberCard    // CardErrors.INVALID_NUMBER_CARD
    | ErrorCreating        // CardErrors.ERROR_CREATING
    | CardExists           // CardErrors.CARD_EXISTS
    | InactiveCard         // CardErrors.INACTIVE_CARD
    | InvalidParameters    // CommonErrors.INVALID_PARAMETERS
    | InvalidPassword      // CommonErrors.INVALID_PASSWORD
    | UnexpectedError      // CommonErrors.UNEXPECTED_ERROR
    | TransactionNotFound  // TransactionErrors.NOT_FOUND
    | InsufficientBalance  // TransactionErrors.INSUFFICIENT_BALANCE
    | NonUniqueResult      // Spring Data: IncorrectResultSizeDataAccessException

  /** api.model.errors.ErrorModel: HTTP status, status code text, message. */
  datatype ErrorModel = ErrorModel(status: int, code: string, message: string)

  function Digit(d: int): char
    requires 0 <= d <= 9
  {
    "0123456789"[d]
  }

  /** The decimal text of a three-digit HTTP status. */
  function StatusText(status: int): string
    requires 100 <= status <= 999
  {
    [Digit(status / 100), Digit(status / 10 % 10), Digit(status % 10)]
  }

  /** The ErrorModel constant behind each error kind. Every constant carries
      as its code the decimal text of its own HTTP status; the repository
      failure has no constant of its own. */
  function Describe(e: Error): (m: Option<ErrorModel>)
    ensures m.None? <==> e == NonUniqueResult
    ensures m.Some? ==> 100 <= m.value.status <= 599 && m.value.code == StatusText(m.value.status)
  {
    match e
    case CardNotFound => Some(ErrorModel(404, "404", "Card not found."))
    case InvalidNumberCard => Some(ErrorModel(404, "404", "Invalid card number"))
    case ErrorCreating => Some(ErrorModel(400, "400", "Error creating card."))
    case CardExists => Some(ErrorModel(422, "422", "Exist card with informed number."))
    case InactiveCard => Some(ErrorModel(422, "422", "Inactive card."))
    case InvalidParameters => Some(ErrorModel(400, "400", "Invalid parameter"))
    case InvalidPassword => Some(ErrorModel(422, "422", "Wrong password."))
    case UnexpectedError => Some(ErrorModel(500, "500", "Unexpected error"))
    case TransactionNotFound => Some(ErrorModel(404, "404", "Transaction not found."))
    case InsufficientBalance => Some(ErrorModel(422, "422", "Insufficient balance to carry out the transaction."))
    case NonUniqueResult => None
  }

  /** A service call either returns a value or raises one of the errors. */
  datatype Result<+T> = Ok(value: T) | Err(error: Error)

  /** api.entity.CardEntity. The balance is the id of the card's row in the
      balance table (a non-null join column); updatedAt is not modelled. */
  datatype Card = Card(
    id: Id,
    cardNumber: string,
    password: string,
    balance: Id,
    status: CardStatus,
    createdAt: Timestamp)

  /** api.entity.TransactionEntity: the card it references (by id) and the
      amount debited. */
  datatype Transaction = Transaction(id: Id, card: Id, value: Money)

  /** The contents of the three tables, with the next identifier each
      IDENTITY column will hand out. The balance table maps a
      BalanceEntity's id to its value. */
  datatype Db = Db(
    cards: map<Id, Card>,
    balances: map<Id, Money>,
    transactions: map<Id, Transaction>,
    nextCardId: Id,
    nextBalanceId: Id,
    nextTransactionId: Id)

  /** The outcome of an operation that may change the tables. */
  datatype Step<+T> = Step(result: Result<T>, db: Db)

  /** The tables as a freshly created database has them. */
  function EmptyDb(): (db: Db)
    ensures db.cards == map[] && db.balances == map[] && db.transactions == map[]
  {
    Db(map[], map[], map[], 1, 1, 1)
  }

  /** Every row is stored under its own id, and every id handed out so far
      is below the next one the IDENTITY column will produce. */
  predicate IdsFresh(db: Db) {
    && (forall k :: k in db.cards ==> k < db.nextCardId && db.cards[k].id == k)
    && (forall b :: b in db.balances ==> b < db.nextBalanceId)
    && (forall t :: t in db.transactions ==> t < db.nextTransactionId && db.transactions[t].id == t)
  }

  /** The foreign key card.balance_id: every card's balance row exists. */
  predicate BalancesAttached(db: Db) {
    forall k :: k in db.cards ==> db.cards[k].balance in db.balances
  }

  /** The one-to-one association: no two cards share a balance row. */
  predicate BalancesExclusive(db: Db) {
    forall j, k :: j in db.cards && k in db.cards && j != k ==> db.cards[j].balance != db.cards[k].balance
  }

  /** The invariant the tables keep between service calls. */
  predicate Consistent(db: Db) {
    IdsFresh(db) && BalancesAttached(db) && BalancesExclusive(db)
  }
}
