# Card ledger: a Dafny model of the card and transaction services

The repository is a small back end for payment cards. Each card owns
exactly one balance row. A transaction debits a card after four checks,
made in a fixed order: the card exists, it is active, the password
matches, and the balance covers the value. Deleting a transaction credits
its value back to the card's balance. This project models the two
service classes that hold that logic, `TransactionService` and
`CardService`, over in-memory card, balance and transaction tables.

Layout, one module per file:

- `ledger.dfy` (`Ledger`) holds the entities: cards, transactions, the
  tables as a `Db` value with their next IDENTITY ids, the error
  constants, and the invariant the tables keep between calls
  (`Consistent`). That invariant says ids are fresh, every card's balance
  row exists, and no two cards share a balance row.
- `ordering.dfy` (`Ordering`) holds the ascending card-number order and a
  sort proved to be a sorted permutation.
- `repositories.dfy` (`Repositories`) holds the repository queries as
  functions of the tables. It also holds the `Store` class that owns the
  tables and that the services change in place.
- `transaction_spec.dfy` and `card_spec.dfy` (`TransactionSpec`,
  `CardSpec`) state every service operation as a function from the old
  tables to a result-or-error plus the new tables. The lemmas about the
  operations sit next to them.
- `transactions.dfy` and `cards.dfy` (`Transactions`, `Cards`) hold the
  service classes. Their methods change the `Store` step by step. Each
  method is proved to leave exactly the tables, and return exactly the
  result, that its specification function gives.
- `conservation.dfy` (`Conservation`) proves that no operation creates or
  destroys value. The total of all balances plus all recorded transaction
  values stays the same.
- `solvency.dfy` (`Solvency`) proves that balances stay non-negative as
  long as no value is negative. It also proves that a negative value breaks
  this.
- `scenario.dfy` (`Scenario`) is the worked example on concrete tables:
  create a card, fail a debit, fund the card, debit it, reverse the debit.

Monetary values (`BigDecimal`) are Dafny `real`s, so arithmetic and
comparison are exact; the rounding to the columns' scale on storage is
listed under "## Left out". The creation timestamp is a parameter `now`.

`CardRepository.findByCardNumber` returns an `Optional`. When several rows
match, Spring Data fails instead. The model keeps that third outcome as
the error kind `NonUniqueResult`. The code lets it happen: `update` never
checks that the new number is free (`CardSpec.UpdateCanDuplicateNumber`).
Card numbers are checked for uniqueness only when a card is created
(CardService.java lines 59-61); `update` does not check them and no column
constraint enforces them.

## Model

| member | source | states |
|---|---|---|
| `Ledger.Describe` | src/main/java/api/model/errors/CardErrors.java:7-11 | Each error kind maps to its constant's HTTP status, code text and message. This covers the CardErrors, CommonErrors and TransactionErrors constants. Every code is the decimal text of its own status, between 100 and 599. Only the repository's non-unique failure has no constant. |
| `Ordering.SortByNumber` | src/main/java/api/repository/CardRepository.java:16-18 | The listing order: the result is a permutation of the input (same multiset), in ascending card-number order. |
| `Ordering.SortKeepsDistinct` | src/main/java/api/repository/CardRepository.java:16-18 | Sorting a listing in which no card appears twice yields a listing in which no card appears twice. |
| `Repositories.FindByCardNumber` | src/main/java/api/repository/CardRepository.java:14 | There are three outcomes. No card means no stored card has that number (iff). One card means that card has the number and no other does. Several cards means two distinct stored cards have it (iff). |
| `Repositories.CardsOrderedByNumber` | src/main/java/api/repository/CardRepository.java:16-18 | Exactly the stored cards satisfying the filter, each once, ascending by number. The result is empty iff no stored card satisfies the filter. |
| `Repositories.TransactionsInIdOrder` | src/main/java/api/repository/TransactionRepository.java:12 | Exactly the stored transactions, in strictly ascending id order. |
| `TransactionSpec.FindById` | src/main/java/api/service/TransactionService.java:41-44 | Ok with the stored transaction iff the id is present. Otherwise TransactionErrors.NOT_FOUND. |
| `TransactionSpec.FindAll` | src/main/java/api/service/TransactionService.java:46-52 | NOT_FOUND iff the table is empty (never an empty list). Otherwise exactly the stored transactions, in id order. |
| `TransactionSpec.UpdateBalance` | src/main/java/api/service/TransactionService.java:75-80 | It fails with NOT_FOUND iff the card's balance row is missing, and then nothing changes. Otherwise the row becomes old − v for "debito" and old + v for any other type. No other row or table changes. The store invariant is preserved. |
| `TransactionSpec.Authorize` | src/main/java/api/service/TransactionService.java:55-72 | The checks of save, in order, each stated as an iff. An unknown number gives INVALID_NUMBER_CARD. Otherwise an inactive card gives INACTIVE_CARD. Otherwise a wrong password gives INVALID_PASSWORD. Otherwise balance < value gives INSUFFICIENT_BALANCE. Otherwise the request is accepted for that card. A duplicated number fails the lookup. |
| `TransactionSpec.Save` | src/main/java/api/service/TransactionService.java:54-73 | It succeeds iff every check passes. A failure returns the first failing check's error and changes no table. Success returns "OK" and debits the card's balance by exactly the value, which leaves it non-negative. It adds one transaction of that value under a fresh id, referencing the card. The cards are unchanged and the store invariant is preserved. |
| `TransactionSpec.DeleteById` | src/main/java/api/service/TransactionService.java:82-93 | NOT_FOUND iff the transaction is absent or its card can no longer be found. A duplicated number fails the lookup. Any failure changes no table. On success the lookup by number re-finds the transaction's own card. The transaction is removed and its value is credited back to that card's balance. It returns "Extorno realizado com sucesso.". |
| `TransactionSpec.LaterChecksIrrelevant` | src/main/java/api/service/TransactionService.java:56-72 | The first failing check decides the error. Once the lookup or the status check fails, the password and the value cannot change the outcome. Once the password check fails, the value cannot. |
| `TransactionSpec.WholeBalanceAccepted` | src/main/java/api/service/TransactionService.java:59-64 | A value equal to the whole balance is accepted (the comparison is >= 0) and leaves the balance at zero. |
| `TransactionSpec.SaveThenDeleteRestores` | src/main/java/api/service/TransactionService.java:60-91 | After a successful save, deleting the transaction it recorded succeeds. It restores every balance exactly, and leaves the card and transaction tables as they were before the save. |
| `Transactions.TransactionService.UpdateBalance` | src/main/java/api/service/TransactionService.java:75-80 | The in-place update of the balance row leaves the store, and returns the result, that `TransactionSpec.UpdateBalance` gives. It keeps the store valid. |
| `Transactions.TransactionService.Save` | src/main/java/api/service/TransactionService.java:54-73 | The checks, the debit and the insertion, made step by step on the store, end in the tables and result `TransactionSpec.Save` gives. The store stays valid. |
| `Transactions.TransactionService.DeleteById` | src/main/java/api/service/TransactionService.java:82-93 | The removal followed by the credit, made step by step on the store, end in the tables and result `TransactionSpec.DeleteById` gives. The store stays valid. |
| `CardSpec.FindCardByNumber` | src/main/java/api/service/CardService.java:32-35 | INVALID_NUMBER_CARD (not NOT_FOUND) iff no card has the number. Ok iff exactly one card has it, and the value is that card's balance. |
| `CardSpec.FindCardById` | src/main/java/api/service/CardService.java:37-40 | Ok with the stored card iff the id is present. Otherwise CardErrors.NOT_FOUND. |
| `CardSpec.FindAllByOrderByCardNumberAsc` | src/main/java/api/service/CardService.java:42-48 | NOT_FOUND iff there are no cards. Otherwise every stored card once, ascending by number. |
| `CardSpec.FindAllByStatusOrderByCardNumberAsc` | src/main/java/api/service/CardService.java:50-56 | NOT_FOUND iff no card has the status. Otherwise exactly the cards with that status, each once, ascending by number. |
| `CardSpec.ExistCard` | src/main/java/api/service/CardService.java:99-101 | When the lookup succeeds, the result is true iff some stored card has the number. The lookup fails iff two cards have it. |
| `CardSpec.Save` | src/main/java/api/service/CardService.java:58-73 | CARD_EXISTS iff a card already has the number. ERROR_CREATING iff the number is free but blank. It succeeds iff the number is free and not blank. No failure creates a row. On success the card has the requested number and password, is ATIVO whatever status was requested, and gets a fresh id and the timestamp. It is attached to a new zero balance row that no other card references. Transactions are unchanged and the invariant is preserved. |
| `CardSpec.Update` | src/main/java/api/service/CardService.java:75-89 | NOT_FOUND iff the id is absent, and then nothing changes. Otherwise the stored card is replaced. The id is the path id. Number and password are the replacement's. A missing status becomes ATIVO. createdAt is the stored card's. The balance is the stored card's own row, or a new zero row when that row is missing. Ids stay fresh, and the invariant is preserved when it held. |
| `CardSpec.DeleteCardById` | src/main/java/api/service/CardService.java:91-97 | NOT_FOUND iff the id is absent, and then nothing changes. Otherwise only that card row is removed. It returns "Card deleted." and leaves the balance and transaction tables alone. |
| `CardSpec.UpdateIgnoresOverriddenFields` | src/main/java/api/service/CardService.java:78-84 | The id, balance and createdAt sent in the replacement cannot change what update does. |
| `CardSpec.SavedCardHasZeroBalance` | src/main/java/api/service/CardService.java:64-68 | A card just created reads back a balance of zero by its number. |
| `CardSpec.UpdateCanDuplicateNumber` | src/main/java/api/service/CardService.java:75-89 | On a valid store with unique numbers, update can give a second card a number already in use. Both the balance lookup and the existence check for that number then fail. |
| `Cards.CardService.Save` | src/main/java/api/service/CardService.java:58-73 | The existence check, the validation and the two insertions, made on the store, end in the tables and result `CardSpec.Save` gives. The store stays valid. |
| `Cards.CardService.Update` | src/main/java/api/service/CardService.java:75-89 | The replacement, made on the store, ends in the tables and result `CardSpec.Update` gives. The store stays valid. |
| `Cards.CardService.DeleteCardById` | src/main/java/api/service/CardService.java:91-97 | The deletion, made on the store, ends in the tables and result `CardSpec.DeleteCardById` gives. The store stays valid. |
| `Conservation.UpdateBalanceMovesValue` | src/main/java/api/service/TransactionService.java:75-80 | The ledger's total (balances plus transaction values) falls by exactly v on a debit and rises by exactly v on a credit. It is unchanged when the row is missing. |
| `Conservation.SaveTransactionConserves` | src/main/java/api/service/TransactionService.java:60-64 | A transaction save, successful or not, leaves the total unchanged. The debit is offset by the recorded transaction. |
| `Conservation.DeleteTransactionConserves` | src/main/java/api/service/TransactionService.java:90-91 | A reversal leaves the total unchanged. The removed transaction is offset by the credit. |
| `Conservation.SaveCardConserves` | src/main/java/api/service/CardService.java:64-65 | Creating a card leaves the total unchanged, because its new balance row is zero. |
| `Conservation.UpdateCardConserves` | src/main/java/api/service/CardService.java:79-80 | Updating a card leaves the total unchanged. |
| `Conservation.DeleteCardConserves` | src/main/java/api/service/CardService.java:93 | Deleting a card leaves the total unchanged. |
| `Solvency.SaveTransactionKeepsSolvent` | src/main/java/api/service/TransactionService.java:59-64 | When balances and recorded values are non-negative, a save of a non-negative value keeps them so. |
| `Solvency.DeleteTransactionKeepsSolvent` | src/main/java/api/service/TransactionService.java:90-91 | When balances and recorded values are non-negative, a reversal keeps them so. |
| `Solvency.SaveCardKeepsSolvent` | src/main/java/api/service/CardService.java:64-65 | Creating a card keeps balances non-negative. |
| `Solvency.UpdateCardKeepsSolvent` | src/main/java/api/service/CardService.java:79-80 | Updating a card keeps balances non-negative. |
| `Solvency.NegativeValueOverdraws` | src/main/java/api/service/TransactionService.java:59-91 | The service never checks the value's sign, so a negative value passes the funds check. Paying −5.00 on an empty card, then 5.00, then reversing the first payment leaves the balance at −5.00. |
| `Scenario.CreateDebitReverse` | src/main/java/api/service/TransactionService.java:54-93 | On concrete tables, a new card "1111111111" is ATIVO although INATIVO was requested, and reads a balance of 0. A debit of 10.00 fails with INSUFFICIENT_BALANCE and changes nothing. Funded to 50.00, the same debit succeeds and leaves 40.00. Its reversal leaves 50.00. |

## Left out

- Cards.CardService.Update: it always keeps the stored card's balance row, because in a valid store that row exists. The new-row fallback of CardService.java line 79 is stated only in `CardSpec.Update`, which requires just fresh ids.
- Cards.CardService.Update and CardSpec.Update: they require a non-blank card number. The controller validates the replacement entity (`@Valid`, CardController.java line 54) before update runs, so update never sees one.
- The new balance row in update's fallback is stored as a zero row. Hibernate would reject saving an unsaved `BalanceEntity` through the non-cascading association; that failure is not modelled.
- Foreign keys from a transaction to its card are not enforced. `deleteCardById` always succeeds and can leave transactions whose card is gone. A database that enforces the key would refuse the card deletion instead.
- TransactionSpec.DeleteById: its NOT_FOUND outcome for a transaction whose card row is gone stands in for the check of TransactionService.java lines 86-87. The source fails earlier, at line 84, where loading the missing card reference raises an entity-not-found failure; while the card row exists, the lookup by its number always finds it or fails as non-unique, so lines 86-87 never raise.
- Persistence failures in card `save` other than the `@NotBlank` validation of the card number (connection loss, constraint violations) are not modelled. ERROR_CREATING arises here only for a blank number.
- `@Transactional` rollback is modelled as atomicity: every method makes all its checks before its first change, so a failure leaves every table unchanged.
- The `CardModel` and `TransactionModel` projections, and the ModelMapper conversions into and out of them, are not part of this model. Operations return the stored records themselves.
- `BalanceEntity` is not part of this model. A new balance row is taken to start at zero.
- The request models' own validation annotations (`TransactionCreateModel`, `CardCreateModel`) are not part of this model. The service code's own checks are modelled, and they accept a value of any sign.
- `updatedAt` and the Hibernate-managed timestamps are not modelled. `createdAt` is an opaque value that is given at creation (`now`) and copied by update.
- Null references (null strings, status or balance on a stored card) are excluded by the types rather than modelled.
- Card listings are ordered by character code. The database's collation is not modelled.
- `TransactionRepository.findAll` promises no order. The model returns id order and states membership.
- `NonUniqueResult` stands for Spring Data's `IncorrectResultSizeDataAccessException`. It is not one of the repository's error constants and has no ErrorModel.
- Controllers, HTTP status mapping and the tests are left out. One test expects a different deletion message than the code returns; the model follows the code ("Extorno realizado com sucesso.").
- Concurrency and the check-then-act races are not modelled. Every operation runs alone.
- The columns holding amounts (`valor` at TransactionEntity.java lines 31-32, and the balance value) are declared without precision or scale; a generated schema stores them at a fixed scale (two decimals), rounding longer amounts. The model keeps every amount exactly, so `TransactionSpec.SaveThenDeleteRestores` and the `Conservation` lemmas match the source only for amounts already at the column's scale.
