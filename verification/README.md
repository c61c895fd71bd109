# Bank card manager — a Dafny model of its core

This project models the core of a bank-card management service.

- Administrators create users and cards, edit cards, soft-delete cards by blocking them, lock and unlock accounts, and list users through a filter.
- Card owners block their own cards, move money between two of their own cards, withdraw from a card, and read their transaction history.
- Two ownership checks guard the per-card and per-transaction operations.
- Card numbers are stored AES-GCM encrypted, behind a random IV, as Base64.

The persistent state is one `Ledger.Store`: maps of users, cards and transactions, plus the id counters the database would hand out. Every operation is a pure function from a store to a `Result`.

- A failure carries a reason that says which guard fired, so the order of the guards is part of each contract.
- A failure carries no store, which models the rollback of the surrounding unit of work.
- Money is a whole number of cents. The request DTOs carry decimals (`Money.Decimal`), and `Money.ToCents` converts them, together with the validation annotations that make the conversion exact.
- The clock is a parameter (`today`, `now`), and so is the IV of the encryption.
- The security context is an `Option<Authentication>` with its flags and principal name.
- The cipher, Base64 and UTF-8 are a record of functions (`CardNumberConverter.Primitives`), assumed only through their round-trip laws (`Lawful`).

Modules, one per file:

- `Wrappers`: `Option` and `Result`.
- `Money`: decimals, cents and the `@Digits` / `@DecimalMin` bounds.
- `Entities`: cards, transactions and users; masking; `equals` and `hashCode`; the in-memory history of a card.
- `Requests`: the request DTOs and their validation annotations.
- `Ledger`: the store, its invariant and the save operations; resolving the current user; total balance.
- `Security`: the two `isOwner` checks.
- `CardService`: card administration, blocking, transfers and withdrawals.
- `CardServiceProofs`: ledger agreement, conservation, invariant preservation, and which failures an owner can still meet.
- `TransactionService`: the transaction queries.
- `UserService`: creating users, finding them, locking them, and the filtered listing.
- `CardNumberConverter`: loading the key, the stored layout and the round trip.

Source paths below are under `src/main/java/com/testtask/bankcardmanager/` unless they start with `src/test`.

## Model

| member | source | states |
|---|---|---|
| Entities.MaskCardNumber | src/main/java/com/testtask/bankcardmanager/model/Card.java:180-185 | a missing number or one shorter than 10 characters masks to six stars; otherwise the result is the first six characters, six stars and the last four, 16 characters in all |
| Entities.MaskHidesMiddle | src/main/java/com/testtask/bankcardmanager/service/impl/CardServiceImpl.java:303-308 | two numbers of at least 10 characters that agree on their first six and last four characters mask to the same text, so the middle digits never show |
| Entities.MaskNeverRevealsNumber | src/main/java/com/testtask/bankcardmanager/model/Card.java:180-185 | the masked form of an all-digit number is never that number |
| Entities.LongHashCode | src/main/java/com/testtask/bankcardmanager/model/Transaction.java:96 | every id hashes to a value in the 32-bit `int` range |
| Entities.SmallIdHashesToItself | src/main/java/com/testtask/bankcardmanager/model/Transaction.java:96 | an id below 2^31 hashes to itself |
| Entities.TransactionHashCode | src/main/java/com/testtask/bankcardmanager/model/Transaction.java:94-97 | an entry without an id hashes to 31, and every hash is a 32-bit signed value |
| Entities.TransactionEqualityContract | src/main/java/com/testtask/bankcardmanager/model/Transaction.java:86-97 | equality of entries is reflexive, symmetric and transitive; two distinct entries without an id are never equal; equal entries hash alike |
| Entities.CardEqualityContract | src/main/java/com/testtask/bankcardmanager/model/Card.java:151-157 | equality of cards is reflexive, symmetric and transitive, and two distinct cards of which one has no id are never equal |
| Entities.AddTransaction | src/main/java/com/testtask/bankcardmanager/model/Card.java:141-144 | the entry is appended to the history and now points at the card |
| Entities.FirstEqual | src/main/java/com/testtask/bankcardmanager/model/Card.java:147 | the index of the first history entry equal to the given one, or the history's length if there is none |
| Entities.RemoveFirst | src/main/java/com/testtask/bankcardmanager/model/Card.java:147 | only the first equal entry leaves the history; the order of the others is kept, and a history with no equal entry is unchanged |
| Entities.RemoveTransaction | src/main/java/com/testtask/bankcardmanager/model/Card.java:146-149 | exactly the first entry equal to the given one leaves the history, the others keep their order, a history with no equal entry is unchanged, and the removed entry no longer points at a card |
| Entities.AddRemoveRoundTrip | src/main/java/com/testtask/bankcardmanager/model/Card.java:141-149 | adding an entry that equals nothing in the history and then removing it gives the original history back |
| Money.ToCents | src/main/java/com/testtask/bankcardmanager/dto/request/CreateCardRequest.java:36 | a decimal with at most two fraction digits converts to cents exactly: `@DecimalMin` holds exactly when the cents reach the minimum, and magnitudes agree |
| Money.DigitsAsCentsBound | src/main/java/com/testtask/bankcardmanager/dto/request/CreateCardRequest.java:37 | `@Digits(integer = n, fraction = 2)` holds exactly when the amount in cents is below 10^(n+2) in magnitude, for every decimal except a zero written with a large positive exponent |
| Requests.ValidMoneyInCents | src/main/java/com/testtask/bankcardmanager/dto/request/TransferRequest.java:21-24 | a non-null amount that passes `@DecimalMin` and `@Digits` is a whole number of cents within the bounds those annotations name |
| Requests.ValidCreateCardIsComplete | src/main/java/com/testtask/bankcardmanager/dto/request/CreateCardRequest.java:12-39 | a valid creation request has every field, a 16-digit number, a holder of at most 100 characters, an expiry of the form 20YY-MM, and a balance of 0 to 10^17 − 1 cents |
| Requests.ValidUpdateCardInCents | src/main/java/com/testtask/bankcardmanager/dto/request/UpdateCardRequest.java:14-24 | a valid update carries a holder of at most 100 characters and a limit, if any, of 0 to 10^19 − 1 cents |
| Requests.ValidTransferAmount | src/main/java/com/testtask/bankcardmanager/dto/request/TransferRequest.java:13-25 | a valid transfer names both cards and moves 1 to 10^19 − 1 cents |
| Requests.ValidWithdrawalAmount | src/main/java/com/testtask/bankcardmanager/dto/request/WithdrawalRequest.java:13-17 | a valid withdrawal asks for 1 to 10^19 − 1 cents |
| Ledger.SaveTransaction | src/main/java/com/testtask/bankcardmanager/service/impl/CardServiceImpl.java:233-234 | the entry is stored under the next id with that id set, the counter moves on by one, nothing else changes, and the store stays well formed |
| Ledger.SaveCard | src/main/java/com/testtask/bankcardmanager/service/impl/CardServiceImpl.java:191 | an existing card is replaced under its own id, nothing else changes, and the store stays well formed |
| Ledger.FindUserByEmail | src/main/java/com/testtask/bankcardmanager/service/impl/CardServiceImpl.java:274 | answers the user with that email if there is one and nothing otherwise; emails are unique, so the answer is the only such user |
| Ledger.CurrentUserId | src/main/java/com/testtask/bankcardmanager/service/impl/CardServiceImpl.java:268-277 | no authentication, an unauthenticated one or the anonymous principal is a security failure; an unknown email is a missing user; otherwise the answer is the id of the user with the principal's email |
| Ledger.TotalBalanceUpdate | src/main/java/com/testtask/bankcardmanager/service/impl/CardServiceImpl.java:225-226 | replacing one card changes the sum of all balances by exactly the change in that card's balance |
| CardService.ToCardResponse | src/main/java/com/testtask/bankcardmanager/service/impl/CardServiceImpl.java:290-301 | the response copies the card's fields, except the number, which appears only in masked form |
| CardService.ParseExpiry | src/main/java/com/testtask/bankcardmanager/service/impl/CardServiceImpl.java:70 | a `yyyy-MM` text with a year from 0001 and a month from 01 to 12 parses to that year and month; anything else, year 0000 included, does not parse |
| CardService.YearZeroRejected | src/main/java/com/testtask/bankcardmanager/service/impl/CardServiceImpl.java:69-76 | `0000-01` does not parse, so creating a card with it fails as invalid input, while `0001-01` parses |
| CardService.ExpiryPatternParses | src/main/java/com/testtask/bankcardmanager/dto/request/CreateCardRequest.java:26-27 | every text the request pattern accepts parses as a year and month |
| CardService.CreateCard | src/main/java/com/testtask/bankcardmanager/service/impl/CardServiceImpl.java:58-83 | an unknown owner fails first, then an unparseable expiry (year 0000 included), then an expiry before the current month; otherwise exactly one card is added under the next id with the request's fields and a zero daily limit, and users and transactions are unchanged |
| CardService.UpdateCard | src/main/java/com/testtask/bankcardmanager/service/impl/CardServiceImpl.java:123-147 | it succeeds exactly when the card exists, an unknown card failing as not found; on success only the fields supplied change, any status is accepted, no other record moves, and a request with no field leaves the store unchanged; the column bound on the limit is not modelled |
| CardService.DeleteCard | src/main/java/com/testtask/bankcardmanager/service/impl/CardServiceImpl.java:152-159 | it succeeds exactly when the card exists, an unknown card failing as not found; on success the card ends BLOCKED with its other fields intact, nothing is removed, and an already blocked card leaves the store unchanged |
| CardService.BlockCard | src/main/java/com/testtask/bankcardmanager/service/impl/CardServiceImpl.java:177-192 | the caller is resolved first, then the card is looked up; a blocked card and then an expired card are refused; success happens exactly for an active card, which becomes BLOCKED with nothing else changed |
| CardService.MoveFunds | src/main/java/com/testtask/bankcardmanager/service/impl/CardServiceImpl.java:224-234 | the source is debited and the destination credited by the amount, and two COMPLETED entries with one shared timestamp, −amount and +amount, are stored under the next two ids |
| CardService.TransferAsUser | src/main/java/com/testtask/bankcardmanager/service/impl/CardServiceImpl.java:200-234 | the guards fire in order: same card, missing source, missing recipient, either card not owned by the caller, inactive source, inactive recipient, insufficient funds; a transfer succeeds exactly when none fires, and then it is `MoveFunds`; the column bound on the recipient's balance is not modelled |
| CardService.TransferFunds | src/main/java/com/testtask/bankcardmanager/service/impl/CardServiceImpl.java:197-235 | a caller who cannot be resolved fails before any card is read; otherwise the transfer of the request's amount in cents is decided by `TransferAsUser` |
| CardService.WithdrawFromCard | src/main/java/com/testtask/bankcardmanager/service/impl/CardServiceImpl.java:244-266 | missing card, inactive card, insufficient funds and an amount above a set daily limit fail in that order; on success the card alone is debited and one COMPLETED entry of −amount is stored and returned |
| CardService.WithdrawFunds | src/main/java/com/testtask/bankcardmanager/service/impl/CardServiceImpl.java:240-266 | the caller is resolved before the card is looked up; after that the result is `WithdrawFromCard` |
| CardServiceProofs.MoveFundsMatchesLedger | src/main/java/com/testtask/bankcardmanager/service/impl/CardServiceImpl.java:224-234 | for every card, the change in balance equals the net amount of the entries the transfer stores for it |
| CardServiceProofs.WithdrawFromCardMatchesLedger | src/main/java/com/testtask/bankcardmanager/service/impl/CardServiceImpl.java:259-263 | for every card, the change in balance equals the net amount of the entry the withdrawal stores for it |
| CardServiceProofs.WithdrawMatchesLedger | src/main/java/com/testtask/bankcardmanager/service/impl/CardServiceImpl.java:240-266 | the same agreement between balances and stored entries for a successful withdrawal request |
| CardServiceProofs.MoveFundsConservesTotal | src/main/java/com/testtask/bankcardmanager/service/impl/CardServiceImpl.java:224-226 | moving funds leaves the sum of all balances unchanged |
| CardServiceProofs.TransferConservesTotal | src/main/java/com/testtask/bankcardmanager/service/impl/CardServiceImpl.java:197-235 | a successful transfer request leaves the sum of all balances unchanged |
| CardServiceProofs.WithdrawLowersTotal | src/main/java/com/testtask/bankcardmanager/service/impl/CardServiceImpl.java:259 | a successful withdrawal lowers the sum of all balances by exactly the amount |
| CardServiceProofs.CreateCardPreservesValid | src/main/java/com/testtask/bankcardmanager/service/impl/CardServiceImpl.java:58-83 | from a valid request, creating a card keeps the store valid: well formed, with no negative balance |
| CardServiceProofs.UpdateCardPreservesValid | src/main/java/com/testtask/bankcardmanager/service/impl/CardServiceImpl.java:123-147 | updating a card keeps the store valid |
| CardServiceProofs.DeleteCardPreservesValid | src/main/java/com/testtask/bankcardmanager/service/impl/CardServiceImpl.java:152-159 | soft-deleting keeps the store valid and keeps every card, balance and entry |
| CardServiceProofs.BlockCardPreservesValid | src/main/java/com/testtask/bankcardmanager/service/impl/CardServiceImpl.java:177-192 | blocking keeps the store valid |
| CardServiceProofs.MoveFundsPreservesValid | src/main/java/com/testtask/bankcardmanager/service/impl/CardServiceImpl.java:220-226 | with the funds check passed, moving funds leaves no balance negative |
| CardServiceProofs.TransferPreservesValid | src/main/java/com/testtask/bankcardmanager/service/impl/CardServiceImpl.java:197-235 | a successful transfer keeps the store valid |
| CardServiceProofs.WithdrawPreservesValid | src/main/java/com/testtask/bankcardmanager/service/impl/CardServiceImpl.java:251-259 | a successful withdrawal keeps the store valid |
| CardServiceProofs.DeleteCardIdempotent | src/main/java/com/testtask/bankcardmanager/service/impl/CardServiceImpl.java:152-159 | soft-deleting twice is soft-deleting once |
| CardServiceProofs.BlockThenDeleteIsBlock | src/main/java/com/testtask/bankcardmanager/service/impl/CardServiceImpl.java:177-192 | soft-deleting a card the owner has just blocked changes nothing |
| CardServiceProofs.OwnerWithdrawFailsOnlyForBusinessReasons | src/main/java/com/testtask/bankcardmanager/service/impl/CardServiceImpl.java:239-257 | for a signed-in owner of the card, a withdrawal fails only because the card is inactive, the funds are short or the limit is exceeded |
| CardServiceProofs.OwnerBlockFailsOnlyForStatus | src/main/java/com/testtask/bankcardmanager/service/impl/CardServiceImpl.java:176-188 | for a signed-in owner of the card, blocking fails only because the card is already blocked or expired |
| CardServiceProofs.TransferOwnershipGuard | src/main/java/com/testtask/bankcardmanager/service/impl/CardServiceImpl.java:209-211 | a transfer between two distinct existing cards succeeds only if the caller owns both under the card ownership check |
| Security.IsCardOwner | src/main/java/com/testtask/bankcardmanager/security/service/CardSecurityService.java:29-58 | fails closed on a missing authentication, id, name, user or card; otherwise true exactly when the card's owner is the user bearing the principal's email |
| Security.IsTransactionOwner | src/main/java/com/testtask/bankcardmanager/security/service/TransactionSecurityService.java:30-73 | fails closed on a missing authentication, id, name, user, entry or linked card; otherwise true exactly when the linked card's owner is the user bearing the principal's email |
| Security.TransactionOwnerIsCardOwner | src/main/java/com/testtask/bankcardmanager/security/service/TransactionSecurityService.java:56-69 | owning an entry is the same as owning the card it is linked to |
| Security.CardOwnerIsCurrentUser | src/main/java/com/testtask/bankcardmanager/security/service/CardSecurityService.java:40-54 | for a caller the services can resolve, owning a card means that the card's owner is the current user |
| TransactionService.ToResponse | src/main/java/com/testtask/bankcardmanager/service/impl/TransactionServiceImpl.java:102-111 | the response copies the entry, with the card reduced to its id |
| TransactionService.ToResponses | src/main/java/com/testtask/bankcardmanager/service/impl/TransactionServiceImpl.java:57-59 | each entry maps in place to its response, and the length is kept |
| TransactionService.EntriesOf | src/main/java/com/testtask/bankcardmanager/service/impl/TransactionServiceImpl.java:55 | every selected entry is stored and linked to one of the cards, and every such entry in the id range is selected |
| TransactionService.EntriesOfCards | src/main/java/com/testtask/bankcardmanager/service/impl/TransactionServiceImpl.java:79-81 | an entry is selected exactly when it is stored and linked to one of the given cards, and no id appears twice |
| TransactionService.EntriesOfAscending | src/main/java/com/testtask/bankcardmanager/service/impl/TransactionServiceImpl.java:79-81 | in a table keyed by id, the scan hands out saved entries with ids in its range, in strictly ascending id order |
| TransactionService.InsertNewestFirst | src/main/java/com/testtask/bankcardmanager/service/impl/TransactionServiceImpl.java:82 | inserting into a newest-first list keeps it newest-first and adds exactly the one entry |
| TransactionService.SortNewestFirst | src/main/java/com/testtask/bankcardmanager/service/impl/TransactionServiceImpl.java:82 | the result is a permutation of the input in non-increasing date order |
| TransactionService.InsertKeepsIdsDistinct | src/main/java/com/testtask/bankcardmanager/service/impl/TransactionServiceImpl.java:82 | inserting an entry whose id is new keeps every id in the list distinct |
| TransactionService.SortKeepsIdsDistinct | src/main/java/com/testtask/bankcardmanager/service/impl/TransactionServiceImpl.java:82 | sorting a list with distinct ids yields a list with distinct ids |
| TransactionService.GetTransactionById | src/main/java/com/testtask/bankcardmanager/service/impl/TransactionServiceImpl.java:41-47 | an unknown id fails as not found, a stored id succeeds, and the answer is the stored entry under that id |
| TransactionService.SavedTransactionIsFound | src/main/java/com/testtask/bankcardmanager/service/impl/TransactionServiceImpl.java:41-47 | an entry just saved is found under the id it was given, and every earlier entry is still found as before |
| TransactionService.GetAllTransactionsByCardId | src/main/java/com/testtask/bankcardmanager/service/impl/TransactionServiceImpl.java:52-60 | it succeeds exactly when the card exists, an unknown card failing even before entries are read; on success the answer holds exactly the entries linked to the card, each once, no id appearing twice |
| TransactionService.OwnedCards | src/main/java/com/testtask/bankcardmanager/service/impl/TransactionServiceImpl.java:69-70 | exactly the cards whose owner is the user |
| TransactionService.GetTransactionsForCurrentUser | src/main/java/com/testtask/bankcardmanager/service/impl/TransactionServiceImpl.java:65-89 | a caller who cannot be resolved fails and a resolved one succeeds; a caller with no cards gets an empty list; otherwise the answer holds exactly the entries linked to the caller's cards, each once, no id appearing twice, newest first |
| TransactionService.HistoryIsUnionOfOwnedCards | src/main/java/com/testtask/bankcardmanager/service/impl/TransactionServiceImpl.java:65-89 | an entry is in the caller's history exactly when it is in the per-card listing of some card the caller owns |
| TransactionService.HistoryEntriesPassOwnership | src/main/java/com/testtask/bankcardmanager/service/impl/TransactionServiceImpl.java:77-81 | for a caller the services can resolve, every entry in the history passes the per-entry ownership check |
| UserService.CreateUser | src/main/java/com/testtask/bankcardmanager/service/impl/UserServiceImpl.java:42-53 | a taken email fails as a duplicate; otherwise exactly one ROLE_USER user is added under the next id with the encoded password, emails stay unique, and the store stays well formed |
| UserService.GetUserById | src/main/java/com/testtask/bankcardmanager/service/impl/UserServiceImpl.java:58-62 | it succeeds exactly when the user exists, an unknown id failing as not found; on success the answer describes the stored user |
| UserService.UpdateUserStatus | src/main/java/com/testtask/bankcardmanager/service/impl/UserServiceImpl.java:96-108 | an unknown user fails first; locking one's own account fails next; every other call succeeds, and on success only that user's lock flag changes, to the negation of `locked` |
| UserService.WildcardFreeLikeIsContains | src/main/java/com/testtask/bankcardmanager/service/impl/UserServiceImpl.java:72 | for a text with no `%` or `_`, the pattern `%text%` matches exactly the strings that contain the text |
| UserService.EscapedLikeIsContains | src/main/java/com/testtask/bankcardmanager/service/impl/UserServiceImpl.java:72 | with the text escaped, `%text%` matches exactly the strings that contain the text, whatever the text is |
| UserService.Lower | src/main/java/com/testtask/bankcardmanager/service/impl/UserServiceImpl.java:72 | lowercasing keeps the length and maps each character through ASCII lowercasing |
| UserService.UserMatchesMeaning | src/main/java/com/testtask/bankcardmanager/service/impl/UserServiceImpl.java:71-79 | a user passes the filter exactly when the lowercased email contains the lowercased text (when the text is not blank), the role is equal (when given), and the lock flag is the negation of `locked` (when given) |
| UserService.AsWrittenAgreesWithoutWildcards | src/main/java/com/testtask/bankcardmanager/service/impl/UserServiceImpl.java:71-72 | when the filter text has no `%` or `_`, the filter as written and the corrected one agree |
| UserService.UnderscoreActsAsWildcard | src/main/java/com/testtask/bankcardmanager/service/impl/UserServiceImpl.java:72 | as written, the search `a_b@c` selects the user `axb@c`; the literal filter does not |
| UserService.LiteralMissesAbsentChar | src/main/java/com/testtask/bankcardmanager/service/impl/UserServiceImpl.java:72 | a user whose lowercased email lacks a character of the lowercased search text fails the literal filter |
| UserService.ListUsers | src/main/java/com/testtask/bankcardmanager/service/impl/UserServiceImpl.java:67-91 | the listing holds exactly the users the filter as written accepts, with the text unescaped in the LIKE pattern, each as its response, in ascending id order |
| UserService.ListUsersLiteral | src/main/java/com/testtask/bankcardmanager/service/impl/UserServiceImpl.java:67-91 | the corrected listing holds exactly the users the literal filter accepts, in ascending id order |
| UserService.ListingsAgreeWithoutWildcards | src/main/java/com/testtask/bankcardmanager/service/impl/UserServiceImpl.java:71-72 | when the search text holds no `%` or `_`, the listing as written equals the literal listing |
| UserService.ListingsDisagreeOn | src/main/java/com/testtask/bankcardmanager/service/impl/UserServiceImpl.java:67-91 | a user accepted as written but not literally is in the listing as written and missing from the literal listing |
| UserService.UnderscoreListsUser | src/main/java/com/testtask/bankcardmanager/service/impl/UserServiceImpl.java:72 | in a store holding only the user `axb@c`, the search `a_b@c` lists that user as written and not literally |
| UserService.CreateThenGetAndRecreate | src/main/java/com/testtask/bankcardmanager/service/impl/UserServiceImpl.java:42-62 | a created user can be found under the id it was given, and creating the same email again fails as a duplicate |
| UserService.UpdateStatusIdempotentAndListed | src/main/java/com/testtask/bankcardmanager/service/impl/UserServiceImpl.java:96-108 | setting a lock status twice is setting it once, and afterwards the user is listed under the matching `locked` filter |
| CardNumberConverter.Lookup | src/main/java/com/testtask/bankcardmanager/model/converter/CardNumberAttributeConverter.java:43-47 | a property is found exactly when it is present and not empty |
| CardNumberConverter.LoadKey | src/main/java/com/testtask/bankcardmanager/model/converter/CardNumberAttributeConverter.java:39-75 | no key under either name fails as missing; the dotted name takes precedence; text that is not Base64, or a key that is not 16, 24 or 32 bytes, is invalid; otherwise the decoded key is loaded |
| CardNumberConverter.DotPropertyTakesPrecedence | src/main/java/com/testtask/bankcardmanager/model/converter/CardNumberAttributeConverter.java:43-47 | once the dotted property is set, the environment-style name has no effect |
| CardNumberConverter.Frame | src/main/java/com/testtask/bankcardmanager/model/converter/CardNumberAttributeConverter.java:94-97 | the stored bytes are the 12-byte IV followed by the cipher output |
| CardNumberConverter.Unframe | src/main/java/com/testtask/bankcardmanager/model/converter/CardNumberAttributeConverter.java:114-120 | fewer than 12 bytes underflow; otherwise the first 12 bytes are the IV and the rest is the cipher output |
| CardNumberConverter.UnframeFrame | src/main/java/com/testtask/bankcardmanager/model/converter/CardNumberAttributeConverter.java:114-120 | reading the layout undoes writing it |
| CardNumberConverter.FrameUnframe | src/main/java/com/testtask/bankcardmanager/model/converter/CardNumberAttributeConverter.java:94-97 | writing the layout undoes a successful reading of it |
| CardNumberConverter.ConvertToDatabaseColumn | src/main/java/com/testtask/bankcardmanager/model/converter/CardNumberAttributeConverter.java:78-105 | null stays null; otherwise the UTF-8 bytes are sealed under the key and IV, framed and Base64-encoded |
| CardNumberConverter.ConvertToEntityAttribute | src/main/java/com/testtask/bankcardmanager/model/converter/CardNumberAttributeConverter.java:108-137 | null stays null; text that is not Base64 and a payload shorter than an IV fail with their own errors; a longer payload fails decryption exactly when it does not open and succeeds exactly when it opens; a success is the opened cipher output read as UTF-8 |
| CardNumberConverter.RoundTrip | src/test/java/com/testtask/bankcardmanager/model/converter/CardNumberAttributeConverterTest.java:48-52 | reading back what was written under the same key gives the card number back, null included |
| CardNumberConverter.StoredFormIsLonger | src/main/java/com/testtask/bankcardmanager/model/converter/CardNumberAttributeConverter.java:84-99 | the stored text is longer than the card number it hides |
| CardNumberConverter.ShortPayloadsRejected | src/main/java/com/testtask/bankcardmanager/model/converter/CardNumberAttributeConverter.java:114-136 | a payload shorter than an IV underflows, and one of exactly an IV fails decryption |

## Left out

- The controllers, request binding, error-to-HTTP rendering, JWT and the login flow are left out. They only call into the services modelled here.
- The role checks of `@PreAuthorize` are left out. Where the owner checks matter, the lemmas take `IsCardOwner` as a precondition.
- `getCardById`, `getAllCards` and `getCurrentUserCards` are left out. `getCardById` is a single lookup by id that fails as not found, like `UpdateCard`'s lookup. The other two are paged, sorted reads. None of them has logic beyond the lookups and the masking modelled here.
- Pagination, and sort orders other than the default ascending id, are left out of `UserService.ListUsers`.
- `@Transactional` atomicity and concurrent requests are not modelled beyond "a failure returns no store".
- UserService.CreateUser: the `User` entity is not part of this model. The initial lock flag is therefore a parameter, and the password encoder is a function parameter.
- Object identity and JPA dirty checking are left out. Records are values, and a history is a sequence. The aliasing between a card's history and the transaction table is not modelled.
- Card.hashCode for a card without an id hashes the class object. That value is not modelled.
- `toString` rendering is left out. Only the masking it uses is modelled.
- Requests.SizeAtMost counts Unicode code points, as Dafny strings do, while `@Size` counts UTF-16 units. So a card holder of 60 emoji is 120 units in Java, which `@Size(max = 100)` rejects, while the model accepts it.
- Entities.MaskCardNumber takes the last four code points, while `length()` and `substring` count UTF-16 units. The two differ only for characters outside the Basic Multilingual Plane.
- CardService.ParseExpiry reads only four-digit years. `YearMonth.parse` also accepts signed years of more than four digits, but the request pattern already restricts years to 20YY.
- CardService.TransferAsUser does not model the `numeric(17,2)` balance column (Card.java:38). A transfer that takes the recipient's balance to 10^17 cents or more succeeds in the model. In the source the save overflows the column and the whole transfer rolls back. The model therefore does not promise balances below 10^17 cents.
- CardService.UpdateCard does not model the `numeric(17,2)` limit column (Card.java:48). `@Digits(integer = 17)` on the request admits limits of 10^17 to 10^19 − 1 cents. The model stores them, while in the source the save fails. The same holds for entry amounts (Transaction.java:20), which the model does not bound either.
- Money.ToCents requires at most two fraction digits, which every validated request satisfies. BigDecimal values with a larger scale, or with trailing-zero quirks, are not modelled, and neither is the database column's own precision.
- Money.DigitsAsCentsBound excludes a zero written with an exponent of at least `n`, such as `0E+20`. Its precision-minus-scale count exceeds the bound although its value is zero.
- Requests.ValidWithdrawalAmount: the annotation allows 17 integer digits while its message says 15. The annotation is modelled.
- CardNumberConverter.ConvertToDatabaseColumn: the IV comes from `SecureRandom` and is a parameter here. Nonce uniqueness and the security of GCM are outside the model, apart from the short-input law.
- CardNumberConverter.LoadKey: failures of `Cipher.getInstance` and `GeneralSecurityException` during encryption are not modelled. Spring's relaxed binding of property names is not modelled either: a name is found only as written.
- UserService.Lower lowercases ASCII letters only. Locale-dependent and non-ASCII case mapping is left out.
- UserService.UserMatchesAsWritten treats `%` and `_` as the only special characters of LIKE. A database escape character such as backslash is not modelled.
- CardService.MoveFunds and CardService.WithdrawFromCard store the injected clock's `now` as each entry's `createdAt`. In the source `createdAt` carries `@CreationTimestamp` (Transaction.java:30-32), so the persistence layer fills it from the JVM clock at insert, and the withdrawal's answer reports that value. The model does not promise that the reported `createdAt` equals the one the database sets.
- TransactionService.SortNewestFirst is proved to sort and to permute. The stability of `List.sort` among equal dates is not proved.
- Every card has an owner, because the owner column is not nullable. The null-owner branches of the two ownership checks therefore do not appear.
- Security.IsTransactionOwner: an entry whose card id names no stored card answers false. In the source the card object is always present, and its owner is never null in a well-formed store.
- CardService.TransferFunds: the agreement between balances and stored entries is stated on `MoveFunds`, the part of the transfer that changes the store, rather than on the whole request.

Where the code and its documented design differ, the model follows the code:

- The daily withdrawal limit is checked against each withdrawal on its own, not against a running daily sum. A limit equal to the amount passes.
- `updateCard` accepts any status.
- `blockCard`, `transferFunds` and `withdrawFunds` resolve the current user before they look up any card, so a caller who cannot be resolved fails before a missing card is reported.

## Findings

| source | as written | input that shows it | evidently intended | confidence | as-written member | corrected member |
|---|---|---|---|---|---|---|
| src/main/java/com/testtask/bankcardmanager/service/impl/UserServiceImpl.java:72 | the email filter text is placed unescaped between `%` signs in a LIKE pattern, so `_` and `%` in the text act as wildcards | filter text `a_b@c`, stored email `axb@c` | a case-insensitive substring match on the literal text | medium, not executed | UserService.UnderscoreListsUser | UserService.ListUsersLiteral |
