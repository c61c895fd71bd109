/** The persistent state as the repositories see it, the error kinds the
    services throw, and the resolution of the current user. */
module Ledger {
  import opened Wrappers
  import opened Entities

  /** The three repositories, as maps from id to record, with the next id
      the database's identity column will hand out for each table. */
  datatype Store = Store(
    users: map<UserId, User>,
    cards: map<CardId, Card>,
    transactions: map<TxId, Transaction>,
    nextUserId: nat,
    nextCardId: nat,
    nextTxId: nat)

  predicate EmailsUnique(users: map<UserId, User>)
  {
    forall a, b :: a in users && b in users && users[a].email == users[b].email ==> a == b
  }

  /** What the schema guarantees: every record carries its own key, keys
      were issued by the identity column, and e-mails are unique. */
  predicate WellFormed(st: Store)
  {
    && (forall k :: k in st.users ==> k < st.nextUserId && st.users[k].id == Some(k))
    && (forall k :: k in st.cards ==> k < st.nextCardId && st.cards[k].id == Some(k))
    && (forall k :: k in st.transactions ==> k < st.nextTxId && st.transactions[k].id == Some(k))
    && EmailsUnique(st.users)
  }

  /** The business invariant on top of the schema: no card is overdrawn. */
  predicate Valid(st: Store)
  {
    WellFormed(st) && forall k :: k in st.cards ==> st.cards[k].balance >= 0
  }

  /** `transactionRepository.save`: the entry gets the next identity value. */
  function SaveTransaction(st: Store, t: Transaction): (r: Store)
    ensures r.transactions == st.transactions[st.nextTxId := t.(id := Some(st.nextTxId))]
    ensures r.nextTxId == st.nextTxId + 1
    ensures r.users == st.users && r.cards == st.cards
    ensures r.nextUserId == st.nextUserId && r.nextCardId == st.nextCardId
    ensures WellFormed(st) ==> WellFormed(r)
  {
    st.(transactions := st.transactions[st.nextTxId := t.(id := Some(st.nextTxId))],
        nextTxId := st.nextTxId + 1)
  }

  /** `cardRepository.save` on a card that already has its id: the row is
      replaced and nothing else moves. */
  function SaveCard(st: Store, c: Card): (r: Store)
    requires c.id.Some? && c.id.value in st.cards
    ensures r.cards.Keys == st.cards.Keys
    ensures r.cards[c.id.value] == c
    ensures forall k :: k in st.cards && k != c.id.value ==> r.cards[k] == st.cards[k]
    ensures r.users == st.users && r.transactions == st.transactions
    ensures r.nextUserId == st.nextUserId && r.nextCardId == st.nextCardId && r.nextTxId == st.nextTxId
    ensures WellFormed(st) ==> WellFormed(r)
  {
    st.(cards := st.cards[c.id.value := c])
  }

  // ------------------------------------------------------------------ errors

  datatype Missing = UserRecord | CardRecord | SourceCard | RecipientCard | TransactionRecord

  datatype CardOpReason =
    | SameCard | SourceInactive | RecipientInactive | CardInactive
    | AlreadyBlocked | ExpiredCard

  datatype SecurityReason = NotAuthenticated | NotBothOwned

  datatype ValidationReason = ExpiryInPast | SelfLock

  /** The exceptions the services throw, one constructor per class. */
  datatype Error =
    | NotFound(what: Missing)                      // ResourceNotFoundException
    | UsernameNotFound                             // UsernameNotFoundException
    | InvalidInput                                 // IllegalArgumentException
    | ValidationFailed(why: ValidationReason)      // jakarta ValidationException
    | SecurityViolation(cause: SecurityReason)    // java.lang.SecurityException
    | CardOperation(reason: CardOpReason)          // CardOperationException
    | InsufficientFunds                            // InsufficientFundsException
    | DailyLimitExceeded                           // DailyLimitExceededException
    | DuplicateEmail                               // DuplicateEmailException

  // ------------------------------------------------------------ current user

  /** The security context's authentication: whether it is authenticated,
      whether its principal is the anonymous user, and its name. */
  datatype Authentication = Authentication(authenticated: bool, anonymous: bool, name: Option<string>)

  /** `userRepository.findByEmail`. */
  function FindUserByEmail(users: map<UserId, User>, email: Option<string>): (r: Option<UserId>)
    requires EmailsUnique(users)
    ensures r.Some? ==> r.value in users && Some(users[r.value].email) == email
    ensures forall k :: k in users && Some(users[k].email) == email ==> r == Some(k)
  {
    if email.Some? && exists k :: k in users && users[k].email == email.value then
      var k :| k in users && users[k].email == email.value; Some(k)
    else None
  }

  /** `getCurrentUserId`: reject a missing, unauthenticated or anonymous
      authentication, then look the principal's name up as an e-mail. */
  function CurrentUserId(st: Store, auth: Option<Authentication>): (r: Result<UserId, Error>)
    requires WellFormed(st)
    ensures (auth.None? || !auth.value.authenticated || auth.value.anonymous) ==>
              r == Failure(SecurityViolation(NotAuthenticated))
    ensures r.Success? <==>
              && auth.Some? && auth.value.authenticated && !auth.value.anonymous
              && FindUserByEmail(st.users, auth.value.name).Some?
    ensures r.Failure? ==> r.error in {SecurityViolation(NotAuthenticated), UsernameNotFound}
    ensures r.Success? ==> r.value in st.users && Some(st.users[r.value].email) == auth.value.name
  {
    if auth.None? || !auth.value.authenticated || auth.value.anonymous then
      Failure(SecurityViolation(NotAuthenticated))
    else match FindUserByEmail(st.users, auth.value.name)
      case None => Failure(UsernameNotFound)
      case Some(id) => Success(id)
  }

  // -------------------------------------------------------------- total money

  /** The sum of the balances of the cards whose ids are in `keys`. */
  ghost function SumBalances(cards: map<CardId, Card>, keys: set<CardId>): int
    requires keys <= cards.Keys
    decreases keys
  {
    if keys == {} then 0
    else var k :| k in keys; cards[k].balance + SumBalances(cards, keys - {k})
  }

  /** All the money held on cards. */
  ghost function TotalBalance(cards: map<CardId, Card>): int
  {
    SumBalances(cards, cards.Keys)
  }

  /** The sum may be taken apart at any key, not only the one it picked. */
  lemma {:induction false} SumBalancesPick(cards: map<CardId, Card>, keys: set<CardId>, x: CardId)
    requires keys <= cards.Keys && x in keys
    ensures SumBalances(cards, keys) == cards[x].balance + SumBalances(cards, keys - {x})
    decreases keys
  {
    var y :| y in keys && SumBalances(cards, keys) == cards[y].balance + SumBalances(cards, keys - {y});
    if y != x {
      SumBalancesPick(cards, keys - {y}, x);
      SumBalancesPick(cards, keys - {x}, y);
      assert keys - {y} - {x} == keys - {x} - {y};
    }
  }

  /** Two maps that agree on the balances of `keys` have the same sum there. */
  lemma {:induction false} SumBalancesAgree(a: map<CardId, Card>, b: map<CardId, Card>, keys: set<CardId>)
    requires keys <= a.Keys && keys <= b.Keys
    requires forall k :: k in keys ==> a[k].balance == b[k].balance
    ensures SumBalances(a, keys) == SumBalances(b, keys)
    decreases keys
  {
    if keys != {} {
      var x :| x in keys;
      SumBalancesPick(a, keys, x);
      SumBalancesPick(b, keys, x);
      SumBalancesAgree(a, b, keys - {x});
    }
  }

  /** Replacing one card changes the total by exactly its balance change. */
  lemma TotalBalanceUpdate(cards: map<CardId, Card>, k: CardId, c: Card)
    requires k in cards
    ensures TotalBalance(cards[k := c]) == TotalBalance(cards) - cards[k].balance + c.balance
  {
    var updated := cards[k := c];
    assert updated.Keys == cards.Keys;
    SumBalancesPick(updated, cards.Keys, k);
    SumBalancesPick(cards, cards.Keys, k);
    SumBalancesAgree(updated, cards, cards.Keys - {k});
  }
}
