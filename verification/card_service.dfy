/** The card service: card creation, administrative update, soft delete,
    blocking by the owner, transfers between own cards and withdrawals.
    Every operation is one atomic step: a `Failure` leaves the store as it
    was, a `Success` carries the whole new store. */
module CardService {
  import opened Wrappers
  import opened Money
  import opened Entities
  import opened Requests
  import opened Ledger

  /** What the service hands back for a card: the number only masked. */
  datatype CardResponse = CardResponse(
    id: CardId,
    cardNumberMasked: string,
    cardHolder: string,
    expiryDate: YearMonth,
    status: CardStatus,
    balance: int,
    userId: UserId,
    dailyWithdrawalLimit: Option<int>)

  function ToCardResponse(id: CardId, c: Card): (r: CardResponse)
    ensures r.cardNumberMasked == MaskCardNumber(Some(c.cardNumber))
    ensures r.id == id && r.cardHolder == c.cardHolder && r.expiryDate == c.expiryDate
    ensures r.status == c.status && r.balance == c.balance && r.userId == c.owner
    ensures r.dailyWithdrawalLimit == c.dailyWithdrawalLimit
  {
    CardResponse(id, MaskCardNumber(Some(c.cardNumber)), c.cardHolder, c.expiryDate,
                 c.status, c.balance, c.owner, c.dailyWithdrawalLimit)
  }

  /** Only the card under `id` may differ between the two stores. */
  predicate OnlyCardChanged(st: Store, st': Store, id: CardId)
  {
    && st'.users == st.users && st'.transactions == st.transactions
    && st'.nextUserId == st.nextUserId && st'.nextCardId == st.nextCardId
    && st'.nextTxId == st.nextTxId
    && st'.cards.Keys == st.cards.Keys
    && forall k :: k in st.cards && k != id ==> st'.cards[k] == st.cards[k]
  }

  function DigitValue(c: char): int
  {
    c as int - '0' as int
  }

  /** The layout `dddd-dd`. */
  predicate ExpiryShape(s: string)
  {
    && |s| == 7 && s[4] == '-'
    && IsDigit(s[0]) && IsDigit(s[1]) && IsDigit(s[2]) && IsDigit(s[3])
    && IsDigit(s[5]) && IsDigit(s[6])
  }

  function ExpiryYear(s: string): int
    requires ExpiryShape(s)
  {
    1000 * DigitValue(s[0]) + 100 * DigitValue(s[1]) + 10 * DigitValue(s[2]) + DigitValue(s[3])
  }

  function ExpiryMonth(s: string): int
    requires ExpiryShape(s)
  {
    10 * DigitValue(s[5]) + DigitValue(s[6])
  }

  /** `YearMonth.parse(text, "yyyy-MM")` for four-digit years: a year of
      the era (so from 0001 on), a dash and a month between 01 and 12. */
  function ParseExpiry(s: string): (r: Option<YearMonth>)
    ensures r.Some? <==> ExpiryShape(s) && ExpiryYear(s) >= 1 && 1 <= ExpiryMonth(s) <= 12
    ensures r.Some? ==> r.value == MonthIndex(ExpiryYear(s), ExpiryMonth(s))
  {
    if ExpiryShape(s) && ExpiryYear(s) >= 1 && 1 <= ExpiryMonth(s) <= 12
    then Some(MonthIndex(ExpiryYear(s), ExpiryMonth(s)))
    else None
  }

  /** Year 0000 is not a year of the era, so it does not parse. */
  lemma YearZeroRejected()
    ensures ParseExpiry("0000-01").None?
    ensures ParseExpiry("0001-01") == Some(MonthIndex(1, 1))
  {
    assert ExpiryShape("0000-01") && ExpiryYear("0000-01") == 0;
    assert ExpiryShape("0001-01") && ExpiryYear("0001-01") == 1 && ExpiryMonth("0001-01") == 1;
  }

  /** Every expiry date the request pattern admits parses, to a month of a
      year between 2000 and 2099. */
  lemma ExpiryPatternParses(s: string)
    requires IsExpiryPattern(s)
    ensures ParseExpiry(s).Some?
    ensures MonthIndex(2000, 1) <= ParseExpiry(s).value <= MonthIndex(2099, 12)
  {
  }

  // ------------------------------------------------------------ createCard

  /** `createCard`: the owner is looked up first; the expiry is then parsed
      and must not lie before the current month; the new card starts with a
      zero withdrawal limit whatever the request says. */
  function CreateCard(st: Store, req: CreateCardRequest, today: YearMonth)
    : (r: Result<(Store, CardResponse), Error>)
    requires WellFormed(st)
    requires CreateCardRequestComplete(req)
    ensures req.userId.value !in st.users ==> r == Failure(NotFound(UserRecord))
    ensures req.userId.value in st.users && ParseExpiry(req.expiryDate.value).None? ==>
              r == Failure(InvalidInput)
    ensures req.userId.value in st.users && ParseExpiry(req.expiryDate.value).Some?
            && ParseExpiry(req.expiryDate.value).value < today ==>
              r == Failure(ValidationFailed(ExpiryInPast))
    ensures r.Success? <==>
              && req.userId.value in st.users
              && ParseExpiry(req.expiryDate.value).Some?
              && ParseExpiry(req.expiryDate.value).value >= today
    ensures r.Success? ==>
              var (st', resp) := r.value;
              var id := st.nextCardId;
              && id !in st.cards
              && st'.cards.Keys == st.cards.Keys + {id}
              && (forall k :: k in st.cards ==> st'.cards[k] == st.cards[k])
              && st'.cards[id].id == Some(id)
              && st'.cards[id].owner == req.userId.value
              && st'.cards[id].cardNumber == req.cardNumber.value
              && st'.cards[id].cardHolder == req.cardHolder.value
              && st'.cards[id].status == req.status.value
              && st'.cards[id].balance == ToCents(req.balance.value)
              && st'.cards[id].expiryDate == ParseExpiry(req.expiryDate.value).value
              && st'.cards[id].dailyWithdrawalLimit == Some(0)
              && st'.users == st.users && st'.transactions == st.transactions
              && st'.nextCardId == id + 1 && st'.nextTxId == st.nextTxId
              && st'.nextUserId == st.nextUserId
              && resp.id == id
              && resp.cardNumberMasked == MaskCardNumber(Some(req.cardNumber.value))
              && WellFormed(st')
  {
    var owner := req.userId.value;
    if owner !in st.users then Failure(NotFound(UserRecord))
    else match ParseExpiry(req.expiryDate.value)
      case None => Failure(InvalidInput)
      case Some(expiry) =>
        if expiry < today then Failure(ValidationFailed(ExpiryInPast))
        else
          var id := st.nextCardId;
          var card := Card(Some(id), req.cardNumber.value, req.cardHolder.value, expiry,
                           req.status.value, ToCents(req.balance.value), owner, Some(0));
          var st' := st.(cards := st.cards[id := card], nextCardId := id + 1);
          Success((st', ToCardResponse(id, card)))
  }

  // ------------------------------------------------------------ updateCard

  /** `updateCard`: each supplied field overwrites the card's, any status is
      accepted, and the card is saved only if something was supplied. */
  function UpdateCard(st: Store, id: CardId, req: UpdateCardRequest)
    : (r: Result<(Store, CardResponse), Error>)
    requires UpdateCardRequestInCents(req)
    ensures id !in st.cards <==> r == Failure(NotFound(CardRecord))
    ensures r.Success? <==> id in st.cards
    ensures r.Success? ==>
              var (st', resp) := r.value;
              && id in st.cards
              && OnlyCardChanged(st, st', id)
              && var before := st.cards[id];
                 var after := st'.cards[id];
                 && after.cardHolder == (if req.cardHolder.Some? then req.cardHolder.value else before.cardHolder)
                 && after.status == (if req.status.Some? then req.status.value else before.status)
                 && after.dailyWithdrawalLimit ==
                      (if req.dailyWithdrawalLimit.Some? then Some(ToCents(req.dailyWithdrawalLimit.value))
                       else before.dailyWithdrawalLimit)
                 && after.id == before.id && after.cardNumber == before.cardNumber
                 && after.expiryDate == before.expiryDate && after.balance == before.balance
                 && after.owner == before.owner
                 && resp == ToCardResponse(id, after)
    ensures r.Success? && req == UpdateCardRequest(None, None, None) ==> r.value.0 == st
  {
    if id !in st.cards then Failure(NotFound(CardRecord))
    else
      var c := st.cards[id];
      var c1 := if req.cardHolder.Some? then c.(cardHolder := req.cardHolder.value) else c;
      var c2 := if req.status.Some? then c1.(status := req.status.value) else c1;
      var c3 := if req.dailyWithdrawalLimit.Some?
                then c2.(dailyWithdrawalLimit := Some(ToCents(req.dailyWithdrawalLimit.value)))
                else c2;
      var updated := req.cardHolder.Some? || req.status.Some? || req.dailyWithdrawalLimit.Some?;
      if updated then Success((st.(cards := st.cards[id := c3]), ToCardResponse(id, c3)))
      else Success((st, ToCardResponse(id, c)))
  }

  // ------------------------------------------------------------ deleteCard

  /** `deleteCard`, a soft delete: the card is blocked, and a card that is
      already blocked is left exactly as it is. */
  function DeleteCard(st: Store, id: CardId): (r: Result<Store, Error>)
    ensures id !in st.cards <==> r == Failure(NotFound(CardRecord))
    ensures r.Success? <==> id in st.cards
    ensures id in st.cards && st.cards[id].status == BLOCKED ==> r == Success(st)
    ensures r.Success? ==>
              && OnlyCardChanged(st, r.value, id)
              && r.value.cards[id] == st.cards[id].(status := BLOCKED)
  {
    if id !in st.cards then Failure(NotFound(CardRecord))
    else if st.cards[id].status != BLOCKED then
      Success(st.(cards := st.cards[id := st.cards[id].(status := BLOCKED)]))
    else Success(st)
  }

  // ------------------------------------------------------------- blockCard

  /** `blockCard`: after resolving the caller, a blocked or expired card is
      refused; otherwise only the status changes, to BLOCKED. */
  function BlockCard(st: Store, auth: Option<Authentication>, id: CardId): (r: Result<Store, Error>)
    requires WellFormed(st)
    ensures CurrentUserId(st, auth).Failure? ==> r == Failure(CurrentUserId(st, auth).error)
    ensures CurrentUserId(st, auth).Success? ==>
              && (id !in st.cards ==> r == Failure(NotFound(CardRecord)))
              && (id in st.cards && st.cards[id].status == BLOCKED ==>
                    r == Failure(CardOperation(AlreadyBlocked)))
              && (id in st.cards && st.cards[id].status == EXPIRED ==>
                    r == Failure(CardOperation(ExpiredCard)))
    ensures r.Success? <==>
              CurrentUserId(st, auth).Success? && id in st.cards && st.cards[id].status.ACTIVE?
    ensures r.Success? ==>
              && OnlyCardChanged(st, r.value, id)
              && r.value.cards[id] == st.cards[id].(status := BLOCKED)
  {
    match CurrentUserId(st, auth)
    case Failure(e) => Failure(e)
    case Success(_) =>
      if id !in st.cards then Failure(NotFound(CardRecord))
      else if st.cards[id].status == BLOCKED then Failure(CardOperation(AlreadyBlocked))
      else if st.cards[id].status == EXPIRED then Failure(CardOperation(ExpiredCard))
      else Success(st.(cards := st.cards[id := st.cards[id].(status := BLOCKED)]))
  }

  // --------------------------------------------------------- transferFunds

  /** The two ledger entries of a transfer, as saved: the debit first. */
  function TransferLegs(st: Store, from: CardId, to: CardId, amount: int, now: Timestamp)
    : (Transaction, Transaction)
  {
    (Transaction(Some(st.nextTxId), Some(from), -amount, now, COMPLETED, now),
     Transaction(Some(st.nextTxId + 1), Some(to), amount, now, COMPLETED, now))
  }

  /** The successful leg of a transfer: debit the source, credit the
      recipient, then save the debit entry and the credit entry. */
  function MoveFunds(st: Store, from: CardId, to: CardId, amount: int, now: Timestamp): (st': Store)
    requires WellFormed(st)
    requires from != to && from in st.cards && to in st.cards
    ensures st'.cards == st.cards[from := st.cards[from].(balance := st.cards[from].balance - amount)]
                                 [to := st.cards[to].(balance := st.cards[to].balance + amount)]
    ensures st'.users == st.users
    ensures st'.nextTxId == st.nextTxId + 2
    ensures st'.transactions == st.transactions[st.nextTxId := TransferLegs(st, from, to, amount, now).0]
                                               [st.nextTxId + 1 := TransferLegs(st, from, to, amount, now).1]
    ensures WellFormed(st')
  {
    var src := st.cards[from];
    var dst := st.cards[to];
    var legs := TransferLegs(st, from, to, amount, now);
    st.(cards := st.cards[from := src.(balance := src.balance - amount)]
                         [to := dst.(balance := dst.balance + amount)],
        transactions := st.transactions[st.nextTxId := legs.0][st.nextTxId + 1 := legs.1],
        nextTxId := st.nextTxId + 2)
  }

  /** The guards of a transfer once the caller is known to be `uid`, in the
      source's order: same card, source exists, recipient exists, both owned
      by the caller, source active, recipient active, enough funds. */
  function TransferAsUser(st: Store, uid: UserId, from: CardId, to: CardId, amount: int, now: Timestamp)
    : (r: Result<Store, Error>)
    requires WellFormed(st)
    requires amount >= 1
    ensures from == to ==> r == Failure(CardOperation(SameCard))
    ensures from != to && from !in st.cards ==> r == Failure(NotFound(SourceCard))
    ensures from != to && from in st.cards && to !in st.cards ==> r == Failure(NotFound(RecipientCard))
    ensures from != to && from in st.cards && to in st.cards ==>
              var src := st.cards[from];
              var dst := st.cards[to];
              && (src.owner != uid || dst.owner != uid ==> r == Failure(SecurityViolation(NotBothOwned)))
              && (src.owner == uid && dst.owner == uid && src.status != ACTIVE ==>
                    r == Failure(CardOperation(SourceInactive)))
              && (src.owner == uid && dst.owner == uid && src.status == ACTIVE && dst.status != ACTIVE ==>
                    r == Failure(CardOperation(RecipientInactive)))
              && ((src.owner == uid && dst.owner == uid && src.status == ACTIVE && dst.status == ACTIVE
                   && src.balance < amount) ==> r == Failure(InsufficientFunds))
    ensures r.Success? <==>
              && from != to && from in st.cards && to in st.cards
              && st.cards[from].owner == uid && st.cards[to].owner == uid
              && st.cards[from].status == ACTIVE && st.cards[to].status == ACTIVE
              && st.cards[from].balance >= amount
    ensures r.Success? ==> r.value == MoveFunds(st, from, to, amount, now) && r.value.cards[from].balance >= 0
  {
    if from == to then Failure(CardOperation(SameCard))
    else if from !in st.cards then Failure(NotFound(SourceCard))
    else if to !in st.cards then Failure(NotFound(RecipientCard))
    else
      var src := st.cards[from];
      var dst := st.cards[to];
      if src.owner != uid || dst.owner != uid then Failure(SecurityViolation(NotBothOwned))
      else if src.status != ACTIVE then Failure(CardOperation(SourceInactive))
      else if dst.status != ACTIVE then Failure(CardOperation(RecipientInactive))
      else if src.balance < amount then Failure(InsufficientFunds)
      else Success(MoveFunds(st, from, to, amount, now))
  }

  /** `transferFunds`: the caller is resolved before anything else, then
      the guards of `TransferAsUser` run on the validated amount in cents. */
  function TransferFunds(st: Store, auth: Option<Authentication>, req: TransferRequest, now: Timestamp)
    : (r: Result<Store, Error>)
    requires WellFormed(st)
    requires ValidTransferRequest(req)
    ensures CurrentUserId(st, auth).Failure? ==> r == Failure(CurrentUserId(st, auth).error)
    ensures CurrentUserId(st, auth).Success? ==>
              r == TransferAsUser(st, CurrentUserId(st, auth).value, req.fromCardId.value,
                                  req.toCardId.value, ToCents(req.amount.value), now)
  {
    ValidTransferAmount(req);
    match CurrentUserId(st, auth)
    case Failure(e) => Failure(e)
    case Success(uid) =>
      TransferAsUser(st, uid, req.fromCardId.value, req.toCardId.value, ToCents(req.amount.value), now)
  }

  // --------------------------------------------------------- withdrawFunds

  /** The guards of a withdrawal once the caller is resolved: the card must
      exist, be ACTIVE, hold the amount, and the amount must not exceed the
      per-call limit (an amount equal to the limit passes; a null limit is
      no limit). The balance drops by the amount and one COMPLETED debit is
      recorded and returned. */
  function WithdrawFromCard(st: Store, id: CardId, amount: int, now: Timestamp)
    : (r: Result<(Store, Transaction), Error>)
    requires WellFormed(st)
    ensures id !in st.cards ==> r == Failure(NotFound(CardRecord))
    ensures id in st.cards ==>
              var c := st.cards[id];
              && (c.status != ACTIVE ==> r == Failure(CardOperation(CardInactive)))
              && (c.status == ACTIVE && c.balance < amount ==> r == Failure(InsufficientFunds))
              && ((c.status == ACTIVE && c.balance >= amount && c.dailyWithdrawalLimit.Some?
                   && amount > c.dailyWithdrawalLimit.value) ==> r == Failure(DailyLimitExceeded))
    ensures r.Success? <==>
              && id in st.cards && st.cards[id].status == ACTIVE && st.cards[id].balance >= amount
              && (st.cards[id].dailyWithdrawalLimit.None? || amount <= st.cards[id].dailyWithdrawalLimit.value)
    ensures r.Success? ==>
              var (st', t) := r.value;
              && id in st.cards
              && st'.cards == st.cards[id := st.cards[id].(balance := st.cards[id].balance - amount)]
              && st'.cards[id].balance >= 0
              && t == Transaction(Some(st.nextTxId), Some(id), -amount, now, COMPLETED, now)
              && st'.transactions == st.transactions[st.nextTxId := t]
              && st'.nextTxId == st.nextTxId + 1
              && st'.users == st.users
              && WellFormed(st')
  {
    if id !in st.cards then Failure(NotFound(CardRecord))
    else
      var c := st.cards[id];
      if c.status != ACTIVE then Failure(CardOperation(CardInactive))
      else if c.balance < amount then Failure(InsufficientFunds)
      else if c.dailyWithdrawalLimit.Some? && amount > c.dailyWithdrawalLimit.value then
        Failure(DailyLimitExceeded)
      else
        var debited := SaveCard(st, c.(balance := c.balance - amount));
        var st' := SaveTransaction(debited, NewTransaction(Some(id), -amount, now, COMPLETED, now));
        Success((st', st'.transactions[st.nextTxId]))
  }

  /** `withdrawFunds`: the caller is resolved first (and its id then goes
      unused), then the guards of `WithdrawFromCard` run. */
  function WithdrawFunds(st: Store, auth: Option<Authentication>, id: CardId,
                         req: WithdrawalRequest, now: Timestamp)
    : (r: Result<(Store, Transaction), Error>)
    requires WellFormed(st)
    requires ValidWithdrawalRequest(req)
    ensures CurrentUserId(st, auth).Failure? ==> r == Failure(CurrentUserId(st, auth).error)
    ensures CurrentUserId(st, auth).Success? ==>
              r == WithdrawFromCard(st, id, ToCents(req.amount.value), now)
  {
    ValidWithdrawalAmount(req);
    match CurrentUserId(st, auth)
    case Failure(e) => Failure(e)
    case Success(_) => WithdrawFromCard(st, id, ToCents(req.amount.value), now)
  }
}
