/** What the card operations promise taken together: no card is ever
    overdrawn, money is only moved by transfers and only leaves through
    withdrawals, every balance change is matched by ledger entries, a soft
    delete is idempotent, and the ownership rule leaves only business
    errors to a card's owner. */
module CardServiceProofs {
  import opened Wrappers
  import opened Money
  import opened Entities
  import opened Requests
  import opened Ledger
  import opened Security
  import opened CardService

  // ------------------------------------------------------------ the ledger

  /** The net amount the ledger entries with ids in [lo, hi) record for
      card `k`. */
  function LedgerDelta(txs: map<TxId, Transaction>, k: CardId, lo: nat, hi: nat): int
    decreases hi - lo
  {
    if lo >= hi then 0
    else (if lo in txs && txs[lo].card == Some(k) then txs[lo].amount else 0)
         + LedgerDelta(txs, k, lo + 1, hi)
  }

  /** The two entries of a transfer match the balance change of every
      card: each moves by exactly what the new entries record for it. */
  lemma {:induction false} MoveFundsMatchesLedger(st: Store, from: CardId, to: CardId, amount: int,
                                                  now: Timestamp, k: CardId)
    requires WellFormed(st)
    requires from != to && from in st.cards && to in st.cards
    requires k in st.cards
    ensures var st' := MoveFunds(st, from, to, amount, now);
            st'.cards[k].balance - st.cards[k].balance
            == LedgerDelta(st'.transactions, k, st.nextTxId, st.nextTxId + 2)
  {
    var st' := MoveFunds(st, from, to, amount, now);
    var n := st.nextTxId;
    var legs := TransferLegs(st, from, to, amount, now);
    assert st'.transactions[n] == legs.0 && st'.transactions[n + 1] == legs.1;
    assert LedgerDelta(st'.transactions, k, n + 2, n + 2) == 0;
    assert LedgerDelta(st'.transactions, k, n + 1, n + 2) == (if k == to then amount else 0);
  }

  /** A withdrawal is matched by its single entry: only the withdrawn card
      moves, and by exactly what the entry records. */
  lemma {:induction false} WithdrawFromCardMatchesLedger(st: Store, id: CardId, amount: int,
                                                         now: Timestamp, k: CardId)
    requires WellFormed(st)
    requires WithdrawFromCard(st, id, amount, now).Success?
    requires k in st.cards
    ensures var st' := WithdrawFromCard(st, id, amount, now).value.0;
            && st'.nextTxId == st.nextTxId + 1
            && st'.cards[k].balance - st.cards[k].balance
               == LedgerDelta(st'.transactions, k, st.nextTxId, st'.nextTxId)
  {
    var st' := WithdrawFromCard(st, id, amount, now).value.0;
    assert LedgerDelta(st'.transactions, k, st.nextTxId + 1, st.nextTxId + 1) == 0;
  }

  /** The ledger view of a successful `withdrawFunds`. */
  lemma WithdrawMatchesLedger(st: Store, auth: Option<Authentication>, id: CardId,
                              req: WithdrawalRequest, now: Timestamp, k: CardId)
    requires WellFormed(st) && ValidWithdrawalRequest(req)
    requires WithdrawFunds(st, auth, id, req, now).Success?
    requires k in st.cards
    ensures var st' := WithdrawFunds(st, auth, id, req, now).value.0;
            && st'.nextTxId == st.nextTxId + 1
            && st'.cards[k].balance - st.cards[k].balance
               == LedgerDelta(st'.transactions, k, st.nextTxId, st'.nextTxId)
  {
    WithdrawFromCardMatchesLedger(st, id, ToCents(req.amount.value), now, k);
  }

  // --------------------------------------------------------- total balance

  /** Moving money between two cards leaves the total unchanged. */
  lemma MoveFundsConservesTotal(st: Store, from: CardId, to: CardId, amount: int, now: Timestamp)
    requires WellFormed(st)
    requires from != to && from in st.cards && to in st.cards
    ensures TotalBalance(MoveFunds(st, from, to, amount, now).cards) == TotalBalance(st.cards)
  {
    var st' := MoveFunds(st, from, to, amount, now);
    var src := st.cards[from];
    var dst := st.cards[to];
    var debited := st.cards[from := src.(balance := src.balance - amount)];
    TotalBalanceUpdate(st.cards, from, src.(balance := src.balance - amount));
    TotalBalanceUpdate(debited, to, dst.(balance := dst.balance + amount));
    assert st'.cards == debited[to := dst.(balance := dst.balance + amount)];
  }

  /** A transfer moves money between two cards and creates none. */
  lemma TransferConservesTotal(st: Store, auth: Option<Authentication>, req: TransferRequest, now: Timestamp)
    requires WellFormed(st) && ValidTransferRequest(req)
    requires TransferFunds(st, auth, req, now).Success?
    ensures TotalBalance(TransferFunds(st, auth, req, now).value.cards) == TotalBalance(st.cards)
  {
    MoveFundsConservesTotal(st, req.fromCardId.value, req.toCardId.value, ToCents(req.amount.value), now);
  }

  /** A withdrawal takes exactly the requested amount out of the system. */
  lemma WithdrawLowersTotal(st: Store, auth: Option<Authentication>, id: CardId,
                            req: WithdrawalRequest, now: Timestamp)
    requires WellFormed(st) && ValidWithdrawalRequest(req)
    requires WithdrawFunds(st, auth, id, req, now).Success?
    ensures TotalBalance(WithdrawFunds(st, auth, id, req, now).value.0.cards)
            == TotalBalance(st.cards) - ToCents(req.amount.value)
  {
    var amount := ToCents(req.amount.value);
    var c := st.cards[id];
    TotalBalanceUpdate(st.cards, id, c.(balance := c.balance - amount));
  }

  // -------------------------------------------------------- no overdrafts

  /** Creating a card from a valid request keeps every balance non-negative. */
  lemma CreateCardPreservesValid(st: Store, req: CreateCardRequest, today: YearMonth)
    requires Valid(st) && ValidCreateCardRequest(req)
    ensures CreateCard(st, req, today).Success? ==> Valid(CreateCard(st, req, today).value.0)
  {
    ValidCreateCardIsComplete(req);
  }

  lemma UpdateCardPreservesValid(st: Store, id: CardId, req: UpdateCardRequest)
    requires Valid(st) && UpdateCardRequestInCents(req)
    ensures UpdateCard(st, id, req).Success? ==> Valid(UpdateCard(st, id, req).value.0)
  {
    if UpdateCard(st, id, req).Success? {
      var st' := UpdateCard(st, id, req).value.0;
      forall k | k in st'.cards
        ensures st'.cards[k].balance >= 0 && k < st'.nextCardId && st'.cards[k].id == Some(k)
      {
        assert k in st.cards;
      }
    }
  }

  lemma DeleteCardPreservesValid(st: Store, id: CardId)
    requires Valid(st)
    ensures DeleteCard(st, id).Success? ==> Valid(DeleteCard(st, id).value)
  {
    if DeleteCard(st, id).Success? {
      var st' := DeleteCard(st, id).value;
      forall k | k in st'.cards
        ensures st'.cards[k].balance >= 0 && k < st'.nextCardId && st'.cards[k].id == Some(k)
      {
        assert k in st.cards;
      }
    }
  }

  lemma BlockCardPreservesValid(st: Store, auth: Option<Authentication>, id: CardId)
    requires Valid(st)
    ensures BlockCard(st, auth, id).Success? ==> Valid(BlockCard(st, auth, id).value)
  {
    if BlockCard(st, auth, id).Success? {
      var st' := BlockCard(st, auth, id).value;
      forall k | k in st'.cards
        ensures st'.cards[k].balance >= 0 && k < st'.nextCardId && st'.cards[k].id == Some(k)
      {
        assert k in st.cards;
      }
    }
  }

  /** The funds guard and a positive amount keep both cards of a transfer
      out of the red. */
  lemma MoveFundsPreservesValid(st: Store, from: CardId, to: CardId, amount: int, now: Timestamp)
    requires Valid(st)
    requires from != to && from in st.cards && to in st.cards
    requires 0 <= amount <= st.cards[from].balance
    ensures Valid(MoveFunds(st, from, to, amount, now))
  {
    var st' := MoveFunds(st, from, to, amount, now);
    forall k | k in st'.cards
      ensures st'.cards[k].balance >= 0
    {
      assert k in st.cards;
    }
  }

  lemma TransferPreservesValid(st: Store, auth: Option<Authentication>, req: TransferRequest, now: Timestamp)
    requires Valid(st) && ValidTransferRequest(req)
    ensures TransferFunds(st, auth, req, now).Success? ==> Valid(TransferFunds(st, auth, req, now).value)
  {
    ValidTransferAmount(req);
    if TransferFunds(st, auth, req, now).Success? {
      MoveFundsPreservesValid(st, req.fromCardId.value, req.toCardId.value, ToCents(req.amount.value), now);
    }
  }

  /** The funds guard keeps the withdrawn card out of the red. */
  lemma WithdrawPreservesValid(st: Store, auth: Option<Authentication>, id: CardId,
                               req: WithdrawalRequest, now: Timestamp)
    requires Valid(st) && ValidWithdrawalRequest(req)
    ensures WithdrawFunds(st, auth, id, req, now).Success? ==> Valid(WithdrawFunds(st, auth, id, req, now).value.0)
  {
    if WithdrawFunds(st, auth, id, req, now).Success? {
      var st' := WithdrawFunds(st, auth, id, req, now).value.0;
      forall k | k in st'.cards
        ensures st'.cards[k].balance >= 0
      {
        assert k in st.cards;
      }
    }
  }

  // ----------------------------------------------------------- lifecycle

  /** Deleting a card twice is deleting it once. */
  lemma DeleteCardIdempotent(st: Store, id: CardId)
    ensures DeleteCard(st, id).Success? ==>
              DeleteCard(DeleteCard(st, id).value, id) == DeleteCard(st, id)
  {
  }

  /** Blocking and deleting end in the same store for an active card. */
  lemma BlockThenDeleteIsBlock(st: Store, auth: Option<Authentication>, id: CardId)
    requires WellFormed(st)
    requires BlockCard(st, auth, id).Success?
    ensures DeleteCard(st, id) == BlockCard(st, auth, id)
    ensures DeleteCard(BlockCard(st, auth, id).value, id) == BlockCard(st, auth, id)
  {
  }

  // ------------------------------------------------------------- ownership

  /** With the access rule satisfied, a withdrawal can only fail for a
      business reason: the card is not active, has too little money, or the
      amount is over its limit. */
  lemma OwnerWithdrawFailsOnlyForBusinessReasons(st: Store, auth: Option<Authentication>, id: CardId,
                                                 req: WithdrawalRequest, now: Timestamp)
    requires WellFormed(st) && ValidWithdrawalRequest(req)
    requires IsCardOwner(st, auth, Some(id))
    requires auth.value.authenticated && !auth.value.anonymous
    ensures var r := WithdrawFunds(st, auth, id, req, now);
            r.Failure? ==> r.error in {CardOperation(CardInactive), InsufficientFunds, DailyLimitExceeded}
  {
    var u :| ActsAs(st, auth, u) && st.cards[id].owner == u;
    assert FindUserByEmail(st.users, auth.value.name) == Some(u);
  }

  /** With the access rule satisfied, blocking can only fail because the
      card is already blocked or has expired. */
  lemma OwnerBlockFailsOnlyForStatus(st: Store, auth: Option<Authentication>, id: CardId)
    requires WellFormed(st)
    requires IsCardOwner(st, auth, Some(id))
    requires auth.value.authenticated && !auth.value.anonymous
    ensures var r := BlockCard(st, auth, id);
            r.Failure? ==> r.error in {CardOperation(AlreadyBlocked), CardOperation(ExpiredCard)}
  {
    var u :| ActsAs(st, auth, u) && st.cards[id].owner == u;
    assert FindUserByEmail(st.users, auth.value.name) == Some(u);
  }

  /** A transfer between two cards of the caller never fails on ownership,
      and a transfer touching someone else's card always does (unless an
      earlier guard fired). */
  lemma TransferOwnershipGuard(st: Store, auth: Option<Authentication>, req: TransferRequest, now: Timestamp)
    requires WellFormed(st) && ValidTransferRequest(req)
    requires CurrentUserId(st, auth).Success?
    requires req.fromCardId.value != req.toCardId.value
    requires req.fromCardId.value in st.cards && req.toCardId.value in st.cards
    ensures TransferFunds(st, auth, req, now) == Failure(SecurityViolation(NotBothOwned)) <==>
              !(IsCardOwner(st, auth, req.fromCardId) && IsCardOwner(st, auth, req.toCardId))
  {
    CardOwnerIsCurrentUser(st, auth, req.fromCardId.value);
    CardOwnerIsCurrentUser(st, auth, req.toCardId.value);
  }
}
