/** The ownership checks the access rules call before a card or a
    transaction operation runs. Both are total and fail closed: any missing
    piece (no authentication, no id, no principal name, unknown user,
    unknown record, no card behind a transaction) answers false. */
module Security {
  import opened Wrappers
  import opened Entities
  import opened Ledger

  /** The principal's name belongs to user `u`. */
  predicate ActsAs(st: Store, auth: Option<Authentication>, u: UserId)
  {
    auth.Some? && u in st.users && Some(st.users[u].email) == auth.value.name
  }

  /** `CardSecurityService.isOwner`. Unlike `CurrentUserId`, it does not look
      at the authenticated and anonymous flags, only at the name. */
  function IsCardOwner(st: Store, auth: Option<Authentication>, cardId: Option<CardId>): (r: bool)
    requires WellFormed(st)
    ensures auth.None? || cardId.None? ==> !r
    ensures auth.Some? && auth.value.name.None? ==> !r
    ensures cardId.Some? && cardId.value !in st.cards ==> !r
    ensures r <==>
              && cardId.Some? && cardId.value in st.cards
              && exists u :: ActsAs(st, auth, u) && st.cards[cardId.value].owner == u
  {
    if auth.None? || cardId.None? then false
    else if auth.value.name.None? then false
    else match FindUserByEmail(st.users, auth.value.name)
      case None => false
      case Some(current) =>
        if cardId.value !in st.cards then false
        else
          assert ActsAs(st, auth, current);
          st.cards[cardId.value].owner == current
  }

  /** `TransactionSecurityService.isOwner`: the transaction must exist and
      be linked to a card whose owner is the caller. */
  function IsTransactionOwner(st: Store, auth: Option<Authentication>, txId: Option<TxId>): (r: bool)
    requires WellFormed(st)
    ensures auth.None? || txId.None? ==> !r
    ensures auth.Some? && auth.value.name.None? ==> !r
    ensures txId.Some? && txId.value !in st.transactions ==> !r
    ensures txId.Some? && txId.value in st.transactions && st.transactions[txId.value].card.None? ==> !r
    ensures r <==>
              && txId.Some? && txId.value in st.transactions
              && var link := st.transactions[txId.value].card;
                 && link.Some? && link.value in st.cards
                 && exists u :: ActsAs(st, auth, u) && st.cards[link.value].owner == u
  {
    if auth.None? || txId.None? then false
    else if auth.value.name.None? then false
    else match FindUserByEmail(st.users, auth.value.name)
      case None => false
      case Some(current) =>
        if txId.value !in st.transactions then false
        else
          var link := st.transactions[txId.value].card;
          if link.None? || link.value !in st.cards then false
          else
            assert ActsAs(st, auth, current);
            st.cards[link.value].owner == current
  }

  /** Owning a transaction is owning the card it is linked to. */
  lemma TransactionOwnerIsCardOwner(st: Store, auth: Option<Authentication>, t: TxId)
    requires WellFormed(st)
    ensures IsTransactionOwner(st, auth, Some(t)) <==>
              t in st.transactions && IsCardOwner(st, auth, st.transactions[t].card)
  {
  }

  /** For a caller `CurrentUserId` accepts, ownership is exactly "the card's
      owner is the current user". */
  lemma CardOwnerIsCurrentUser(st: Store, auth: Option<Authentication>, c: CardId)
    requires WellFormed(st)
    requires CurrentUserId(st, auth).Success?
    ensures IsCardOwner(st, auth, Some(c)) <==>
              c in st.cards && st.cards[c].owner == CurrentUserId(st, auth).value
  {
    var u := CurrentUserId(st, auth).value;
    if IsCardOwner(st, auth, Some(c)) {
      var v :| ActsAs(st, auth, v) && st.cards[c].owner == v;
      assert st.users[u].email == st.users[v].email;
    }
  }
}
