/** The read side of the ledger: one entry by id, the entries of one card,
    and the history of the current user across all of their cards, newest
    first. None of these change the store. */
module TransactionService {
  import opened Wrappers
  import opened Entities
  import opened Ledger
  import opened Security

  /** What the service hands back for an entry: the card only by its id. */
  datatype TransactionResponse = TransactionResponse(
    id: Option<TxId>,
    cardId: Option<CardId>,
    amount: int,
    transactionDate: Timestamp,
    status: TransactionStatus,
    createdAt: Timestamp)

  /** `mapTransactionToTransactionDto`. */
  function ToResponse(t: Transaction): (r: TransactionResponse)
    ensures r.id == t.id && r.cardId == t.card
    ensures r.amount == t.amount && r.transactionDate == t.transactionDate
    ensures r.status == t.status && r.createdAt == t.createdAt
  {
    TransactionResponse(t.id, t.card, t.amount, t.transactionDate, t.status, t.createdAt)
  }

  function ToResponses(ts: seq<Transaction>): (r: seq<TransactionResponse>)
    ensures |r| == |ts|
    ensures forall i :: 0 <= i < |ts| ==> r[i] == ToResponse(ts[i])
  {
    if ts == [] then [] else [ToResponse(ts[0])] + ToResponses(ts[1..])
  }

  /** The entry is linked to one of the cards in `cards`. */
  predicate LinkedTo(t: Transaction, cards: set<CardId>)
  {
    t.card.Some? && t.card.value in cards
  }

  /** The entries with ids in [lo, hi) linked to one of `cards`, by
      ascending id (the order in which the table hands them out). */
  function EntriesOf(txs: map<TxId, Transaction>, cards: set<CardId>, lo: nat, hi: nat): (r: seq<Transaction>)
    decreases hi - lo
    ensures forall i :: 0 <= i < |r| ==> LinkedTo(r[i], cards)
    ensures forall i :: 0 <= i < |r| ==> r[i] in txs.Values
    ensures forall k :: lo <= k < hi && k in txs && LinkedTo(txs[k], cards) ==> txs[k] in r
  {
    if lo >= hi then []
    else if lo in txs && LinkedTo(txs[lo], cards) then [txs[lo]] + EntriesOf(txs, cards, lo + 1, hi)
    else EntriesOf(txs, cards, lo + 1, hi)
  }

  /** No two entries of `s` share an id: each stored row appears once. */
  predicate DistinctIds(s: seq<Transaction>)
  {
    forall i, j :: 0 <= i < j < |s| ==> s[i].id != s[j].id
  }

  /** Every entry of `s` is saved with an id in [lo, hi), and the ids
      strictly ascend. */
  predicate AscendingIdsIn(s: seq<Transaction>, lo: nat, hi: nat)
  {
    && (forall i :: 0 <= i < |s| ==> s[i].id.Some? && lo <= s[i].id.value < hi)
    && (forall i, j :: 0 <= i < j < |s| ==> s[i].id.value < s[j].id.value)
  }

  /** In a table keyed by id, the scan over [lo, hi) hands out saved
      entries with ids in that range, in strictly ascending id order. */
  lemma {:induction false} EntriesOfAscending(txs: map<TxId, Transaction>, cards: set<CardId>, lo: nat, hi: nat)
    requires forall k :: k in txs ==> txs[k].id == Some(k)
    ensures AscendingIdsIn(EntriesOf(txs, cards, lo, hi), lo, hi)
    decreases hi - lo
  {
    if lo < hi {
      EntriesOfAscending(txs, cards, lo + 1, hi);
      var rest := EntriesOf(txs, cards, lo + 1, hi);
      if lo in txs && LinkedTo(txs[lo], cards) {
        var r := [txs[lo]] + rest;
        assert r[0].id == Some(lo);
        assert forall i :: 1 <= i < |r| ==> r[i] == rest[i - 1];
      }
    }
  }

  /** All entries of the store linked to one of `cards`, each once. */
  function EntriesOfCards(st: Store, cards: set<CardId>): (r: seq<Transaction>)
    requires WellFormed(st)
    ensures forall t :: t in r <==> t in st.transactions.Values && LinkedTo(t, cards)
    ensures DistinctIds(r)
  {
    var r := EntriesOf(st.transactions, cards, 0, st.nextTxId);
    EntriesOfAscending(st.transactions, cards, 0, st.nextTxId);
    assert forall i, j :: 0 <= i < j < |r| ==> r[i].id.value < r[j].id.value;
    assert forall t :: t in st.transactions.Values && LinkedTo(t, cards) ==> t in r by {
      forall t | t in st.transactions.Values && LinkedTo(t, cards) ensures t in r {
        var k :| k in st.transactions && st.transactions[k] == t;
      }
    }
    r
  }

  // ------------------------------------------------------------- newest first

  /** Later transaction dates come first. */
  predicate NewestFirst(s: seq<Transaction>)
  {
    forall i, j :: 0 <= i < j < |s| ==> s[i].transactionDate >= s[j].transactionDate
  }

  /** No entry of `s` is dated after `d`. */
  predicate NotNewerThan(s: seq<Transaction>, d: Timestamp)
  {
    forall i :: 0 <= i < |s| ==> s[i].transactionDate <= d
  }

  /** In a newest-first sequence nothing after the head is newer than it,
      and the tail keeps every bound the whole sequence has. */
  lemma HeadIsNewest(s: seq<Transaction>)
    requires NewestFirst(s) && s != []
    ensures NewestFirst(s[1..])
    ensures NotNewerThan(s[1..], s[0].transactionDate)
    ensures forall d :: NotNewerThan(s, d) ==> NotNewerThan(s[1..], d) && s[0].transactionDate <= d
  {
  }

  /** An entry no older than a newest-first sequence may go in front of it. */
  lemma PrependNewest(x: Transaction, s: seq<Transaction>)
    requires NewestFirst(s) && NotNewerThan(s, x.transactionDate)
    ensures NewestFirst([x] + s)
    ensures forall d :: NotNewerThan(s, d) && x.transactionDate <= d ==> NotNewerThan([x] + s, d)
  {
    var r := [x] + s;
    assert forall i :: 1 <= i < |r| ==> r[i] == s[i - 1];
  }

  /** A rearrangement of the tail of an id-distinct `s`, possibly with an
      entry `t` of another id, holds no entry with the id of `s[0]`. */
  lemma PermutedTailAvoidsHead(s: seq<Transaction>, t: Transaction, rest: seq<Transaction>)
    requires |s| > 0 && DistinctIds(s)
    requires t.id == s[0].id || forall i :: 0 <= i < |s| ==> s[i].id != t.id
    requires multiset(rest) <= multiset(s[1..]) + multiset{t}
    requires t.id == s[0].id ==> multiset(rest) <= multiset(s[1..])
    ensures forall j :: 0 <= j < |rest| ==> rest[j].id != s[0].id
  {
    forall j | 0 <= j < |rest| ensures rest[j].id != s[0].id {
      assert rest[j] in multiset(rest);
      if rest[j] != t || t.id == s[0].id {
        assert rest[j] in multiset(s[1..]);
        var k :| 0 <= k < |s[1..]| && s[1..][k] == rest[j];
        assert s[k + 1] == rest[j];
      }
    }
  }

  /** Place `t` ahead of the first entry that is not newer than it, so that
      among equal dates the earlier-placed entries stay ahead. */
  function InsertNewestFirst(t: Transaction, s: seq<Transaction>): (r: seq<Transaction>)
    requires NewestFirst(s)
    ensures NewestFirst(r)
    ensures multiset(r) == multiset(s) + multiset{t}
    ensures forall d :: NotNewerThan(s, d) && t.transactionDate <= d ==> NotNewerThan(r, d)
  {
    if s == [] then [t]
    else if s[0].transactionDate <= t.transactionDate then [t] + s
    else
      HeadIsNewest(s);
      var rest := InsertNewestFirst(t, s[1..]);
      PrependNewest(s[0], rest);
      assert s == [s[0]] + s[1..];
      [s[0]] + rest
  }

  /** `transactions.sort` by date, newest first: a permutation of the input
      in non-increasing date order. */
  function SortNewestFirst(s: seq<Transaction>): (r: seq<Transaction>)
    ensures NewestFirst(r)
    ensures multiset(r) == multiset(s)
  {
    if s == [] then []
    else
      assert s == [s[0]] + s[1..];
      InsertNewestFirst(s[0], SortNewestFirst(s[1..]))
  }

  /** Inserting an entry of a new id keeps the ids distinct. */
  lemma {:induction false} InsertKeepsIdsDistinct(t: Transaction, s: seq<Transaction>)
    requires NewestFirst(s) && DistinctIds(s)
    requires forall i :: 0 <= i < |s| ==> s[i].id != t.id
    ensures DistinctIds(InsertNewestFirst(t, s))
  {
    var r := InsertNewestFirst(t, s);
    if s == [] {
    } else if s[0].transactionDate <= t.transactionDate {
      assert forall i :: 1 <= i < |r| ==> r[i] == s[i - 1];
    } else {
      HeadIsNewest(s);
      var rest := InsertNewestFirst(t, s[1..]);
      InsertKeepsIdsDistinct(t, s[1..]);
      PermutedTailAvoidsHead(s, t, rest);
      assert forall i :: 1 <= i < |r| ==> r[i] == rest[i - 1];
    }
  }

  /** Sorting keeps each stored entry once: distinct ids stay distinct. */
  lemma {:induction false} SortKeepsIdsDistinct(s: seq<Transaction>)
    requires DistinctIds(s)
    ensures DistinctIds(SortNewestFirst(s))
  {
    if s != [] {
      SortKeepsIdsDistinct(s[1..]);
      var rest := SortNewestFirst(s[1..]);
      PermutedTailAvoidsHead(s, s[0], rest);
      InsertKeepsIdsDistinct(s[0], rest);
    }
  }

  // ------------------------------------------------------------ the queries

  /** `getTransactionById`. */
  function GetTransactionById(st: Store, id: TxId): (r: Result<TransactionResponse, Error>)
    requires WellFormed(st)
    ensures id !in st.transactions <==> r == Failure(NotFound(TransactionRecord))
    ensures r.Success? <==> id in st.transactions
    ensures r.Success? ==> r.value.id == Some(id) && r.value == ToResponse(st.transactions[id])
  {
    if id !in st.transactions then Failure(NotFound(TransactionRecord))
    else Success(ToResponse(st.transactions[id]))
  }

  /** A saved entry is found under the id it was given, and the entries
      saved before it are still found as they were. */
  lemma SavedTransactionIsFound(st: Store, t: Transaction, other: TxId)
    requires WellFormed(st)
    ensures GetTransactionById(SaveTransaction(st, t), st.nextTxId) ==
              Success(ToResponse(t.(id := Some(st.nextTxId))))
    ensures other in st.transactions ==>
              GetTransactionById(SaveTransaction(st, t), other) == GetTransactionById(st, other)
  {
  }

  /** `getAllTransactionsByCardId`: the card is looked up first; then every
      entry linked to it, and no other. */
  function GetAllTransactionsByCardId(st: Store, cardId: CardId): (r: Result<seq<TransactionResponse>, Error>)
    requires WellFormed(st)
    ensures cardId !in st.cards <==> r == Failure(NotFound(CardRecord))
    ensures r.Success? <==> cardId in st.cards
    ensures r.Success? ==>
              forall t :: ToResponse(t) in r.value <==>
                t in st.transactions.Values && t.card == Some(cardId)
    ensures r.Success? ==> forall i, j :: 0 <= i < j < |r.value| ==> r.value[i].id != r.value[j].id
  {
    if cardId !in st.cards then Failure(NotFound(CardRecord))
    else
      var es := EntriesOfCards(st, {cardId});
      var r := ToResponses(es);
      assert forall t :: ToResponse(t) in r <==> t in es by {
        forall t ensures ToResponse(t) in r <==> t in es {
          if ToResponse(t) in r {
            var i :| 0 <= i < |r| && r[i] == ToResponse(t);
            assert es[i] == t;
          }
          if t in es {
            var i :| 0 <= i < |es| && es[i] == t;
            assert r[i] == ToResponse(t);
          }
        }
      }
      Success(r)
  }

  /** The ids of the cards `uid` owns. */
  function OwnedCards(st: Store, uid: UserId): (r: set<CardId>)
    ensures forall c :: c in r <==> c in st.cards && st.cards[c].owner == uid
  {
    set c | c in st.cards && st.cards[c].owner == uid
  }

  /** `getTransactionsForCurrentUser`: the caller is resolved, a caller
      without cards gets an empty history, and otherwise every entry linked
      to one of the caller's cards is returned, newest first. */
  function GetTransactionsForCurrentUser(st: Store, auth: Option<Authentication>)
    : (r: Result<seq<TransactionResponse>, Error>)
    requires WellFormed(st)
    ensures CurrentUserId(st, auth).Failure? ==> r == Failure(CurrentUserId(st, auth).error)
    ensures CurrentUserId(st, auth).Success? ==> r.Success?
    ensures r.Success? && OwnedCards(st, CurrentUserId(st, auth).value) == {} ==> r.value == []
    ensures r.Success? ==>
              forall t :: ToResponse(t) in r.value <==>
                t in st.transactions.Values && LinkedTo(t, OwnedCards(st, CurrentUserId(st, auth).value))
    ensures r.Success? ==>
              forall i, j :: 0 <= i < j < |r.value| ==> r.value[i].transactionDate >= r.value[j].transactionDate
    ensures r.Success? ==> forall i, j :: 0 <= i < j < |r.value| ==> r.value[i].id != r.value[j].id
  {
    match CurrentUserId(st, auth)
    case Failure(e) => Failure(e)
    case Success(uid) =>
      var owned := OwnedCards(st, uid);
      if owned == {} then Success([])
      else
        SortKeepsIdsDistinct(EntriesOfCards(st, owned));
        var es := SortNewestFirst(EntriesOfCards(st, owned));
        var r := ToResponses(es);
        assert forall t :: t in es <==> t in EntriesOfCards(st, owned) by {
          forall t ensures t in es <==> t in EntriesOfCards(st, owned) {
            assert t in es <==> t in multiset(es);
          }
        }
        assert forall t :: ToResponse(t) in r <==> t in es by {
          forall t ensures ToResponse(t) in r <==> t in es {
            if ToResponse(t) in r {
              var i :| 0 <= i < |r| && r[i] == ToResponse(t);
              assert es[i] == t;
            }
            if t in es {
              var i :| 0 <= i < |es| && es[i] == t;
              assert r[i] == ToResponse(t);
            }
          }
        }
        Success(r)
  }

  // ---------------------------------------------------------- cross-checks

  /** The caller's history is the union of the per-card listings of the
      cards the caller owns. */
  lemma HistoryIsUnionOfOwnedCards(st: Store, auth: Option<Authentication>, t: Transaction)
    requires WellFormed(st)
    requires CurrentUserId(st, auth).Success?
    ensures ToResponse(t) in GetTransactionsForCurrentUser(st, auth).value <==>
              exists c :: IsCardOwner(st, auth, Some(c))
                          && ToResponse(t) in GetAllTransactionsByCardId(st, c).value
  {
    var uid := CurrentUserId(st, auth).value;
    if ToResponse(t) in GetTransactionsForCurrentUser(st, auth).value {
      var c := t.card.value;
      CardOwnerIsCurrentUser(st, auth, c);
      assert IsCardOwner(st, auth, Some(c)) && ToResponse(t) in GetAllTransactionsByCardId(st, c).value;
    }
    if exists c :: IsCardOwner(st, auth, Some(c)) && ToResponse(t) in GetAllTransactionsByCardId(st, c).value {
      var c :| IsCardOwner(st, auth, Some(c)) && ToResponse(t) in GetAllTransactionsByCardId(st, c).value;
      CardOwnerIsCurrentUser(st, auth, c);
      assert c in OwnedCards(st, uid);
    }
  }

  /** Every entry in the caller's history passes the per-entry access rule. */
  lemma HistoryEntriesPassOwnership(st: Store, auth: Option<Authentication>)
    requires WellFormed(st)
    requires CurrentUserId(st, auth).Success?
    ensures forall resp :: resp in GetTransactionsForCurrentUser(st, auth).value ==>
              IsTransactionOwner(st, auth, resp.id)
  {
    forall resp | resp in GetTransactionsForCurrentUser(st, auth).value
      ensures IsTransactionOwner(st, auth, resp.id)
    {
      var t := Transaction(resp.id, resp.cardId, resp.amount, resp.transactionDate, resp.status, resp.createdAt);
      assert ToResponse(t) == resp;
      var k :| k in st.transactions && st.transactions[k] == t;
      assert resp.id == Some(k);
      CardOwnerIsCurrentUser(st, auth, t.card.value);
      TransactionOwnerIsCardOwner(st, auth, k);
    }
  }
}
