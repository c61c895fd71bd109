/** The persistent entities: cards, ledger transactions and users, with the
    display mask, the in-memory transaction history and id-based equality. */
module Entities {
  import opened Wrappers

  type CardId = nat
  type UserId = nat
  type TxId = nat

  /** A `java.time.YearMonth` as a month index: `year * 12 + (month - 1)`. */
  type YearMonth = int

  /** A `LocalDateTime` read from the clock, as an ordered instant. */
  type Timestamp = int

  function MonthIndex(year: int, month: int): YearMonth
  {
    year * 12 + (month - 1)
  }

  datatype CardStatus = ACTIVE | BLOCKED | EXPIRED

  /** The only status the ledger logic ever writes. */
  datatype TransactionStatus = COMPLETED

  datatype Role = ROLE_USER | ROLE_ADMIN

  /** A bank card. `id` is null until the card is first saved; the number is
      held in plain text here and encrypted only at the storage boundary.
      Money is in cents; a null withdrawal limit means "no limit". The
      limit column is not nullable and every writer stores a value, so a
      stored card always has `Some` limit; `None` mirrors the null test of
      the withdrawal. */
  datatype Card = Card(
    id: Option<CardId>,
    cardNumber: string,
    cardHolder: string,
    expiryDate: YearMonth,
    status: CardStatus,
    balance: int,
    owner: UserId,
    dailyWithdrawalLimit: Option<int>)

  /** A ledger entry: negative amounts are debits, positive ones credits.
      The card reference is the card's id, null once detached. */
  datatype Transaction = Transaction(
    id: Option<TxId>,
    card: Option<CardId>,
    amount: int,
    transactionDate: Timestamp,
    status: TransactionStatus,
    createdAt: Timestamp)

  datatype User = User(
    id: Option<UserId>,
    email: string,
    password: string,
    role: Role,
    accountNonLocked: bool)

  /** The five-argument constructor: a fresh, unsaved entry. */
  function NewTransaction(card: Option<CardId>, amount: int, transactionDate: Timestamp,
                          status: TransactionStatus, createdAt: Timestamp): Transaction
  {
    Transaction(None, card, amount, transactionDate, status, createdAt)
  }

  // ---------------------------------------------------------------- masking

  const MaskFill: string := "******"

  /** The display form of a card number: a short or missing number becomes a
      constant mask; otherwise only the first six and last four characters
      survive, around six asterisks. */
  function MaskCardNumber(number: Option<string>): (r: string)
    ensures number.None? || |number.value| < 10 ==> r == MaskFill
    ensures number.Some? && |number.value| >= 10 ==>
      && |r| == 16
      && r[..6] == number.value[..6]
      && r[6..12] == MaskFill
      && r[12..] == number.value[|number.value| - 4..]
  {
    if number.None? || |number.value| < 10 then MaskFill
    else number.value[..6] + MaskFill + number.value[|number.value| - 4..]
  }

  /** The mask depends on nothing but the first six and last four characters:
      two numbers that agree there cannot be told apart from their masks. */
  lemma MaskHidesMiddle(a: string, b: string)
    requires |a| >= 10 && |b| >= 10
    requires a[..6] == b[..6] && a[|a| - 4..] == b[|b| - 4..]
    ensures MaskCardNumber(Some(a)) == MaskCardNumber(Some(b))
  {
  }

  predicate IsDigit(c: char)
  {
    '0' <= c <= '9'
  }

  /** A masked card number is never the card number itself. */
  lemma MaskNeverRevealsNumber(n: string)
    requires forall i :: 0 <= i < |n| ==> IsDigit(n[i])
    ensures MaskCardNumber(Some(n)) != n
  {
    var m := MaskCardNumber(Some(n));
    if |n| >= 10 {
      assert m[6] == '*' && IsDigit(n[6]);
      assert m[6] != n[6];
    } else if |n| >= 1 {
      assert m[0] == '*' && IsDigit(n[0]);
      assert m[0] != n[0];
    }
  }

  // ------------------------------------------------------ identity & hashing

  /** `Card.equals`: the same object, or both saved with the same id.
      Value equality of the two records stands in for reference identity. */
  predicate CardEquals(a: Card, b: Card)
  {
    a == b || (a.id.Some? && a.id == b.id)
  }

  /** `Transaction.equals`, with the same convention as `CardEquals`. */
  predicate TransactionEquals(a: Transaction, b: Transaction)
  {
    a == b || (a.id.Some? && a.id == b.id)
  }

  const LongLimit: int := 0x8000_0000_0000_0000

  function Pow2(n: nat): (r: nat)
    ensures r >= 1
  {
    if n == 0 then 1 else 2 * Pow2(n - 1)
  }

  /** Bitwise exclusive or of the low `n` bits of `a` and `b`. */
  function XorBits(a: nat, b: nat, n: nat): (r: nat)
    ensures r < Pow2(n)
  {
    if n == 0 then 0 else (a + b) % 2 + 2 * XorBits(a / 2, b / 2, n - 1)
  }

  lemma {:induction false} Pow2Add(a: nat, b: nat)
    ensures Pow2(a + b) == Pow2(a) * Pow2(b)
  {
    if a > 0 {
      Pow2Add(a - 1, b);
    }
  }

  /** The width of an `int`. */
  lemma Pow2Of32()
    ensures Pow2(32) == 0x1_0000_0000
  {
    assert Pow2(4) == 16;
    Pow2Add(4, 4);
    Pow2Add(8, 8);
    Pow2Add(16, 16);
  }

  /** Exclusive or with zero keeps a value that fits in the width. */
  lemma {:induction false} XorZero(a: nat, n: nat)
    requires a < Pow2(n)
    ensures XorBits(a, 0, n) == a
  {
    if n > 0 {
      XorZero(a / 2, n - 1);
    }
  }

  /** `Long.hashCode`: the two 32-bit halves xor-ed, read as a signed int. */
  function LongHashCode(v: nat): (h: int)
    requires v < LongLimit
    ensures -0x8000_0000 <= h < 0x8000_0000
  {
    Pow2Of32();
    var low := XorBits(v % 0x1_0000_0000, v / 0x1_0000_0000, 32);
    if low >= 0x8000_0000 then low - 0x1_0000_0000 else low
  }

  /** An id that fits in 31 bits is its own hash. */
  lemma SmallIdHashesToItself(v: nat)
    requires v < 0x8000_0000
    ensures LongHashCode(v) == v
  {
    Pow2Of32();
    XorZero(v, 32);
    assert v % 0x1_0000_0000 == v && v / 0x1_0000_0000 == 0;
  }

  /** `Transaction.hashCode`: the id's hash, or the constant 31 while unsaved. */
  function TransactionHashCode(t: Transaction): (h: int)
    requires t.id.None? || t.id.value < LongLimit
    ensures t.id.None? ==> h == 31
    ensures -0x8000_0000 <= h < 0x8000_0000
  {
    if t.id.Some? then LongHashCode(t.id.value) else 31
  }

  /** Transaction equality is an equivalence, distinct unsaved entries are
      never equal, and equal entries hash alike. */
  lemma TransactionEqualityContract(a: Transaction, b: Transaction, c: Transaction)
    requires a.id.None? || a.id.value < LongLimit
    requires b.id.None? || b.id.value < LongLimit
    ensures TransactionEquals(a, a)
    ensures TransactionEquals(a, b) ==> TransactionEquals(b, a)
    ensures TransactionEquals(a, b) && TransactionEquals(b, c) ==> TransactionEquals(a, c)
    ensures a != b && a.id.None? ==> !TransactionEquals(a, b)
    ensures TransactionEquals(a, b) ==> TransactionHashCode(a) == TransactionHashCode(b)
  {
  }

  /** Card equality: an equivalence, and distinct unsaved cards differ. */
  lemma CardEqualityContract(a: Card, b: Card, c: Card)
    ensures CardEquals(a, a)
    ensures CardEquals(a, b) ==> CardEquals(b, a)
    ensures CardEquals(a, b) && CardEquals(b, c) ==> CardEquals(a, c)
    ensures a != b && (a.id.None? || b.id.None?) ==> !CardEquals(a, b)
  {
  }

  // ------------------------------------------------------- in-memory history

  /** `Card.addTransaction`: the entry is appended to the card's history and
      its card reference is pointed at this card. */
  function AddTransaction(cardId: Option<CardId>, history: seq<Transaction>, t: Transaction)
    : (r: (seq<Transaction>, Transaction))
    ensures r.1.card == cardId
    ensures r.1 == t.(card := cardId)
    ensures |r.0| == |history| + 1 && r.0[..|history|] == history && r.0[|history|] == r.1
  {
    var linked := t.(card := cardId);
    (history + [linked], linked)
  }

  /** The index of the first history entry equal to t, or |h| if none is. */
  function FirstEqual(h: seq<Transaction>, t: Transaction): (i: nat)
    ensures i <= |h|
    ensures i < |h| ==> TransactionEquals(t, h[i])
    ensures forall j :: 0 <= j < i ==> !TransactionEquals(t, h[j])
  {
    if |h| == 0 then 0
    else if TransactionEquals(t, h[0]) then 0
    else 1 + FirstEqual(h[1..], t)
  }

  /** `List.remove(Object)`: drop the first entry equal to t, if any. */
  function RemoveFirst(h: seq<Transaction>, t: Transaction): (r: seq<Transaction>)
    ensures var i := FirstEqual(h, t);
      r == if i == |h| then h else h[..i] + h[i + 1..]
  {
    if |h| == 0 then []
    else if TransactionEquals(t, h[0]) then h[1..]
    else [h[0]] + RemoveFirst(h[1..], t)
  }

  /** `Card.removeTransaction`: the entry leaves the history and its card
      reference is cleared. */
  function RemoveTransaction(history: seq<Transaction>, t: Transaction)
    : (r: (seq<Transaction>, Transaction))
    ensures r.1.card.None?
    ensures forall x :: x in r.0 ==> x in history
    ensures |r.0| == |history| || |r.0| == |history| - 1
    ensures (forall x :: x in history ==> !TransactionEquals(t, x)) ==> r.0 == history
    ensures var i := FirstEqual(history, t);
              i < |history| ==> |r.0| == |history| - 1 && r.0 == history[..i] + history[i + 1..]
  {
    var i := FirstEqual(history, t);
    assert forall x :: x in RemoveFirst(history, t) ==> x in history by {
      if i < |history| {
        assert history == history[..i] + [history[i]] + history[i + 1..];
      }
    }
    (RemoveFirst(history, t), t.(card := None))
  }

  /** Adding an entry and removing it again restores the history, provided
      nothing already in the history is equal to it. */
  lemma AddRemoveRoundTrip(cardId: Option<CardId>, history: seq<Transaction>, t: Transaction)
    requires forall x :: x in history ==> !TransactionEquals(t.(card := cardId), x)
    ensures RemoveTransaction(AddTransaction(cardId, history, t).0, AddTransaction(cardId, history, t).1).0 == history
  {
    var (h, linked) := AddTransaction(cardId, history, t);
    assert FirstEqual(h, linked) == |history|;
    assert h[..|history|] == history;
  }
}
