/** The bean-validation constraints of the request bodies, as predicates.
    A request reaches the services only after these checks pass. */
module Requests {
  import opened Wrappers
  import opened Money
  import opened Entities

  datatype CreateCardRequest = CreateCardRequest(
    userId: Option<UserId>,
    cardNumber: Option<string>,
    cardHolder: Option<string>,
    expiryDate: Option<string>,
    status: Option<CardStatus>,
    balance: Option<Decimal>)

  datatype UpdateCardRequest = UpdateCardRequest(
    cardHolder: Option<string>,
    status: Option<CardStatus>,
    dailyWithdrawalLimit: Option<Decimal>)

  datatype TransferRequest = TransferRequest(
    fromCardId: Option<CardId>,
    toCardId: Option<CardId>,
    amount: Option<Decimal>)

  datatype WithdrawalRequest = WithdrawalRequest(amount: Option<Decimal>)

  /** `@NotBlank`: present, and something above U+0020 survives `trim()`. */
  predicate NotBlank(s: Option<string>)
  {
    s.Some? && exists i :: 0 <= i < |s.value| && s.value[i] > ' '
  }

  /** `@Size(max = n)`: a null value passes. */
  predicate SizeAtMost(s: Option<string>, n: nat)
  {
    s.None? || |s.value| <= n
  }

  /** The pattern `^\d{16}$`. */
  predicate IsCardNumber(s: string)
  {
    |s| == 16 && forall i :: 0 <= i < 16 ==> IsDigit(s[i])
  }

  /** The pattern `^(20\d{2})-(0[1-9]|1[0-2])$`. */
  predicate IsExpiryPattern(s: string)
  {
    && |s| == 7
    && s[0] == '2' && s[1] == '0' && IsDigit(s[2]) && IsDigit(s[3])
    && s[4] == '-'
    && ((s[5] == '0' && '1' <= s[6] <= '9') || (s[5] == '1' && '0' <= s[6] <= '2'))
  }

  predicate ValidCreateCardRequest(r: CreateCardRequest)
  {
    && r.userId.Some?
    && NotBlank(r.cardNumber) && IsCardNumber(r.cardNumber.value)
    && NotBlank(r.cardHolder) && SizeAtMost(r.cardHolder, 100)
    && NotBlank(r.expiryDate) && IsExpiryPattern(r.expiryDate.value)
    && r.status.Some?
    && r.balance.Some? && AtLeastCents(r.balance.value, 0) && HasDigits(r.balance.value, 15, 2)
  }

  predicate ValidUpdateCardRequest(r: UpdateCardRequest)
  {
    && SizeAtMost(r.cardHolder, 100)
    && (r.dailyWithdrawalLimit.Some? ==>
          AtLeastCents(r.dailyWithdrawalLimit.value, 0) && HasDigits(r.dailyWithdrawalLimit.value, 17, 2))
  }

  predicate ValidTransferRequest(r: TransferRequest)
  {
    && r.fromCardId.Some? && r.toCardId.Some?
    && r.amount.Some? && AtLeastCents(r.amount.value, 1) && HasDigits(r.amount.value, 17, 2)
  }

  predicate ValidWithdrawalRequest(r: WithdrawalRequest)
  {
    r.amount.Some? && AtLeastCents(r.amount.value, 1) && HasDigits(r.amount.value, 17, 2)
  }

  /** What `createCard` itself dereferences: every field present, and the
      balance representable in the two-decimal balance column. */
  predicate CreateCardRequestComplete(r: CreateCardRequest)
  {
    && r.userId.Some? && r.cardNumber.Some? && r.cardHolder.Some?
    && r.expiryDate.Some? && r.status.Some?
    && r.balance.Some? && r.balance.value.scale <= 2
  }

  /** What `updateCard` needs: a supplied limit has at most two fraction
      digits, so it is a whole number of cents. The column's bound of 15
      integer digits is not checked here. */
  predicate UpdateCardRequestInCents(r: UpdateCardRequest)
  {
    r.dailyWithdrawalLimit.Some? ==> r.dailyWithdrawalLimit.value.scale <= 2
  }

  /** A money field that passed `@DecimalMin(min)` and `@Digits(integer, 2)`
      is a whole number of cents in `[min, 10^(integer+2))`. */
  lemma ValidMoneyInCents(d: Decimal, minCents: int, integer: nat)
    requires minCents >= 0
    requires AtLeastCents(d, minCents) && HasDigits(d, integer, 2)
    ensures d.scale <= 2
    ensures minCents <= ToCents(d) < Pow10(integer + 2)
  {
    if d.unscaled == 0 {
      assert Precision(d) == 1;
    }
    DigitsAsCentsBound(d, integer);
  }

  /** A valid create request is complete and carries a non-negative balance
      of at most 15 integer digits. */
  lemma ValidCreateCardIsComplete(r: CreateCardRequest)
    requires ValidCreateCardRequest(r)
    ensures CreateCardRequestComplete(r)
    ensures 0 <= ToCents(r.balance.value) < Pow10(17)
    ensures |r.cardNumber.value| == 16 && |r.cardHolder.value| <= 100
    ensures IsCardNumber(r.cardNumber.value)
    ensures IsExpiryPattern(r.expiryDate.value)
  {
    ValidMoneyInCents(r.balance.value, 0, 15);
  }

  /** A valid update request has a limit in whole cents, non-negative and
      below 10^19 cents; that is wider than the column's 10^17. */
  lemma ValidUpdateCardInCents(r: UpdateCardRequest)
    requires ValidUpdateCardRequest(r)
    ensures UpdateCardRequestInCents(r)
    ensures r.dailyWithdrawalLimit.Some? ==> 0 <= ToCents(r.dailyWithdrawalLimit.value) < Pow10(19)
  {
    if r.dailyWithdrawalLimit.Some? {
      ValidMoneyInCents(r.dailyWithdrawalLimit.value, 0, 17);
    }
  }

  /** A valid transfer moves at least one cent and fewer than 10^19 cents. */
  lemma ValidTransferAmount(r: TransferRequest)
    requires ValidTransferRequest(r)
    ensures r.amount.value.scale <= 2
    ensures 1 <= ToCents(r.amount.value) < Pow10(19)
  {
    ValidMoneyInCents(r.amount.value, 1, 17);
  }

  /** A valid withdrawal takes at least one cent and fewer than 10^19 cents. */
  lemma ValidWithdrawalAmount(r: WithdrawalRequest)
    requires ValidWithdrawalRequest(r)
    ensures r.amount.value.scale <= 2
    ensures 1 <= ToCents(r.amount.value) < Pow10(19)
  {
    ValidMoneyInCents(r.amount.value, 1, 17);
  }
}
