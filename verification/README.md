# Loan origination core in Dafny

A model of the decision-making core of a loan origination system, with proofs about it.
It covers three services:

- **Credit decisioning engine** (`CreditEngine`, `credit_engine.dfy`). It maps a requested
  principal, a monthly income and an existing monthly debt to four results:
  - a debt-to-income (DTI) ratio;
  - a banded credit score, clamped to [300, 850];
  - a verdict (APPROVED, REJECTED or REVIEW);
  - a remark.

  The instalment behind the DTI is an annuity at an assumed 1% a month over 24 months.
- **Loan lifecycle** (`LoanService`, `loan_service.dfy`). It has three steps:
  - an application is checked against its product's ranges, priced, and stored PENDING
    with three PENDING approval checkpoints (SURVEYOR, CREDIT_ANALYST, MANAGER);
  - resolving a checkpoint overwrites it and recomputes the loan's status from all three;
  - an APPROVED loan is disbursed.
- **Customer registry** (`CustomerService`, `customer_service.dfy`). It covers creation
  with NIK (national identity number) and email uniqueness checks, lookups, update,
  verification and blacklisting.

Shared pieces:
- `decimal.dfy` (`Decimal`) holds the `BigDecimal` arithmetic with HALF_UP rounding, on
  scaled integers.
- `amortization.dfy` (`Amortization`) holds the instalment formula that both services use.
- `text.dfy` (`Text`) holds the decimal renderings printed in remarks.
- `wrappers.dfy` (`Wrappers`) holds `Option` and `Result`.

Representation:
- Money is in cents and DTI ratios are in hundredths of a percent (19.41% is `1941`).
- Monthly rates are in ten-thousandths (1% is `100`).
- Annual product rates are in hundredths of a percent.
- The discount factor `1/(1+r)^n` is in units of 10^-10, the scale the source rounds it to.
- Division rounds half-up with ties away from zero for either sign, as `RoundingMode.HALF_UP`
  does. So negative principals and incomes are modelled rather than excluded.
- Every `ArithmeticException` the arithmetic can raise becomes a `Failure` result:
  - a zero monthly income;
  - a zero tenor at a zero rate;
  - a tenor that `BigDecimal.pow` refuses for 1 + r (`Decimal.PowRefused`, following the
    JDK 21 class library):
    - a negative tenor, or one above 999,999,999;
    - from 536,870,912 months on, because the result's scale 4·n no longer fits an `int`;
    - a tenor at which `BigInteger.pow` would overflow. At 1% a month that is every tenor
      from 153,391,692 on (`Decimal.OnePercentPowerLimit`);
  - a tenor from 134,217,728 on at any rate, where `BigDecimal.ONE.divide(power, 10, HALF_UP)`
    refuses to start (`Decimal.UnitDivideRefused`). The dividend 1 is raised to scale
    10 + 4·n, and `BigInteger.TEN.pow` refuses that power of ten from 10 + 4·n ≥ 536,870,920
    on; from 536,870,910 months on the scale does not fit an `int` either. This comes
    first, so at 1% a month the discount factor exists exactly for the tenors 0 to
    134,217,727 (`Amortization.OnePercentDiscountLimit`);
  - a compound factor (1+r)^n of zero, at a rate of −100%;
  - an annuity denominator of zero.
- A rounded result is stated by `Decimal.IsHalfUpQuotient`: its magnitude and its sign.
  `Decimal.DivHalfUpUnique` shows that no other integer meets it.

State is immutable:
- a `LoanBook` holds products, loans, checkpoints per loan, disbursement records, an
  event outbox and the next identity;
- a `Registry` holds customers, the next identity and an event outbox.

Each operation returns `Result<State, Error>`. A failure leaves the state as it was,
which is what the transactional rollback gives, with one exception: a refused customer
update. Its CUSTOMER_UPDATED message was already sent when the commit failed, so the
refusal carries that message (`CustomerService.UpdateRefusal`).

The model follows the code as written:

- **Failed transfers.** A failed transfer should leave the loan APPROVED so that the payout
  can be retried. The code marks the loan DISBURSED whatever the transfer's outcome
  (`LoanService.DisburseLoan`). `LoanService.DisburseLoanCorrected` is the intended
  behaviour; see the second Findings row.
- **Worked example.** 10,000,000 requested against 500,000 of debt and a 5,000,000 income
  gives an instalment of exactly 470,734.72 and a DTI of 19.41%, a score of 750 and REVIEW.
  Rounded approximations such as 471,513 and 19.43% are not what the code computes.
  `CreditEngine.WorkedInstallment` and `CreditEngine.WorkedExample` prove the exact values.

Customer update:
- `updateCustomer` does not re-check NIK or email uniqueness; only the table's unique
  columns do.
- The model therefore routes every save through `CustomerService.Save`, which models those
  columns.
- `CustomerService.UpdateReliesOnStoreForUniqueness` shows two things: the service's own
  step would duplicate a NIK, and the store is what refuses it, after CUSTOMER_UPDATED has
  been sent.

## Model

| member | source | states |
|---|---|---|
| Decimal.DivHalfUp | credit-engine-service/src/main/java/com/los/credit/service/CreditEngineService.java:63-67 | the quotient is the integer nearest n/d, a tie going away from zero: 2·\|q\|·\|d\| ≤ 2·\|n\|+\|d\| < 2·\|q\|·\|d\|+2·\|d\|, and a nonzero quotient has the sign of n/d |
| Decimal.DivHalfUpUnique | credit-engine-service/src/main/java/com/los/credit/service/CreditEngineService.java:63-67 | those rounding bounds determine the HALF_UP quotient uniquely |
| Decimal.DivHalfUpMonotone | credit-engine-service/src/main/java/com/los/credit/service/CreditEngineService.java:67 | for a positive divisor a larger numerator never gives a smaller rounded quotient |
| Decimal.PowAdd | loan-service/src/main/java/com/los/loan/service/LoanService.java:180 | (1+r)^(m+n) = (1+r)^m·(1+r)^n, the law used to evaluate `pow(tenor)` |
| Decimal.BitLengthBounds | loan-service/src/main/java/com/los/loan/service/LoanService.java:180 | a positive number with b binary digits, as `BigInteger.bitLength` counts them, lies in [2^(b−1), 2^b) |
| Decimal.BitLengthOfPower | loan-service/src/main/java/com/los/loan/service/LoanService.java:180 | the n-th power of a positive number has at most n times its binary digits, so the estimate `BigInteger.pow` checks before multiplying never undercounts |
| Decimal.OnePercentPowerLimit | loan-service/src/main/java/com/los/loan/service/LoanService.java:180 | at 1% a month `BigDecimal.pow` refuses exactly the negative tenors and those from 153,391,692 on |
| Decimal.PowerBitsBySquares | loan-service/src/main/java/com/los/loan/service/LoanService.java:179-180 | x^n has at most ⌊n/2⌋ times the binary digits of x² plus those of x, which bounds the true size of a power below 2^31 bits |
| Decimal.TenPowerLimit | loan-service/src/main/java/com/los/loan/service/LoanService.java:179 | `BigInteger.TEN.pow(k)` overflows exactly from k = 536,870,920 on |
| Decimal.UnitDivideLimit | loan-service/src/main/java/com/los/loan/service/LoanService.java:179 | dividing one to ten places is refused exactly for a divisor of scale 536,870,910 or more |
| Amortization.DiscountFactor | loan-service/src/main/java/com/los/loan/service/LoanService.java:178-182 | fails as a refused power exactly when `BigDecimal.pow` refuses the tenor for 1 + r at scale four: every negative tenor, every tenor above 999,999,999, and for a nonzero base every tenor from 536,870,912 on; otherwise it fails as a refused division exactly when `BigDecimal.ONE.divide` refuses a divisor of scale 4·n to ten places; otherwise it fails with division by zero exactly when (1+r)^n is zero, and else it is 1/(1+r)^n rounded half-up to ten places, in magnitude and sign |
| Amortization.DivisionLimit | loan-service/src/main/java/com/los/loan/service/LoanService.java:179-180 | once the power is accepted, the division of one by it is refused exactly for tenors from 134,217,728 on, at every rate |
| Amortization.LongTenorsRefused | loan-service/src/main/java/com/los/loan/service/LoanService.java:178-182 | at every rate `BigDecimal` refuses the power or the division for a tenor of 134,217,728 months or more |
| Amortization.OnePercentDiscountLimit | loan-service/src/main/java/com/los/loan/service/LoanService.java:178-182 | at 1% a month the discount factor exists exactly for the tenors 0 to 134,217,727 |
| Amortization.Annuity | loan-service/src/main/java/com/los/loan/service/LoanService.java:177-183 | a failing discount factor passes its error on; otherwise the annuity fails exactly when the factor is exactly one (a zero denominator), and then with division by zero; otherwise it is P·r over one minus the factor, rounded half-up to cents, in magnitude and sign |
| Amortization.MonthlyInstallment | loan-service/src/main/java/com/los/loan/service/LoanService.java:172-184 | a zero rate with a zero tenor fails; a zero rate otherwise gives principal/tenor rounded half-up to cents, a tie going away from zero, so tenor times the instalment is within half a tenor of cents of the principal; any other rate uses the annuity |
| Amortization.ZeroRateSpread | loan-service/src/main/java/com/los/loan/service/LoanService.java:173-174 | the rounded even split repays the principal to within half a cent per instalment |
| Amortization.PositiveRateDiscount | loan-service/src/main/java/com/los/loan/service/LoanService.java:178-182 | with a positive rate and tenor the discount factor fails exactly when `BigDecimal` refuses the power or the division, never by dividing by zero; otherwise it lies in [0, 1), so the annuity's denominator is positive |
| Amortization.PositiveRateAnnuityDefined | loan-service/src/main/java/com/los/loan/service/LoanService.java:177-183 | with a positive rate and tenor the annuity fails exactly when `BigDecimal` refuses the power or the division of the discount factor, and never by dividing by zero |
| Amortization.AnnuityMonotone | loan-service/src/main/java/com/los/loan/service/LoanService.java:177-183 | with a positive rate and tenor, whether the annuity is defined does not depend on the principal, and a larger principal never gives a smaller instalment |
| Text.NatToStringRoundTrip | credit-engine-service/src/main/java/com/los/credit/service/CreditEngineService.java:138 | the printed score reads back as the score |
| Text.HundredthsRoundTrip | credit-engine-service/src/main/java/com/los/credit/service/CreditEngineService.java:137 | the printed two-place DTI (`[-]digits.dd`) reads back as the same value |
| CreditEngine.AssumedDiscountFactor | credit-engine-service/src/main/java/com/los/credit/service/CreditEngineService.java:56-63 | the discount factor 1/1.01^24, rounded half-up to ten places, is 0.7875661274 |
| CreditEngine.AssumedInstallmentIsAnnuity | credit-engine-service/src/main/java/com/los/credit/service/CreditEngineService.java:52-63 | the assumed instalment is the annuity at 1% a month over 24 months, and that annuity never fails |
| CreditEngine.CalculateDti | credit-engine-service/src/main/java/com/los/credit/service/CreditEngineService.java:51-71 | the DTI is (debt + instalment)/income as a percentage, rounded half-up to two places, in magnitude and sign |
| CreditEngine.DtiAdjustment | credit-engine-service/src/main/java/com/los/credit/service/CreditEngineService.java:76-87 | the band lies in [−200, 100]; it is −200 exactly from 40.00 on and at least +50 exactly below 20.00 |
| CreditEngine.IncomeBonus | credit-engine-service/src/main/java/com/los/credit/service/CreditEngineService.java:89-94 | the bonus lies in [0, 100]; it is +100 exactly from 20,000,000 on and 0 exactly below 10,000,000 |
| CreditEngine.DebtPenalty | credit-engine-service/src/main/java/com/los/credit/service/CreditEngineService.java:96-101 | the penalty lies in [−100, 0]; it is −100 exactly when the debt exceeds the income, and 0 exactly when the debt is within both the income and half the income rounded to cents |
| CreditEngine.RawScore | credit-engine-service/src/main/java/com/los/credit/service/CreditEngineService.java:73-101 | the unclamped score always lies in [400, 900] |
| CreditEngine.CreditScore | credit-engine-service/src/main/java/com/los/credit/service/CreditEngineService.java:103-106 | the final score lies in [300, 850], and only the upper clamp can ever change it |
| CreditEngine.MakeDecision | credit-engine-service/src/main/java/com/los/credit/service/CreditEngineService.java:109-132 | REJECTED exactly when the DTI exceeds 40.00 or the score is below 500; APPROVED exactly when the DTI is below 20, the score is at least 750 and the income is at least 20,000,000; REVIEW otherwise |
| CreditEngine.GenerateRemarks | credit-engine-service/src/main/java/com/los/credit/service/CreditEngineService.java:134-157 | the remark starts with the DTI and score and ends with the verdict's note; a rejection cites the 40% threshold exactly when the DTI is above 40.00 and the score minimum exactly when it is not |
| CreditEngine.RejectionNotesDiffer | credit-engine-service/src/main/java/com/los/credit/service/CreditEngineService.java:144-150 | no remark ends in both rejection notes |
| CreditEngine.Assess | credit-engine-service/src/main/java/com/los/credit/service/CreditEngineService.java:23-30 | the check's DTI is the computed ratio and its score the clamped score of that ratio, income and debt, within [300, 850]; REJECTED exactly when the DTI is above 40.00 or the score is below 500, and a score-based rejection happens only at a DTI of exactly 40.00; APPROVED exactly for a DTI below 20 with an income of at least 20,000,000 |
| CreditEngine.PerformCreditCheck | credit-engine-service/src/main/java/com/los/credit/service/CreditEngineService.java:20-49 | fails exactly on a zero income; otherwise it echoes the request, reports the assessment's DTI, score and verdict, and the remark generated from them |
| CreditEngine.LowScoreOnlyFromTopBand | credit-engine-service/src/main/java/com/los/credit/service/CreditEngineService.java:73-116 | a score below 500 needs a DTI of at least 40.00, so the "score < 500" rejection fires only at a DTI of exactly 40.00 |
| CreditEngine.HighIncomeLowDtiScoresHigh | credit-engine-service/src/main/java/com/los/credit/service/CreditEngineService.java:73-123 | a DTI below 20 with an income of at least 20,000,000 always scores at least 750, so auto-approval depends on the DTI and income alone |
| CreditEngine.DtiAdjustmentNonIncreasing | credit-engine-service/src/main/java/com/los/credit/service/CreditEngineService.java:77-87 | the DTI band never rises as the DTI rises |
| CreditEngine.ScoreNonIncreasingInDti | credit-engine-service/src/main/java/com/los/credit/service/CreditEngineService.java:73-107 | a higher DTI never raises the score |
| CreditEngine.ScoreNonIncreasingInDebt | credit-engine-service/src/main/java/com/los/credit/service/CreditEngineService.java:96-104 | more existing debt never raises the score at a fixed DTI |
| CreditEngine.ScoreNonDecreasingInIncome | credit-engine-service/src/main/java/com/los/credit/service/CreditEngineService.java:89-104 | more income never lowers the score at a fixed DTI |
| CreditEngine.DecisionMonotone | credit-engine-service/src/main/java/com/los/credit/service/CreditEngineService.java:109-132 | a higher DTI with a lower score never gives a better verdict |
| CreditEngine.DtiNonDecreasingInDebt | credit-engine-service/src/main/java/com/los/credit/service/CreditEngineService.java:65-70 | with a positive income, more debt never lowers the DTI |
| CreditEngine.DtiNonDecreasingInRequested | credit-engine-service/src/main/java/com/los/credit/service/CreditEngineService.java:56-70 | with a positive income, a larger principal never lowers the DTI |
| CreditEngine.VerdictChain | credit-engine-service/src/main/java/com/los/credit/service/CreditEngineService.java:73-132 | a higher DTI with at least as much debt never gives a better verdict |
| CreditEngine.MoreDebtNeverImprovesDecision | credit-engine-service/src/main/java/com/los/credit/service/CreditEngineService.java:23-30 | adding existing debt never improves the verdict of a credit check |
| CreditEngine.LargerLoanNeverImprovesDecision | credit-engine-service/src/main/java/com/los/credit/service/CreditEngineService.java:23-30 | asking for more never improves the verdict of a credit check |
| CreditEngine.WorkedInstallment | credit-engine-service/src/main/java/com/los/credit/service/CreditEngineService.java:52-63 | 10,000,000 at 1% a month over 24 months gives an instalment of 470,734.72 |
| CreditEngine.WorkedExample | credit-engine-service/src/main/java/com/los/credit/service/CreditEngineService.java:23-30 | 10,000,000 requested with 500,000 of debt and a 5,000,000 income gives a DTI of 19.41, a score of 750 and REVIEW |
| LoanService.AllLevelsComplete | loan-service/src/main/java/com/los/loan/entity/Approval.java:45-49 | the three approval levels are all the levels there are |
| LoanService.ValidateLoanRequest | loan-service/src/main/java/com/los/loan/service/LoanService.java:162-170 | passes exactly when amount and tenor are both within their inclusive product ranges; the amount is reported before the tenor |
| LoanService.MonthlyRate | loan-service/src/main/java/com/los/loan/service/LoanService.java:40-42 | rounding twice to four places equals rounding the annual rate over 12 once, so the result is within half a ten-thousandth of a twelfth of the annual rate and never negative for a non-negative rate |
| LoanService.InitialApprovals | loan-service/src/main/java/com/los/loan/service/LoanService.java:186-195 | one checkpoint per level, each filed under its own level, PENDING, with no approver and no notes |
| LoanService.ApplyForLoan | loan-service/src/main/java/com/los/loan/service/LoanService.java:28-73 | an unknown product, an out-of-range amount (checked first) or an out-of-range tenor fails and creates nothing; in range, it succeeds exactly when the instalment is defined and stores a PENDING loan with no approved amount, an instalment on the requested amount less the down payment, the total as instalment times tenor, fresh PENDING checkpoints and a LOAN_APPLIED event |
| LoanService.ApplyForLoanPreservesValid | loan-service/src/main/java/com/los/loan/service/LoanService.java:49-66 | application keeps the book invariant: the new identity was unused, every loan has exactly the three checkpoints, approved amounts are consistent and records are settled |
| LoanService.ApplySucceedsInRange | loan-service/src/main/java/com/los/loan/service/LoanService.java:37-46 | with a non-negative product rate, an in-range application fails exactly when its tenor is zero, or when the monthly rate is positive and `BigDecimal` refuses the power or the division of the discount factor (at every positive rate from 134,217,728 months on, `Amortization.LongTenorsRefused`) |
| LoanService.ZeroTenorAnnuityFails | loan-service/src/main/java/com/los/loan/service/LoanService.java:177-183 | at a positive rate a zero tenor gives a discount factor of exactly one, so the annuity fails with division by zero |
| LoanService.RecordDecision | loan-service/src/main/java/com/los/loan/service/LoanService.java:85-88 | only the addressed checkpoint's decision, notes and approver change; every other checkpoint and every level is kept |
| LoanService.RecordDecisionsCommute | loan-service/src/main/java/com/los/loan/service/LoanService.java:85-88 | decisions recorded at two different levels commute |
| LoanService.ResolvedLoan | loan-service/src/main/java/com/los/loan/service/LoanService.java:90-102 | a rejection sets REJECTED with the notes as remarks; otherwise the loan becomes APPROVED for the requested amount exactly when every checkpoint is approved, and UNDER_REVIEW otherwise |
| LoanService.ApproveLoan | loan-service/src/main/java/com/los/loan/service/LoanService.java:75-106 | an unknown loan or level fails and changes nothing; otherwise the checkpoint is recorded, the loan is re-resolved, the matching event is published and nothing else changes; on a valid book it never fails for a known loan |
| LoanService.ApproveLoanPreservesValid | loan-service/src/main/java/com/los/loan/service/LoanService.java:75-106 | resolving a checkpoint keeps the book invariant |
| LoanService.RejectionOverridesOtherCheckpoints | loan-service/src/main/java/com/los/loan/service/LoanService.java:91-94 | a rejection rejects the loan whatever the other checkpoints hold |
| LoanService.ApprovedExactlyWhenAllCheckpointsApproved | loan-service/src/main/java/com/los/loan/service/LoanService.java:95-102 | after a non-rejecting resolution the loan is APPROVED, for the requested amount, exactly when all its checkpoints are approved, and UNDER_REVIEW otherwise |
| LoanService.ApproveLoanIgnoresStatus | loan-service/src/main/java/com/los/loan/service/LoanService.java:79-102 | the loan's status before a resolution has no effect on the result |
| LoanService.NonRejectingStep | loan-service/src/main/java/com/los/loan/service/LoanService.java:95-102 | one non-rejecting resolution records its checkpoint, recomputes the status from the checkpoints and keeps the remarks |
| LoanService.NonRejectingResolutionsCommute | loan-service/src/main/java/com/los/loan/service/LoanService.java:95-102 | two non-rejecting resolutions of different levels give the same checkpoints, status and remarks in either order; the approved amount and approval time are left out, because the first full approval sets them (lines 95-98) and nothing clears them, so they depend on the order |
| LoanService.ApprovalLeavesOtherPending | loan-service/src/main/java/com/los/loan/service/LoanService.java:95-101 | an approval that leaves another checkpoint pending keeps the loan UNDER_REVIEW and every other checkpoint unchanged |
| LoanService.FinalApproval | loan-service/src/main/java/com/los/loan/service/LoanService.java:95-99 | the approval that settles the last unapproved checkpoint approves the loan for the requested amount |
| LoanService.ThreeApprovalsInAnyOrder | loan-service/src/main/java/com/los/loan/service/LoanService.java:186-201 | approving the three fresh checkpoints in any order gives UNDER_REVIEW, UNDER_REVIEW, then APPROVED for the requested amount |
| LoanService.ProcessDisbursement | loan-service/src/main/java/com/los/loan/service/LoanService.java:203-216 | the record ends COMPLETED with the time stamped if the transfer completes and FAILED otherwise, and nothing else about it changes; PROCESSING is never entered |
| LoanService.DisburseLoan | loan-service/src/main/java/com/los/loan/service/LoanService.java:108-141 | an unknown or non-APPROVED loan fails and creates no record; otherwise one record is added whose amount is the requested amount less the down payment, and the loan becomes DISBURSED with LOAN_DISBURSED published whether the transfer completed or failed |
| LoanService.DisburseLoanPreservesValid | loan-service/src/main/java/com/los/loan/service/LoanService.java:108-141 | disbursing keeps the book invariant |
| LoanService.DisbursedLoanCanBePaidTwice | loan-service/src/main/java/com/los/loan/service/LoanService.java:75-136 | a disbursed loan whose checkpoints are all approved is re-approved by any further approval and then paid out a second time |
| LoanService.FailedTransferStillMarksDisbursed | loan-service/src/main/java/com/los/loan/service/LoanService.java:133-140 | an interrupted transfer leaves a FAILED record but the loan is DISBURSED and LOAN_DISBURSED is published |
| LoanService.ApproveLoanGuarded | loan-service/src/main/java/com/los/loan/service/LoanService.java:75-106 | the corrected resolution: only a PENDING or UNDER_REVIEW loan accepts a decision, otherwise it fails as closed; an open loan is resolved as before |
| LoanService.DisburseLoanCorrected | loan-service/src/main/java/com/los/loan/service/LoanService.java:108-141 | the corrected disbursement records the same payout, but the loan becomes DISBURSED with its event only when the transfer completes; a failed transfer leaves the loan and events as they were |
| LoanService.ApplyKeepsPaidOutOnce | loan-service/src/main/java/com/los/loan/service/LoanService.java:28-73 | a new application keeps every loan paid out once if DISBURSED and never otherwise |
| LoanService.GuardedApproveKeepsPaidOutOnce | loan-service/src/main/java/com/los/loan/service/LoanService.java:75-106 | the corrected resolution keeps that pay-out-once invariant |
| LoanService.CorrectedDisburseKeepsPaidOutOnce | loan-service/src/main/java/com/los/loan/service/LoanService.java:108-141 | the corrected disbursement keeps the pay-out-once invariant |
| LoanService.PaidOutOnceBoundsPayouts | loan-service/src/main/java/com/los/loan/service/LoanService.java:108-141 | under the corrected workflow no loan has more than one completed payout |
| CustomerService.ToEntity | customer-service/src/main/java/com/los/customer/mapper/CustomerMapper.java:13-18 | every supplied field is copied; a new customer is PENDING_VERIFICATION and not verified |
| CustomerService.UpdateEntity | customer-service/src/main/java/com/los/customer/mapper/CustomerMapper.java:22-27 | id, status and verification flag are kept; every other field comes from the request |
| CustomerService.Save | customer-service/src/main/java/com/los/customer/entity/Customer.java:26-32 | a save fails exactly when another row already holds the NIK or the email; otherwise the row is stored under its id |
| CustomerService.SaveKeepsUnique | customer-service/src/main/java/com/los/customer/entity/Customer.java:26-32 | an accepted save keeps all NIKs and emails distinct |
| CustomerService.CreateCustomer | customer-service/src/main/java/com/los/customer/service/CustomerService.java:32-55 | a taken NIK fails first, then a taken email; creation succeeds exactly when both are free, and stores the mapped customer under the next id with a CUSTOMER_CREATED event |
| CustomerService.CreateKeepsInvariants | customer-service/src/main/java/com/los/customer/service/CustomerService.java:36-48 | creation keeps identities consistent and NIKs and emails unique |
| CustomerService.GetCustomerById | customer-service/src/main/java/com/los/customer/service/CustomerService.java:57-63 | fails exactly for an unknown id and otherwise returns the stored customer, whose id is the one asked for |
| CustomerService.GetCustomerByNik | customer-service/src/main/java/com/los/customer/service/CustomerService.java:65-71 | reports not-found exactly when no customer holds the NIK; any customer returned holds the NIK and is the only such customer; with unique NIKs a held NIK is always found |
| CustomerService.CreatedCustomerIsFound | customer-service/src/main/java/com/los/customer/service/CustomerService.java:47-70 | a freshly created customer is found by its id and by its NIK |
| CustomerService.UpdateCustomer | customer-service/src/main/java/com/los/customer/service/CustomerService.java:81-97 | an unknown id fails with nothing sent; otherwise the update is refused exactly when the new NIK or email belongs to another customer, and the refusal carries the CUSTOMER_UPDATED already sent; on success only that customer changes, with a CUSTOMER_UPDATED event |
| CustomerService.UpdateKeepsInvariants | customer-service/src/main/java/com/los/customer/service/CustomerService.java:85-90 | an accepted update keeps identities consistent and NIKs and emails unique |
| CustomerService.UpdateReliesOnStoreForUniqueness | customer-service/src/main/java/com/los/customer/service/CustomerService.java:85-90 | the service's own update step would give two customers the same NIK; only the table's unique column refuses it, after CUSTOMER_UPDATED has been sent |
| CustomerService.VerifyCustomer | customer-service/src/main/java/com/los/customer/service/CustomerService.java:99-114 | an unknown id fails; otherwise the customer becomes verified and ACTIVE from any status, with a CUSTOMER_VERIFIED event |
| CustomerService.BlacklistCustomer | customer-service/src/main/java/com/los/customer/service/CustomerService.java:116-138 | an unknown id fails; otherwise the customer becomes BLACKLISTED with its verification flag kept, and the event carries "Reason: " and the reason |
| CustomerService.VerifyKeepsInvariants | customer-service/src/main/java/com/los/customer/service/CustomerService.java:103-108 | verification keeps identities consistent and NIKs and emails unique |
| CustomerService.BlacklistKeepsInvariants | customer-service/src/main/java/com/los/customer/service/CustomerService.java:120-124 | blacklisting keeps identities consistent and NIKs and emails unique |
| CustomerService.VerifyLiftsBlacklist | customer-service/src/main/java/com/los/customer/service/CustomerService.java:103-123 | a blacklisted customer who is verified again becomes ACTIVE and verified |
| CustomerService.VerifyIdempotent | customer-service/src/main/java/com/los/customer/service/CustomerService.java:103-108 | verifying twice leaves the customers as verifying once |

## Left out

- Kafka publishing is left out: events are appended to an outbox field of the state, in publication order. `EventConsumer` is not part of this model.
- Timestamps (`LocalDateTime.now()`) are an input `now`. The simulated id of a credit check response (`System.currentTimeMillis()`) and its check time are dropped.
- Database identities come from a counter in the state, as an IDENTITY column assigns them.
- `Thread.sleep` and the `InterruptedException` of `processDisbursement` become an input boolean, `completed`.
- Controllers, the gateway, request logging, the fallback controller and the exception handler are left out. They do HTTP routing and status-code mapping only.
- `DocumentService` and `OcrService` are left out. They handle file-system uploads, random names and a simulated OCR.
- The list endpoints (`getAllCustomers`, `getLoanById`, `getLoansByCustomerId`, `getAllLoans`) and the response mappers are left out. They are reads with no logic.
- Bean-validation annotations on the request DTOs are not enforced. The model accepts any integers and handles negative and zero values the way the arithmetic does.
- CreditEngine.CalculateDti: amounts are in cents. Request values with more than two decimal places, which `BigDecimal` would carry, are not represented.
- LoanService.ApplyForLoan: the product's `isActive` flag is carried but never consulted, as in the source. Product types are left out.
- LoanService.ApproveLoan: the checkpoint lookup by loan and level is a map lookup. The invariant `Valid` guarantees that each loan has exactly one checkpoint per level.
- LoanService.DisburseLoan: the `@OneToOne` join column `loan_id` of a disbursement may carry a unique key in the deployed schema. No schema is part of this model, so the model appends one record per call. With such a key, a second disbursement of a loan would fail at the save instead of paying out.
- LoanService.DisburseLoan: a null approved amount on an APPROVED loan would be a `NullPointerException`. It is modelled as `ApprovedAmountMissing`, which the invariant rules out.
- The loan statuses CANCELLED and the disbursement status PROCESSING exist but are never set. So no operation produces them.
- Verdicts are a datatype rather than the strings "APPROVED", "REJECTED" and "REVIEW".
- Remarks render the DTI as `BigDecimal.toString` prints a scale-2 value: an optional sign, the digits, a point and two digits. Exponent notation never arises at that scale.
- Amortization.DiscountFactor: the limits of `BigDecimal.pow` and `BigDecimal.divide` follow the JDK 21 class library; other releases compute powers differently and may refuse other tenors. The time and memory a power with hundreds of millions of digits would need, and an `OutOfMemoryError`, are not modelled.
- CustomerService.GetCustomerByNik: a query matching several rows fails as `NonUniqueResult`. This stands in for Spring Data's result-size exception; the unique NIK column makes it unreachable.

## Findings

| source | as written | input that shows it | evidently intended | confidence | as-written member | corrected member |
|---|---|---|---|---|---|---|
| loan-service/src/main/java/com/los/loan/service/LoanService.java:75-102 | `approveLoan` never looks at the loan's status, so a DISBURSED loan can be resolved again and returns to APPROVED | a DISBURSED loan with all three checkpoints APPROVED gets one more APPROVED resolution and is APPROVED again; `disburseLoan` with a completed transfer then adds a second completed payout, unless the schema has a unique key on the disbursement's `loan_id`, in which case that save fails | only a PENDING or UNDER_REVIEW loan accepts checkpoint decisions, so each loan is paid out at most once | not executed | LoanService.DisbursedLoanCanBePaidTwice | LoanService.ApproveLoanGuarded |
| loan-service/src/main/java/com/los/loan/service/LoanService.java:133-138 | after an interrupted transfer the record is FAILED, yet the loan is still set to DISBURSED and LOAN_DISBURSED is published | an APPROVED loan whose transfer is interrupted | the loan stays APPROVED after a failed transfer, so that the payout can be retried | not executed | LoanService.FailedTransferStillMarksDisbursed | LoanService.DisburseLoanCorrected |

`LoanService.PaidOutOnce` is the corrected workflow's invariant: every DISBURSED loan has exactly one completed payout and every other loan has none. `ApplyKeepsPaidOutOnce`, `GuardedApproveKeepsPaidOutOnce` and `CorrectedDisburseKeepsPaidOutOnce` prove that each corrected operation preserves it.
