/** The loan lifecycle (LoanService): application against a product, the three approval
    checkpoints, and disbursement.

    The repositories become one immutable `LoanBook`; each operation is a function from a
    book to a new book or an error. A failing call of the source rolls its transaction
    back, which here is simply a `Failure` that carries no book. Kafka messages are kept
    in the book as an event log. Amounts are in cents, product interest rates in
    hundredths of a percent, monthly rates in ten-thousandths; clocks are a `now` input. */
module LoanService {
  import opened Wrappers
  import opened Decimal
  import Amortization

  datatype LoanStatus = Pending | UnderReview | Approved | Rejected | Disbursed | Cancelled

  datatype ApprovalLevel = Surveyor | CreditAnalyst | Manager

  datatype ApprovalDecision = DecisionPending | DecisionApproved | DecisionRejected

  datatype DisbursementMethod = BankTransfer | Cash | Check

  datatype DisbursementStatus = DisbursementPending | Processing | Completed | Failed

  datatype LoanProduct = LoanProduct(
    id: int,
    productName: string,
    minAmount: int,
    maxAmount: int,
    minTenor: int,
    maxTenor: int,
    interestRate: int,
    isActive: bool)

  datatype Loan = Loan(
    id: nat,
    customerId: int,
    productId: int,
    requestedAmount: int,
    approvedAmount: Option<int>,
    tenor: int,
    downPayment: int,
    interestRate: int,
    monthlyInstallment: int,
    totalPayment: int,
    purpose: string,
    status: LoanStatus,
    remarks: Option<string>,
    createdAt: int,
    approvedAt: Option<int>,
    disbursedAt: Option<int>)

  datatype Approval = Approval(
    level: ApprovalLevel,
    approverName: Option<string>,
    decision: ApprovalDecision,
    notes: Option<string>)

  datatype Disbursement = Disbursement(
    loanId: nat,
    amount: int,
    disbursementMethod: DisbursementMethod,
    accountNumber: string,
    accountName: string,
    bankCode: string,
    status: DisbursementStatus,
    createdAt: int,
    disbursedAt: Option<int>)

  /** The messages sent to the `loan-events` and `disbursement-events` topics. */
  datatype LoanEvent = LoanApplied(loanId: nat) | LoanRejected(loanId: nat)
                     | LoanApproved(loanId: nat) | LoanDisbursed(loanId: nat)

  /** Every repository of the service: products, loans, each loan's checkpoints by level,
      the disbursement records in insertion order, the published events, and the next
      identity value. */
  datatype LoanBook = LoanBook(
    products: map<int, LoanProduct>,
    loans: map<nat, Loan>,
    approvals: map<nat, map<ApprovalLevel, Approval>>,
    disbursements: seq<Disbursement>,
    events: seq<LoanEvent>,
    nextLoanId: nat)

  datatype LoanApplicationRequest = LoanApplicationRequest(
    customerId: int,
    productId: int,
    requestedAmount: int,
    tenor: int,
    downPayment: int,
    purpose: string)

  datatype ApprovalRequest = ApprovalRequest(
    approverRole: ApprovalLevel,
    decision: ApprovalDecision,
    notes: Option<string>,
    approverName: Option<string>)

  datatype DisbursementRequest = DisbursementRequest(
    disbursementMethod: DisbursementMethod,
    accountNumber: string,
    accountName: string,
    bankCode: string)

  datatype LoanError =
    | ProductNotFound
    | AmountOutOfRange
    | TenorOutOfRange
    | InstallmentFailed(cause: Amortization.ArithmeticError)
    | LoanNotFound
    | ApprovalLevelNotFound
    | LoanNotApproved
    | ApprovedAmountMissing
    | LoanClosed

  const AllLevels: set<ApprovalLevel> := {Surveyor, CreditAnalyst, Manager}

  lemma AllLevelsComplete(l: ApprovalLevel)
    ensures l in AllLevels
  {
  }

  // ---------------------------------------------------------------------------------
  // Loan terms

  predicate InRange(x: int, lo: int, hi: int) {
    lo <= x <= hi
  }

  /** `validateLoanRequest`: the amount is checked first, then the tenor; both bounds of
      both ranges are inclusive. */
  function ValidateLoanRequest(req: LoanApplicationRequest, product: LoanProduct): (r: Option<LoanError>)
    ensures r == None <==> InRange(req.requestedAmount, product.minAmount, product.maxAmount)
                           && InRange(req.tenor, product.minTenor, product.maxTenor)
    ensures !InRange(req.requestedAmount, product.minAmount, product.maxAmount) ==> r == Some(AmountOutOfRange)
    ensures r == Some(TenorOutOfRange) <==>
              (InRange(req.requestedAmount, product.minAmount, product.maxAmount)
               && !InRange(req.tenor, product.minTenor, product.maxTenor))
  {
    if req.requestedAmount < product.minAmount || req.requestedAmount > product.maxAmount then
      Some(AmountOutOfRange)
    else if req.tenor < product.minTenor || req.tenor > product.maxTenor then
      Some(TenorOutOfRange)
    else
      None
  }

  /** The monthly rate: the annual percentage divided by 100 and then by 12, each
      rounded half-up to four places. The first rounding is exact for a two-place
      percentage, so the result is the ten-thousandth nearest to a twelfth of the
      annual rate. */
  function MonthlyRate(annualRate: int): (rate: int)
    ensures rate == DivHalfUp(annualRate, 12)
    ensures Abs(12 * rate - annualRate) <= 6
    ensures annualRate >= 0 ==> rate >= 0
  {
    var yearly := DivHalfUp(annualRate * 10_000, 100 * 100);
    DivHalfUpUnique(annualRate * 10_000, 100 * 100, annualRate);
    var rate := DivHalfUp(yearly, 12);
    MonthlyRateNearest(annualRate, rate);
    rate
  }

  lemma MonthlyRateNearest(annualRate: int, rate: int)
    requires rate == DivHalfUp(annualRate, 12)
    ensures Abs(12 * rate - annualRate) <= 6
  {
    assert 24 * Abs(rate) <= 2 * Abs(annualRate) + 12 < 24 * Abs(rate) + 24;
  }

  // ---------------------------------------------------------------------------------
  // Checkpoints

  /** `createInitialApprovals`: one undecided checkpoint per level. */
  function InitialApprovals(): (m: map<ApprovalLevel, Approval>)
    ensures m.Keys == AllLevels
    ensures forall l :: l in m ==> m[l].level == l && m[l].decision == DecisionPending
    ensures forall l :: l in m ==> m[l].approverName == None && m[l].notes == None
  {
    map l | l in AllLevels :: Approval(l, None, DecisionPending, None)
  }

  /** `isFullyApproved`: every checkpoint of the loan is approved. */
  predicate FullyApproved(m: map<ApprovalLevel, Approval>) {
    forall l :: l in m ==> m[l].decision == DecisionApproved
  }

  /** One checkpoint per level, each filed under its own level. */
  predicate WellFormedApprovals(m: map<ApprovalLevel, Approval>) {
    m.Keys == AllLevels && forall l :: l in m ==> m[l].level == l
  }

  // ---------------------------------------------------------------------------------
  // The book's invariant

  /** What every reachable book satisfies: identities below the counter, exactly the
      three checkpoints for every loan, an approved amount that is either unset or the
      requested amount (and set whenever the loan is approved), and disbursement records
      that belong to known loans and never stay PENDING or PROCESSING. */
  predicate Valid(book: LoanBook) {
    && IdentitiesValid(book)
    && CheckpointsValid(book)
    && AmountsConsistent(book)
    && RecordsValid(book)
  }

  predicate AmountsConsistent(book: LoanBook) {
    forall id :: id in book.loans ==> ConsistentAmount(book.loans[id])
  }

  predicate IdentitiesValid(book: LoanBook) {
    forall id :: id in book.loans ==> id < book.nextLoanId && book.loans[id].id == id
  }

  predicate CheckpointsValid(book: LoanBook) {
    && book.approvals.Keys == book.loans.Keys
    && (forall id :: id in book.approvals ==> WellFormedApprovals(book.approvals[id]))
  }

  predicate RecordsValid(book: LoanBook) {
    forall i :: 0 <= i < |book.disbursements| ==> SettledRecord(book, book.disbursements[i])
  }

  /** In a valid book every loan has a checkpoint at every level. */
  lemma EveryCheckpointPresent(book: LoanBook, loanId: nat, level: ApprovalLevel)
    ensures Valid(book) && loanId in book.loans ==> loanId in book.approvals && level in book.approvals[loanId]
  {
    AllLevelsComplete(level);
  }

  predicate ConsistentAmount(loan: Loan) {
    && (loan.approvedAmount == None || loan.approvedAmount == Some(loan.requestedAmount))
    && (loan.status == Approved ==> loan.approvedAmount.Some?)
  }

  predicate SettledRecord(book: LoanBook, d: Disbursement) {
    d.loanId in book.loans && (d.status == Completed || d.status == Failed)
  }

  lemma RecordsStaySettled(book: LoanBook, book': LoanBook, extra: seq<Disbursement>)
    requires RecordsValid(book)
    requires book.loans.Keys <= book'.loans.Keys
    requires book'.disbursements == book.disbursements + extra
    requires forall i :: 0 <= i < |extra| ==> SettledRecord(book', extra[i])
    ensures RecordsValid(book')
  {
    forall i | 0 <= i < |book'.disbursements|
      ensures SettledRecord(book', book'.disbursements[i])
    {
      if i < |book.disbursements| {
        assert book'.disbursements[i] == book.disbursements[i];
        assert SettledRecord(book, book.disbursements[i]);
      } else {
        assert book'.disbursements[i] == extra[i - |book.disbursements|];
      }
    }
  }

  // ---------------------------------------------------------------------------------
  // Application

  /** The loan `applyForLoan` builds, before it has been saved. */
  function NewLoan(id: nat, req: LoanApplicationRequest, product: LoanProduct,
                   installment: int, now: int): (loan: Loan)
    ensures loan.id == id && loan.status == Pending && loan.approvedAmount == None
    ensures loan.totalPayment == installment * req.tenor
  {
    Loan(id, req.customerId, req.productId, req.requestedAmount, None, req.tenor,
         req.downPayment, product.interestRate, installment, installment * req.tenor,
         req.purpose, Pending, None, now, None, None)
  }

  /** The installment of an application: the monthly rate of the product applied to the
      requested amount less the down payment, over the requested tenor. */
  function ApplicationInstallment(req: LoanApplicationRequest, product: LoanProduct): Result<int, Amortization.ArithmeticError> {
    Amortization.MonthlyInstallment(req.requestedAmount - req.downPayment, MonthlyRate(product.interestRate), req.tenor)
  }

  /** `applyForLoan`: look the product up, check the ranges, price the loan, then store it
      PENDING with one PENDING checkpoint per level and publish LOAN_APPLIED. */
  function ApplyForLoan(book: LoanBook, req: LoanApplicationRequest, now: int): (r: Result<LoanBook, LoanError>)
    ensures req.productId !in book.products ==> r == Failure(ProductNotFound)
    ensures req.productId in book.products ==>
      var product := book.products[req.productId];
      && (!InRange(req.requestedAmount, product.minAmount, product.maxAmount) ==> r == Failure(AmountOutOfRange))
      && ((InRange(req.requestedAmount, product.minAmount, product.maxAmount)
           && !InRange(req.tenor, product.minTenor, product.maxTenor)) ==> r == Failure(TenorOutOfRange))
      && (ValidateLoanRequest(req, product) == None ==>
            (r.Success? <==> ApplicationInstallment(req, product).Success?))
    ensures r.Success? ==>
      var id := book.nextLoanId;
      var product := book.products[req.productId];
      && ValidateLoanRequest(req, product) == None
      && r.value.nextLoanId == id + 1
      && r.value.products == book.products
      && id in r.value.loans
      && r.value.loans == book.loans[id := r.value.loans[id]]
      && r.value.loans[id] == NewLoan(id, req, product, ApplicationInstallment(req, product).value, now)
      && r.value.approvals == book.approvals[id := InitialApprovals()]
      && r.value.disbursements == book.disbursements
      && r.value.events == book.events + [LoanApplied(id)]
  {
    if req.productId !in book.products then Failure(ProductNotFound)
    else
      var product := book.products[req.productId];
      match ValidateLoanRequest(req, product)
      case Some(e) => Failure(e)
      case None =>
        match ApplicationInstallment(req, product)
        case Failure(e) => Failure(InstallmentFailed(e))
        case Success(installment) =>
          var id := book.nextLoanId;
          var book' := book.(loans := book.loans[id := NewLoan(id, req, product, installment, now)],
                             approvals := book.approvals[id := InitialApprovals()],
                             events := book.events + [LoanApplied(id)],
                             nextLoanId := id + 1);
          Success(book')
  }

  /** Applying keeps the book valid; the new identity was unused. */
  lemma ApplyForLoanPreservesValid(book: LoanBook, req: LoanApplicationRequest, now: int)
    requires Valid(book)
    ensures ApplyForLoan(book, req, now).Success? ==>
      book.nextLoanId !in book.loans && Valid(ApplyForLoan(book, req, now).value)
  {
    var r := ApplyForLoan(book, req, now);
    if r.Success? {
      var b, id := r.value, book.nextLoanId;
      assert IdentitiesValid(b) by {
        forall k | k in b.loans
          ensures k < b.nextLoanId && b.loans[k].id == k
        {
          if k != id {
            assert b.loans[k] == book.loans[k];
          }
        }
      }
      assert CheckpointsValid(b) by {
        forall k | k in b.approvals
          ensures WellFormedApprovals(b.approvals[k])
        {
          if k != id {
            assert b.approvals[k] == book.approvals[k];
          }
        }
      }
      forall k | k in b.loans
        ensures ConsistentAmount(b.loans[k])
      {
        if k != id {
          assert b.loans[k] == book.loans[k];
        }
      }
      RecordsStaySettled(book, b, []);
    }
  }

  /** With a non-negative product rate, an application inside the product's ranges fails
      exactly when its tenor is zero, or, at a positive monthly rate, when `BigDecimal`
      refuses the power or the division of the discount factor (from 134,217,728 months
      at 1%, `Amortization.OnePercentDiscountLimit`). */
  lemma ApplySucceedsInRange(book: LoanBook, req: LoanApplicationRequest, now: int)
    requires req.productId in book.products
    requires ValidateLoanRequest(req, book.products[req.productId]) == None
    requires book.products[req.productId].interestRate >= 0
    ensures var rate := MonthlyRate(book.products[req.productId].interestRate);
      ApplyForLoan(book, req, now).Success? <==>
        req.tenor != 0 && !(rate > 0 && Amortization.FactorRefused(rate, req.tenor))
  {
    var product := book.products[req.productId];
    var rate := MonthlyRate(product.interestRate);
    var principal := req.requestedAmount - req.downPayment;
    if rate > 0 && req.tenor > 0 {
      Amortization.PositiveRateAnnuityDefined(principal, rate, req.tenor);
    } else if rate > 0 && req.tenor == 0 {
      ZeroTenorAnnuityFails(principal, rate);
    }
  }

  /** A zero tenor at a nonzero rate gives a discount factor of exactly one, so the
      annuity divides by zero. */
  lemma ZeroTenorAnnuityFails(principal: int, rate: int)
    requires rate > 0
    ensures Amortization.Annuity(principal, rate, 0) == Failure(Amortization.DivisionByZero)
  {
    assert BitLength(1) == 1;
    assert !PowRefused(Amortization.RateScale + rate, Amortization.RateDigits, 0);
    DivHalfUpUnique(Amortization.DiscountScale, 1, Amortization.DiscountScale);
  }

  // ---------------------------------------------------------------------------------
  // Checkpoint resolution

  /** The loan after `approveLoan` has re-scanned its checkpoints `m`: a rejection
      rejects with the notes as remarks; otherwise the loan is approved for the
      requested amount when every checkpoint is approved, and under review if not. */
  function ResolvedLoan(loan: Loan, m: map<ApprovalLevel, Approval>, req: ApprovalRequest, now: int): (loan': Loan)
    ensures req.decision == DecisionRejected ==> loan'.status == Rejected && loan'.remarks == req.notes
    ensures req.decision != DecisionRejected ==> (loan'.status == Approved <==> FullyApproved(m))
    ensures req.decision != DecisionRejected ==> (loan'.status == UnderReview <==> !FullyApproved(m))
    ensures loan'.status == Approved ==> loan'.approvedAmount == Some(loan.requestedAmount)
    ensures loan'.status != Approved ==> loan'.approvedAmount == loan.approvedAmount
    ensures loan' == loan.(status := loan'.status, remarks := loan'.remarks,
                           approvedAmount := loan'.approvedAmount, approvedAt := loan'.approvedAt)
  {
    if req.decision == DecisionRejected then
      loan.(status := Rejected, remarks := req.notes)
    else if FullyApproved(m) then
      loan.(status := Approved, approvedAmount := Some(loan.requestedAmount), approvedAt := Some(now))
    else
      loan.(status := UnderReview)
  }

  /** The checkpoint update of `approveLoan`: the addressed level takes the request's
      decision, notes and approver; every other level, and every level's own name, is
      kept. */
  function RecordDecision(m: map<ApprovalLevel, Approval>, req: ApprovalRequest): (m': map<ApprovalLevel, Approval>)
    requires req.approverRole in m
    ensures m'.Keys == m.Keys
    ensures m'[req.approverRole].decision == req.decision
    ensures m'[req.approverRole].notes == req.notes && m'[req.approverRole].approverName == req.approverName
    ensures forall l :: l in m' ==> m'[l].level == m[l].level
    ensures forall l :: l in m && l != req.approverRole ==> m'[l] == m[l]
  {
    m[req.approverRole := m[req.approverRole].(decision := req.decision, notes := req.notes,
                                               approverName := req.approverName)]
  }

  /** Decisions recorded at two different levels commute. */
  lemma RecordDecisionsCommute(m: map<ApprovalLevel, Approval>, r1: ApprovalRequest, r2: ApprovalRequest)
    requires r1.approverRole in m && r2.approverRole in m && r1.approverRole != r2.approverRole
    ensures RecordDecision(RecordDecision(m, r1), r2) == RecordDecision(RecordDecision(m, r2), r1)
  {
  }

  /** The event `approveLoan` publishes, if any. */
  function ResolutionEvents(loanId: nat, loan': Loan, req: ApprovalRequest): seq<LoanEvent> {
    if req.decision == DecisionRejected then [LoanRejected(loanId)]
    else if loan'.status == Approved then [LoanApproved(loanId)]
    else []
  }

  /** `approveLoan`: overwrite the addressed checkpoint's decision, notes and approver,
      then recompute the loan's status from all of its checkpoints. The loan's current
      status is never looked at. */
  function ApproveLoan(book: LoanBook, loanId: nat, req: ApprovalRequest, now: int): (r: Result<LoanBook, LoanError>)
    ensures loanId !in book.loans ==> r == Failure(LoanNotFound)
    ensures loanId in book.loans && (loanId !in book.approvals || req.approverRole !in book.approvals[loanId])
            ==> r == Failure(ApprovalLevelNotFound)
    ensures r.Success? <==> loanId in book.loans && loanId in book.approvals && req.approverRole in book.approvals[loanId]
    ensures r.Success? ==>
      var old_m := book.approvals[loanId];
      var m := RecordDecision(old_m, req);
      var loan' := ResolvedLoan(book.loans[loanId], m, req, now);
      && r.value.approvals == book.approvals[loanId := m]
      && r.value.loans == book.loans[loanId := loan']
      && r.value.events == book.events + ResolutionEvents(loanId, loan', req)
      && r.value.products == book.products
      && r.value.disbursements == book.disbursements
      && r.value.nextLoanId == book.nextLoanId
    ensures Valid(book) && loanId in book.loans ==> r.Success?
  {
    EveryCheckpointPresent(book, loanId, req.approverRole);
    if loanId !in book.loans then Failure(LoanNotFound)
    else if loanId !in book.approvals || req.approverRole !in book.approvals[loanId] then
      Failure(ApprovalLevelNotFound)
    else
      var old_m := book.approvals[loanId];
      var m := RecordDecision(old_m, req);
      var loan' := ResolvedLoan(book.loans[loanId], m, req, now);
      var book' := book.(loans := book.loans[loanId := loan'],
                         approvals := book.approvals[loanId := m],
                         events := book.events + ResolutionEvents(loanId, loan', req));
      Success(book')
  }

  /** Replacing one existing loan and its checkpoints by well-formed ones, and appending
      settled records, keeps a book valid. */
  lemma ReplaceLoanPreservesValid(book: LoanBook, loanId: nat, loan': Loan, m: map<ApprovalLevel, Approval>,
                                  extra: seq<Disbursement>, book': LoanBook)
    requires Valid(book) && loanId in book.loans
    requires loan'.id == loanId && ConsistentAmount(loan') && WellFormedApprovals(m)
    requires book'.loans == book.loans[loanId := loan'] && book'.approvals == book.approvals[loanId := m]
    requires book'.nextLoanId == book.nextLoanId
    requires book'.disbursements == book.disbursements + extra
    requires forall i :: 0 <= i < |extra| ==> SettledRecord(book', extra[i])
    ensures Valid(book')
  {
    assert book'.loans.Keys == book.loans.Keys;
    ReplaceKeepsIdentities(book, loanId, loan', book');
    ReplaceKeepsCheckpoints(book, loanId, m, book');
    ReplaceKeepsAmounts(book, loanId, loan', book');
    RecordsStaySettled(book, book', extra);
  }

  lemma ReplaceKeepsIdentities(book: LoanBook, loanId: nat, loan': Loan, book': LoanBook)
    requires IdentitiesValid(book) && loanId in book.loans && loan'.id == loanId
    requires book'.loans == book.loans[loanId := loan'] && book'.nextLoanId == book.nextLoanId
    ensures IdentitiesValid(book')
  {
    forall k | k in book'.loans
      ensures k < book'.nextLoanId && book'.loans[k].id == k
    {
      if k != loanId {
        assert book'.loans[k] == book.loans[k];
      }
    }
  }

  lemma ReplaceKeepsCheckpoints(book: LoanBook, loanId: nat, m: map<ApprovalLevel, Approval>, book': LoanBook)
    requires CheckpointsValid(book) && loanId in book.loans && WellFormedApprovals(m)
    requires book'.loans.Keys == book.loans.Keys && book'.approvals == book.approvals[loanId := m]
    ensures CheckpointsValid(book')
  {
    assert loanId in book.approvals;
    assert book'.approvals.Keys == book.approvals.Keys;
    UpdateKeepsWellFormed(book.approvals, loanId, m, book'.approvals);
  }

  lemma UpdateKeepsWellFormed(approvals: map<nat, map<ApprovalLevel, Approval>>, loanId: nat,
                              m: map<ApprovalLevel, Approval>, updated: map<nat, map<ApprovalLevel, Approval>>)
    requires forall id :: id in approvals ==> WellFormedApprovals(approvals[id])
    requires WellFormedApprovals(m) && updated == approvals[loanId := m]
    ensures forall id :: id in updated ==> WellFormedApprovals(updated[id])
  {
  }

  lemma ReplaceKeepsAmounts(book: LoanBook, loanId: nat, loan': Loan, book': LoanBook)
    requires AmountsConsistent(book)
    requires ConsistentAmount(loan') && book'.loans == book.loans[loanId := loan']
    ensures AmountsConsistent(book')
  {
  }

  /** Resolving a checkpoint keeps the book valid. */
  lemma ApproveLoanPreservesValid(book: LoanBook, loanId: nat, req: ApprovalRequest, now: int)
    requires Valid(book)
    ensures ApproveLoan(book, loanId, req, now).Success? ==> Valid(ApproveLoan(book, loanId, req, now).value)
  {
    var r := ApproveLoan(book, loanId, req, now);
    if r.Success? {
      var old_m := book.approvals[loanId];
      var m := RecordDecision(old_m, req);
      var loan' := ResolvedLoan(book.loans[loanId], m, req, now);
      assert ConsistentAmount(book.loans[loanId]);
      ReplaceLoanPreservesValid(book, loanId, loan', m, [], r.value);
    }
  }

  /** A rejection rejects the loan, with the notes as remarks, whatever the other
      checkpoints hold and whatever the loan's status was. */
  lemma RejectionOverridesOtherCheckpoints(book: LoanBook, loanId: nat, req: ApprovalRequest, now: int)
    requires Valid(book) && loanId in book.loans
    requires req.decision == DecisionRejected
    ensures ApproveLoan(book, loanId, req, now).Success?
    ensures var loan' := ApproveLoan(book, loanId, req, now).value.loans[loanId];
      loan'.status == Rejected && loan'.remarks == req.notes
  {
  }

  /** Any other resolution approves the loan exactly when all three checkpoints are now
      approved, and leaves it under review otherwise. */
  lemma ApprovedExactlyWhenAllCheckpointsApproved(book: LoanBook, loanId: nat, req: ApprovalRequest, now: int)
    requires Valid(book) && loanId in book.loans
    requires req.decision != DecisionRejected
    ensures ApproveLoan(book, loanId, req, now).Success?
    ensures var book' := ApproveLoan(book, loanId, req, now).value;
      && book'.approvals[loanId].Keys == AllLevels
      && (book'.loans[loanId].status == Approved <==>
            forall l :: l in book'.approvals[loanId] ==> book'.approvals[loanId][l].decision == DecisionApproved)
      && (book'.loans[loanId].status == Approved ==>
            book'.loans[loanId].approvedAmount == Some(book.loans[loanId].requestedAmount))
      && (book'.loans[loanId].status != Approved ==> book'.loans[loanId].status == UnderReview)
  {
    EveryCheckpointPresent(book, loanId, req.approverRole);
    var book' := ApproveLoan(book, loanId, req, now).value;
    var m := book'.approvals[loanId];
    assert m.Keys == book.approvals[loanId].Keys;
    forall l: ApprovalLevel
      ensures l in m
    {
      EveryCheckpointPresent(book, loanId, l);
    }
  }

  /** The loan's status before a resolution makes no difference to the result: a
      REJECTED or DISBURSED loan is resolved exactly like a PENDING one. */
  lemma ApproveLoanIgnoresStatus(book: LoanBook, loanId: nat, status: LoanStatus, req: ApprovalRequest, now: int)
    requires loanId in book.loans
    ensures var other := book.(loans := book.loans[loanId := book.loans[loanId].(status := status)]);
      ApproveLoan(other, loanId, req, now) == ApproveLoan(book, loanId, req, now)
  {
    var other := book.(loans := book.loans[loanId := book.loans[loanId].(status := status)]);
    assert other.loans.Keys == book.loans.Keys;
    if ApproveLoan(book, loanId, req, now).Success? {
      assert other.loans[loanId := ApproveLoan(other, loanId, req, now).value.loans[loanId]]
          == book.loans[loanId := ApproveLoan(book, loanId, req, now).value.loans[loanId]];
    }
  }

  /** Two non-rejecting resolutions of different checkpoints give the same checkpoints,
      status and remarks in either order: the status is recomputed from a scan of all
      checkpoints, not from a counter. */
  lemma NonRejectingResolutionsCommute(book: LoanBook, loanId: nat, r1: ApprovalRequest, r2: ApprovalRequest,
                                        now1: int, now2: int)
    requires loanId in book.loans && loanId in book.approvals
    requires r1.approverRole in book.approvals[loanId] && r2.approverRole in book.approvals[loanId]
    requires r1.approverRole != r2.approverRole
    requires r1.decision != DecisionRejected && r2.decision != DecisionRejected
    ensures var b1 := ApproveLoan(ApproveLoan(book, loanId, r1, now1).value, loanId, r2, now2).value;
            var b2 := ApproveLoan(ApproveLoan(book, loanId, r2, now1).value, loanId, r1, now2).value;
      && b1.approvals == b2.approvals
      && b1.loans[loanId].status == b2.loans[loanId].status
      && b1.loans[loanId].remarks == b2.loans[loanId].remarks
  {
    var m := book.approvals[loanId];
    RecordDecisionsCommute(m, r1, r2);
    var m12 := RecordDecision(RecordDecision(m, r1), r2);
    NonRejectingStep(book, loanId, r1, now1);
    NonRejectingStep(book, loanId, r2, now1);
    var b1 := ApproveLoan(book, loanId, r1, now1).value;
    var b2 := ApproveLoan(book, loanId, r2, now1).value;
    NonRejectingStep(b1, loanId, r2, now2);
    NonRejectingStep(b2, loanId, r1, now2);
    assert book.approvals[loanId := RecordDecision(m, r1)][loanId := m12] == book.approvals[loanId := m12];
    assert book.approvals[loanId := RecordDecision(m, r2)][loanId := m12] == book.approvals[loanId := m12];
  }

  /** One non-rejecting resolution, seen from its checkpoints: the status becomes
      APPROVED or UNDER_REVIEW according to the recorded checkpoints, and the remarks
      are kept. */
  lemma NonRejectingStep(book: LoanBook, loanId: nat, req: ApprovalRequest, now: int)
    requires loanId in book.loans && loanId in book.approvals && req.approverRole in book.approvals[loanId]
    requires req.decision != DecisionRejected
    ensures ApproveLoan(book, loanId, req, now).Success?
    ensures var b := ApproveLoan(book, loanId, req, now).value;
      && b.approvals == book.approvals[loanId := RecordDecision(book.approvals[loanId], req)]
      && loanId in b.loans
      && b.loans[loanId].status == (if FullyApproved(b.approvals[loanId]) then Approved else UnderReview)
      && b.loans[loanId].remarks == book.loans[loanId].remarks
  {
  }

  /** Three distinct levels are all of them. */
  lemma OtherTwoLevels(a: ApprovalLevel, b: ApprovalLevel, c: ApprovalLevel, l: ApprovalLevel)
    requires a != b && b != c && a != c && l != c
    ensures l == a || l == b
  {
  }

  /** The checkpoints of one loan: present in the book, one per level. */
  predicate HasCheckpoints(book: LoanBook, loanId: nat) {
    loanId in book.loans && loanId in book.approvals && book.approvals[loanId].Keys == AllLevels
  }

  /** An approving resolution that leaves some other checkpoint pending keeps the loan
      under review, and leaves every other checkpoint as it was. */
  lemma ApprovalLeavesOtherPending(book: LoanBook, loanId: nat, req: ApprovalRequest, other: ApprovalLevel, now: int)
    requires HasCheckpoints(book, loanId) && req.decision == DecisionApproved
    requires other != req.approverRole && book.approvals[loanId][other].decision == DecisionPending
    ensures ApproveLoan(book, loanId, req, now).Success?
    ensures var b := ApproveLoan(book, loanId, req, now).value;
      && HasCheckpoints(b, loanId)
      && b.loans[loanId].status == UnderReview
      && b.loans[loanId].requestedAmount == book.loans[loanId].requestedAmount
      && b.approvals[loanId][req.approverRole].decision == DecisionApproved
      && (forall l :: l in AllLevels && l != req.approverRole ==> b.approvals[loanId][l] == book.approvals[loanId][l])
  {
    AllLevelsComplete(req.approverRole);
    var m := ApproveLoan(book, loanId, req, now).value.approvals[loanId];
    assert m[other].decision != DecisionApproved;
  }

  /** The approval that settles the last unapproved checkpoint approves the loan for the
      requested amount. */
  lemma FinalApproval(book: LoanBook, loanId: nat, req: ApprovalRequest, now: int)
    requires HasCheckpoints(book, loanId) && req.decision == DecisionApproved
    requires forall l :: l in AllLevels && l != req.approverRole ==> book.approvals[loanId][l].decision == DecisionApproved
    ensures ApproveLoan(book, loanId, req, now).Success?
    ensures var b := ApproveLoan(book, loanId, req, now).value;
      && loanId in b.loans
      && b.loans[loanId].status == Approved
      && b.loans[loanId].approvedAmount == Some(book.loans[loanId].requestedAmount)
  {
    AllLevelsComplete(req.approverRole);
  }

  /** Two approvals at distinct levels of an untouched loan keep it under review, with
      every level but the third approved. */
  lemma FirstTwoApprovals(book: LoanBook, loanId: nat, r1: ApprovalRequest, r2: ApprovalRequest,
                          third: ApprovalLevel, now: int)
    requires HasCheckpoints(book, loanId)
    requires forall l :: l in AllLevels ==> book.approvals[loanId][l].decision == DecisionPending
    requires r1.decision == DecisionApproved && r2.decision == DecisionApproved
    requires r1.approverRole != r2.approverRole && r2.approverRole != third && r1.approverRole != third
    ensures ApproveLoan(book, loanId, r1, now).Success?
    ensures var b1 := ApproveLoan(book, loanId, r1, now).value;
      && b1.loans[loanId].status == UnderReview
      && ApproveLoan(b1, loanId, r2, now).Success?
      && var b2 := ApproveLoan(b1, loanId, r2, now).value;
      && HasCheckpoints(b2, loanId)
      && b2.loans[loanId].status == UnderReview
      && b2.loans[loanId].requestedAmount == book.loans[loanId].requestedAmount
      && forall l :: l in AllLevels && l != third ==> b2.approvals[loanId][l].decision == DecisionApproved
  {
    AllLevelsComplete(third);
    ApprovalLeavesOtherPending(book, loanId, r1, third, now);
    var b1 := ApproveLoan(book, loanId, r1, now).value;
    ApprovalLeavesOtherPending(b1, loanId, r2, third, now);
    var b2 := ApproveLoan(b1, loanId, r2, now).value;
    forall l | l in AllLevels && l != third
      ensures b2.approvals[loanId][l].decision == DecisionApproved
    {
      OtherTwoLevels(r1.approverRole, r2.approverRole, third, l);
    }
  }

  /** Approving the three checkpoints of an untouched loan, in any order, keeps the loan
      under review after the first two and approves it for the requested amount after
      the third. */
  lemma ThreeApprovalsInAnyOrder(book: LoanBook, loanId: nat, r1: ApprovalRequest, r2: ApprovalRequest,
                                 r3: ApprovalRequest, now: int)
    requires HasCheckpoints(book, loanId)
    requires forall l :: l in AllLevels ==> book.approvals[loanId][l].decision == DecisionPending
    requires r1.decision == DecisionApproved && r2.decision == DecisionApproved && r3.decision == DecisionApproved
    requires r1.approverRole != r2.approverRole && r2.approverRole != r3.approverRole
    requires r1.approverRole != r3.approverRole
    ensures ApproveLoan(book, loanId, r1, now).Success?
    ensures var b1 := ApproveLoan(book, loanId, r1, now).value;
      && b1.loans[loanId].status == UnderReview
      && ApproveLoan(b1, loanId, r2, now).Success?
      && var b2 := ApproveLoan(b1, loanId, r2, now).value;
      && b2.loans[loanId].status == UnderReview
      && ApproveLoan(b2, loanId, r3, now).Success?
      && var b3 := ApproveLoan(b2, loanId, r3, now).value;
      && b3.loans[loanId].status == Approved
      && b3.loans[loanId].approvedAmount == Some(book.loans[loanId].requestedAmount)
  {
    FirstTwoApprovals(book, loanId, r1, r2, r3.approverRole, now);
    var b1 := ApproveLoan(book, loanId, r1, now).value;
    FinalApproval(ApproveLoan(b1, loanId, r2, now).value, loanId, r3, now);
  }

  // ---------------------------------------------------------------------------------
  // Disbursement

  /** The PENDING record `disburseLoan` first saves: the approved amount less the down
      payment, to the requested account. */
  function NewDisbursement(loanId: nat, amount: int, req: DisbursementRequest, now: int): Disbursement {
    Disbursement(loanId, amount, req.disbursementMethod, req.accountNumber, req.accountName,
                 req.bankCode, DisbursementPending, now, None)
  }

  /** `processDisbursement`: the simulated transfer either completes, stamping the time,
      or is interrupted and fails; nothing else about the record changes. PROCESSING is
      never entered. */
  function ProcessDisbursement(d: Disbursement, completed: bool, now: int): (d': Disbursement)
    ensures d'.status == (if completed then Completed else Failed)
    ensures d'.disbursedAt == (if completed then Some(now) else d.disbursedAt)
    ensures d' == d.(status := d'.status, disbursedAt := d'.disbursedAt)
  {
    if completed then d.(status := Completed, disbursedAt := Some(now))
    else d.(status := Failed)
  }

  /** The record a successful `disburseLoan` leaves behind. */
  function PayoutRecord(loan: Loan, loanId: nat, req: DisbursementRequest, completed: bool, now: int): Disbursement
    requires loan.approvedAmount.Some?
  {
    ProcessDisbursement(NewDisbursement(loanId, loan.approvedAmount.value - loan.downPayment, req, now), completed, now)
  }

  /** `disburseLoan`: only an APPROVED loan is paid out. The record ends COMPLETED or
      FAILED according to the transfer, but the loan becomes DISBURSED, and
      LOAN_DISBURSED is published, either way. */
  function DisburseLoan(book: LoanBook, loanId: nat, req: DisbursementRequest, completed: bool, now: int)
    : (r: Result<LoanBook, LoanError>)
    ensures loanId !in book.loans ==> r == Failure(LoanNotFound)
    ensures loanId in book.loans && book.loans[loanId].status != Approved ==> r == Failure(LoanNotApproved)
    ensures r.Success? ==>
      var loan := book.loans[loanId];
      && loan.status == Approved && loan.approvedAmount.Some?
      && r.value.disbursements == book.disbursements + [PayoutRecord(loan, loanId, req, completed, now)]
      && r.value.loans == book.loans[loanId := loan.(status := Disbursed, disbursedAt := Some(now))]
      && r.value.events == book.events + [LoanDisbursed(loanId)]
      && r.value.approvals == book.approvals
      && r.value.products == book.products
      && r.value.nextLoanId == book.nextLoanId
    ensures Valid(book) && loanId in book.loans ==> (r.Success? <==> book.loans[loanId].status == Approved)
    ensures Valid(book) && r.Success? ==>
      var loan := book.loans[loanId];
      PayoutRecord(loan, loanId, req, completed, now).amount == loan.requestedAmount - loan.downPayment
  {
    if loanId !in book.loans then Failure(LoanNotFound)
    else
      var loan := book.loans[loanId];
      if loan.status != Approved then Failure(LoanNotApproved)
      else if loan.approvedAmount.None? then Failure(ApprovedAmountMissing)
      else
        var record := PayoutRecord(loan, loanId, req, completed, now);
        Success(book.(disbursements := book.disbursements + [record],
                      loans := book.loans[loanId := loan.(status := Disbursed, disbursedAt := Some(now))],
                      events := book.events + [LoanDisbursed(loanId)]))
  }

  /** Disbursing keeps the book valid. */
  lemma DisburseLoanPreservesValid(book: LoanBook, loanId: nat, req: DisbursementRequest, completed: bool, now: int)
    requires Valid(book)
    ensures DisburseLoan(book, loanId, req, completed, now).Success? ==>
      Valid(DisburseLoan(book, loanId, req, completed, now).value)
  {
    var r := DisburseLoan(book, loanId, req, completed, now);
    if r.Success? {
      var loan := book.loans[loanId];
      var m := book.approvals[loanId];
      assert book.approvals[loanId := m] == book.approvals;
      ReplaceLoanPreservesValid(book, loanId, loan.(status := Disbursed, disbursedAt := Some(now)), m,
                                [PayoutRecord(loan, loanId, req, completed, now)], r.value);
    }
  }

  // ---------------------------------------------------------------------------------
  // Payouts per loan

  /** The number of COMPLETED disbursement records of a loan. */
  function CompletedPayouts(ds: seq<Disbursement>, loanId: nat): (n: nat)
    ensures n <= |ds|
  {
    if |ds| == 0 then 0
    else
      var last := ds[|ds| - 1];
      CompletedPayouts(ds[..|ds| - 1], loanId) + (if last.loanId == loanId && last.status == Completed then 1 else 0)
  }

  lemma CompletedPayoutsAppend(ds: seq<Disbursement>, d: Disbursement, loanId: nat)
    ensures CompletedPayouts(ds + [d], loanId)
         == CompletedPayouts(ds, loanId) + (if d.loanId == loanId && d.status == Completed then 1 else 0)
  {
    assert (ds + [d])[..|ds|] == ds;
  }

  lemma {:induction false} NoRecordsNoPayouts(ds: seq<Disbursement>, loanId: nat)
    requires forall i :: 0 <= i < |ds| ==> ds[i].loanId != loanId
    ensures CompletedPayouts(ds, loanId) == 0
  {
    if |ds| > 0 {
      NoRecordsNoPayouts(ds[..|ds| - 1], loanId);
    }
  }

  /** As written, a DISBURSED loan whose checkpoints are all approved is approved again by
      any further approval, and can then be paid out once more: a loan already paid out
      once ends up with two completed payouts. */
  lemma DisbursedLoanCanBePaidTwice(book: LoanBook, loanId: nat, req: ApprovalRequest,
                                    payout: DisbursementRequest, now1: int, now2: int)
    requires HasCheckpoints(book, loanId)
    requires book.loans[loanId].status == Disbursed
    requires FullyApproved(book.approvals[loanId])
    requires CompletedPayouts(book.disbursements, loanId) >= 1
    requires req.decision == DecisionApproved
    ensures ApproveLoan(book, loanId, req, now1).Success?
    ensures var b1 := ApproveLoan(book, loanId, req, now1).value;
      && b1.loans[loanId].status == Approved
      && DisburseLoan(b1, loanId, payout, true, now2).Success?
      && CompletedPayouts(DisburseLoan(b1, loanId, payout, true, now2).value.disbursements, loanId) >= 2
  {
    AllLevelsComplete(req.approverRole);
    var b1 := ApproveLoan(book, loanId, req, now1).value;
    assert b1.disbursements == book.disbursements;
    CompletedPayoutsAppend(b1.disbursements, PayoutRecord(b1.loans[loanId], loanId, payout, true, now2), loanId);
  }

  /** As written, an interrupted transfer leaves a FAILED record yet still marks the loan
      DISBURSED and publishes LOAN_DISBURSED. */
  lemma FailedTransferStillMarksDisbursed(book: LoanBook, loanId: nat, payout: DisbursementRequest, now: int)
    requires Valid(book) && loanId in book.loans && book.loans[loanId].status == Approved
    ensures DisburseLoan(book, loanId, payout, false, now).Success?
    ensures var b := DisburseLoan(book, loanId, payout, false, now).value;
      && b.loans[loanId].status == Disbursed
      && b.disbursements[|b.disbursements| - 1].status == Failed
      && b.events[|b.events| - 1] == LoanDisbursed(loanId)
  {
  }

  // ---------------------------------------------------------------------------------
  // Corrected workflow

  /** Corrected resolution: a checkpoint can only be resolved while the loan is PENDING
      or UNDER_REVIEW; a decided, disbursed or cancelled loan is closed. */
  function ApproveLoanGuarded(book: LoanBook, loanId: nat, req: ApprovalRequest, now: int): (r: Result<LoanBook, LoanError>)
    ensures loanId !in book.loans ==> r == Failure(LoanNotFound)
    ensures loanId in book.loans && book.loans[loanId].status != Pending && book.loans[loanId].status != UnderReview
            ==> r == Failure(LoanClosed)
    ensures loanId in book.loans && (book.loans[loanId].status == Pending || book.loans[loanId].status == UnderReview)
            ==> r == ApproveLoan(book, loanId, req, now)
  {
    if loanId !in book.loans then Failure(LoanNotFound)
    else if book.loans[loanId].status != Pending && book.loans[loanId].status != UnderReview then Failure(LoanClosed)
    else ApproveLoan(book, loanId, req, now)
  }

  /** Corrected disbursement: the loan becomes DISBURSED, and LOAN_DISBURSED is
      published, only when the transfer completes; a failed transfer is recorded and the
      loan stays APPROVED. */
  function DisburseLoanCorrected(book: LoanBook, loanId: nat, req: DisbursementRequest, completed: bool, now: int)
    : (r: Result<LoanBook, LoanError>)
    ensures r.Failure? <==> DisburseLoan(book, loanId, req, completed, now).Failure?
    ensures r.Success? ==> r.value.disbursements == DisburseLoan(book, loanId, req, completed, now).value.disbursements
    ensures r.Success? ==> loanId in r.value.loans && (r.value.loans[loanId].status == Disbursed <==> completed)
    ensures r.Success? && completed ==> r.value == DisburseLoan(book, loanId, req, completed, now).value
    ensures r.Success? && !completed ==> r.value.loans == book.loans && r.value.events == book.events
  {
    match DisburseLoan(book, loanId, req, completed, now)
    case Failure(e) => Failure(e)
    case Success(b) =>
      if completed then Success(b)
      else Success(b.(loans := book.loans, events := book.events))
  }

  /** Every loan has exactly one completed payout if it is DISBURSED and none otherwise. */
  predicate PayoutsMatchStatus(book: LoanBook) {
    forall id :: id in book.loans ==>
      CompletedPayouts(book.disbursements, id) == if book.loans[id].status == Disbursed then 1 else 0
  }

  /** The pay-out-once invariant of the corrected workflow. */
  predicate PaidOutOnce(book: LoanBook) {
    Valid(book) && PayoutsMatchStatus(book)
  }

  /** Replacing one loan by another that is not DISBURSED, when the old one was not either
      and no payout is recorded, keeps payouts matching statuses. */
  lemma ReplaceUndisbursedKeepsPayouts(book: LoanBook, b: LoanBook, loanId: nat, loan': Loan)
    requires PayoutsMatchStatus(book) && loanId in book.loans
    requires book.loans[loanId].status != Disbursed && loan'.status != Disbursed
    requires b.loans == book.loans[loanId := loan'] && b.disbursements == book.disbursements
    ensures PayoutsMatchStatus(b)
  {
    forall id | id in b.loans
      ensures CompletedPayouts(b.disbursements, id) == if b.loans[id].status == Disbursed then 1 else 0
    {
      if id != loanId {
        assert b.loans[id] == book.loans[id];
      }
    }
  }

  lemma ApplyKeepsPaidOutOnce(book: LoanBook, req: LoanApplicationRequest, now: int)
    requires PaidOutOnce(book)
    ensures ApplyForLoan(book, req, now).Success? ==> PaidOutOnce(ApplyForLoan(book, req, now).value)
  {
    var r := ApplyForLoan(book, req, now);
    if r.Success? {
      ApplyForLoanPreservesValid(book, req, now);
      var id := book.nextLoanId;
      forall i | 0 <= i < |book.disbursements|
        ensures book.disbursements[i].loanId != id
      {
        assert SettledRecord(book, book.disbursements[i]);
      }
      NoRecordsNoPayouts(book.disbursements, id);
    }
  }

  lemma GuardedApproveKeepsPaidOutOnce(book: LoanBook, loanId: nat, req: ApprovalRequest, now: int)
    requires PaidOutOnce(book)
    ensures ApproveLoanGuarded(book, loanId, req, now).Success? ==>
      PaidOutOnce(ApproveLoanGuarded(book, loanId, req, now).value)
  {
    var r := ApproveLoanGuarded(book, loanId, req, now);
    if r.Success? {
      assert r == ApproveLoan(book, loanId, req, now);
      ApproveLoanPreservesValid(book, loanId, req, now);
      var m := RecordDecision(book.approvals[loanId], req);
      var loan' := ResolvedLoan(book.loans[loanId], m, req, now);
      assert loan'.status != Disbursed;
      ReplaceUndisbursedKeepsPayouts(book, r.value, loanId, loan');
    }
  }

  lemma CorrectedDisburseKeepsValid(book: LoanBook, loanId: nat, req: DisbursementRequest, completed: bool, now: int)
    requires Valid(book)
    ensures DisburseLoanCorrected(book, loanId, req, completed, now).Success? ==>
      Valid(DisburseLoanCorrected(book, loanId, req, completed, now).value)
  {
    var r := DisburseLoanCorrected(book, loanId, req, completed, now);
    if r.Success? {
      var loan := book.loans[loanId];
      var record := PayoutRecord(loan, loanId, req, completed, now);
      if completed {
        DisburseLoanPreservesValid(book, loanId, req, completed, now);
      } else {
        assert book.approvals[loanId := book.approvals[loanId]] == book.approvals;
        assert book.loans[loanId := loan] == book.loans;
        ReplaceLoanPreservesValid(book, loanId, loan, book.approvals[loanId], [record], r.value);
      }
    }
  }

  lemma CorrectedDisburseKeepsPaidOutOnce(book: LoanBook, loanId: nat, req: DisbursementRequest, completed: bool, now: int)
    requires PaidOutOnce(book)
    ensures DisburseLoanCorrected(book, loanId, req, completed, now).Success? ==>
      PaidOutOnce(DisburseLoanCorrected(book, loanId, req, completed, now).value)
  {
    var r := DisburseLoanCorrected(book, loanId, req, completed, now);
    if r.Success? {
      CorrectedDisburseKeepsValid(book, loanId, req, completed, now);
      var b := r.value;
      var record := PayoutRecord(book.loans[loanId], loanId, req, completed, now);
      forall id | id in b.loans
        ensures CompletedPayouts(b.disbursements, id) == if b.loans[id].status == Disbursed then 1 else 0
      {
        CompletedPayoutsAppend(book.disbursements, record, id);
        if id != loanId {
          assert b.loans[id] == book.loans[id];
        }
      }
    }
  }

  /** Under the corrected workflow no loan is ever paid out twice. */
  lemma PaidOutOnceBoundsPayouts(book: LoanBook, loanId: nat)
    requires PaidOutOnce(book) && loanId in book.loans
    ensures CompletedPayouts(book.disbursements, loanId) <= 1
  {
  }
}
