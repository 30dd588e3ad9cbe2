/** The credit decisioning engine (CreditEngineService): a pure function from a requested
    principal, a monthly income and an existing monthly debt to a debt-to-income ratio, a
    synthetic score, a verdict and a remark.

    Amounts are in cents; the DTI ratio is in hundredths of a percent (19.41% is 1941). */
module CreditEngine {
  import opened Wrappers
  import opened Decimal
  import opened Text
  import Amortization

  datatype CreditCheckRequest = CreditCheckRequest(
    customerId: int,
    loanId: int,
    requestedAmount: int,
    monthlyIncome: int,
    existingDebt: int)

  datatype Decision = Approved | Rejected | Review

  /** The response without its simulated id and check timestamp. */
  datatype CreditCheckResponse = CreditCheckResponse(
    customerId: int,
    loanId: int,
    monthlyIncome: int,
    existingDebt: int,
    requestedAmount: int,
    dtiRatio: int,
    creditScore: int,
    decision: Decision,
    remarks: string)

  /** What a credit check derives from a request, before the remark: the DTI, the score
      computed from it, and the verdict computed from both. */
  datatype Assessment = Assessment(dtiRatio: int, creditScore: int, decision: Decision)

  /** Dividing by a zero monthly income raises an `ArithmeticException`. */
  datatype CreditError = ZeroMonthlyIncome

  /** The assumed loan: 1% per month (0.01 = 100 ten-thousandths) over 24 months. */
  const AssumedMonthlyRate: int := 100
  const AssumedTenor: nat := 24

  /** DTI thresholds, in hundredths of a percent. */
  const AutoRejectDti: int := 4000
  const ReviewDti: int := 3000

  /** Income thresholds, in cents: 20,000,000 and 10,000,000. */
  const HighIncome: int := 2_000_000_000
  const MiddleIncome: int := 1_000_000_000

  const BaseScore: int := 700
  const MinScore: int := 300
  const MaxScore: int := 850
  const MinimumScore: int := 500
  const AutoApproveScore: int := 750

  const ApprovedNote: string := "Low risk profile. Auto-approved."
  const DtiRejectedNote: string := "DTI ratio exceeds maximum threshold (40%)."
  const ScoreRejectedNote: string := "Credit score below minimum requirement."
  const ReviewNote: string := "Manual review required. Medium risk profile."

  /** The discount factor of the assumed loan, 1 / 1.01^24 rounded half-up to ten places
      (0.7875661274), in units of 10^-10. */
  const AssumedDiscount: int := 7_875_661_274

  /** The discount factor of the assumed loan is the constant above. `new BigDecimal("0.01")`
      has scale two where the loan service's rates have four; neither the power's value nor,
      at 24 months, whether `BigDecimal` accepts the power and the division depends on that. */
  lemma AssumedDiscountFactor()
    ensures Amortization.DiscountFactor(AssumedMonthlyRate, AssumedTenor) == Success(AssumedDiscount)
  {
    Amortization.OnePercentDiscountLimit(AssumedTenor);
    AssumedPowers();
  }

  /** 1.01^24 and 1^24 at scale four, as unscaled integers. */
  lemma AssumedPowers()
    ensures Pow(10_100, 24) == 1269734648531914468903714880493455422104626762401000000000000000000000000000000000000000000000000
    ensures Pow(10_000, 24) == 1000000000000000000000000000000000000000000000000000000000000000000000000000000000000000000000000
  {
    assert Pow(10_100, 3) == 1030301000000;
    PowAdd(10_100, 3, 3);
    PowAdd(10_100, 6, 6);
    PowAdd(10_100, 12, 12);
    assert Pow(10_000, 3) == 1000000000000;
    PowAdd(10_000, 3, 3);
    PowAdd(10_000, 6, 6);
    PowAdd(10_000, 12, 12);
  }

  /** The installment of the assumed loan on the requested principal: the annuity formula
      with the discount factor already evaluated. */
  function AssumedInstallment(requested: int): int {
    DivHalfUp(requested * AssumedMonthlyRate * 1_000_000, Amortization.DiscountScale - AssumedDiscount)
  }

  /** The assumed installment is the annuity of the requested principal at 1% a month over
      24 months, which never fails. */
  lemma AssumedInstallmentIsAnnuity(requested: int)
    ensures Amortization.Annuity(requested, AssumedMonthlyRate, AssumedTenor) == Success(AssumedInstallment(requested))
  {
    AssumedDiscountFactor();
  }

  /** `calculateDTI`: (debt + installment) / income rounded half-up to four places, times
      100 — a two-place percentage, which the final `setScale(2)` leaves unchanged. */
  function CalculateDti(requested: int, income: int, debt: int): (dti: int)
    requires income != 0
    ensures IsHalfUpQuotient(dti, (debt + AssumedInstallment(requested)) * 10_000, income)
  {
    DivHalfUp((debt + AssumedInstallment(requested)) * 10_000, income)
  }

  /** The DTI band: +100 under 10%, +50 under 20%, +20 under 30%, −50 under 40%,
      −200 from 40% on (strict comparisons). */
  function DtiAdjustment(dti: int): (adjustment: int)
    ensures -200 <= adjustment <= 100
    ensures adjustment == -200 <==> dti >= AutoRejectDti
    ensures adjustment >= 50 <==> dti < 2000
  {
    if dti < 1000 then 100
    else if dti < 2000 then 50
    else if dti < 3000 then 20
    else if dti < AutoRejectDti then -50
    else -200
  }

  /** +100 from 20,000,000 a month, +50 from 10,000,000, else nothing. */
  function IncomeBonus(income: int): (bonus: int)
    ensures 0 <= bonus <= 100
    ensures bonus == 100 <==> income >= HighIncome
    ensures bonus == 0 <==> income < MiddleIncome
  {
    if income >= HighIncome then 100
    else if income >= MiddleIncome then 50
    else 0
  }

  /** −100 when the debt exceeds the income, else −50 when it exceeds half the income
      (rounded half-up to cents), else nothing. */
  function DebtPenalty(debt: int, income: int): (penalty: int)
    ensures -100 <= penalty <= 0
    ensures penalty == -100 <==> debt > income
    ensures penalty == 0 <==> debt <= DivHalfUp(income, 2) && debt <= income
  {
    if debt > income then -100
    else if debt > DivHalfUp(income, 2) then -50
    else 0
  }

  /** The score before clamping. */
  function RawScore(dti: int, income: int, debt: int): (score: int)
    ensures 400 <= score <= 900
  {
    BaseScore + DtiAdjustment(dti) + IncomeBonus(income) + DebtPenalty(debt, income)
  }

  /** `calculateCreditScore`: the raw score clamped to [300, 850]. The raw score never
      falls below 400, so only the upper bound ever takes effect. */
  function CreditScore(dti: int, income: int, debt: int): (score: int)
    ensures MinScore <= score <= MaxScore
    ensures score == if RawScore(dti, income, debt) > MaxScore then MaxScore else RawScore(dti, income, debt)
  {
    var raw := RawScore(dti, income, debt);
    var capped := if raw < MaxScore then raw else MaxScore;
    if capped > MinScore then capped else MinScore
  }

  /** `makeDecision`: the rules are checked in priority order, but the verdict they give
      has an order-free description. */
  function MakeDecision(dti: int, score: int, income: int): (decision: Decision)
    ensures decision == Rejected <==> dti > AutoRejectDti || score < MinimumScore
    ensures decision == Approved <==> dti < 2000 && score >= AutoApproveScore && income >= HighIncome
  {
    if dti > AutoRejectDti then Rejected
    else if score < MinimumScore then Rejected
    else if dti < 2000 && score >= AutoApproveScore && income >= HighIncome then Approved
    else if dti > ReviewDti || score < 650 then Review
    else Review
  }

  predicate EndsWith(s: string, suffix: string) {
    |suffix| <= |s| && s[|s| - |suffix|..] == suffix
  }

  function RemarksPrefix(dti: int, score: int): string {
    "DTI Ratio: " + HundredthsToString(dti) + "%. " + "Credit Score: " + IntToString(score) + ". "
  }

  /** `generateRemarks`: the DTI and score, then the verdict's explanation; a rejection
      cites the 40% threshold exactly when the DTI is above it, else the score minimum. */
  function GenerateRemarks(dti: int, score: int, decision: Decision): (remarks: string)
    ensures |RemarksPrefix(dti, score)| <= |remarks|
    ensures remarks[..|RemarksPrefix(dti, score)|] == RemarksPrefix(dti, score)
    ensures decision == Approved ==> EndsWith(remarks, ApprovedNote)
    ensures decision == Review ==> EndsWith(remarks, ReviewNote)
    ensures decision == Rejected ==> (EndsWith(remarks, DtiRejectedNote) <==> dti > AutoRejectDti)
    ensures decision == Rejected ==> (EndsWith(remarks, ScoreRejectedNote) <==> dti <= AutoRejectDti)
  {
    var prefix := RemarksPrefix(dti, score);
    var note :=
      match decision
      case Approved => ApprovedNote
      case Rejected => if dti > AutoRejectDti then DtiRejectedNote else ScoreRejectedNote
      case Review => ReviewNote;
    var remarks := prefix + note;
    assert remarks[|remarks| - |note|..] == note;
    RejectionNotesDiffer(remarks);
    remarks
  }

  /** A remark cannot end in both rejection explanations. */
  lemma RejectionNotesDiffer(s: string)
    ensures !(EndsWith(s, DtiRejectedNote) && EndsWith(s, ScoreRejectedNote))
  {
    if EndsWith(s, DtiRejectedNote) {
      assert s[|s| - 2] == DtiRejectedNote[|DtiRejectedNote| - 2] == ')';
      assert ScoreRejectedNote[|ScoreRejectedNote| - 2] == 't';
    }
  }

  /** The DTI, score and verdict of `performCreditCheck`. */
  function Assess(requested: int, income: int, debt: int): (a: Assessment)
    requires income != 0
    ensures a.dtiRatio == CalculateDti(requested, income, debt)
    ensures a.creditScore == CreditScore(a.dtiRatio, income, debt)
    ensures MinScore <= a.creditScore <= MaxScore
    ensures a.decision == Rejected <==> a.dtiRatio > AutoRejectDti || a.creditScore < MinimumScore
    ensures a.dtiRatio > AutoRejectDti ==> a.decision == Rejected
    ensures a.creditScore < MinimumScore ==> a.decision == Rejected
    ensures a.decision == Rejected && a.dtiRatio <= AutoRejectDti ==> a.dtiRatio == AutoRejectDti
    ensures a.decision == Approved <==> a.dtiRatio < 2000 && income >= HighIncome
  {
    var dti := CalculateDti(requested, income, debt);
    var score := CreditScore(dti, income, debt);
    LowScoreOnlyFromTopBand(dti, income, debt);
    HighIncomeLowDtiScoresHigh(dti, income, debt);
    Assessment(dti, score, MakeDecision(dti, score, income))
  }

  /** `performCreditCheck`, without the simulated id and timestamp. A zero income is the
      only input that fails. */
  function PerformCreditCheck(req: CreditCheckRequest): (r: Result<CreditCheckResponse, CreditError>)
    ensures req.monthlyIncome == 0 <==> r == Failure(ZeroMonthlyIncome)
    ensures r.Success? ==>
      var res := r.value;
      var a := Assess(req.requestedAmount, req.monthlyIncome, req.existingDebt);
      && res.customerId == req.customerId && res.loanId == req.loanId
      && res.monthlyIncome == req.monthlyIncome && res.existingDebt == req.existingDebt
      && res.requestedAmount == req.requestedAmount
      && res.dtiRatio == a.dtiRatio && res.creditScore == a.creditScore && res.decision == a.decision
      && res.remarks == GenerateRemarks(res.dtiRatio, res.creditScore, res.decision)
  {
    if req.monthlyIncome == 0 then Failure(ZeroMonthlyIncome)
    else
      var a := Assess(req.requestedAmount, req.monthlyIncome, req.existingDebt);
      Success(CreditCheckResponse(
        req.customerId, req.loanId, req.monthlyIncome, req.existingDebt, req.requestedAmount,
        a.dtiRatio, a.creditScore, a.decision, GenerateRemarks(a.dtiRatio, a.creditScore, a.decision)))
  }

  /** A score under 500 needs the −200 band, i.e. a DTI of at least 40.00%; so the
      "score below minimum" rejection only fires at a DTI of exactly 40.00%. */
  lemma LowScoreOnlyFromTopBand(dti: int, income: int, debt: int)
    ensures CreditScore(dti, income, debt) < MinimumScore ==> dti >= AutoRejectDti
    ensures MakeDecision(dti, CreditScore(dti, income, debt), income) == Rejected && dti <= AutoRejectDti
            ==> dti == AutoRejectDti
  {
  }

  /** A DTI under 20% and an income of at least 20,000,000 always score at least 750, so
      the score condition of auto-approval is implied by the other two. */
  lemma HighIncomeLowDtiScoresHigh(dti: int, income: int, debt: int)
    ensures dti < 2000 && income >= HighIncome ==> CreditScore(dti, income, debt) >= AutoApproveScore
    ensures MakeDecision(dti, CreditScore(dti, income, debt), income) == Approved
            <==> dti < 2000 && income >= HighIncome
  {
  }

  /** The DTI band adjustment never rises as the DTI rises. */
  lemma DtiAdjustmentNonIncreasing(dti1: int, dti2: int)
    requires dti1 <= dti2
    ensures DtiAdjustment(dti2) <= DtiAdjustment(dti1)
  {
  }

  /** A higher DTI never raises the score. */
  lemma ScoreNonIncreasingInDti(dti1: int, dti2: int, income: int, debt: int)
    requires dti1 <= dti2
    ensures CreditScore(dti2, income, debt) <= CreditScore(dti1, income, debt)
  {
    DtiAdjustmentNonIncreasing(dti1, dti2);
  }

  /** More existing debt never raises the score (at a fixed DTI). */
  lemma ScoreNonIncreasingInDebt(dti: int, income: int, debt1: int, debt2: int)
    requires debt1 <= debt2
    ensures CreditScore(dti, income, debt2) <= CreditScore(dti, income, debt1)
  {
  }

  /** More income never lowers the score (at a fixed DTI): the bonus grows and both debt
      comparisons only get easier to pass. */
  lemma ScoreNonDecreasingInIncome(dti: int, income1: int, income2: int, debt: int)
    requires income1 <= income2
    ensures CreditScore(dti, income1, debt) <= CreditScore(dti, income2, debt)
  {
    DivHalfUpMonotone(income1, income2, 2);
    assert DebtPenalty(debt, income1) <= DebtPenalty(debt, income2);
  }

  /** How bad a verdict is for the applicant. */
  function Severity(d: Decision): nat {
    match d
    case Approved => 0
    case Review => 1
    case Rejected => 2
  }

  /** A higher DTI and a lower score never give a better verdict. */
  lemma DecisionMonotone(dti1: int, score1: int, dti2: int, score2: int, income: int)
    requires dti1 <= dti2 && score2 <= score1
    ensures Severity(MakeDecision(dti1, score1, income)) <= Severity(MakeDecision(dti2, score2, income))
  {
  }

  /** With a positive income, more existing debt never lowers the DTI. */
  lemma DtiNonDecreasingInDebt(requested: int, income: int, debt1: int, debt2: int)
    requires income > 0 && debt1 <= debt2
    ensures CalculateDti(requested, income, debt1) <= CalculateDti(requested, income, debt2)
  {
    var inst := AssumedInstallment(requested);
    MulLeft(debt1 + inst, debt2 + inst, 10_000);
    assert (debt1 + inst) * 10_000 <= (debt2 + inst) * 10_000;
    DivHalfUpMonotone((debt1 + inst) * 10_000, (debt2 + inst) * 10_000, income);
  }

  /** With a positive income, a larger requested principal never lowers the DTI. */
  lemma DtiNonDecreasingInRequested(requested1: int, requested2: int, income: int, debt: int)
    requires income > 0 && requested1 <= requested2
    ensures CalculateDti(requested1, income, debt) <= CalculateDti(requested2, income, debt)
  {
    MulLeft(requested1, requested2, AssumedMonthlyRate * 1_000_000);
    assert requested1 * AssumedMonthlyRate * 1_000_000 <= requested2 * AssumedMonthlyRate * 1_000_000;
    DivHalfUpMonotone(requested1 * AssumedMonthlyRate * 1_000_000, requested2 * AssumedMonthlyRate * 1_000_000,
                      Amortization.DiscountScale - AssumedDiscount);
    var i1, i2 := AssumedInstallment(requested1), AssumedInstallment(requested2);
    MulLeft(debt + i1, debt + i2, 10_000);
    assert (debt + i1) * 10_000 <= (debt + i2) * 10_000;
    DivHalfUpMonotone((debt + i1) * 10_000, (debt + i2) * 10_000, income);
  }

  /** A higher DTI with at least as much debt never gives a better verdict. */
  lemma VerdictChain(dti1: int, dti2: int, income: int, debt1: int, debt2: int)
    requires dti1 <= dti2 && debt1 <= debt2
    ensures Severity(MakeDecision(dti1, CreditScore(dti1, income, debt1), income))
         <= Severity(MakeDecision(dti2, CreditScore(dti2, income, debt2), income))
  {
    ScoreNonIncreasingInDti(dti1, dti2, income, debt1);
    ScoreNonIncreasingInDebt(dti2, income, debt1, debt2);
    DecisionMonotone(dti1, CreditScore(dti1, income, debt1), dti2, CreditScore(dti2, income, debt2), income);
  }

  /** With a positive income, adding existing debt never improves the verdict. */
  lemma MoreDebtNeverImprovesDecision(requested: int, income: int, debt: int, extra: nat)
    requires income > 0
    ensures Severity(Assess(requested, income, debt).decision)
         <= Severity(Assess(requested, income, debt + extra).decision)
  {
    var dti1, dti2 := CalculateDti(requested, income, debt), CalculateDti(requested, income, debt + extra);
    DtiNonDecreasingInDebt(requested, income, debt, debt + extra);
    VerdictChain(dti1, dti2, income, debt, debt + extra);
  }

  /** With a positive income, asking for more never improves the verdict. */
  lemma LargerLoanNeverImprovesDecision(requested: int, income: int, debt: int, extra: nat)
    requires income > 0
    ensures Severity(Assess(requested, income, debt).decision)
         <= Severity(Assess(requested + extra, income, debt).decision)
  {
    var dti1, dti2 := CalculateDti(requested, income, debt), CalculateDti(requested + extra, income, debt);
    DtiNonDecreasingInRequested(requested, requested + extra, income, debt);
    VerdictChain(dti1, dti2, income, debt, debt);
  }

  /** The installment of the worked example: 10,000,000 at 1% a month over 24 months costs
      470,734.72 a month. */
  lemma WorkedInstallment()
    ensures Amortization.Annuity(1_000_000_000, AssumedMonthlyRate, AssumedTenor) == Success(47_073_472)
  {
    AssumedInstallmentIsAnnuity(1_000_000_000);
    assert AssumedInstallment(1_000_000_000) == 47_073_472;
  }

  /** The worked example: 10,000,000 requested against 500,000 of debt and a 5,000,000
      income gives a DTI of 19.41%, a score of 750 and a review (the income is below the
      auto-approval threshold). */
  lemma WorkedExample()
    ensures Assess(1_000_000_000, 500_000_000, 50_000_000) == Assessment(1941, 750, Review)
  {
    assert AssumedInstallment(1_000_000_000) == 47_073_472;
    assert CalculateDti(1_000_000_000, 500_000_000, 50_000_000) == 1941;
    assert DtiAdjustment(1941) == 50 && IncomeBonus(500_000_000) == 0;
    assert DebtPenalty(50_000_000, 500_000_000) == 0;
  }
}
