/**
 The rows the money services keep: one table each, rows in order of insertion, and a
 row's identifier is its position. Amounts are exact.
 */
module MoneyRecords {
  import opened Wrappers

  type MahberId = string
  type UserId = string
  type Time = int
  type Money = real

  datatype MembershipStatus =
    | MemberPending | Approved | PaymentRequired | Active | Suspended | Rejected | Invalidated | Banned

  datatype Membership = Membership(
    mahber: MahberId, member: UserId, status: MembershipStatus, nextDue: Option<Time>, hasWon: bool,
    joinedAt: Option<Time>, activatedAt: Option<Time>)

  datatype PaymentStatus = Pending | Completed | Failed | Expired

  datatype PaymentType = Contribution | JoinFee

  datatype Payment = Payment(
    txRef: string, mahber: MahberId, member: UserId, amount: Money, kind: PaymentType, status: PaymentStatus,
    fineIds: seq<nat>, periodEnd: Option<Time>, createdAt: Time, completedAt: Option<Time>)

  /** The status strings "pending", "completed", "failed" and "expired" of a join payment. */
  datatype JoinStatus = Open | Done | Lost | Lapsed

  datatype PendingPayment = PendingPayment(id: string, mahber: MahberId, member: UserId, amount: Money,
                                           status: JoinStatus)

  datatype Violation = MissedPayment | MissedAttendance

  datatype Fine = Fine(
    mahber: MahberId, member: UserId, violation: Violation, amount: Money, waived: bool,
    paidAt: Option<Time>, paidBy: Option<nat>, createdAt: Time)

  datatype EntryKind =
    | ContributionEntry | FineEntry | EqubPayoutEntry | IddirPayoutEntry | PayoutEntry | RefundEntry | ExpenseEntry

  /** The one row a ledger entry refers to. */
  datatype Source = OfPayment(id: nat) | OfFine(id: nat) | OfDraw(id: nat) | OfExpense(id: nat) | OfPayout(id: nat)

  datatype Entry = Entry(
    mahber: MahberId, member: UserId, kind: EntryKind, amount: Money, runningBalance: Money,
    description: string, source: Source, createdAt: Time)

  datatype Draw = Draw(
    id: string, mahber: MahberId, winner: UserId, eligible: seq<UserId>, seed: nat, payout: Money, createdAt: Time)

  datatype ExpenseStatus = Awaiting | Declined | Paid

  /** A recipient's bank code: absent, not a number, or a number. */
  datatype BankCode = NoCode | BadCode | Code(n: int)

  datatype Expense = Expense(
    mahber: MahberId, amount: Money, reason: string, category: string, status: ExpenseStatus, bankCode: BankCode)

  datatype PayoutCategory = IddirBenefit | EventReimbursement | Recurring | General

  datatype Payout = Payout(mahber: MahberId, member: UserId, amount: Money, category: PayoutCategory, reason: string)

  datatype PenaltyMode = Percentage | Fixed

  datatype Config = Config(
    contributionAmount: Money, frequency: Option<string>, paymentDay: Option<int>,
    joinFeeRequired: bool, joinFeeAmount: Money,
    penaltyRate: Money, penaltyMode: PenaltyMode, penaltyInterval: Option<string>, maxFineTotal: Money)

  /** The whole store, and the clock every step reads. */
  datatype Db = Db(
    clock: Time,
    members: seq<Membership>,
    payments: seq<Payment>,
    joins: seq<PendingPayment>,
    fines: seq<Fine>,
    ledger: seq<Entry>,
    draws: seq<Draw>,
    expenses: seq<Expense>,
    payouts: seq<Payout>)

  function EmptyDb(clock: Time): Db {
    Db(clock, [], [], [], [], [], [], [], [])
  }

  datatype Refusal =
    | NotFound | NotActive | AlreadyActive | MemberBanned | PrivateMahber | InvalidFines | NothingDue
    | ReferenceTaken | GatewayDown | AlreadyCompleted | StillPending | AlreadyWaived | NotPaidUp | NobodyEligible
    | InsufficientBalance | RateTooHigh | NotPending | NoBankCode | InvalidBankCode | NoMembers

  /** What a step leaves behind, and why it refused if it did. */
  datatype Effect = Effect(db: Db, refusal: Option<Refusal>)
}
