/** Spending from the pool: expenses, which are approved or rejected, and payouts. */
module Spending {
  import opened Wrappers
  import opened MoneyRecords
  import Ledger
  import Members

  function CreateExpense(db: Db, mahber: MahberId, amount: Money, reason: string, category: string,
                         bankCode: BankCode): Db {
    db.(expenses := db.expenses + [Expense(mahber, amount, reason, category, Awaiting, bankCode)])
  }

  /** Refused, in this order, for a missing or settled expense, a pool too small, or an unusable bank code. */
  function ApproveExpense(db: Db, expense: nat, mahber: MahberId, approver: UserId, gatewayUp: bool): Effect {
    if expense >= |db.expenses| || db.expenses[expense].mahber != mahber then Effect(db, Some(NotFound))
    else
      var e := db.expenses[expense];
      if e.status != Awaiting then Effect(db, Some(NotPending))
      else if Ledger.Pool(db.ledger, mahber) < e.amount then Effect(db, Some(InsufficientBalance))
      else if e.bankCode.NoCode? then Effect(db, Some(NoBankCode))
      else if e.bankCode.BadCode? then Effect(db, Some(InvalidBankCode))
      else if !gatewayUp then Effect(db, Some(GatewayDown))
      else
        Effect(db.(expenses := db.expenses[expense := e.(status := Paid)],
                   ledger := Ledger.Post(db.ledger, db.clock, mahber, approver, ExpenseEntry, -e.amount,
                                         "Expense: " + e.reason + " (" + e.category + ")", OfExpense(expense))), None)
  }

  function RejectExpense(db: Db, expense: nat, mahber: MahberId): Effect {
    if expense >= |db.expenses| || db.expenses[expense].mahber != mahber then Effect(db, Some(NotFound))
    else if db.expenses[expense].status != Awaiting then Effect(db, Some(NotPending))
    else Effect(db.(expenses := db.expenses[expense := db.expenses[expense].(status := Declined)]), None)
  }

  function CategoryName(c: PayoutCategory): string {
    match c
    case IddirBenefit => "Iddir_Benefit"
    case EventReimbursement => "Event_Reimbursement"
    case Recurring => "Recurring"
    case General => "General"
  }

  predicate IsActiveMember(members: seq<Membership>, mahber: MahberId, member: UserId) {
    exists i :: 0 <= i < |members| && Members.IsRow(members[i], mahber, member) && members[i].status == Active
  }

  /** The entry of a payout is written with a positive amount. */
  function CreatePayout(db: Db, mahber: MahberId, member: UserId, amount: Money, category: PayoutCategory,
                        reason: string): Effect {
    if !IsActiveMember(db.members, mahber, member) then Effect(db, Some(NotActive))
    else if Ledger.Pool(db.ledger, mahber) < amount then Effect(db, Some(InsufficientBalance))
    else
      Effect(db.(payouts := db.payouts + [Payout(mahber, member, amount, category, reason)],
                 ledger := Ledger.Post(db.ledger, db.clock, mahber, member,
                                       if category.IddirBenefit? then IddirPayoutEntry else PayoutEntry, amount,
                                       "Payout: " + reason + " (" + CategoryName(category) + ")",
                                       OfPayout(|db.payouts|))), None)
  }
}
