/**
 All services that touch money as one state machine: any sequence of calls, each taking
 effect as a whole at a moment of a clock that never runs backwards; calls may share one.
 */
module MoneyMachine {
  import opened Wrappers
  import opened MoneyRecords
  import Members
  import Payments
  import Fines
  import Lottery
  import Spending

  /** A call with everything it reads from outside: arguments, configuration, gateway answers, fresh references. */
  datatype Op =
    | Admit(mahber: MahberId, member: UserId, status: MembershipStatus, nextDue: Option<Time>)
    | ChangeStatus(mahber: MahberId, member: UserId, status: MembershipStatus)
    | Join(mahber: MahberId, member: UserId, isPublic: bool, config: Config, id: string, gatewayUp: bool)
    | Initiate(mahber: MahberId, member: UserId, config: Config, wanted: Option<seq<nat>>, txRef: string,
               gatewayUp: bool)
    | Webhook(ref: Option<string>, notice: Option<string>)
    | Retry(mahber: MahberId, payment: nat, member: UserId, txRef: string, gatewayUp: bool)
    | Callback(ref: Option<string>, notice: Option<string>, config: Config)
    | StartRound(mahber: MahberId, dueDate: Option<Time>)
    | Waive(mahber: MahberId, fine: nat)
    | FineJob(mahber: MahberId, config: Config, stop: nat)
    | AttendanceJob(mahber: MahberId, event: Fines.Event, attended: set<UserId>, config: Config, stop: nat)
    | ExecuteDraw(mahber: MahberId, mahberCreated: Time, rate: Money, threshold: Money, seed: nat, id: string)
    | CreateExpense(mahber: MahberId, amount: Money, reason: string, category: string, bankCode: BankCode)
    | ApproveExpense(expense: nat, mahber: MahberId, approver: UserId, gatewayUp: bool)
    | RejectExpense(expense: nat, mahber: MahberId)
    | CreatePayout(mahber: MahberId, member: UserId, amount: Money, purpose: PayoutCategory, reason: string)

  /** Memberships made by other services; a user has one in each mahber. */
  function AdmitMember(db: Db, mahber: MahberId, member: UserId, status: MembershipStatus, nextDue: Option<Time>): Db {
    if Members.Find(db.members, mahber, member).Some? then db
    else db.(members := db.members + [Membership(mahber, member, status, nextDue, false, None, None)])
  }

  /** Suspension, banning and reinstatement by other services: any status may follow any other. */
  function SetStatus(db: Db, mahber: MahberId, member: UserId, status: MembershipStatus): Db {
    var row := Members.Find(db.members, mahber, member);
    if row.None? then db else db.(members := db.members[row.value := db.members[row.value].(status := status)])
  }

  function Apply(db: Db, op: Op): Effect {
    match op
    case Admit(mahber, member, status, nextDue) => Effect(AdmitMember(db, mahber, member, status, nextDue), None)
    case ChangeStatus(mahber, member, status) => Effect(SetStatus(db, mahber, member, status), None)
    case Join(mahber, member, isPublic, config, id, up) => Payments.Join(db, mahber, member, isPublic, config, id, up)
    case Initiate(mahber, member, config, wanted, txRef, up) => Payments.Initiate(db, mahber, member, config, wanted,
                                                                                  txRef, up)
    case Webhook(ref, status) => Payments.Webhook(db, ref, status)
    case Retry(mahber, payment, member, txRef, up) => Payments.Retry(db, mahber, payment, member, txRef, up)
    case Callback(ref, status, config) => Payments.Callback(db, ref, status, config)
    case StartRound(mahber, dueDate) => Payments.StartRound(db, mahber, dueDate)
    case Waive(mahber, fine) => Fines.Waive(db, mahber, fine)
    case FineJob(mahber, config, stop) => Effect(Fines.FineJob(db, mahber, config, stop), None)
    case AttendanceJob(mahber, event, attended, config, stop) =>
      Effect(Fines.AttendanceJob(db, mahber, event, attended, config, stop), None)
    case ExecuteDraw(mahber, created, rate, threshold, seed, id) =>
      Lottery.ExecuteDraw(db, mahber, created, rate, threshold, seed, id)
    case CreateExpense(mahber, amount, reason, category, bankCode) =>
      Effect(Spending.CreateExpense(db, mahber, amount, reason, category, bankCode), None)
    case ApproveExpense(expense, mahber, approver, up) => Spending.ApproveExpense(db, expense, mahber, approver, up)
    case RejectExpense(expense, mahber) => Spending.RejectExpense(db, expense, mahber)
    case CreatePayout(mahber, member, amount, category, reason) =>
      Spending.CreatePayout(db, mahber, member, amount, category, reason)
  }

  datatype Tick = Tick(wait: nat, op: Op)

  /** The store at the moment of a call. */
  function At(db: Db, t: Tick): Db {
    db.(clock := db.clock + t.wait)
  }

  function Do(db: Db, t: Tick): Db {
    Apply(At(db, t), t.op).db
  }

  function Run(db: Db, ticks: seq<Tick>): Db {
    if ticks == [] then db else Do(Run(db, ticks[..|ticks| - 1]), ticks[|ticks| - 1])
  }

  /** One delivery of a background job: how long after the one before, and after how many members it stops. */
  datatype Attempt = Attempt(wait: nat, stop: nat)
}
