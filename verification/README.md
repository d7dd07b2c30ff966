# Mahber Connect: a verified model of the backend's core

Mahber Connect runs Ethiopian savings and mutual-aid associations ("mahbers"): members
contribute money on a schedule, are fined for missed payments and absences, win the pot in a
lottery, spend from a common pool and vote in polls. This project models the parts of the
backend whose correctness is hardest to see from the code, and proves what they promise.

The files follow the program:

- **Polls.** `Ballots`, `InstantRunoff` and `PollService` hold the ranked-choice tally (the
  loop over shrinking options and ballots, proved equal to a declarative count), the two
  plain tallies and the voting methods; `RunoffTheorems` proves the voting theory.
- **Dates.** `Calendar` is the proleptic Gregorian calendar with the overflowing `setMonth`
  and `setDate` of section 21.4.1 of ECMA-262; `DueDates` is the stepping of payment dates;
  `EventSeries` is the expansion of recurring events.
- **Money.** `MoneyRecords` holds the rows. `Ledger`, `Members`, `Payments`, `Fines`, `Lottery`
  and `Spending` say what each service call does to the whole store, every branch and
  refusal included. `MoneyService` is the same services as one mutable object with the
  source's loops and transactions, proved call by call against those steps. `MoneyMachine`
  lets any calls follow each other; `MoneyChanges` splits every call into primitive changes
  with the guards they are made under; `MoneyInvariants` proves what every run keeps. The
  results are in `PaymentTheorems`, `BillTheorems`, `NoticeTheorems`, `Accounts`,
  `PoolTheorems`, `LotteryTheorems`, `FineTheorems` and `AttendanceTheorems`: some about
  every run, and for each operation one that says on the rows of the tables when it is
  refused and what it changes. `MoneyService.Store.Serve` carries every theorem
  about runs over to the mutable object.
- **Two smaller pieces.** `CircuitBreaker` is the breaker around the payment gateway;
  `LedgerCsv` is the CSV export with a reader that inverts it.

A run is any sequence of calls of any services, each taking effect as a whole at a moment of
a clock that never runs backwards; calls may share a moment. Configuration, gateway answers, fresh references
and random seeds are arguments. Times are UTC milliseconds and money is exact. A row's
identifier is its position in its table.

Where the code and its documentation differ, the model follows the code, and the theorem
says exactly when the documented behaviour holds:

- The fine threshold is documented for unpaid fines but sums paid ones too
  (`FineTheorems.ThresholdMistakenExactly`, `FineTheorems.ThresholdRightExactly`,
  `FineTheorems.PayingNeverClears`).
- A lottery payout is documented as contributions less the operational share but is taken
  from the whole pool (`PoolTheorems.PayoutAsDocumentedExactly`).
- Every eligible member is promised the same chance (`LotteryTheorems.DrawIsFair`). With the
  2^256 seeds of the service the chances are equal exactly when the number of eligible
  members is a power of two (`LotteryTheorems.EvenChancesExactly`), and otherwise differ by
  one seed.
- Payouts are promised not to exceed the contributions. They are entered as credits, so they
  fill the pool (`PoolTheorems.PayoutFillsPool`), which can be paid out any number of times
  (`Accounts.OnePoolPaysAnyNumber`); `Accounts.PayoutsWithinContributionsExactly` says when
  the promise is kept.
- A success notice completes any payment not yet final, one for fines alone as well as an
  expired one. It reactivates even a banned member and may move the due date back
  (`PaymentTheorems.SuccessReopens`, `PaymentTheorems.LateSuccessReactivates`).
- A retried contribution, once paid, is still due, and retried fines are still unpaid
  (`PaymentTheorems.RetryForgetsFines`).
- Exactly one absence fine is promised; a member whose ledger already mentions the event's
  identifier gets none (`AttendanceTheorems.EveryAbsenteeFinedExactly`).
- A half-open circuit is said to let one attempt through. It lets through every request asked
  before one of them is known to have failed (`CircuitBreaker.HalfOpenAdmitsExactly`), so one
  alone exactly when no other is asked by then (`CircuitBreaker.OneAloneExactly`).
- A monthly event can come back ending before it starts, exactly when it is short and its
  start leaves the longer month (`EventSeries.StepTurnsAroundExactly`).
- Paying nothing but fines moves a contribution's due date on, exactly when there is one
  (`PaymentTheorems.FinePaymentMovesDueDate`).
- The tally drops all options tied for last at once, which lets an option win that every
  rival beats (`RunoffTheorems.TiedRivalsGoTogether`).

## Model

| member | source | states |
|---|---|---|
| InstantRunoff.RunRounds | src/communication/poll.service.ts:223-295 | The in-place tally loop ends within as many rounds as there are distinct options, with exactly the rounds, counts, eliminations and winner of the declarative runoff over the original ballots. |
| InstantRunoff.CountFirsts | src/communication/poll.service.ts:233-244 | One counting pass yields, for each standing option, the original ballots whose highest-ranked standing option it is, and the number of ballots still live. |
| InstantRunoff.Assess | src/communication/poll.service.ts:246-262 | One scan finds the only option with more than half of the live ballots, the lowest count, and all options that have it, in order. |
| InstantRunoff.Refilter | src/communication/poll.service.ts:289-292 | After an elimination every voter's list is again the original ballot filtered to the standing options, in order. |
| InstantRunoff.Eliminate | src/communication/poll.service.ts:285-287 | Deleting the lowest leaves exactly the other options. |
| Ballots.TopExactly | src/communication/poll.service.ts:238-244 | A ballot counts for the option it ranks first among those standing. |
| RunoffTheorems.ReportCanBeRecounted | src/communication/poll.service.ts:223-295 | Every recorded round can be recounted from the ballots as cast: rounds are numbered from one, the first counts all options, each later one exactly those the one before left, and each count is the number of ballots ranking that option highest. |
| RunoffTheorems.RoundElectsOrDrops | src/communication/poll.service.ts:246-292 | A round elects exactly who has more than half of the ballots still ranking somebody, and is then the last; otherwise it drops exactly the options with the fewest, in the order of the poll. |
| RunoffTheorems.RoundsReportFields | src/communication/poll.service.ts:232-295 | The k-th recorded round reports the tally of the original ballots over the options left after k eliminations, and drops exactly those tied for last. |
| RunoffTheorems.SurvivorsNeverLose | src/communication/poll.service.ts:238-292 | The count of an option still standing never falls from one round to a later one. |
| RunoffTheorems.CountsSumToLive | src/communication/poll.service.ts:236-244 | The counts of a round add up to its live ballots. |
| RunoffTheorems.WinnerProfile | src/communication/poll.service.ts:251-273 | A recorded winner alone has a strict majority of the live ballots and beats every other option of its round head to head on the ballots as cast. |
| RunoffTheorems.NoWinnerExactlyWhenStalled | src/communication/poll.service.ts:232-295 | No winner is found exactly when there are no options or some round finds all remaining options equal, with at least two left or no ballot live. |
| RunoffTheorems.LaterNoHarm | src/communication/poll.service.ts:230-295 | If w is elected, any change of what voters rank below w leaves every round, count, elimination and the winner as they were. |
| RunoffTheorems.CutAgrees | src/communication/poll.service.ts:230-295 | Cutting a ballot just after w is such a change. |
| RunoffTheorems.LaterNoHelp | src/communication/poll.service.ts:230-295 | For ballots that agree down to w, w is elected on the one set if and only if on the other. |
| RunoffTheorems.Anonymity | src/communication/poll.service.ts:223-311 | Permuting the votes leaves the whole outcome unchanged. |
| RunoffTheorems.OptionOrderIrrelevant | src/communication/poll.service.ts:224-287 | The order in which options are listed changes no count, elimination or winner. |
| RunoffTheorems.OneByOneWinnerBeatsSomebody | src/communication/poll.service.ts:256-287 | On ballots that never tie two options for last, the winner beats some option head to head: it is no Condorcet loser. |
| RunoffTheorems.LoserWinsOnlyAlone | src/communication/poll.service.ts:256-287 | A winner that beats nobody stood alone in the last round, and some round had dropped two options at once. |
| RunoffTheorems.TiedRivalsGoTogether | src/communication/poll.service.ts:256-287 | When two tied rivals go together, an option wins that each of them would have beaten (a whole family of ballots). |
| PollService.ChoicesAccepted | src/communication/poll.service.ts:64-86 | A vote is accepted exactly when it names only options of the poll, one of them for single choice, at least one and none twice for ranked choice. |
| PollService.VoteRefusedExactly | src/communication/poll.service.ts:33-88 | When a vote is refused for each reason, exactly: poll closed, voter not active or not in the role asked for, first unknown option, wrong number of choices, repetition. |
| PollService.Poll.Admit | src/communication/poll.service.ts:33-88 | A poll past its deadline is closed; the checks refuse in the service's order. |
| PollService.Poll.CastVote | src/communication/poll.service.ts:135-158 | A first vote adds one row; a second by the same member is refused and changes nothing; after the deadline none is taken. |
| PollService.Poll.EditVote | src/communication/poll.service.ts:160-198 | Editing replaces the voter's own row or adds it; no other row changes, and none after the deadline. |
| PollService.Poll.GetResults | src/communication/poll.service.ts:200-343 | Ranked polls report the runoff of the stored ballots and first-choice totals, other polls how often each option is listed; single-choice and ranked totals of distinct options add up to the votes. |
| PollService.Poll.CloseExpired | src/communication/poll.service.ts:346-354 | A poll is closed for good once its deadline has passed. |
| PollService.FirstRoundIsFirstChoice | src/communication/poll.service.ts:304-308 | The reported totals are first-choice counts, also when no round was recorded. |
| PollService.CountPlain | src/communication/poll.service.ts:314-332 | The plain tally counts every listed choice of every ballot. |
| PollService.OccurrencesAreVoters | src/communication/poll.service.ts:319-326 | A plain total is the number of voters for the option exactly when no ballot lists it twice. |
| PollService.PlainAnonymity | src/communication/poll.service.ts:314-332 | Permuting the votes leaves the plain totals unchanged. |
| PollService.RankedBallotsAllCount | src/communication/poll.service.ts:78-86 | Accepted ranked ballots all count in the first round, each for its first choice. |
| PollService.SingleChoiceCountsAddUp | src/communication/poll.service.ts:74-76 | Single-choice totals of the distinct options add up to the number of votes. |
| Calendar.YearsStartAsInStandard | src/common/utils/date.utils.ts:2-18 | The month-by-month calendar starts every year on the day that DayFromYear of the standard gives. |
| Calendar.MakeDayReadsBack | src/common/utils/date.utils.ts:55-61 | A date made from a month and a day inside that month reads back as both. |
| Calendar.DayIsMade | src/common/utils/date.utils.ts:6-16 | Every day is made from its own month and day of the month. |
| Calendar.JsDate.SetDate | src/common/utils/date.utils.ts:6-9 | Sets the day of the month, overflowing into other months, and keeps the time of day. |
| Calendar.JsDate.SetMonth | src/common/utils/date.utils.ts:11-17 | Sets the month and keeps the day number, overflowing when the month is too short. |
| DueDates.StepFrequency | src/common/utils/date.utils.ts:1-20 | Stepping the copied date object in place yields the frequency step. |
| DueDates.FrequencyRead | src/common/utils/date.utils.ts:1-4 | The frequency words are read in any case of letters; no text and the empty text are monthly. |
| DueDates.FrequencySteps | src/common/utils/date.utils.ts:1-20 | A daily step adds 86400000 ms and a weekly one 604800000; a quarterly one lands three months on and any other one month on, on the same day if that month has it, else in the month after on the day left over. |
| DueDates.StepToPaymentDay | src/common/utils/date.utils.ts:33-67 | The in-place clamping and advancing of the date object yields the next due date, for every frequency and payment day. |
| DueDates.WeeklyIsNextWeekDay | src/common/utils/date.utils.ts:45-49 | The weekly due date is the first later day with the payment weekday, at the same time of day. |
| DueDates.WeeklyProgressExactly | src/common/utils/date.utils.ts:45-49 | Whatever number is configured, the weekly step lands on that weekday modulo seven, within a week, and moves forward exactly unless the number lies more than a week before today's weekday without falling on it. |
| DueDates.PaymentDayUnused | src/common/utils/date.utils.ts:38-66 | Daily dues, unknown frequencies and dues without a payment day take the plain step. |
| DueDates.MonthlyIsNextPayDay | src/common/utils/date.utils.ts:51-63 | The monthly due date is the least later instant, at the same time of day, on the payment day clamped to its month. |
| DueDates.MonthlyProgressExactly | src/common/utils/date.utils.ts:51-63 | The monthly step moves forward exactly when the payment day is at least one. |
| DueDates.QuarterlyStep | src/common/utils/date.utils.ts:51-63 | The quarterly due date is the payment day of this month if it is still ahead, else of the month three on. |
| DueDates.PaymentDaysNeverDrift | src/common/utils/date.utils.ts:51-63 | From a payment day, n steps land exactly n (or 3n) months later on the clamped day: no drift, no month skipped. |
| DueDates.MonthStepOverflowsExactly | src/common/utils/date.utils.ts:14-17 | The plain month step keeps the day exactly when the next month is long enough, and otherwise skips that month. |
| DueDates.MonthStepsDriftExactly | src/common/utils/date.utils.ts:11-17 | n plain monthly (or quarterly) steps end n (or 3n) months later on the same day exactly when no month stepped on is too short. |
| EventSeries.Expand | src/events/event.service.ts:42-95 | The generating loop ends, refuses exactly without a needed end date or with one before the start, and lists exactly the steps up to the boundary. |
| EventSeries.StepDate | src/events/event.service.ts:82-87 | Stepping a date object in place by a week or a calendar month yields the step of the series. |
| EventSeries.StartsIncrease | src/events/event.service.ts:65-91 | Starts increase strictly and lie between the start and the boundary. |
| EventSeries.SeriesIsComplete | src/events/event.service.ts:47-91 | A recurring series lists the k-th step if and only if it starts by the end date and within 365 days. |
| EventSeries.WeeklyCount | src/events/event.service.ts:51-84 | A weekly series has floor(span / 7 days) + 1 events, at most 53. |
| EventSeries.MonthlyCount | src/events/event.service.ts:51-87 | A monthly series has at most 13 events. |
| EventSeries.ThirteenStepsPassCap | src/events/event.service.ts:53-57 | Thirteen month steps always pass the 365-day cap. |
| EventSeries.StepKeepsDurationExactly | src/events/event.service.ts:82-87 | A step keeps the duration exactly when both ends lie in months of equal length. |
| EventSeries.DurationKept | src/events/event.service.ts:65-91 | Every weekly series, and every monthly series within one calendar day, keeps its duration. |
| EventSeries.StepTurnsAroundExactly | src/events/event.service.ts:85-87 | A monthly step makes an event end before it starts if and only if the event is shorter than the days by which the month of its start is longer than that of its end; never if it lasts three days. |
| EventSeries.NthStepLands | src/events/event.service.ts:85-87 | k monthly steps lead to the same day k months on, or, once a month on the way is too short, to what overflowed it one month further. |
| EventSeries.OccurrenceTurnsAroundExactly | src/events/event.service.ts:65-91 | The k-th occurrence of a monthly series ends before it starts if and only if the month, day and time of day its end lands on are earlier than those of its start. |
| EventSeries.OccurrenceLasts | src/events/event.service.ts:65-91 | The duration of the k-th occurrence, from the calendar alone. |
| EventSeries.ThreeDaysNeverTurnAround | src/events/event.service.ts:65-91 | No occurrence of a monthly event of three days or more ends before it starts. |
| EventSeries.OvernightMonthEndTurnsAround | src/events/event.service.ts:85-87 | A witness: an event from the last day of a month into the next, two days shorter or more, turns around in one step. |
| Ledger.PostKeepsBooks | src/financial/ledger.service.ts:23-54 | A new entry keeps every running balance equal to the sum of its member's amounts so far, with all members in one table. |
| Ledger.LastBalanceIsMemberBalance | src/financial/ledger.service.ts:29-63 | The balance the next entry builds on is the sum that getMemberBalance reports. |
| Ledger.LastBalancesAddUpToPool | src/financial/ledger.service.ts:23-63 | The members' last running balances add up to the mahber's pool. |
| Ledger.EarlierStampIsOverlooked | src/financial/ledger.service.ts:29-37 | Whatever the timestamps, the next running balance is right if and only if the member's amounts after the latest-stamped entry add up to nothing. |
| Ledger.ReadBalanceRightExactly | src/financial/ledger.service.ts:29-37 | The same for any entry the query may return: its balance is the member's whole balance if and only if the amounts after it add up to nothing. |
| Ledger.DifferentStampsLeaveNoChoice | src/financial/ledger.service.ts:29-33 | If no two of a member's entries are stamped alike, the query for the latest has one answer. |
| MoneyService.Store.CreateLedgerEntry | src/financial/ledger.service.ts:23-54 | Appends one entry that continues the member's latest running balance. |
| MoneyService.Store.GetMemberBalance | src/financial/ledger.service.ts:56-63 | Sums the member's amounts. |
| MoneyService.Store.ExpireEach | src/financial/payment.service.ts:282-308 | The loop expires exactly the pending payments for the same cycle, join fee or any of the same fines. |
| MoneyService.Store.InitiatePayment | src/financial/payment.service.ts:224-386 | Takes the store to the step's result and gives its answer, on every path. |
| MoneyService.Store.CompletePayment | src/financial/payment.service.ts:493-571 | The webhook's success transaction: payment, fines, ledger entry and membership together. |
| MoneyService.Store.ProcessWebhook | src/financial/payment.service.ts:461-613 | Takes the store to the step's result for every notice and payment status. |
| MoneyService.Store.RetryPayment | src/financial/payment.service.ts:727-813 | Opens a new payment of the same amount and kind, or refuses, in the service's order. |
| MoneyService.Store.JoinMahber | src/financial/mahber-finance.controller.ts:39-184 | Opens a join payment or activates the membership, or refuses. |
| MoneyService.Store.CompleteJoin | src/financial/payment-callback.controller.ts:80-153 | The callback's success transaction. |
| MoneyService.Store.HandleChapaCallback | src/financial/payment-callback.controller.ts:58-161 | Takes the store to the step's result for every notice and join payment status. |
| MoneyService.Store.InitiatePaymentRound | src/financial/payment.service.ts:821-854 | Makes every active member's contribution due and touches nothing else. |
| MoneyService.Store.ApplyFine | src/financial/fine.service.ts:43-82 | Adds one fine and its debit entry. |
| MoneyService.Store.WaiveFine | src/financial/fine.service.ts:86-119 | Waives a fine once; refuses an unknown or waived one. |
| MoneyService.Store.HasUnpaidFinesExceedingThreshold | src/financial/fine.service.ts:142-158 | Compares the sum of all fines not waived with the threshold. |
| MoneyService.Store.ProcessMahber | src/automation/processors/fine-calculation.processor.ts:38-143 | The job's loop over active members, stopped after any number of them, has exactly the effect of the step. |
| MoneyService.Store.ProcessEventAttendance | src/events/attendance.service.ts:196-288 | The job's loop over absentees, stopped after any number of them, has exactly the effect of the step and reports the number of fines it added. |
| MoneyService.Store.UnpaidSince | src/financial/lottery.service.ts:66-80 | The collecting loop names exactly the active members without a contribution since the date, so nobody exactly when all have paid. |
| MoneyService.Store.EligibleMembers | src/financial/lottery.service.ts:92-110 | Collects exactly the active members who have not won and are within the threshold, in order. |
| MoneyService.Store.ExecuteLottery | src/financial/lottery.service.ts:37-206 | Takes the store to the step's result, on every path. |
| MoneyService.Store.ApproveExpense | src/financial/expense.service.ts:68-167 | Pays a pending expense the pool covers and posts its debit, or refuses, in the service's order. |
| MoneyService.Store.RejectExpense | src/financial/expense.service.ts:169-208 | Declines a pending expense and touches nothing else. |
| MoneyService.Store.CreatePayout | src/financial/payout.service.ts:19-60 | Records a payout to an active member the pool covers, or refuses. |
| MoneyChanges.OpChanges | src/financial/payment.service.ts:224-386 | Every call of every service is a sequence of primitive changes, each made under its guard. |
| MoneyInvariants.ChangeKeepsAll | src/financial/payment.service.ts:493-571 | Every primitive change keeps the books, the fines' bookkeeping and the winners' marks, and lets rows only grow. |
| MoneyInvariants.RunKeepsAll | src/financial/payment.service.ts:461-613 | So does every run of all services. |
| PaymentTheorems.OneEntryPerCompletedPayment | src/financial/payment.service.ts:525-536 | In every reachable state a completed payment has exactly one ledger entry and any other none; contribution entries add up to the completed payments. |
| PaymentTheorems.BalancesAgree | src/financial/ledger.service.ts:23-63 | In every reachable state each running balance is its member's sum so far, and the last ones add up to the pool. |
| PaymentTheorems.FinalPaymentsStay | src/financial/payment.service.ts:483-487 | Completed and failed payments never change again, whatever is called. |
| PaymentTheorems.RepeatedNoticesLeaveNoTrace | src/financial/payment.service.ts:483-487 | Once a payment is final, a run with further notices for it ends in the same store as the run without them. |
| PaymentTheorems.RepeatedCallbacksLeaveNoTrace | src/financial/payment-callback.controller.ts:72-75 | Once a join payment is completed, failed or expired, a run with further callbacks for it ends in the same store as the run without them. |
| PaymentTheorems.SettledJoinsStay | src/financial/payment-callback.controller.ts:72-107 | A settled join payment never changes again, and a completed one has exactly one payment under its reference, completed and of the same amount. |
| PaymentTheorems.SuccessIsFinal | src/financial/payment.service.ts:489-571 | A success notice makes an open payment final, so delivering it twice equals once. |
| NoticeTheorems.NoticeRead | src/financial/payment.service.ts:489 | The three statuses are read in any case of letters; anything else is none of them. |
| NoticeTheorems.NoticeEndsPayment | src/financial/payment.service.ts:475-612 | A failed notice makes an unsettled payment Failed, an expired one Expired, and nothing else changes; unknown statuses and payments, and final ones, change nothing. |
| NoticeTheorems.NoticeCompletesPayment | src/financial/payment.service.ts:491-569 | What a success notice leaves in every table, row by row. |
| NoticeTheorems.FailedIsNeverCredited | src/financial/payment.service.ts:483-590 | After a failed notice the payment stays Failed over every run, later success notices included, and no ledger entry is ever made for it. |
| NoticeTheorems.RetryAnswersExactly | src/financial/payment.service.ts:727-813 | When a retry is refused for each reason, exactly, and the one pending payment it adds otherwise. |
| NoticeTheorems.JoinAnswersExactly | src/financial/mahber-finance.controller.ts:45-134 | When asking to join is refused for each reason, exactly, and what is recorded when the gateway fails. |
| NoticeTheorems.JoiningFree | src/financial/mahber-finance.controller.ts:143-176 | Without a fee the user, new or known, is active at once with the first due date from now; nothing is charged and nobody else's row changes. |
| NoticeTheorems.CallbackAnswersExactly | src/financial/payment-callback.controller.ts:52-160 | What each callback does to the join payment: success completes it unless the member is unknown or the reference used, expired ends it as expired, anything else as failed. |
| NoticeTheorems.RoundRefusedExactly | src/financial/payment.service.ts:824-830 | A payment round is refused exactly when nobody is active. |
| PaymentTheorems.FinesPaidOnce | src/financial/payment.service.ts:282-308 | In every reachable state pending payments list disjoint fines, and a paid fine names a completed payment of its own member that lists it. |
| PaymentTheorems.StampsStay | src/financial/payment.service.ts:510-523 | A stamp on a fine is never replaced. |
| PaymentTheorems.BillCoversExactly | src/financial/payment.service.ts:241-262 | A bill lists exactly the fines asked for, each once, and is refused exactly when one is not an open fine of the member. |
| PaymentTheorems.BillForEverything | src/financial/payment.service.ts:232-316 | A bill that names no fines is never refused and asks for the contribution and join fee due and the total of the member's unpaid fines. |
| BillTheorems.BillAddsUp | src/financial/payment.service.ts:268-345 | Whatever fines are named, the amount is the contribution if due, plus the join fee if due, plus the fines listed; it is a join fee exactly when that is due, and covers one cycle from the due date or from now. |
| BillTheorems.BillRefusedExactly | src/financial/payment.service.ts:224-262 | When a bill is refused for each reason, exactly: unknown user, neither active nor still to pay the join fee, a fine that is not open. |
| BillTheorems.BillListsOldestFirst | src/financial/payment.service.ts:241-258 | The fines of a bill are listed oldest first, however they were named. |
| BillTheorems.InitiatingAnswersExactly | src/financial/payment.service.ts:282-345 | Exactly the pending payments for what is billed again expire, also if nothing is due or the reference is taken; the payment is opened exactly when something is due under a new reference. |
| PaymentTheorems.OpeningSupersedes | src/financial/payment.service.ts:282-308 | Opening a payment leaves no other pending one for any of the same fines, the same cycle or the join fee, and touches no other payment. |
| PaymentTheorems.PayingSettlesExactly | src/financial/payment.service.ts:241-346 | Opening and completing a payment settles exactly the fines asked for, nobody else's, and adds the billed amount to the pool. |
| PaymentTheorems.SuccessReopens | src/financial/payment.service.ts:545-568 | When a success activates the member and when it moves the due date back, exactly; fines paid by another payment keep their stamp. |
| PaymentTheorems.LateSuccessReactivates | src/financial/payment.service.ts:483-552 | A run from an empty store, for any contribution and frequency, in which a late success makes a banned member active again and due before a date set meanwhile. |
| PaymentTheorems.RetryForgetsFines | src/financial/payment.service.ts:785-804 | Completing a retried payment settles no fine, which the original would not have done either if and only if it lists no unpaid fine of the payer; and it leaves the member as before unless a join fee was still required, so a retried contribution is still due once paid. |
| PaymentTheorems.FinePaymentMovesDueDate | src/financial/payment.service.ts:264-346 | Opening and paying any bill moves an existing due date one period on, so paying nothing but fines leaves the due date alone if and only if there was none. |
| PaymentTheorems.JoiningCompletes | src/financial/payment-callback.controller.ts:58-161 | Joining with a fee and then a success notice, for a new or known user, leaves an active member with the next due date, one completed payment of the fee, the pool grown by it, everybody else as before and the join payment settled. |
| PaymentTheorems.RoundMakesDue | src/financial/payment.service.ts:821-854 | After a payment round whoever is active and billed from its date on is asked for the contribution, if there is one, and all unpaid fines, before that for the fines alone; no other row changes. |
| Accounts.BooksBalance | src/financial/ledger.service.ts:23-54 | Over every run of all services, a mahber's pool is its completed payments and payouts less its fines, draws and approved expenses. |
| Accounts.OutlaysAreCovered | src/financial/lottery.service.ts:125-144 | Over every run, draws and expenses exceed the completed payments by no more than payouts put in and negative fines give back. |
| Accounts.PayoutsWithinContributionsExactly | src/financial/payout.service.ts:28-60 | Over every run, draws, expenses and payouts together stay within the completed payments if and only if pool and fines are at least twice the payouts. |
| Accounts.OnePoolPaysAnyNumber | src/financial/payout.service.ts:28-60 | An amount the pool covers can be paid out any number of times over. |
| PoolTheorems.DrawLeavesOperationalShare | src/financial/lottery.service.ts:125-174 | A draw leaves exactly balance times rate over 100 and touches no other pool. |
| PoolTheorems.PayoutAsDocumentedExactly | src/financial/lottery.service.ts:125-144 | A draw pays out the completed contributions less the share if and only if all other entries add up to nothing. |
| PoolTheorems.ExpenseNeverOverdraws | src/financial/expense.service.ts:85-144 | An approved expense lowers the pool by its amount, never below zero, and cannot be approved again. |
| PoolTheorems.PayoutFillsPool | src/financial/payout.service.ts:28-60 | A payout raises the pool by the amount paid out. |
| PoolTheorems.ApprovalAnswersExactly | src/financial/expense.service.ts:68-144 | When an approval is refused for each reason, exactly, and the one row and one debit it changes otherwise. |
| PoolTheorems.RequestedExpenseWaits | src/financial/expense.service.ts:20-66 | A requested expense waits undecided and can be approved exactly when the pool covers it and its bank code is a number. |
| PoolTheorems.RejectionAnswersExactly | src/financial/expense.service.ts:169-196 | An expense is declined exactly when it is pending, and only its status changes. |
| PoolTheorems.PayoutAnswersExactly | src/financial/payout.service.ts:19-60 | A payout is made exactly when the recipient is active and the pool covers it; one row and one credit are added. |
| PoolTheorems.OnlyFinesMakeDebt | src/financial/fine.service.ts:65-74 | Over any run from a pool not negative, whatever penalties are configured, the pool ends below zero by no more than the positive fines charged meanwhile, and not at all without fines. |
| PoolTheorems.DebtIsBoundedByFines | src/financial/fine.service.ts:65-74 | From an empty store on, a pool is never further below zero than all positive fines charged. |
| LotteryTheorems.WinnersAreDifferent | src/financial/lottery.service.ts:92-93 | Over every run, winners of a mahber are pairwise different and draws never outnumber its members. |
| LotteryTheorems.DrawAnswersExactly | src/financial/lottery.service.ts:44-148 | When a draw is refused for each reason, exactly, on the rows: it goes through if and only if somebody is active, every active member has a completed contribution since the last draw (or the creation), somebody eligible is left, the pool is positive and the rate below 100. |
| LotteryTheorems.DrawRecords | src/financial/lottery.service.ts:116-206 | The draw, debit and paid expense that a draw adds, all for one amount, and whom it marks. |
| LotteryTheorems.EveryDrawIsPaidFor | src/financial/lottery.service.ts:51-90 | Over every run, a member active at k draws has at least k different completed contributions, less one for each draw that found nothing contributed since the draw before; none is lacking if no contribution of the member was made at the very moment of a draw. |
| LotteryTheorems.SecondDrawReusesExactly | src/financial/lottery.service.ts:64-77 | A second draw with no payment in between, at once or any time later, goes through on the same contributions if and only if the first kept some of the pool, the second does not keep all, everybody active contributed at the very moment of the first, and another member may win. |
| LotteryTheorems.EligibleExactly | src/financial/lottery.service.ts:92-110 | The eligible list names exactly the active members who have not won and are within the threshold. |
| LotteryTheorems.DrawIsFair | src/financial/lottery.service.ts:116-123 | Seeds that let one eligible member win and those for another differ by at most one, are equally many for all exactly when their number divides evenly, and nobody else ever wins. |
| LotteryTheorems.EvenChancesExactly | src/financial/lottery.service.ts:116-123 | With seeds of 256 bits every eligible member has the same chance if and only if their number is a power of two. |
| FineTheorems.FinesAreSpaced | src/automation/processors/fine-calculation.processor.ts:74-110 | Over every run, two missed-payment fines of a member are at least min(period, interval) apart. |
| FineTheorems.FinesPerWindow | src/automation/processors/fine-calculation.processor.ts:74-110 | Any w milliseconds hold at most 1 + w / min(period, interval) of them. |
| FineTheorems.DueExactly | src/automation/processors/fine-calculation.processor.ts:77-102 | Due for a fine means, on the rows: no contribution entry since the overdue date, and every missed-payment fine since then at least the interval old. |
| FineTheorems.PeriodRead | src/automation/processors/fine-calculation.processor.ts:147-160 | The period is one, seven, ninety or thirty days by the text of the frequency. |
| FineTheorems.IntervalRead | src/automation/processors/fine-calculation.processor.ts:62-75 | The decimal digits of n, after any zeros, followed by d, h or m are n days, hours or minutes. |
| FineTheorems.IntervalOtherwise | src/automation/processors/fine-calculation.processor.ts:62-75 | Any other interval text, and none, is thirty days. |
| FineTheorems.FineIsDebited | src/financial/fine.service.ts:27-82 | A fine is an unpaid row of today for the rate, or that percentage of the contribution, and a debit of the same amount on the member's running balance. |
| FineTheorems.JobFinesExactlyThoseDue | src/automation/processors/fine-calculation.processor.ts:74-110 | A full run of the job fines exactly the active members with no contribution entered in the period and every missed-payment fine in it as old as the interval, once each for the configured penalty. |
| FineTheorems.RetriedJobFinesOnce | src/automation/processors/fine-calculation.processor.ts:74-143 | Stopped between members and run again within the gap, then getting through, the job fines everybody active and overdue at first exactly once and nobody not overdue at the end: the same as one full run unless somebody fell due in between. |
| FineTheorems.JobBansExactlyThoseOver | src/automation/processors/fine-calculation.processor.ts:120-142 | A full run of the job bans exactly the active members whose fines exceed a positive cap; nobody still active is over it and no other row changes. |
| FineTheorems.ThresholdMistakenExactly | src/financial/fine.service.ts:138-158 | For any fines, the check differs from its documented meaning exactly when paid fines carry the sum over the threshold or, being negative, under it. |
| FineTheorems.ThresholdRightExactly | src/financial/fine.service.ts:138-158 | The check means what is documented for every threshold if and only if the member's paid fines add up to nothing. |
| FineTheorems.PayingNeverClears | src/financial/fine.service.ts:142-158 | Over every run without a waiver, what counts against a member changes by exactly the fines added meanwhile, whatever is paid; so a member above the threshold stays above it and out of every eligible list, unless the new fines are negative. |
| FineTheorems.WaiverTakesOff | src/financial/fine.service.ts:86-119 | A waiver takes exactly the fine's amount off, leaves the ledger alone and cannot be repeated. |
| FineTheorems.WaiverRefusedExactly | src/financial/fine.service.ts:86-119 | A waiver is refused exactly for a fine not of the mahber or already waived, and otherwise changes only the mark of that fine. |
| AttendanceTheorems.AtMostOneAbsenceFine | src/events/attendance.service.ts:249-272 | Over every run, all deliveries of the job for one event together fine a member at most once. |
| AttendanceTheorems.RetriesFineExactlyOnce | src/events/attendance.service.ts:249-272 | Stopping between members and trying again, then getting through, fines each absentee not mentioned before exactly once and nobody else: the same as one full run. |
| AttendanceTheorems.EveryAbsenteeFinedExactly | src/events/attendance.service.ts:497-510 | Every absentee ends up fined exactly when no absentee's entries mentioned the event before. |
| AttendanceTheorems.AbsentExactly | src/events/attendance.service.ts:205-222 | Absentees are exactly the active members without a record. |
| AttendanceTheorems.OnlyMandatoryFines | src/events/attendance.service.ts:229-272 | The job adds only fresh fines for the absence, and changes nothing for an event that is not mandatory. |
| CircuitBreaker.Gateway.Perform | src/financial/chapa.service.ts:127-200 | One gateway operation takes the breaker through asking, calling and recording. |
| CircuitBreaker.Gateway.IsCircuitOpen | src/financial/chapa.service.ts:101-110 | Answers whether a call is blocked and half-opens the circuit after the pause. |
| CircuitBreaker.Gateway.RecordFailure | src/financial/chapa.service.ts:117-125 | Counts a failure and opens the circuit from the fifth on. |
| CircuitBreaker.OpenMeansFiveFailures | src/financial/chapa.service.ts:101-125 | Over every sequence of calls the counter is the number of failures in a row, and the circuit is open exactly from five on. |
| CircuitBreaker.TurnedAwayExactly | src/financial/chapa.service.ts:101-125 | Over every sequence of calls, one is turned away if and only if the last five or more that reached the gateway failed in a row and it comes less than 60 s after the last of them ended. |
| CircuitBreaker.ProbesAreSpaced | src/financial/chapa.service.ts:101-125 | Without a success, calls that reach the gateway after five failures are at least 60 s apart. |
| CircuitBreaker.FailingCallsBounded | src/financial/chapa.service.ts:101-125 | Without a success, any T ms hold at most 5 + T / 60000 calls to the gateway. |
| CircuitBreaker.OpenNeedsFailures | src/financial/chapa.service.ts:101-125 | However requests overlap, the counter is the number of failures since the last answer, and an open circuit has at least five of them. |
| CircuitBreaker.HalfOpenBlocksExactly | src/financial/chapa.service.ts:104-124 | Within a pause of the first request let through, a further one is blocked if and only if one of the others is known to have failed (five of them, if one was answered first). |
| CircuitBreaker.HalfOpenAdmitsExactly | src/financial/chapa.service.ts:104-124 | A half-open window lets through as many further requests as are asked before the first failure is known. |
| CircuitBreaker.OneAloneExactly | src/financial/chapa.service.ts:104-108 | It lets one request through alone if and only if every other is asked after a failure is known. |
| LedgerCsv.ExportReadsBack | src/financial/ledger.service.ts:86-108 | Reading the export as in section 2 of RFC 4180 (with LF as separator, bare CR as text) recovers the six column names and, for each row, its six fields in that order. |
| LedgerCsv.QuotedExactly | src/financial/ledger.service.ts:86-92 | A field is exported as it stands if and only if it has no comma, quote or line break. |
| LedgerCsv.ExportIsInjective | src/financial/ledger.service.ts:86-108 | Different rows are never exported as the same text. |

## Left out

- AttendanceTheorems.AtMostOneAbsenceFine: takes the writing of a fine and of its ledger entry as one step; a crash between the two inside applyFine would let the retried job fine twice.
- LotteryTheorems.EveryDrawIsPaidFor: is one contribution for each draw only if none of the member's was made at the very moment of a draw, as the date filter is inclusive; LotteryTheorems.SecondDrawReusesExactly says exactly when two draws with no payment in between count the same ones.
- PoolTheorems.OnlyFinesMakeDebt: takes draws with a rate of at least zero and payouts of positive amounts, which request validation enforces (src/financial/lottery.controller.ts:14-18, src/financial/dto/create-payout.dto.ts:12-14). Penalties may be anything, since configuration is free-form (src/membership/dto/create-mahber.dto.ts:15-17).
- FineTheorems.PayingNeverClears: staying above the threshold needs that the fines added meanwhile do not sum to less than nothing, which free-form configuration allows.
- MoneyService.Store.CreateLedgerEntry: of a member's entries with one and the same latest timestamp it reads the last inserted, which the query leaves open; Ledger.ReadBalanceRightExactly says when any other choice is right.
- PaymentTheorems.BalancesAgree: rests on that choice for entries of one member at one moment; Ledger.DifferentStampsLeaveNoChoice shows there is none to make otherwise.
- FineTheorems.JobBansExactlyThoseOver: needs one membership row for each user, which the schema (prisma/schema.prisma:121) indexes but does not enforce.
- FineTheorems.JobFinesExactlyThoseDue: the same; FineTheorems.RetriedJobFinesOnce too.
- LotteryTheorems.DrawIsFair: the same; LotteryTheorems.EvenChancesExactly too.
- DueDates.MonthlyIsNextPayDay: for payment days of at least one; DueDates.MonthlyProgressExactly says what smaller ones do. DueDates.WeeklyIsNextWeekDay: for weekdays 0 to 6; DueDates.WeeklyProgressExactly says what other numbers do.
- Calendar.MakeDayReadsBack: the years 0 to 99, which the Date constructor moves to the twentieth century, and the range limit of Date are not modelled.
- Interleaving inside a service call: createLedgerEntry reads and then writes without a lock, and approve waits for the gateway between check and entry. Every call is one step here.
- Memberships made or changed by other services (join-request approval, suspension, reinstatement) appear as two steps that may set any status at any time; the transition rules are not part of this model.
- Gateway strings (checkout address, transfer reference), audit log, notifications, retry backoff, period_start, expires_at and has-been-read marks: written and never read by what is modelled.
- reconcilePaymentByTxRef (src/financial/payment.service.ts:409-438) and the webhook and callback controllers deliver notices; notices are arbitrary here, so all their deliveries are covered. Signature checks are not modelled.
- A bank code is absent, not a number or a number; how JavaScript reads the number is not modelled.
- Rounding to two decimals, conversion to floating point, time zones and daylight saving: money is exact and time is UTC.
- Option identifiers are non-empty strings other than `__proto__`, since the service uses them as property names; lower-casing is that of ASCII.
- Filters and order of the CSV export: the rows are arbitrary. The PDF reports and the financial report's net balance, whose signs do not match those in the ledger, are left out.
- Database bulk updates and lookups without a loop in the source (updateMany, findFirst, aggregate) are single expressions on the table.
- Deleting a mahber with a single member (src/membership/mahber.service.ts:183-216) removes all its rows; here rows only grow.
- Listing, paging, read receipts, role limits, join-request batches, authentication, QR codes, chat and file upload: they would only add easy members.
