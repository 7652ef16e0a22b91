# A SACCO backend, modelled and proved in Dafny

This project models the money code of a savings and credit co-operative (SACCO) backend and proves what that code is
meant to guarantee: over whole runs, over all interleavings, and for all inputs. Where the code does less than its
documentation promises, the model follows the code; a lemma then gives a concrete run on which the promise fails, and
another the exact condition under which it holds.

| modules | what they model |
|---|---|
| `LedgerModel`, `Ledger` | the double-entry ledger: tables, the database transactions as functions, and the service that runs them |
| `LedgerInvariants`, `LedgerStatement`, `LedgerControl`, `LedgerReversal`, `LedgerReplay`, `LedgerLinks`, `LedgerGuards`, `LedgerRecords`, `LedgerLegs`, `LedgerFunds`, `LedgerExamples` | what every run of the ledger keeps, when a call goes through, and what it records |
| `BalanceRace` | the conditional balance update under interleaving |
| `Amortization` | flat and reducing-balance repayment schedules with rounding |
| `CanonicalJson`, `JsonReader`, `JsonStorage`, `AuditChain`, `AuditTampering`, `AuditExamples` | the audit log: canonical JSON text, its storage, and the hash chain |
| `GuarantorModel`, `GuarantorService`, `GuarantorHolds`, `GuarantorDecisions`, `GuarantorRuns`, `GuarantorExamples`, `Remediation` | guarantor consent, held savings, and the release of stranded holds |
| `TenantScope`, `TenantIsolation` | the tenant middleware and what it is for |
| `EntryNumbers`, `JournalApproval`, `JournalFourEyes` | manual journal entries: numbering, totals and approval |
| `RedisStore`, `RedisLocks`, `Idempotency` | distributed locks and idempotency keys |
| `Decimals`, `Outcomes` | money arithmetic; optional values and failing calls |

`dafny verify dfyconfig.toml` verifies everything.

Conventions. Amounts are integers of 0.0001 KES, as the columns are DECIMAL(18,4); an amount that a caller passes is a
real and is rounded as the code rounds it, half away from zero. A database transaction either commits or leaves the
rows alone. A service whose methods change rows is a class, and each method is proved to commit exactly what a function
of the old rows says; the theorems are about that function. A run is a sequence of calls in which a failing call
changes nothing. A row's position in its table stands for its generated id.

What the proofs brought to light:

- `resolveGlCodes` ignores the direction of a posting, so a deposit posted as a debit is accepted and puts the control
  accounts out of step (`PostInStepIff`). A DIVIDEND_PAYOUT has no GL codes, so that posting one never writes
  anything (`PostWritesOnly`).
- The guard of `reverseTransaction` is meant to exclude transfers, but a transfer's entry has one posting, so its
  source leg can be reversed, alone (`ReverseInStepIff`).
- "Ledger is inconsistent" can be answered on a sound ledger: by a posting under the reference of a transfer's
  destination leg, or by a transfer whose source reference was used before (`PostInconsistentIff`,
  `TransferInconsistentIff`).
- The balance update compares neither versions nor holds with what was read. A row records the live balance exactly
  when the updates since its read cancel out (`RecordsTruthIff`), and a debit leaves the committed funds covered
  exactly when they have not risen by more than its headroom (`DebitLeavesFundedIff`). Today every posting runs in a
  serializable transaction, its own or its caller's, and PostgreSQL then refuses an update of a row that has changed:
  what is left is `UnchangedIsSafe`. The failing executions take a posting in a caller's transaction of a weaker
  level.
- The last row of a flat schedule has negative interest exactly when the share of a month is rounded up and whole part
  and remainder of total / n stay below n - 1 (`FlatLastInterestNegativeIff`). KES 0.02 over four months at 3% a year
  is such a loan (`NegativeInterestInstance`).
- Rows are verified in timestamp order but chained in lock order. The timestamp is taken when an event enters the
  queue, which has several workers and retries, so untouched rows can fail (`RetriedEventFailsVerification`).
  `persistEvent` hashes an undefined member as a null that is then not stored; it takes a direct call to get there,
  since what comes out of the queue has no undefined members (`UndefinedMemberFailsVerification`). The exact condition
  is `UntouchedAcceptedIff`. Of deleted rows, exactly those cut off the end go unnoticed (`DeletionUnnoticedIff`); of
  altered rows, only a re-signed last one (`AlterationUnnoticedIff`).
- An accept on a loan that an expiry has already rejected places a hold that nothing but the remediation releases
  (`DecisionStrandsRow`). A release that finds no active account still marks the row as released
  (`InactiveAccountStaysHeld`), and inviting an accepted guarantor again lets a second hold be placed
  (`SecondInvitationHoldsTwice`). `HoldConservation` says exactly when held savings are left over.
- The middleware does not look into update data, so an update may give a row away, to another tenant or to none. A run
  is the same as private databases throughout exactly when no call does (`TenantRefinementIff`, `OwnRowsIff`), and the
  others see nothing of it exactly when nothing comes to them (`HandingOverIsUnseenIff`). It also lets upserts rewrite
  the audit log (`UpsertKeepsAuditLogIff`).
- The millionth journal entry of a year gets seven digits, sorts before 999999, and blocks every later one
  (`NumberClashesIff`, `NumbersRunOut`). A total just below the approval threshold is compared before it is rounded,
  so it can be stored as the threshold and still be approved by its creator (`FourEyes`).
- `acquireLock` with a TTL of zero is not exclusive (`HeldLockIsTakenIff`); no caller passes one. A release between
  the two commands of another caller's reservation can let two callers proceed (`ReleaseInBetweenLetsTwoIn`). It does
  so exactly when somebody is told NEW while a caller that found the key gone is still working (`OneWorkerIff`).

## Model

| member | source | states |
|---|---|---|
| Ledger.LedgerService.ApplyBalanceChange | src/modules/accounting/ledger.service.ts:974-1035 | the conditional update; a debit goes through exactly when it leaves committed funds and the minimum balance covered, or, where the minimum does not apply, when the balance was not negative |
| Ledger.LedgerService.PostEntry | src/modules/accounting/ledger.service.ts:173-274 | commits the account, the statement row and the journal entry together, replays a known reference, and rolls back on every refusal |
| Ledger.LedgerService.CheckEntry | src/modules/accounting/ledger.service.ts:1050-1109 | a journal entry is refused exactly for missing GL codes or a taken entry number |
| Ledger.LedgerService.PostInternalTransfer | src/modules/accounting/ledger.service.ts:292-434 | both legs, both rows linked to each other and one entry, or nothing |
| Ledger.LedgerService.ReverseTransaction | src/modules/accounting/ledger.service.ts:532-640 | the opposite movement with swapped posting, the original marked REVERSED, or nothing |
| Ledger.LedgerService.MatchMpesaTransaction | src/modules/accounting/accounting.service.ts:1012-1161 | credits the account, writes row and entry on 2000 and completes the M-Pesa row, or nothing |
| LedgerInvariants.StepIsChange | src/modules/accounting/ledger.service.ts:173-640 | every call either appends one row with one entry, or two rows with one entry, or moves no money |
| LedgerInvariants.StepKeepsValid | src/modules/accounting/ledger.service.ts:173-640 | every call, with whatever arguments, keeps references unique, each row tied to its entry, reversals linear, statuses justified and transfer legs paired |
| LedgerInvariants.RunKeepsValid | src/modules/accounting/ledger.service.ts:173-640 | the same over every run from an empty ledger |
| LedgerStatement.StatementReplaysToBalance | src/modules/accounting/ledger.service.ts:205-235 | after any run each account's rows chain from zero to the live balance, each moves by exactly its amount, and they sum to the balance |
| LedgerStatement.RunReplays | src/modules/accounting/ledger.service.ts:336-378 | every row starts at the balance its account had when it was written, transfers and reversals included |
| LedgerControl.ControlAccounts | src/modules/accounting/ledger.service.ts:1050-1087 | after any admissible run without M-Pesa matches, net credit on 2300 is the sum of the tenant's FOSA balances and on 2400 of its BOSA balances |
| LedgerControl.ControlAccountsWithRecon | src/modules/accounting/accounting.service.ts:1067-1161 | with M-Pesa matches, net credit on 2000, 2300 and 2400 together is the sum of all balances of the tenant |
| LedgerControl.RunInStep | src/modules/accounting/ledger.service.ts:187-274 | the invariant behind both: balances and control accounts are in step per tenant and account type |
| LedgerControl.OneRowInStepIff | src/modules/accounting/ledger.service.ts:205-274 | one row and one entry keep the control accounts in step exactly when the entry credits or debits what the row moved |
| LedgerControl.PostInStepIff | src/modules/accounting/ledger.service.ts:1068-1078 | a posting keeps them in step if and only if its direction is the one its journal type assumes |
| LedgerControl.PostWritesOnly | src/modules/accounting/ledger.service.ts:1068-1083 | a posting of a journal type without GL codes never writes anything |
| LedgerControl.ReverseInStepIff | src/modules/accounting/ledger.service.ts:555-562 | a reversal keeps them in step if and only if the reversed row is no transfer leg |
| LedgerControl.TransferCodes | src/modules/accounting/ledger.service.ts:1058-1066 | the codes of a transfer are the same seen from either account |
| LedgerControl.TwoRowsInStep | src/modules/accounting/ledger.service.ts:380-434 | a transfer keeps them in step for all pairs of account types |
| LedgerExamples.WrongDirectionBreaksControl | src/modules/accounting/ledger.service.ts:1050-1083 | a deposit posted as a debit is accepted and breaks the control accounts |
| LedgerExamples.TransferReversalBreaksControl | src/modules/accounting/ledger.service.ts:555-562 | reversing the source leg of a transfer passes the guard and breaks the control accounts |
| LedgerExamples.DestinationReferenceConflicts | src/modules/accounting/ledger.service.ts:190-202 | a posting under a destination-leg reference is answered "ledger is inconsistent" |
| LedgerExamples.SourceReferenceConflicts | src/modules/accounting/ledger.service.ts:315-333 | a transfer whose source reference a posting has used is answered "ledger is inconsistent" |
| LedgerReversal.ReversedIffReversedOnce | src/modules/accounting/ledger.service.ts:564-640 | a row is REVERSED if and only if exactly one journal entry reverses its entry |
| LedgerReversal.ReversalComesLater | src/modules/accounting/ledger.service.ts:604-632 | chains of reversals are acyclic |
| LedgerReversal.ReversalParity | src/modules/accounting/ledger.service.ts:579-632 | the net effect of a chain on the balance and on every GL code is the original effect or nothing, by parity |
| LedgerReversal.ReversalSameAccount | src/modules/accounting/ledger.service.ts:579-602 | a chain of reversals stays on one account |
| LedgerReversal.ReverseUndoesPost | src/modules/accounting/ledger.service.ts:532-640 | reversing the last posting restores every balance and every net credit |
| LedgerReplay.ReplayIsInvisible | src/modules/accounting/ledger.service.ts:190-202 | any run leaves the ledger as the run that keeps only the first success of each reference |
| LedgerReplay.ReplayReturnsFirst | src/modules/accounting/ledger.service.ts:190-202 | a replayed posting returns the row and the entry of the first call |
| LedgerReplay.TransferReplayReturnsFirst | src/modules/accounting/ledger.service.ts:315-333 | a replayed transfer returns both rows and the entry of the first call |
| LedgerReplay.PostInconsistentIff | src/modules/accounting/ledger.service.ts:190-202 | when exactly a posting is answered "ledger is inconsistent" |
| LedgerReplay.TransferInconsistentIff | src/modules/accounting/ledger.service.ts:315-333 | when exactly a transfer is answered "ledger is inconsistent" |
| LedgerReplay.NoInconsistencyReached | src/modules/accounting/ledger.service.ts:190-202 | with references that do not end in a leg suffix neither answer is ever given |
| LedgerLinks.RowsAreLinked | src/modules/accounting/ledger.service.ts:342-378 | after any run the two rows of a transfer point at each other and move the same amount opposite ways, and a reversal points at the earlier row it undoes |
| LedgerLinks.MatchTiesReceipt | src/modules/accounting/accounting.service.ts:1067-1157 | a match credits the amount of the receipt and ties receipt and row together |
| LedgerLinks.ReceiptIsCreditedOnce | src/modules/accounting/accounting.service.ts:1067-1075 | a receipt is credited at most once in any run |
| LedgerGuards.PostWritesIff | src/modules/accounting/ledger.service.ts:173-274 | exactly when a posting writes: a positive amount under a new reference, an account that can move, one of five journal types, its GL codes configured, a free number |
| LedgerGuards.PostRefusedFor | src/modules/accounting/ledger.service.ts:173-274 | which error a posting is refused with, by the first of these checks that fails |
| LedgerGuards.TransferWritesIff | src/modules/accounting/ledger.service.ts:292-434 | the same for a transfer |
| LedgerGuards.ReverseSucceedsIff | src/modules/accounting/ledger.service.ts:532-640 | exactly when a reversal goes through: a COMPLETED row with an entry of its own, an account that can move back, a free reference and number |
| LedgerGuards.MatchSucceedsIff | src/modules/accounting/accounting.service.ts:1012-1161 | exactly when a match goes through: a pending receipt of the tenant, an active account, and room for its entry |
| LedgerRecords.RowTellsCall | src/modules/accounting/ledger.service.ts:205-235 | after any run every statement row has the type, tenant, account, amount, direction and reference that the call asked for that wrote it |
| LedgerRecords.EntryTellsCall | src/modules/accounting/ledger.service.ts:237-272 | and every journal entry the type, tenant and number |
| LedgerRecords.ReceiptNamesRow | src/modules/accounting/ledger.service.ts:190-274 | a call that goes through is answered with the row and entry it wrote, or, on a replay, writes nothing and is answered with ones that were there |
| LedgerRecords.OtherSideIsWhatCallsMoved | src/modules/accounting/ledger.service.ts:1068-1083 | over any run, reversals taken off, net debit on 1000 is deposits and matches less withdrawals, net credit on 4300 the fees charged, net debit on 1300 the disbursements, net credit on 2000 the matches, and the other income codes are untouched |
| LedgerLegs.LegService.PostGlOnlyLegEntry | src/modules/accounting/ledger.service.ts:852-930 | one entry and no account touched; a taken entry number is a replay |
| LedgerLegs.RepaymentInStepIff | src/modules/accounting/ledger.service.ts:689-724 | the legs of a repayment and the caller's one debit keep the books in step exactly when the debit is the sum of the legs newly posted |
| LedgerLegs.PostLegsNet | src/modules/accounting/ledger.service.ts:874-926 | legs take from a deposit code exactly what they post |
| LedgerLegs.LegsCredit | src/modules/accounting/ledger.service.ts:881-903 | penalties go to 4200, interest to 4000 and principal to 1300, each by what was newly posted of it |
| LedgerLegs.PostingSwallowsLeg | src/modules/accounting/ledger.service.ts:874-879 | a leg under the reference of an earlier posting writes no entry |
| LedgerFunds.EveryAccountFunded | src/modules/accounting/ledger.service.ts:998-1032 | over any run of postings, transfers, reversals and matches in which holds are placed only where the balance covers them, every account keeps covering its committed funds and minimum balance |
| LedgerFunds.CoveredHoldFits | src/modules/loans/guarantor-validation.service.ts:71-113 | a hold that the available balance covers is such a hold |
| BalanceRace.UninterruptedIsSerial | src/modules/accounting/ledger.service.ts:974-1035 | a read directly followed by its update is the serial balance change |
| BalanceRace.DebitLeavesFundedIff | src/modules/accounting/ledger.service.ts:998-1032 | a successful debit leaves committed funds and minimum balance covered if and only if they rose since its read by no more than the headroom it saw plus what went in and out since |
| BalanceRace.DebitLeavesFunded | src/modules/accounting/ledger.service.ts:998-1032 | under every interleaving a successful debit leaves them covered if they have not risen since its read |
| BalanceRace.AlwaysFunded | src/modules/accounting/ledger.service.ts:998-1032 | an account that starts funded stays funded while holds and minimum only fall |
| BalanceRace.NothingLost | src/modules/accounting/ledger.service.ts:1015-1026 | the balance is the opening balance plus successful credits minus successful debits, and the version counts them beside the adjustments |
| BalanceRace.RecordsTruthIff | src/modules/accounting/ledger.service.ts:994-1034 | a row records the live balance if and only if the updates between its read and its update cancel out |
| BalanceRace.UnmovedVersionRecordsTruth | src/modules/accounting/ledger.service.ts:994-1034 | in particular a row whose update found the version that was read records the live balance |
| BalanceRace.UnchangedIsSafe | src/modules/accounting/ledger.service.ts:147-149 | on an account that is as it was read, which serializable isolation enforces, the row is true and the funds stay covered |
| BalanceRace.TwoCreditsRecordTheSame | src/modules/accounting/ledger.service.ts:994-1034 | two interleaved credits may both record the same resulting balance |
| BalanceRace.HoldBetweenReadAndUpdate | src/modules/accounting/ledger.service.ts:998-1013 | an execution in which a hold placed between read and update is overrun by the debit |
| Amortization.BuildAmortizationSchedule | scripts/backfill-loan-schedules.js:57-94 | the script's two loops compute the specified schedules |
| Amortization.BuildFlat | scripts/backfill-loan-schedules.js:60-77 | the flat loop, accumulators included |
| Amortization.BuildReducing | scripts/backfill-loan-schedules.js:79-93 | the reducing-balance loop with its cap at the debt |
| Amortization.ReducingRows | scripts/backfill-loan-schedules.js:79-92 | each row asks for a twelfth of the annual rate on what the rows before it left, to the nearest unit, and for the rest of the instalment, cut down to what is owed; the last row for all that is owed |
| Amortization.ReducingTotals | scripts/backfill-loan-schedules.js:79-93 | n rows whose principal parts sum exactly to the principal, and never to more before |
| Amortization.RepaidSoFar | scripts/backfill-loan-schedules.js:79-93 | before the last row the debt is the principal less the parts repaid |
| Amortization.OutstandingNonNegative | scripts/backfill-loan-schedules.js:84-90 | the debt never goes negative, for any rate and instalment |
| Amortization.DebtFalls | scripts/backfill-loan-schedules.js:79-92 | if the instalment covers the first interest, debt and interest only fall |
| Amortization.NoNegativePrincipalIff | scripts/backfill-loan-schedules.js:84-88 | no principal part is negative if and only if the instalment covers the first month's interest |
| Amortization.ReducingMonotone | scripts/backfill-loan-schedules.js:79-92 | interest never rises and, while the rows ask for the whole instalment, principal parts never fall |
| Amortization.RoundingError | scripts/backfill-loan-schedules.js:79-92 | while the rows ask for the whole instalment, what is owed is within half a unit times the sum of the powers of 1 + annualRate / 12 of the unrounded recurrence |
| Amortization.AnnuityIsPowerSum | scripts/backfill-loan-schedules.js:79-92 | the bound is that sum of powers |
| Amortization.ClosingRowError | scripts/backfill-loan-schedules.js:84-90 | how far the closing row misses the instalment |
| Amortization.FlatTotals | scripts/backfill-loan-schedules.js:60-77 | the principal parts sum exactly to the principal and the interest parts to principal times annual rate times n / 12, to the nearest unit; every row but the last asks for the instalment with an equal share of the interest |
| Amortization.FlatLastInterest | scripts/backfill-loan-schedules.js:61-68 | the last interest part is within n/2 units of the others, and non-negative from n(n-1)/2 units of total interest on |
| Amortization.FlatLastInterestNegativeIff | scripts/backfill-loan-schedules.js:61-68 | the exact last interest part, from the sum of the interest parts and n, and when exactly it is negative |
| Amortization.FlatLastInterestCanBeNegative | scripts/backfill-loan-schedules.js:61-68 | for every even n of at least four, every schedule with n(n-3)/2 units of interest ends in minus one unit of interest |
| Amortization.NegativeInterestInstance | scripts/backfill-loan-schedules.js:61-68 | a loan of KES 0.02 over four months for which the script builds such a schedule |
| CanonicalJson.CanonicalTextIsInjective | src/modules/audit/audit.chain.service.ts:235-250 | two JSON values print the same text if and only if they are equal up to the order of keys |
| JsonReader.CanonicalTextReadsBack | src/modules/audit/audit.chain.service.ts:235-250 | canonical text is JSON: a reader of RFC 8259 gives back the value that was printed, and reads the text to its end |
| CanonicalJson.Readable | src/modules/audit/audit.chain.service.ts:235-250 | canonical text followed by a delimiter is read in one way only |
| CanonicalJson.EscapeAllReadable | src/modules/audit/audit.chain.service.ts:239-248 | a quoted string is determined by the text before its closing quote (section 7 of RFC 8259) |
| JsonReader.StringReads | src/modules/audit/audit.chain.service.ts:239-248 | what is printed for a string is read back as that string |
| CanonicalJson.HashedTextIsInjective | src/modules/audit/audit.chain.service.ts:53-55 | the hashed text determines its three parts although the payload may contain bars |
| JsonStorage.StoredTextIff | src/modules/audit/audit.chain.service.ts:92-94 | a stored state hashes to what was hashed at write time if and only if no member was undefined |
| JsonStorage.StoredIsSame | src/modules/audit/audit.chain.service.ts:252-254 | storing keeps the value exactly when no member was undefined |
| AuditChain.PayloadTextIsInjective | src/modules/audit/audit.chain.service.ts:34-52 | the payload text fixes all seventeen hashed fields |
| AuditTampering.PayloadTextReadsBack | src/modules/audit/audit.chain.service.ts:34-52 | the payload text is JSON that reads as the event's record, with each of the seventeen fields under its own name |
| AuditChain.HashesDistinct | src/modules/audit/audit.chain.service.ts:53-55 | no two events of a chain have the same hash |
| AuditChain.PrevsDistinct | src/modules/audit/audit.chain.service.ts:32-33 | no two events of a chain hang off the same predecessor |
| AuditChain.InterleavedChains | src/modules/audit/audit.chain.service.ts:26-119 | for any interleaving over tenants, each tenant's rows are the chain of its own jobs, and its head holds the last hash and counts the rows |
| AuditChain.UntouchedAcceptedIff | src/modules/audit/audit.chain.service.ts:121-190 | untouched rows verify if and only if timestamp order is chain order and no payload had an undefined member |
| AuditChain.IncreasingTimestampsAccepted | src/modules/audit/audit.chain.service.ts:147-190 | strictly increasing timestamps are enough for the order |
| AuditChain.SameLastHashSameRows | src/modules/audit/audit.chain.service.ts:154-187 | two accepted lists with the same last hash agree in length and in every hashed field |
| AuditChain.AcceptedPrevsDistinct | src/modules/audit/audit.chain.service.ts:154-158 | no two rows of an accepted list hang off the same predecessor |
| AuditChain.DeletionUnnoticedIff | src/modules/audit/audit.chain.service.ts:154-189 | after deleting rows of an accepted list the rest is accepted if and only if it is a prefix |
| AuditTampering.AlterationUnnoticedIff | src/modules/audit/audit.chain.service.ts:154-187 | a changed row of an accepted list goes unnoticed if and only if nothing changed that is hashed or signed, or it is the last row, correctly hashed and signed anew |
| AuditTampering.AcceptsIff | src/modules/audit/audit.chain.service.ts:154-187 | a list is accepted exactly when each row has the hash of the one before it, the hash of its own text and the signature of that |
| AuditExamples.SampleIsSound | src/modules/audit/audit.chain.service.ts:53-55 | the assumptions made of the hash can be met |
| AuditExamples.RetriedEventFailsVerification | src/modules/audit/audit.chain.service.ts:147-158 | two untouched rows chained against their timestamps are rejected |
| AuditExamples.UndefinedMemberFailsVerification | src/modules/audit/audit.chain.service.ts:92-94 | an untouched row written by a direct call with an undefined member is rejected |
| AuditChain.AuditChainService.LockChainHead | src/modules/audit/audit.chain.service.ts:192-214 | creates the head at genesis or returns the existing one |
| AuditChain.AuditChainService.PersistEvent | src/modules/audit/audit.chain.service.ts:26-119 | appends the event to the tenant's chain and moves its head |
| AuditChain.AuditChainService.VerifyTenantChain | src/modules/audit/audit.chain.service.ts:121-190 | accepts exactly well-linked, correctly hashed and signed rows, and names the first row that fails |
| GuarantorService.GuarantorResponseService.PlaceGuarantorHolds | src/modules/loans/guarantor-validation.service.ts:71-113 | a hold was available, adds exactly its amount, and leaves the balance covering all committed funds |
| GuarantorService.GuarantorResponseService.ReleaseGuarantorHolds | src/modules/loans/guarantor-validation.service.ts:115-146 | releases at most what is held, and nothing without an active account |
| GuarantorService.GuarantorResponseService.ReleaseAcceptedHolds | src/loans/guarantor-response.service.ts:527-569 | the loop releases and marks every accepted row that was not released |
| GuarantorService.GuarantorResponseService.ApplyLoanState | src/loans/guarantor-response.service.ts:356-525 | the loan's transition after a decision |
| GuarantorService.GuarantorResponseService.ApplyDecision | src/loans/guarantor-response.service.ts:165-308 | commits the whole decision or nothing |
| GuarantorHolds.UnreleasedIsHeld | src/modules/loans/guarantor-validation.service.ts:71-113 | an accepted, unreleased guarantee is backed by its account |
| GuarantorHolds.ReleaseAllSlack | src/loans/guarantor-response.service.ts:541-553 | releasing a loan's rows keeps the pool matched exactly when every account is active |
| GuarantorDecisions.DecisionRow | src/loans/guarantor-response.service.ts:239-251 | what becomes of each row in a decision |
| GuarantorDecisions.DecisionKeepsValid | src/loans/guarantor-response.service.ts:188-308 | decisions keep every guarantee backed |
| GuarantorDecisions.DecisionSlack | src/loans/guarantor-response.service.ts:188-308 | a decision leaves the pool matched unless it rejects the loan while an accepted guarantor has no active account |
| GuarantorDecisions.LoanProgress | src/loans/guarantor-response.service.ts:374-525 | exactly when a loan goes to approval (nobody pending, enough accepted, and their amounts at least principal times coverage ratio), keeps waiting, or is rejected, and that a rejection releases every accepted row |
| GuarantorDecisions.AcceptanceRestsOn | src/loans/guarantor-response.service.ts:179-237 | an accepted answer was in time, acknowledged, from an active member with approved KYC who had the amount free on an account of the product's type |
| GuarantorDecisions.DecideSucceedsIff | src/loans/guarantor-response.service.ts:176-237 | exactly when a decision goes through |
| GuarantorDecisions.DecideRefusedFor | src/loans/guarantor-response.service.ts:176-237 | which error it is refused with, by the first check that fails |
| GuarantorDecisions.DecisionTouchesOnly | src/loans/guarantor-response.service.ts:227-237 | a decision holds and releases savings of the loan's guarantors only, on accounts of the type that the product asks for; unless it rejects the loan it only adds the accepted amount |
| GuarantorDecisions.ExpiredIff | src/loans/guarantor-response.service.ts:219-226 | an answer is recorded as expired exactly when it came more than 72 hours after the invitation or from the expiry |
| GuarantorDecisions.ReportedCoverage | src/loans/guarantor-response.service.ts:392-400 | the missing coverage that is reported is principal times coverage ratio less the accepted amounts left, to the nearest unit and never negative |
| GuarantorDecisions.DecisionStrandsRow | src/loans/guarantor-response.service.ts:374-374 | a decision strands exactly the guarantee just accepted on a loan rejected before |
| GuarantorExamples.LateAnswerRejects | src/loans/guarantor-response.service.ts:452-454 | a late answer rejects the loan while another guarantor is still pending |
| GuarantorExamples.UndercoveredIsRejected | src/loans/guarantor-response.service.ts:388-409 | an accept for the whole principal of a loan whose coverage ratio is 1.5 rejects it with half the principal missing |
| GuarantorExamples.AcceptAfterRejectionStrands | src/loans/guarantor-response.service.ts:229-237 | that other guarantor's accept still places a hold |
| GuarantorExamples.InactiveAccountStaysHeld | src/modules/loans/guarantor-validation.service.ts:115-146 | a rejection marks a row as released whose account is no longer active, and its savings stay held for nothing |
| GuarantorExamples.SecondInvitationHoldsTwice | src/modules/loans/loan-application.service.ts:1330-1348 | an accepted guarantor who is invited and accepts again is held twice |
| GuarantorRuns.HoldConservation | src/loans/guarantor-response.service.ts:188-308 | over any run an account holds at least what its unreleased guarantees count on, and exactly that if and only if no step stranded a hold |
| GuarantorRuns.StepSlack | src/loans/guarantor-response.service.ts:527-569 | the same for one step of any kind |
| GuarantorRuns.InviteSlack | src/modules/loans/loan-application.service.ts:1330-1348 | an invitation keeps the pool matched unless it invites a guarantor whose hold is in place |
| GuarantorRuns.InvitationStands | src/modules/loans/loan-application.service.ts:1330-1348 | a draft or waiting loan takes an invitation; then the request is pending with its amount, can be answered for 72 hours, and nothing else has changed |
| GuarantorRuns.StepKeepsValid | src/loans/guarantor-response.service.ts:165-308 | every step keeps the rows sound |
| GuarantorRuns.OneHoldPerInvitation | src/loans/guarantor-response.service.ts:239-251 | at most one hold placed per invitation of a row, at most one released ever, none released that was not placed |
| GuarantorRuns.RetryIsRefused | src/loans/guarantor-response.service.ts:195-198 | a decision that is sent again is refused |
| Remediation.RemediateStrandedDataCommand.ReleaseStrandedGuarantorFunds | src/commands/remediate-stranded-data.command.ts:110-165 | the loop over the candidates, dry runs, failures and counters included |
| Remediation.RemediateStrandedDataCommand.ReleaseOneGuarantorHold | src/commands/remediate-stranded-data.command.ts:167-267 | releases what is held up to the guaranteed amount and marks the row |
| Remediation.RemediateStrandedDataCommand.MarkGuarantorReleased | src/commands/remediate-stranded-data.command.ts:269-283 | the row becomes RELEASED |
| Remediation.StrandedAfter | src/commands/remediate-stranded-data.command.ts:114-121 | exactly the candidates that failed, or all in a dry run, are still stranded |
| Remediation.RemediatedRow | src/commands/remediate-stranded-data.command.ts:114-165 | what a run makes of each row: an accepted, unreleased guarantee of a rejected loan becomes RELEASED, unless it fails or it is a dry run; all else stays |
| Remediation.CountersAre | src/commands/remediate-stranded-data.command.ts:125-164 | from whatever rows, the counters add up and count each missing account |
| Remediation.SecondRunChangesNothing | src/commands/remediate-stranded-data.command.ts:110-165 | after a live run without failures a second one finds and changes nothing |
| Remediation.DryRunChangesNothing | src/commands/remediate-stranded-data.command.ts:143-149 | a dry run only counts |
| Remediation.FrozenFallsByReleased | src/commands/remediate-stranded-data.command.ts:229-250 | held savings of every account fall by exactly what the log says and never below zero |
| Remediation.ReleasesInFull | src/commands/remediate-stranded-data.command.ts:167-267 | from sound rows every release is in full, every candidate is accounted for, and the pool stays matched |
| TenantScope.MiddlewareParams.GetArgs | src/prisma/prisma-tenant.extension.ts:122-130 | missing arguments become empty ones |
| TenantScope.MiddlewareParams.AddTenantToWhere | src/prisma/prisma-tenant.extension.ts:132-137 | the condition names the tenant, and keeps its other columns |
| TenantScope.MiddlewareParams.EnforceAuditLogAppendOnly | src/prisma/prisma-tenant.extension.ts:154-162 | updates and deletes of the audit log are refused |
| TenantScope.MiddlewareParams.ApplyTenantScope | src/prisma/prisma-tenant.extension.ts:164-201 | rewrites the arguments by action, or refuses, or lets the call through |
| TenantScope.ScopeRefusesIff | src/prisma/prisma-tenant.extension.ts:112-162 | exactly which requests are refused |
| TenantScope.UnscopedPasses | src/prisma/prisma-tenant.extension.ts:168-175 | a request outside the tenants' models, or made by no tenant, is let through unchanged |
| TenantIsolation.ScopedSatisfies | src/prisma/prisma-tenant.extension.ts:132-137 | a row meets the scoped condition if and only if the tenant owns it and it meets the tenant's own condition |
| TenantIsolation.BuiltOwned | src/prisma/prisma-tenant.extension.ts:139-152 | every row built from stamped data, nested lists included, belongs to the tenant |
| TenantIsolation.StampedRows | src/prisma/prisma-tenant.extension.ts:139-152 | the rows built from stamped data are the rows of the caller's own data, in number and order, each with the tenant in its column and every other column as given, nested lists included |
| TenantIsolation.ScopedExecutes | src/prisma/prisma-tenant.extension.ts:164-201 | one scoped call does to the tenant's rows what the call with its data as given does in a private database whose tenant column is the tenant's, and nothing to others |
| TenantIsolation.OwnRowsIff | src/prisma/prisma-tenant.extension.ts:189-200 | after an update, updateMany or upsert the caller's rows are as in its private database if and only if every row it changed is still the caller's |
| TenantIsolation.UnassignedStaysHome | src/prisma/prisma-tenant.extension.ts:189-200 | which holds of every call whose update data leaves the tenant column alone |
| TenantIsolation.TenantRefinement | src/prisma/prisma-tenant.extension.ts:164-201 | over any interleaved run in which no call gives a row away, each tenant's answers and rows are those of its own calls on a private database |
| TenantIsolation.TenantRefinementIff | src/prisma/prisma-tenant.extension.ts:164-201 | after each call of a run every tenant has the rows of its private run if and only if no call gives a row away |
| TenantIsolation.HandingOverIsUnseenIff | src/prisma/prisma-tenant.extension.ts:189-200 | another tenant sees nothing of an update, updateMany or upsert if and only if no row it changes comes out as that tenant's, assigned or computed |
| TenantIsolation.AuditLogAppendOnly | src/prisma/prisma-tenant.extension.ts:154-162 | without upserts the audit log only grows at its end |
| TenantIsolation.UpsertKeepsAuditLogIff | src/prisma/prisma-tenant.extension.ts:194-200 | an upsert keeps the audit log exactly when it finds no row or changes nothing in it |
| EntryNumbers.NumbersInOrder | src/modules/accounting/accounting.service.ts:371-386 | zero-padded text order is numeric order up to 999999 |
| EntryNumbers.MillionthIsBefore | src/modules/accounting/accounting.service.ts:371-386 | the millionth number sorts before the one that precedes it |
| EntryNumbers.SequenceRoundTrip | src/modules/accounting/accounting.service.ts:382-386 | parsing undoes the numbering |
| EntryNumbers.NumberReads | src/modules/accounting/accounting.service.ts:382-386 | a number reads JE, the year and the sequence number in at least six digits, between dashes |
| EntryNumbers.PrefixesDiffer | src/modules/accounting/accounting.service.ts:371-379 | a number of one year is never taken for one of another |
| JournalApproval.AccountingService.TotalAmount | src/modules/accounting/accounting.service.ts:332-335 | the sum of the lines, unrounded |
| JournalApproval.AccountingService.Validate | src/modules/accounting/accounting.service.ts:337-367 | the checks before a number is generated, in their order |
| JournalApproval.AccountingService.CreateJournalEntry | src/modules/accounting/accounting.service.ts:326-427 | appends the entry with the next number and its status, or nothing |
| JournalApproval.AccountingService.ApproveJournalEntry | src/modules/accounting/accounting.service.ts:470-513 | approves a pending entry of another creator, or nothing |
| JournalApproval.AccountingService.RejectJournalEntry | src/modules/accounting/accounting.service.ts:536-572 | rejects a pending entry, or nothing |
| JournalApproval.NumbersAreConsecutive | src/modules/accounting/accounting.service.ts:369-386 | over any run a tenant's entries of a year are numbered 1, 2, 3, ... in order of creation, a million at most |
| JournalApproval.NumberClashesIff | src/modules/accounting/accounting.service.ts:369-427 | a valid request clashes if and only if the year already has a million entries |
| JournalApproval.NumbersRunOut | src/modules/accounting/accounting.service.ts:369-427 | a run that gets there: a million valid requests succeed and the next is refused |
| JournalApproval.NextIs | src/modules/accounting/accounting.service.ts:381-385 | which number the next entry is given |
| JournalApproval.DecidedOnce | src/modules/accounting/accounting.service.ts:485-505 | an entry leaves PENDING_APPROVAL at most once |
| JournalFourEyes.TotalIsPosted | src/modules/accounting/accounting.service.ts:332-335 | the total of a request is what its postings add up to, but for the rounding of each, and exactly that when every line is a whole number of units |
| JournalFourEyes.CreatesIff | src/modules/accounting/accounting.service.ts:332-427 | exactly when a request is granted, and that the entry posts each line, adds up to its total and needs approval from KES 100,000 on |
| JournalFourEyes.DecidesIff | src/modules/accounting/accounting.service.ts:470-572 | exactly when an entry is approved or rejected, and that only its decision changes |
| JournalFourEyes.FourEyes | src/modules/accounting/accounting.service.ts:388-391 | approved entries at or above the threshold, by their stored total as by their postings, have another approver, if and only if no request below the threshold is stored at it |
| JournalFourEyes.WholeUnitsFourEyes | src/modules/accounting/accounting.service.ts:388-391 | in particular when every line is a whole number of units |
| JournalFourEyes.NewEntryCheckedIff | src/modules/accounting/accounting.service.ts:388-410 | when exactly a new entry breaks that rule |
| RedisStore.RedisService.Set | src/common/services/redis.service.ts:155-175 | sets the key unless NX forbids it; a TTL of zero drops NX |
| RedisStore.RedisService.Get | src/common/services/redis.service.ts:136-143 | the value, or nothing on an error |
| RedisStore.RedisService.Del | src/common/services/redis.service.ts:177-183 | the key is gone unless the command was lost |
| RedisStore.RedisService.ConsumeIfValue | src/common/services/redis.service.ts:189-210 | deletes exactly a key that holds the expected value |
| RedisStore.RedisService.AcquireLock | src/common/services/redis.service.ts:228-232 | a token only if the key was set for it |
| RedisStore.RedisService.ReleaseLock | src/common/services/redis.service.ts:242-249 | frees the lock only with its token |
| RedisLocks.MutualExclusion | src/common/services/redis.service.ts:228-249 | between two successful acquisitions of a key the first owner released it or it expired, under any interleaving and any connection errors |
| RedisLocks.LockIsKept | src/common/services/redis.service.ts:189-249 | a lock stays with its owner through stale releases and other acquisitions |
| RedisLocks.ExpiryFreesIff | src/common/services/redis.service.ts:155-175 | a lock that its owner still holds is freed by an expiry exactly when its acquisition sent NX |
| RedisLocks.AcquiresIff | src/common/services/redis.service.ts:155-175 | exactly when an undisturbed acquisition succeeds, and that it leaves its token and its TTL |
| RedisLocks.ReleaseFreesIff | src/common/services/redis.service.ts:193-199 | a release frees a lock if and only if it has the stored token |
| RedisLocks.HeldLockIsTakenIff | src/common/services/redis.service.ts:158-170 | a held lock is taken exactly by an acquisition that sends no NX |
| Idempotency.KeysDiffer | src/common/services/idempotency.service.ts:140-142 | keys of different tenants never collide |
| Idempotency.IdempotencyService.CheckAndReserve | src/common/services/idempotency.service.ts:47-87 | undisturbed, reserves a free or corrupt key and otherwise answers what is stored |
| Idempotency.IdempotencyService.Complete | src/common/services/idempotency.service.ts:112-116 | stores the result, and touches no other key |
| Idempotency.IdempotencyService.Release | src/common/services/idempotency.service.ts:123-127 | frees the key, and touches no other |
| Idempotency.IdempotencyService.GetResult | src/common/services/idempotency.service.ts:94-103 | the stored result, if there is one |
| Idempotency.UninterruptedIsCheckAndReserve | src/common/services/idempotency.service.ts:54-87 | the two interleaved commands, uninterrupted, are the method |
| Idempotency.StepOrderlyIff | src/common/services/idempotency.service.ts:66-71 | a step keeps reservations and callers in line exactly when it does not find the key gone |
| Idempotency.AlwaysOrderlyIff | src/common/services/idempotency.service.ts:47-87 | over a whole execution they stay in line if and only if nobody ever finds the key gone |
| Idempotency.OneWorkerIff | src/common/services/idempotency.service.ts:47-87 | without expiry and errors, at most one caller works at a time if and only if nobody is told NEW while a caller that found the key gone is still working |
| Idempotency.OneNewPerReservation | src/common/services/idempotency.service.ts:47-87 | in particular when nobody releases between another caller's two commands |
| Idempotency.CompletedStays | src/common/services/idempotency.service.ts:112-116 | after a completion by the only worker the result stays, nobody works, and everybody who reads is given it |
| Idempotency.ReleaseInBetweenLetsTwoIn | src/common/services/idempotency.service.ts:66-71 | a release between the two commands lets two callers in |

## Left out

- Controllers, modules, guards, decorators, logging, alerts, notifications, SMS and e-mail: no state worth proving.
- Descriptions, notes, actors and the audit rows written beside each call of the ledger, the guarantor and the
  remediation code; `systemUserIdCache`, which only looks an actor up.
- decimal.js works with 20 significant digits; products and quotients are exact here and only the explicit roundings
  are kept.
- PostgreSQL isolation levels and serialization failures: a transaction is atomic, except in `BalanceRace`, where the
  read and the conditional update of a balance change are two steps and nothing is refused for a conflict.
- `AccountingService.createJournalEntry` reads the last number and creates the entry without a transaction: only
  sequential runs are modelled. Text order is taken by code unit, as for digits in any collation.
- GL-only legs are kept out of the ledger runs, since their callers write the account and the row; `LedgerLegs` states
  the condition for one repayment.
- The ledger's statement queries: opening plus inflow minus outflow is not the closing balance in general.
- SHA-256 and HMAC are functions of which only this is assumed: no collision among the texts of the rows concerned, no
  bar in a digest, and genesis is no digest of them. Signatures are compared as text, not as bytes.
- `JsonReader` reads neither white space nor escaped surrogates, which canonical text does not contain.
- JSON numbers are kept as their text: minus zero, NaN and the way jsonb normalises numerals are not modelled, nor are
  lone surrogates.
- One guarantor decision at a time: only the row is locked, so two concurrent accepts need not see each other.
- One tenant's guarantor rows: every query there filters by tenant. One account per member and type: a second account
  opened after the first was deactivated is not modelled.
- The officer's rejection and the release on full repayment (src/modules/loans/loans.service.ts:1110-1165, 1692-1745),
  the hourly expiry sweep, default recovery, and the eligibility checks and cap of an invitation.
- The approval-chain half of the remediation command: it writes a report and inserts placeholder rows.
- The failures of a remediation transaction are given as a set of candidates; file output is not modelled.
- Raw SQL, nested writes, relation filters, actions that the middleware does not name, and unique constraints across
  tenants are outside the tenant refinement. The DO INSTEAD NOTHING rules of the database are not part of this model.
- When a Redis key expires is left open: it may happen at any moment. `RedisLocks` has both expiry and connection
  errors; the interleaving in `Idempotency` has neither, since either makes a caller NEW by design.
- src/modules/audit/audit-chain.service.ts and the ad hoc hashes of `AuditService`: another hash formula, not wired
  in.
