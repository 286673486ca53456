# FuelEU Maritime compliance core, modelled in Dafny

This project models the business core of the FuelEU Maritime compliance
backend:

- **Pooling** (`PoolingService`). A pool of ships is rejected when its total
  Compliance Balance (CB) is negative. Otherwise:
  - deficits (CB below zero) are sorted most negative first;
  - surpluses (CB zero or above) are sorted largest first;
  - a greedy cursor sweep moves balance from surpluses to deficits;
  - every member's end balance is checked;
  - the pool is committed in one repository call.
- **Banking** (`ComplianceService`). A positive CB of one year is banked as a
  new entry. Banked surplus is applied to a deficit year after three ordered
  checks, by a FIFO deduction over the entries the repository returns (amount
  above zero, oldest year first), plus one applied record. The adjusted CB is
  the raw CB plus everything applied to that ship and year.
- **Formulas.** Energy in scope, and the CB as (target − actual intensity) ×
  energy.
- **The row mapper** `toCamelCase`. It rewrites every key of every plain
  object from snake_case to camelCase, recursing through arrays and object
  values.

Modules, in dependency order:

- `Outcomes`: the result and outcome types, and one error constructor per
  error the services throw.
- `Formulas`
- `Mappers`
- `PoolOrder`: the partition and the stable sorts that fix the allocator's
  visiting order.
- `Pooling`: the sweep over arrays, the validation loop, and the
  `PoolingService` class with its committed pools.
- `BankLedger`: the specification functions of the bank view (`Drain`,
  `InsertByYear`) and their lemmas.
- `Compliance`: the `ComplianceService` class, which holds the bank and
  applied tables and changes them in place.
- `BankRows`: how a bank row reads back after the mapper.
- `Scenarios`: the documented runs, pinned down by the contracts.

Amounts are `real`. The CB of a ship and year (`getOrComputeCB`) is the
constant map `routeCB` of the service object. A ship-year without an entry
raises the "no routes" error.

Where the tests and the code disagree, the model follows the code:

- **A four-ship pool is rejected.** Surpluses 100 and 20 with deficits −50
  and −80 add up to −10, so `createPool` rejects them
  (`Scenarios.ShortPoolRejected`). `PoolingService.test.ts:46-66` expects an
  allocation, with deficit D2 ending at +20. That result is also impossible
  because a transfer is capped at the remaining need.
- **The second validation rule applies only to members with `cb_before > 0`**
  (`PoolingService.ts:30`). A member that starts at exactly zero is never
  checked by it.

## Model

| member | source | states |
|---|---|---|
| Outcomes.Min | backend/src/core/application/PoolingService.ts:73 | `Math.min` as used by both services (here and at `ComplianceService.ts:106`): the result is one of the two arguments and no larger than either. |
| Formulas.EnergyInScope | backend/src/core/domain/formulas.ts:3-7 | Positive fuel gives more MJ than tonnes. The energy is zero exactly for zero fuel. Dividing by the 41000 factor gives the tonnage back. |
| Formulas.EnergyAdditive | backend/src/core/domain/formulas.ts:5-7 | Energy in scope is additive in fuel. |
| Formulas.ComplianceBalance | backend/src/core/domain/formulas.ts:9-23 | With positive energy the CB is positive iff actual < target (surplus) and negative iff actual > target (deficit). It is zero when actual equals target or when the energy is zero. |
| Formulas.ProductSign | backend/src/core/domain/formulas.ts:22 | With a positive energy factor, the product has the sign of the intensity gap, in both directions. |
| Formulas.BalanceAdditiveInEnergy | backend/src/core/domain/formulas.ts:17-23 | The CB is linear in energy: two energies at one intensity add their balances. |
| Formulas.BalanceScalesWithEnergy | backend/src/core/domain/formulas.ts:17-23 | More energy makes a surplus no smaller and a deficit no shallower. |
| Mappers.MatchCount | backend/src/shared/mappers.ts:8-10 | A global left-to-right scan finds non-overlapping matches: at most half the key's length. |
| Mappers.CamelKey | backend/src/shared/mappers.ts:8-10 | The rewritten key is the key's length minus the number of matches. Every character in it is from the key or is an upper-case letter. |
| Mappers.CamelKeyNoPair | backend/src/shared/mappers.ts:8-10 | A key with no separator-letter pair is unchanged. |
| Mappers.CamelKeyHead | backend/src/shared/mappers.ts:8-10 | A non-empty key stays non-empty and starts with its own first character or an upper-case letter. |
| Mappers.CamelKeyClean | backend/src/shared/mappers.ts:8-10 | No rewritten key has a separator directly before a lower-case letter. |
| Mappers.SnakeCamelRoundTrip | backend/src/shared/mappers.ts:1-10 | A well-formed snake_case column name converts to camelCase, and the reference snake_case conversion gives it back (`route_id` → `routeId` → `route_id`). |
| Mappers.SnakePairStep | backend/src/shared/mappers.ts:8-10 | Round-trip step: a '_' plus a lower-case letter becomes the upper-case letter and turns back into the pair. |
| Mappers.CamelSnakeRoundTrip | backend/src/shared/mappers.ts:8-10 | A separator-free camelCase name converts to snake_case, and the mapper gives it back. |
| Mappers.LookupAbsent | backend/src/shared/mappers.ts:11 | A key reads back nothing exactly when the object does not have it. |
| Mappers.Put | backend/src/shared/mappers.ts:11 | Assigning a property: a new key is appended at the end; an existing key keeps the object's size. |
| Mappers.PutKeys | backend/src/shared/mappers.ts:11 | An assignment adds its key and no other. |
| Mappers.PutLookup | backend/src/shared/mappers.ts:11 | After an assignment, the key reads the new value and every other key reads what it read before. |
| Mappers.PutUnique | backend/src/shared/mappers.ts:11 | An assignment never creates a duplicate key. |
| Mappers.ToCamelCase | backend/src/shared/mappers.ts:3-16 | Arrays map to arrays of the same length. Objects map to objects with distinct keys and no more fields. Every other value (null, scalars, class instances) is returned unchanged. |
| Mappers.ConvertFields | backend/src/shared/mappers.ts:7-13 | The object the reduce builds after n keys has distinct keys and at most n fields. |
| Mappers.LastWithKey | backend/src/shared/mappers.ts:7-13 | Finds the last of the first n source keys that rewrites to k: it rewrites to k and no later one does. |
| Mappers.LaterKeyWins | backend/src/shared/mappers.ts:7-13 | In the converted object, a camelCase key holds the converted value of the last source key that rewrites to it, and nothing if none does. |
| Mappers.ConvertKeys | backend/src/shared/mappers.ts:7-13 | The converted object has key k iff some source key rewrites to k. |
| Mappers.SnakeKeyLost | backend/src/shared/mappers.ts:8-11 | A key with a separator before a lower-case letter (a snake_case column name) is never a key of a converted object, so it reads back nothing. |
| Mappers.AlreadyCamelUnchanged | backend/src/shared/mappers.ts:3-16 | On a value whose objects already have distinct camelCase keys, the mapper is the identity. |
| Mappers.AlreadyCamelFields | backend/src/shared/mappers.ts:7-13 | The reduce rebuilds such an object field by field, in order. |
| PoolOrder.TotalBefore | backend/src/core/application/PoolingService.ts:14 | The `reduce` summing cb_before over the request; its properties are stated by the lemmas below. |
| PoolOrder.TotalBeforeAppend | backend/src/core/application/PoolingService.ts:14 | The sum over a concatenation is the sum of the parts. |
| PoolOrder.Deficits | backend/src/core/application/PoolingService.ts:47-48 | The deficit group holds only members with cb_before < 0. |
| PoolOrder.Surpluses | backend/src/core/application/PoolingService.ts:52-53 | The surplus group holds only members with cb_before >= 0. |
| PoolOrder.PartitionMultiset | backend/src/core/application/PoolingService.ts:47-55 | Together the two groups are exactly the request, as a multiset. |
| PoolOrder.PartitionTotal | backend/src/core/application/PoolingService.ts:47-55 | The two groups' cb_before totals add up to the pool total. |
| PoolOrder.SortBy | backend/src/core/application/PoolingService.ts:50-55 | The sort returns a sorted permutation of its input, with the same total. |
| PoolOrder.SortStable | backend/src/core/application/PoolingService.ts:50-55 | The sort is stable: members of the group with equal cb_before keep their order in the group. |
| PoolOrder.Ordered | backend/src/core/application/PoolingService.ts:81 | `[...deficits, ...surpluses]`: the sorted deficits followed by the sorted surpluses; its properties are stated by the lemmas below. |
| PoolOrder.DeficitsTied | backend/src/core/application/PoolingService.ts:47-48 | The deficit filter keeps the request's order among members that share a negative cb_before. |
| PoolOrder.SurplusesTied | backend/src/core/application/PoolingService.ts:52-53 | The surplus filter keeps the request's order among members that share a non-negative cb_before. |
| PoolOrder.DeficitsStable | backend/src/core/application/PoolingService.ts:47-50 | Deficits with equal cb_before appear in the sorted deficit group in the order of the request. |
| PoolOrder.SurplusesStable | backend/src/core/application/PoolingService.ts:52-55 | Surpluses with equal cb_before appear in the sorted surplus group in the order of the request. |
| PoolOrder.OrderedPermutation | backend/src/core/application/PoolingService.ts:47-81 | `[...deficits, ...surpluses]` is a permutation of the request, with the same total. |
| PoolOrder.SortedGroups | backend/src/core/application/PoolingService.ts:47-55 | The sorted deficits are all negative and ascending. The sorted surpluses are all non-negative and descending. |
| PoolOrder.OrderedDeficitsFirst | backend/src/core/application/PoolingService.ts:47-81 | The first entries of the allocator's order are the deficits, most negative first. |
| PoolOrder.OrderedSurplusesAfter | backend/src/core/application/PoolingService.ts:52-81 | After the deficits come the surpluses, largest first. |
| Pooling.TotalAfterFresh | backend/src/core/application/PoolingService.ts:49-54 | Before any transfer, the cb_after total is the cb_before total. |
| Pooling.SettledWhenFeasible | backend/src/core/application/PoolingService.ts:60-79 | If the sweep ran out of deficits or of surplus, and the total is not negative, every deficit is settled at zero. |
| Pooling.TransferKeeps | backend/src/core/application/PoolingService.ts:73-77 | A transfer capped by the need and by the donor keeps every member's bounds, the ship ids and starting balances, the greedy shape and the pool total. |
| Pooling.CursorAdvanceKeeps | backend/src/core/application/PoolingService.ts:68-71 | Stepping the cursor over a drained donor keeps the greedy shape. |
| Pooling.CoverDeficit | backend/src/core/application/PoolingService.ts:61-78 | The inner sweep for one deficit only moves the cursor forward. It ends with the deficit covered or the donors used up. It changes no other deficit, keeps all bounds and conserves the total. |
| Pooling.Seed | backend/src/core/application/PoolingService.ts:47-54 | The working copies carry the members in order with cb_after = cb_before and the same total. |
| Pooling.SeedBounds | backend/src/core/application/PoolingService.ts:47-55 | Fresh copies of the sorted groups meet the sweep's bounds, with nothing drawn. |
| Pooling.AllocateSurplus | backend/src/core/application/PoolingService.ts:46-82 | The result carries the allocator's order, with ship ids and cb_before kept, and conserves the pool total. Each deficit ends with cb_before <= cb_after <= 0. Each surplus ends with 0 <= cb_after <= cb_before. Both groups have the greedy shape, and one side is fully settled. With a non-negative total, every deficit ends at exactly 0. |
| Pooling.SweepOutcome | backend/src/core/application/PoolingService.ts:57-81 | Once every deficit is visited, the sweep's invariants give AllocateSurplus's promises about the concatenated result. |
| Pooling.Admissible | backend/src/core/application/PoolingService.ts:26-33 | A member passes both checks: a deficit member (cb_before < 0) has not dropped below cb_before, and a positive member (cb_before > 0) has not gone below zero. |
| Pooling.Violation | backend/src/core/application/PoolingService.ts:26-33 | A member that fails raises the deficit error exactly when it fails the first check, and the surplus error otherwise. |
| Pooling.ValidateAllocation | backend/src/core/application/PoolingService.ts:25-34 | The validation passes iff no deficit is worse off and no positive member is driven negative. Otherwise it reports the first offender, with the deficit check first. |
| Pooling.AllocationAdmissible | backend/src/core/application/PoolingService.ts:22-34 | Members within the allocator's bounds always pass the validation. |
| Pooling.PoolingService.constructor | backend/src/core/application/PoolingService.ts:7 | A new service has committed no pool. |
| Pooling.PoolingService.ValidateAndCommit | backend/src/core/application/PoolingService.ts:25-39 | Succeeds iff every member is admissible, and then commits exactly this pool once and returns the members. On failure it commits nothing and reports the first violation. |
| Pooling.PoolingService.CreatePool | backend/src/core/application/PoolingService.ts:13-40 | Fails, with the infeasible-pool error and nothing committed, exactly when the total is negative. Otherwise it commits once and returns the allocator's order with the total conserved, every deficit at zero, every surplus within bounds and the donors drawn greedily in order (every donor before one position at zero, every donor after it untouched), which fixes each donor's end balance. |
| BankLedger.Visible | backend/src/adapters/outbound/postgres/PostgresComplianceRepository.ts:31 | An entry counts only when its amount is positive; what it counts is never negative. |
| BankLedger.Available | backend/src/core/application/ComplianceService.ts:94-95 | The total available is never negative. |
| BankLedger.Positive | backend/src/adapters/outbound/postgres/PostgresComplianceRepository.ts:31 | The query returns only entries with a positive amount, and exactly those that are stored. |
| BankLedger.PositiveMultiset | backend/src/adapters/outbound/postgres/PostgresComplianceRepository.ts:31 | Counting repetitions: the query returns each positive stored entry as many times as it is stored, and nothing that is not stored. |
| BankLedger.PositiveTotal | backend/src/core/application/ComplianceService.ts:94-95 | The total of the returned entries equals the visible total of the store. |
| BankLedger.PositiveOrdered | backend/src/adapters/outbound/postgres/PostgresComplianceRepository.ts:31 | The returned entries keep the year-ascending order. |
| BankLedger.Taken | backend/src/core/application/ComplianceService.ts:104-106 | One step deducts between 0 and what remains, never more than the entry, and nothing exactly when the entry is filtered out or nothing remains. |
| BankLedger.Deducted | backend/src/core/application/ComplianceService.ts:107 | An entry the loop visits while something is owed keeps its year, never gains, and does not go below zero if it started at zero or above. |
| BankLedger.Drain | backend/src/core/application/ComplianceService.ts:101-110 | The FIFO deduction keeps the number of entries. |
| BankLedger.DrainEntries | backend/src/core/application/ComplianceService.ts:106-107 | Each entry keeps its year, never gains, and never goes below zero when it started non-negative. |
| BankLedger.DrainTotal | backend/src/core/application/ComplianceService.ts:101-110 | Deducting an amount up to the total available lowers that total by exactly that amount. |
| BankLedger.DrainFifo | backend/src/core/application/ComplianceService.ts:101-110 | FIFO shape: there is a last entry touched. Every entry before it is emptied or was filtered out, and every entry after it is untouched. |
| BankLedger.DrainOrdered | backend/src/core/application/ComplianceService.ts:101-110 | A deduction keeps the year order. |
| BankLedger.DrainWellFormed | backend/src/core/application/ComplianceService.ts:106-109 | A deduction keeps the store ordered and non-negative. |
| BankLedger.DrainExample | backend/src/core/application/ComplianceService.ts:101-110 | 30 banked in 2023 and 50 in 2024: applying 40 empties the first entry and leaves 40 of the second. |
| BankLedger.InsertPos | backend/src/adapters/outbound/postgres/PostgresComplianceRepository.ts:31 | The position `ORDER BY year` gives a new row: never past the end. |
| BankLedger.InsertPosBound | backend/src/adapters/outbound/postgres/PostgresComplianceRepository.ts:31 | In an ordered store, a new row goes after every entry of its year or earlier and before every later year. |
| BankLedger.InsertByYear | backend/src/adapters/outbound/postgres/PostgresComplianceRepository.ts:43-50 | Banking adds exactly the one new entry to the store, as a multiset. |
| BankLedger.InsertOrdered | backend/src/adapters/outbound/postgres/PostgresComplianceRepository.ts:31 | Banking keeps the store in the query's year order. |
| BankLedger.InsertWellFormed | backend/src/core/application/ComplianceService.ts:73-77 | Banking a non-negative amount keeps the store ordered and non-negative. |
| BankLedger.InsertNewestAppends | backend/src/adapters/outbound/postgres/PostgresComplianceRepository.ts:43-50 | Banking the newest year is a plain append. |
| BankLedger.InsertTotal | backend/src/core/application/ComplianceService.ts:73-77 | Banking a positive CB raises the total available by exactly that CB. |
| Compliance.AppliedTotal | backend/src/core/application/ComplianceService.ts:48-49 | The `reduce` summing the applied amounts of one ship and year; its properties are stated by the two lemmas below. |
| Compliance.AppliedTotalAppend | backend/src/core/application/ComplianceService.ts:44-52 | Recording an application adds its amount to the applied total of its own ship and year, and of no other. |
| Compliance.AppliedTotalNonNegative | backend/src/core/application/ComplianceService.ts:44-52 | With positive applied amounts, the applied total of any ship and year is non-negative. |
| Compliance.ComplianceService.constructor | backend/src/core/application/ComplianceService.ts:6-9 | A new service has empty bank and applied tables and the given CB source. |
| Compliance.ComplianceService.Entries | backend/src/adapters/outbound/postgres/PostgresComplianceRepository.ts:30-41 | The stored entries of a ship are ordered and non-negative whenever the service is valid. |
| Compliance.ComplianceService.ComputeCB | backend/src/core/application/ComplianceService.ts:15-38 | Gives the ship-year's CB when it has routes, and the "no routes" error exactly when it has none. |
| Compliance.ComplianceService.GetBankRecords | backend/src/core/application/ComplianceService.ts:58-60 | Returns the positive stored entries, oldest first, each as many times as it is stored and nothing else, with the same total available. |
| Compliance.ComplianceService.GetAdjustedCB | backend/src/core/application/ComplianceService.ts:44-52 | Fails exactly when the CB does, with the same error. Otherwise it is the raw CB plus the applied total for that ship and year, never below the raw CB. |
| Compliance.ComplianceService.BankSurplus | backend/src/core/application/ComplianceService.ts:66-78 | No routes gives that error; a CB of zero or less gives "no surplus". Either way nothing is stored. It passes iff the CB is positive, and then stores exactly one entry (year, CB) in its year's place. The total available rises by the CB and the applied table is untouched. |
| Compliance.ComplianceService.DeductFifo | backend/src/core/application/ComplianceService.ts:101-110 | The deduction loop leaves the ship's entries exactly as the FIFO specification `Drain` gives them and changes nothing else. |
| Compliance.ComplianceService.ApplyBankedSurplus | backend/src/core/application/ComplianceService.ts:84-118 | Checks, in order, with the first failure winning: a non-positive amount; no routes; a CB that is not a deficit; more than is available (the error carries both figures). On any failure nothing changes. On success the entries are drained FIFO, the total available falls by the amount, one applied record is appended and the adjusted CB rises by the amount. |
| Compliance.DrainStep | backend/src/core/application/ComplianceService.ts:103-109 | One iteration of the deduction loop keeps the loop's picture of the final store. |
| Scenarios.AllDeficitsRejected | backend/src/core/application/PoolingService.test.ts:18-27 | Two deficits (−100, −50): rejected as infeasible, and nothing committed. |
| Scenarios.OneSurplusOneDeficit | backend/src/core/application/PoolingService.test.ts:29-44 | Surplus 100 and deficit −50: the result is exactly deficit at 0, then surplus at 50. |
| Scenarios.TwoShipOrder | backend/src/core/application/PoolingService.ts:47-55 | For that pool the allocator visits the deficit first, then the surplus; the total is 50. |
| Scenarios.TwoShipOutcome | backend/src/core/application/PoolingService.test.ts:37-42 | createPool's promises fix both end balances of that pool. |
| Scenarios.ShortPoolRejected | backend/src/core/application/PoolingService.test.ts:46-66 | The four-ship pool with total −10 is rejected as infeasible, against the test's expectation. |
| Scenarios.FaultyAllocationCaught | backend/src/core/application/PoolingService.test.ts:68-80 | A surplus driven to −10 fails validation with the "surplus negative" error for S1, and nothing is committed. |
| Scenarios.BankFirstYear | backend/src/core/application/ComplianceService.ts:66-78 | Banking a CB of 30 stores that one entry. |
| Scenarios.BankTwoYears | backend/src/core/application/ComplianceService.ts:66-78 | Banking 2023 then 2024 stores both, oldest first. |
| Scenarios.FifoApplication | backend/src/core/application/ComplianceService.ts:84-118 | Applying 40 of 80 banked to a −100 deficit: the 2023 entry is emptied, 40 of 2024 is left, one application of 40 is recorded, and the adjusted CB is −60. |
| Scenarios.OverdrawRejected | backend/src/core/application/ComplianceService.ts:94-99 | Applying 100 with 80 banked fails with both figures and leaves the entry as it was. |
| Scenarios.DeficitNotBanked | backend/src/core/application/ComplianceService.ts:66-71 | Banking a CB of −5 fails with "no surplus" and stores nothing. |
| BankRows.BankRow | backend/src/adapters/outbound/postgres/PostgresComplianceRepository.ts:43-50 | A bank_entries row is an object with its id and the three inserted columns. |
| BankRows.AmountAsWrittenMissing | backend/src/core/application/ComplianceService.ts:94-97 | As written, reading `amount_gco2eq` from any row after the mapper finds nothing. |
| BankRows.EntryOfRoundTrip | backend/src/adapters/outbound/postgres/PostgresComplianceRepository.ts:30-41 | Corrected (read under the mapped column names), a mapped bank row gives back exactly the ledger entry it stores. |

## Left out

- Route aggregation is left out: `getOrComputeCB` averages route intensities
  and sums energies (`ComplianceService.ts:15-38`). The model replaces it with
  the given map `routeCB`. The compliance snapshot it persists is left out too.
- Floating point is not modelled. All amounts are exact `real`s, so rounding,
  NaN and infinities do not arise in the model.
- `Min` stands in for `Math.min`, with no NaN handling.
- Postgres returns `numeric` columns as strings. The model treats amounts as
  numbers.
- SQL I/O is replaced by in-memory state:
  - the bank table is a map from ship to its entries, in the order the query
    returns them;
  - the applied table is a list;
  - committed pools are a list.
- Atomicity and concurrency are left out. The deduction loop issues separate
  updates with no transaction, and double spending under concurrent calls is
  not a sequential property.
- `getBankedSurplus` has an optional `year` filter that the core does not use.
  It is not modelled.
- Entries are addressed by position, not by their database `id`.
  `updateBankEntry(id, …)` becomes an update of the same position.
- Entries with equal years: SQL's `ORDER BY year` leaves their order
  unspecified. The model keeps insertion order, placing a new entry after the
  others of its year.
- Key order: JavaScript `Object.keys` lists integer-like keys first. The model
  keeps insertion order for every key.
- `toCamelCase` treats every non-plain object (Date, Buffer, …) as an opaque
  `JInstance`. The model does not look inside it.
- Mappers.ToCamelCase: its contract gives shape, key uniqueness and sizes. The
  per-key content is stated separately by `Mappers.LaterKeyWins` and
  `Mappers.ConvertKeys`.
- `RouteService`, the HTTP router and server, the pool repository's SQL and
  the React UI are not part of this model.
- PostgresPoolRepository.ts is not part of this model. A commit is one
  appended record.

## Findings

| source | as written | input that shows it | evidently intended | confidence | as-written member | corrected member |
|---|---|---|---|---|---|---|
| backend/src/core/application/ComplianceService.ts:95 | The repository maps every bank row with `toCamelCase` (`PostgresComplianceRepository.ts:40`), so the column `amount_gco2eq` arrives as `amountGco2eq`. The service then sums `e.amount_gco2eq`, which is undefined, so the total is NaN and the overdraw check at line 97 never rejects. The same holds for the applied total at line 49 (rows mapped at `PostgresComplianceRepository.ts:61`). | any bank row, e.g. `{id: "1", ship_id: "S", year: 2024, amount_gco2eq: 80}`; applying 100 with only 80 banked | read the amount under the mapped name (`amountGco2eq`), so the total is the sum of the banked amounts and the check rejects an overdraw | not executed | BankRows.AmountAsWrittenMissing | BankRows.EntryOfRoundTrip |
