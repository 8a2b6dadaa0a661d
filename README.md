# Donation settlement model

A Dafny model of the settlement logic of a point-based donation platform. Donators send
points to creators. Each donation waits for exchange until the creator is paid out. The model
covers three parts of the server:

- the `Donation` entity (`donation.dfy`, module `DonationDomain`). It is a class with the
  entity's fields. Its state as a value is a `DonationRow`, the same datatype that the queries
  read as a row of the donation table. `point` is a `const`: only the constructors set it. The
  mutators (`To`, `From`, `AddMessage`, `ToExchanged`) state their whole new state as the old
  row with one field replaced. The refund window constant `EXCHANGEABLE_DAY_LIMIT` is
  `DonationDomain.ExchangeableDayLimit`, a `Long` equal to 7.
- the per-creator donation queries (`donation_queries.dfy`, module `DonationQueries`). Each
  query is modelled as its `where` clause (the predicates `DonationOwner`,
  `WaitingForExchangeStatus`, `ExchangedStatus`, `BeforeStartOfNextMonth`) applied by
  `Where` to a sequence of rows. It then selects the rows or their SQL `sum(point)`.
  `SumPoint` is null (`None`) over no rows. The waiting and exchanged totals coalesce that null
  to 0. The request-window amount does not coalesce, so it stays an `Option`.
- the approval-time query (`exchange_queries.dfy`, module `ExchangeQueries`). This is the left
  join of exchanges with their member's received donations (`LeftJoin`; a member with no
  donations gives one null-joined row). Then come the `where` clause (`InWhere`, `Filter`) and
  the grouping by exchange id (`GroupIds`, `GroupAmount`, `GroupRows`).

`time.dfy` (module `Time`) holds the parts of `java.time` the cutoffs use:
- `LocalDateTime` timestamps compared field by field.
- `YearMonth` with `plusMonths`, which divides the proleptic month by 12 with floor division.
- `atDay(1).atStartOfDay()`.

`primitives.dfy` holds Java's `long` and the `int` wrap-around used by `hashCode`.
`wrappers.dfy` holds `Option`.

The two month cutoffs differ. A request for month M counts donations made before day 1 of
M + 1. An approval at month M counts donations made before day 1 of M. The model keeps each
as written. `ApprovalMatchesPreviousMonthRequest` proves what links them, and
`DonationOfApprovalMonthIsOnlyRequested` proves where they differ.

Two facts about `Donation.java` that the model keeps:
- It never checks that points are positive, and neither does the model.
- It has no transition from `EXCHANGED` back to `WAITING_FOR_EXCHANGE`. Only the
  four-argument constructor can create a donation in any given status.

Inputs the model takes as parameters instead of reading them:
- The database tables are sequences of rows (`seq<DonationRow>`, `seq<ExchangeRow>`).
- The requested or approval month is a `YearMonth` argument.

## Model

| member | source | states |
|---|---|---|
| `Wrappers.Option.GetOr` | server/src/main/java/com/example/tyfserver/donation/repository/DonationRepositoryImpl.java:37 | a null result is replaced by the default and a present one is kept |
| `Time.PlusMonths` | server/src/main/java/com/example/tyfserver/donation/repository/DonationRepositoryImpl.java:95 | the result is a valid month exactly n months (by proleptic month) after the input |
| `Time.PlusOneMonth` | server/src/main/java/com/example/tyfserver/donation/repository/DonationRepositoryImpl.java:95 | one month after December is January of the next year; other months keep the year and add one |
| `Time.StartOfMonth` | server/src/main/java/com/example/tyfserver/donation/repository/DonationRepositoryImpl.java:95 | day 1 at 00:00 is a valid instant of the month and no valid instant of that month comes before it |
| `Time.IsBeforeIsStrictTotalOrder` | server/src/main/java/com/example/tyfserver/donation/repository/DonationRepositoryImpl.java:96 | the `before` comparison of timestamps is irreflexive, asymmetric, total and transitive |
| `Time.BeforeStartOfMonthIffEarlierMonth` | server/src/main/java/com/example/tyfserver/member/repository/ExchangeRepositoryImpl.java:49-52 | a valid timestamp is before the first instant of a month exactly when it lies in an earlier month |
| `Time.StartOfMonthIsMonotone` | server/src/main/java/com/example/tyfserver/donation/repository/DonationRepositoryImpl.java:93-96 | start-of-month instants are ordered as their months are |
| `DonationDomain.DonationRow.ToExchanged` | server/src/main/java/com/example/tyfserver/donation/domain/Donation.java:78-80 | the status becomes exchanged and every other field is kept |
| `DonationDomain.ToExchangedIsIdempotent` | server/src/main/java/com/example/tyfserver/donation/domain/Donation.java:78-80 | exchanging twice gives the same state as exchanging once |
| `DonationDomain.IdHashCode` | server/src/main/java/com/example/tyfserver/donation/domain/Donation.java:102-105 | `Objects.hash(id)` is a 32-bit int, and 31 for a null id |
| `DonationDomain.Donation.constructor` | server/src/main/java/com/example/tyfserver/donation/domain/Donation.java:38-42 | given message and point, no id, no creator, donator or timestamp, status waiting for exchange |
| `DonationDomain.Donation.WithId` | server/src/main/java/com/example/tyfserver/donation/domain/Donation.java:44-48 | given id, message and point, status waiting for exchange |
| `DonationDomain.Donation.CreatedAt` | server/src/main/java/com/example/tyfserver/donation/domain/Donation.java:50-52 | given message, point and creation time, status waiting for exchange |
| `DonationDomain.Donation.WithStatus` | server/src/main/java/com/example/tyfserver/donation/domain/Donation.java:54-59 | message, point, status and creation time exactly as given |
| `DonationDomain.Donation.To` | server/src/main/java/com/example/tyfserver/donation/domain/Donation.java:66-68 | only the creator changes; status, point, message and the rest are kept |
| `DonationDomain.Donation.From` | server/src/main/java/com/example/tyfserver/donation/domain/Donation.java:70-72 | only the donator changes; status, point, message and the rest are kept |
| `DonationDomain.Donation.AddMessage` | server/src/main/java/com/example/tyfserver/donation/domain/Donation.java:74-92 | only the message changes, and the name, text and secrecy getters then return the new message's |
| `DonationDomain.Donation.GetName` | server/src/main/java/com/example/tyfserver/donation/domain/Donation.java:82-84 | the sender name of the donation's current message |
| `DonationDomain.Donation.GetMessage` | server/src/main/java/com/example/tyfserver/donation/domain/Donation.java:86-88 | the text of the donation's current message |
| `DonationDomain.Donation.IsSecret` | server/src/main/java/com/example/tyfserver/donation/domain/Donation.java:90-92 | the secrecy flag of the donation's current message |
| `DonationDomain.Donation.ToExchanged` | server/src/main/java/com/example/tyfserver/donation/domain/Donation.java:78-80 | the new state is the old one with status exchanged and nothing else changed |
| `DonationDomain.ToExchangedTwice` | server/src/main/java/com/example/tyfserver/donation/domain/Donation.java:78-80 | calling `toExchanged` twice on an entity leaves the state one call leaves |
| `DonationDomain.Donation.Equals` | server/src/main/java/com/example/tyfserver/donation/domain/Donation.java:94-100 | equal exactly when the other donation is non-null and has the same id (two null ids are equal) |
| `DonationDomain.Donation.HashCode` | server/src/main/java/com/example/tyfserver/donation/domain/Donation.java:102-105 | a 32-bit int, 31 when the id is null |
| `DonationDomain.EqualsIsAnEquivalence` | server/src/main/java/com/example/tyfserver/donation/domain/Donation.java:94-100 | equality is reflexive, symmetric and transitive |
| `DonationDomain.EqualsDependsOnlyOnId` | server/src/main/java/com/example/tyfserver/donation/domain/Donation.java:94-100 | two donations are equal exactly when their ids are, whatever their other fields |
| `DonationDomain.EqualDonationsHaveEqualHashCodes` | server/src/main/java/com/example/tyfserver/donation/domain/Donation.java:94-105 | equal donations have equal hash codes |
| `DonationQueries.WaitingForExchangeStatus` | server/src/main/java/com/example/tyfserver/donation/repository/DonationRepositoryImpl.java:81-83 | a row is waiting for exchange exactly when it is not exchanged |
| `DonationQueries.ExchangedStatus` | server/src/main/java/com/example/tyfserver/donation/repository/DonationRepositoryImpl.java:85-87 | an exchanged row is not waiting for exchange |
| `DonationQueries.DonationOwner` | server/src/main/java/com/example/tyfserver/donation/repository/DonationRepositoryImpl.java:89-91 | a row with a null creator never matches, and a matching row's creator is the given one |
| `DonationQueries.RequestCutoff` | server/src/main/java/com/example/tyfserver/donation/repository/DonationRepositoryImpl.java:93-96 | the request cutoff is a valid instant in the month after the requested one, and no instant of that month comes before it (day 1, 00:00) |
| `DonationQueries.BeforeStartOfNextMonth` | server/src/main/java/com/example/tyfserver/donation/repository/DonationRepositoryImpl.java:93-97 | a null timestamp never matches; a valid one matches exactly when its month is the requested month or earlier |
| `DonationQueries.Where` | server/src/main/java/com/example/tyfserver/donation/repository/DonationRepositoryImpl.java:56-65 | the kept rows are exactly the input rows that satisfy the predicate, each kept as many times as it occurs |
| `DonationQueries.SumPoint` | server/src/main/java/com/example/tyfserver/donation/repository/DonationRepositoryImpl.java:69-78 | SQL `sum(point)` is null exactly over no rows and otherwise the total of the points |
| `DonationQueries.TotalOfOwnerAndStatus` | server/src/main/java/com/example/tyfserver/donation/repository/DonationRepositoryImpl.java:26-37 | summing the rows kept by an owner-and-status filter gives the row-by-row reference sum |
| `DonationQueries.WaitingTotalPoint` | server/src/main/java/com/example/tyfserver/donation/repository/DonationRepositoryImpl.java:26-37 | the sum of points of the creator's waiting donations; 0 when there are none |
| `DonationQueries.ExchangedTotalPoint` | server/src/main/java/com/example/tyfserver/donation/repository/DonationRepositoryImpl.java:41-52 | the sum of points of the creator's exchanged donations; 0 when there are none |
| `DonationQueries.ReceivedPointsPartitionTotal` | server/src/main/java/com/example/tyfserver/donation/repository/DonationRepositoryImpl.java:81-87 | the waiting and the exchanged reference sums add up to everything the creator received |
| `DonationQueries.WaitingPlusExchangedIsTotal` | server/src/main/java/com/example/tyfserver/donation/repository/DonationRepositoryImpl.java:26-52 | waiting total plus exchanged total equals the sum over all the creator's donations |
| `DonationQueries.ReceivedTotalIgnoresStatus` | server/src/main/java/com/example/tyfserver/donation/domain/Donation.java:78-80 | exchanging one donation keeps the points its creator received in all |
| `DonationQueries.ToExchangedMovesPoints` | server/src/main/java/com/example/tyfserver/donation/repository/DonationRepositoryImpl.java:26-52 | exchanging one of the creator's waiting donations moves exactly its points from the waiting to the exchanged total |
| `DonationQueries.WaitingPointsAfterExchange` | server/src/main/java/com/example/tyfserver/donation/repository/DonationRepositoryImpl.java:26-37 | exchanging one of the creator's waiting donations lowers the waiting sum by its points |
| `DonationQueries.FindDonationsToExchange` | server/src/main/java/com/example/tyfserver/donation/repository/DonationRepositoryImpl.java:56-65 | exactly the creator's waiting donations with a creation time before day 1, 00:00 of the next month, each as often as it occurs |
| `DonationQueries.CalculateExchangeAmountFromDonation` | server/src/main/java/com/example/tyfserver/donation/repository/DonationRepositoryImpl.java:69-78 | null exactly when nothing is selected, otherwise the total of the selected donations' points |
| `DonationQueries.RequestWindowIsMonthsUpTo` | server/src/main/java/com/example/tyfserver/donation/repository/DonationRepositoryImpl.java:93-96 | a donation with a valid timestamp is selected exactly when it is the creator's, waiting, and made in the requested month or earlier |
| `DonationQueries.RequestCutoffIsExclusive` | server/src/main/java/com/example/tyfserver/donation/repository/DonationRepositoryImpl.java:93-96 | a donation made exactly at the cutoff is excluded; for December the cutoff is 1 January of the next year |
| `DonationQueries.EndOfRequestedMonthIsIncluded` | server/src/main/java/com/example/tyfserver/donation/repository/DonationRepositoryImpl.java:93-96 | a waiting donation of the creator made at the month's last nanosecond is selected |
| `DonationQueries.FindDonationsToExchangeIsMonotone` | server/src/main/java/com/example/tyfserver/donation/repository/DonationRepositoryImpl.java:93-96 | a later month selects every donation an earlier month selects |
| `DonationQueries.FirstOfFebruaryIsOutsideJanuary` | server/src/main/java/com/example/tyfserver/donation/repository/DonationRepositoryImpl.java:93-96 | a donation made at 2024-02-01T00:00 is not selected for January 2024 |
| `ExchangeQueries.Attach` | server/src/main/java/com/example/tyfserver/member/repository/ExchangeRepositoryImpl.java:31 | one joined row per received donation, in order, each pairing the exchange with that donation |
| `ExchangeQueries.ReceivedBy` | server/src/main/java/com/example/tyfserver/member/repository/ExchangeRepositoryImpl.java:31 | a member's received donations are exactly the rows whose creator is that member |
| `ExchangeQueries.JoinOne` | server/src/main/java/com/example/tyfserver/member/repository/ExchangeRepositoryImpl.java:31 | every joined row of an exchange names that exchange |
| `ExchangeQueries.LeftJoin` | server/src/main/java/com/example/tyfserver/member/repository/ExchangeRepositoryImpl.java:30-31 | the joined rows pair each exchange with each donation its member received, or with null when it received none |
| `ExchangeQueries.WaitingStatus` | server/src/main/java/com/example/tyfserver/member/repository/ExchangeRepositoryImpl.java:45-47 | approved and rejected exchanges never match |
| `ExchangeQueries.WaitingForExchangeStatus` | server/src/main/java/com/example/tyfserver/member/repository/ExchangeRepositoryImpl.java:41-43 | a null-joined row never matches, and a matching row's donation is not exchanged |
| `ExchangeQueries.ApprovalCutoff` | server/src/main/java/com/example/tyfserver/member/repository/ExchangeRepositoryImpl.java:49-52 | the approval cutoff is a valid instant in the approval month itself, and no instant of that month comes before it (day 1, 00:00) |
| `ExchangeQueries.BeforeStartOfThisMonth` | server/src/main/java/com/example/tyfserver/member/repository/ExchangeRepositoryImpl.java:49-53 | a matching joined row has a donation with a creation time: null-joined rows and null timestamps never match |
| `ExchangeQueries.Filter` | server/src/main/java/com/example/tyfserver/member/repository/ExchangeRepositoryImpl.java:33-37 | the kept joined rows are exactly those of a waiting exchange with a waiting donation made before the cutoff |
| `ExchangeQueries.GroupIds` | server/src/main/java/com/example/tyfserver/member/repository/ExchangeRepositoryImpl.java:32 | the group keys are distinct and are exactly the exchange ids of the kept rows |
| `ExchangeQueries.GroupAmountOfAppend` | server/src/main/java/com/example/tyfserver/member/repository/ExchangeRepositoryImpl.java:29-32 | a group's `sum(point)` over two row sequences is the sum of its amounts over each |
| `ExchangeQueries.GroupAmountOfOtherGroups` | server/src/main/java/com/example/tyfserver/member/repository/ExchangeRepositoryImpl.java:29-32 | rows that name other exchanges add nothing to a group's `sum(point)` |
| `ExchangeQueries.GroupRows` | server/src/main/java/com/example/tyfserver/member/repository/ExchangeRepositoryImpl.java:29-32 | one row per group, with distinct ids, each carrying the sum of its group |
| `ExchangeQueries.KeptRowIsPending` | server/src/main/java/com/example/tyfserver/member/repository/ExchangeRepositoryImpl.java:31-37 | every kept row comes from a waiting exchange and a qualifying donation of its member |
| `ExchangeQueries.PendingRowIsKept` | server/src/main/java/com/example/tyfserver/member/repository/ExchangeRepositoryImpl.java:31-37 | a waiting exchange paired with a qualifying donation of its member is kept |
| `ExchangeQueries.KeptGroupsArePending` | server/src/main/java/com/example/tyfserver/member/repository/ExchangeRepositoryImpl.java:31-37 | an id has kept rows exactly when a waiting exchange with that id has a qualifying donation |
| `ExchangeQueries.CalculateExchangeAmountFromDonation` | server/src/main/java/com/example/tyfserver/member/repository/ExchangeRepositoryImpl.java:27-38 | rows have distinct exchange ids, every row is a waiting exchange's, and an id has a row exactly when a waiting exchange with it has a qualifying donation |
| `ExchangeQueries.QualifyingDonations` | server/src/main/java/com/example/tyfserver/member/repository/ExchangeRepositoryImpl.java:41-52 | exactly the member's waiting donations made before day 1, 00:00 of the approval month, each as often as it occurs |
| `ExchangeQueries.AttachedAmount` | server/src/main/java/com/example/tyfserver/member/repository/ExchangeRepositoryImpl.java:29-37 | for a waiting exchange, the kept rows of its received donations sum to its qualifying points |
| `ExchangeQueries.JoinOneAmount` | server/src/main/java/com/example/tyfserver/member/repository/ExchangeRepositoryImpl.java:29-37 | one exchange contributes its qualifying points when waiting and nothing otherwise, also through a null-joined row |
| `ExchangeQueries.LeftJoinAmount` | server/src/main/java/com/example/tyfserver/member/repository/ExchangeRepositoryImpl.java:29-37 | with unique ids, the group of an exchange sums its own qualifying points only |
| `ExchangeQueries.AmountOfWaitingExchange` | server/src/main/java/com/example/tyfserver/member/repository/ExchangeRepositoryImpl.java:27-38 | a waiting exchange has a row exactly when its member has a qualifying donation, and its amount is their point sum |
| `ExchangeQueries.NoRowWithoutQualifyingDonation` | server/src/main/java/com/example/tyfserver/member/repository/ExchangeRepositoryImpl.java:31-37 | a waiting exchange whose member qualifies for nothing produces no row |
| `ExchangeQueries.ApprovalWindowIsMonthsBefore` | server/src/main/java/com/example/tyfserver/member/repository/ExchangeRepositoryImpl.java:49-52 | a donation with a valid timestamp counts exactly when it is the member's, waiting, and made in a month strictly before the approval month |
| `ExchangeQueries.ApprovalCutoffIsExclusive` | server/src/main/java/com/example/tyfserver/member/repository/ExchangeRepositoryImpl.java:49-52 | a donation made at 00:00 on day 1 of the approval month is not counted |
| `ExchangeQueries.ApprovalWindowIsPreviousRequestWindow` | server/src/main/java/com/example/tyfserver/member/repository/ExchangeRepositoryImpl.java:49-52 | the donations counted at approval month M are exactly those a request for month M - 1 selects |
| `ExchangeQueries.ApprovalMatchesPreviousMonthRequest` | server/src/main/java/com/example/tyfserver/member/repository/ExchangeRepositoryImpl.java:27-52 | a waiting exchange's row carries amount a exactly when the request amount for M - 1 is a, and it has no row exactly when that amount is null |
| `ExchangeQueries.DonationOfApprovalMonthIsOnlyRequested` | server/src/main/java/com/example/tyfserver/member/repository/ExchangeRepositoryImpl.java:49-52 | a waiting donation made during month M is in the request for M but not counted at approval in M |

## Left out

- `Donation.donate` (Donation.java:61-64) only forwards to `Member.donateDonation` and `Member.receiveDonation`. The `Member` entity is not part of this model.
- The protected no-argument constructor exists for the persistence framework and is not modelled.
- `BaseTimeEntity` is not part of this model. The constructors that take a creation time store it. The others leave it absent, because the persistence layer sets it when the row is saved.
- Null arguments are not modelled: a null message, creator, donator, status or creation time passed in, or a null `creator` id for the queries. Fields that start out null (id, creator, donator, creation time) are `Option`s.
- A null `status`, which the four-argument constructor (Donation.java:54-59) accepts, is not modelled: `DonationStatus` has only its two values. Such a row would be in neither the waiting nor the exchanged total, so `DonationQueries.ReceivedPointsPartitionTotal` and `DonationQueries.WaitingPlusExchangedIsTotal` hold only for rows whose status is not null.
- DonationDomain.ExchangeableDayLimit (Donation.java:18) is a constant of type `Long`, 7, with no contract of its own: nothing in the modelled files reads it.
- DonationDomain.Donation.Equals: its argument is a `Donation` or null. Objects of other classes and persistence proxies, which Java's `getClass()` comparison would reject, cannot be passed.
- DonationDomain.Donation.HashCode: its contract states only the 32-bit range and the value for a null id. The exact value for a present id is given by `IdHashCode`'s body. No lemma ties that value to particular ids.
- ExchangeQueries.LeftJoinAmount, ExchangeQueries.AmountOfWaitingExchange, ExchangeQueries.NoRowWithoutQualifyingDonation and ExchangeQueries.ApprovalMatchesPreviousMonthRequest require that no two exchange rows share an id. The primary key guarantees this. `CalculateExchangeAmountFromDonation` itself groups duplicate ids as SQL would.
- `member.receivedDonations` is taken to be the donation rows whose `creator` is the member. The mapping is declared in `Member`, which is not part of this model.
- The order of the rows a query returns: SQL does not fix it. The model returns table order for the donation queries and first-appearance order for the groups.
- `groupBy(donation.creator)` with `fetchOne` in the two totals: the `where` clause leaves at most one group, so the model sums the filtered rows directly. The non-unique-result error of `fetchOne` cannot arise and is not modelled.
- `long` arithmetic: points are unbounded integers, so overflow of SQL `SUM` is not modelled. Ids are Java `long`s.
- Java's `YearMonth` year range (±999,999,999) and the `DateTimeException` beyond it are not modelled. Years are unbounded.
- Time zones and the database's timestamp precision are not modelled. Timestamps are compared field by field with nanosecond precision.
- The `Exchange` entity and its approve/reject transitions, the refund-window check that uses `EXCHANGEABLE_DAY_LIMIT`, the payment gateway connector, the controllers, the DTOs and the exception classes are not part of this model. Only `ExchangeStatus` and the columns the approval query reads appear, as `ExchangeRow`.
