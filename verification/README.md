# Verified models of the ordering back end

The repository is a NestJS/Prisma server for cake shops. This project models its parts that hold real algorithms or
state machines and proves what they promise. A database table is a map of rows, an instant (`Date`) is an integer
number of milliseconds since the epoch, and a request is either a pure function of the tables (a query) or a step
that changes them. Code that the repository writes as loops or as field updates is a method or a class here, proved
against a function of its inputs; the laws are then lemmas about that function.

| file | what it models |
|---|---|
| `KstTime` | Korean calendar time: `Date.UTC`, the `getUTC*` readers, date strings, day differences |
| `PickupSlots`, `StoreSchedule`, `ScheduleAgreement` | slot grids, lead time, a store's month calendar and its slots of a day |
| `TodayPickup`, `HomePickup` | the listing of stores open today; the store-independent calendar and slots |
| `KeysetPaging`, `PagingLimits`, `ReviewListing` | review pages ordered by likes, when they repeat or miss a review, the printed cursor, totals |
| `ReviewTables`, `ReviewTransactions` | reviews, media, comments and their transactions run statement by statement in any order |
| `ReviewLikes` | likes, unlikes, like counts, notifications |
| `Accounts`, `AccountRepository` | social login, withdrawal, joining again |
| `RefreshSessions` | issuing, rotating and revoking refresh sessions |
| `RandomSample`, `RecentViews` | the partial shuffle; the bounded list of recently viewed products |
| `OrderStatus` | seller updates of an order: policy, history, timestamps, notifications |
| `Ranking`, `Nickname` | store ranking and its pages; machine-made nicknames |
| `Decimal`, `Text`, `Wrappers` | printing numbers, trimming strings, result types |

Verify with `dafny verify dfyconfig.toml`.

## Where the code and its promises part

- The comment at `src/features/product/services/product-review.service.ts:132-134` says that likes changing between
  pages cause no duplicate or missing review at the boundary. `PagingLimits.NeverRepeatsIff`: a visible review is safe
  from repeats iff its own like count never falls. `PagingLimits.NeverMissedIff`: it is safe from being missed iff its
  count never rises. For every other count history, at every page size, `FallRepeats` and `RiseMisses` build tables on
  which it goes wrong.
- `ScheduleAgreement.SelectableDayWithoutSlots`: the month calendar can call a future day selectable that has no slot.
  A seller can bring this about: `src/features/seller/services/seller-store-hours.service.ts:111` compares opening and
  closing as full instants, while the columns keep the time of day only, so 10:00 on one date to 09:00 on the next is
  accepted and stored as 10:00 to 09:00. `CalendarAgreesWithSlots` gives the exact condition on the tables, and
  `CalendarAgreesForGrids` its main case: with a positive interval and opening before closing the two always agree.
- `HomePickup.ListsRequestedMonthFromYear1000`: the store-independent calendar lists the month it was asked for, in
  dates its own slot query accepts, iff the year is at least 1000; years 0-99 list dates of 1900-1999.
- `RandomSample.AtMostCountIff`: "at most `count` items" fails for a negative count on a longer list, because the final
  slice then counts from the end.
- `ReviewLikes.RewriteKeepsLikes`: a review that is deleted and written again keeps its old likes, while its comments go.
- For a product, the LIKES query reads the store through the product, the LATEST query and the total through the
  review. `ReviewListing.QueriesCanDiffer` is a database on which they list different reviews, and
  `ReviewListing.SameReviewsIff` says exactly when they agree.
- `Ranking.ComparatorIsStrictOrder`: the comparator puts a store before itself, so it is a strict order only because ids
  differ.

## Model

| member | source | states |
|---|---|---|
| KstTime.YearFromDay | src/common/utils/kst-time.ts:22-29 | the year read from a day number is the one whose first day is on or before it and whose successor's is after it |
| KstTime.CivilRoundTrip | src/common/utils/kst-time.ts:22-34 | decomposing a day number gives a real Gregorian date, and `Date.UTC` of that date gives the day number back |
| KstTime.DayRoundTrip | src/common/utils/kst-time.ts:22-34 | a real date survives composition and decomposition |
| KstTime.CalendarIsAnchored | src/common/utils/kst-time.ts:22-34 | day 0 is 1970-01-01, and 1970-01-04 is a Sunday |
| KstTime.MonthLengths | src/common/utils/kst-time.ts:22-34 | April, June, September and November have 30 days, February 28 or 29, the others 31 |
| KstTime.WeekdaysCycle | src/features/store/services/store-pickup-schedule.service.ts:143-145 | weekdays run from Sunday 0 to Saturday 6 and start again |
| KstTime.WeekdayCountsFromSunday | src/features/store/services/store-pickup-schedule.service.ts:234-234 | the weekday of a date is its number of days after Sunday 1970-01-04, modulo 7 |
| KstTime.KstClock | src/common/utils/kst-time.ts:43-46 | an instant is its KST midnight, nine hours behind UTC, plus its minutes of the day and less than a minute |
| KstTime.NextMonthStart | src/features/store/services/store-pickup-schedule.service.ts:78-86 | month overflow in `Date.UTC` lands on the first of the next month, across year ends |
| KstTime.LastDayOfMonth | src/features/store/services/store-pickup-schedule.service.ts:78-78 | day 0 of the next month is the last day of this one, so the calendar is as long as the month |
| KstTime.ParseYearMonthIff | src/common/utils/kst-time.ts:49-58 | a month string is accepted iff it is a four-digit year, a dash and a month from 01 to 12, and it is read as that year and month |
| KstTime.ParseAcceptsExactlyRealDates | src/common/utils/kst-time.ts:61-73 | a string parses iff it is the date string of a real Gregorian date of years 1000-9999 |
| KstTime.FormatThenParse | src/common/utils/kst-time.ts:37-73 | formatting an instant and parsing it gives the start of its KST day, or nothing outside years 1000-9999 |
| KstTime.FormattedYear | src/common/utils/kst-time.ts:37-40 | the year is printed without padding, with a sign only below zero |
| KstTime.ParseThenFormat | src/common/utils/kst-time.ts:37-73 | parsing a date and formatting it gives the same string, and the parsed instant is a KST midnight |
| KstTime.DayDiffMeaning | src/common/utils/kst-time.ts:76-81 | the day difference is the difference of the KST day numbers floor((t+9h)/day), and 0 as soon as one year has not four digits |
| KstTime.FormatMinutesReads | src/common/utils/kst-time.ts:84-88 | a time of day is printed as five characters that read back to its minute |
| Decimal.PrintReads | src/common/utils/kst-time.ts:11-13 | reading a printed number gives the number |
| Decimal.PadReads | src/common/utils/kst-time.ts:11-13 | zero padding does not change the number read |
| PickupSlots.SlotPolicy.GridIsExact | src/features/store/services/store-today-pickup.helper.ts:27-44 | slot i exists iff open + i * interval lies before closing: the grid has ceil((close - open) / interval) slots |
| PickupSlots.SlotPolicy.AvailabilityIsMonotone | src/features/store/services/store-today-pickup.helper.ts:27-44 | once a slot is available, so is every later one |
| PickupSlots.BuildTodaySlots | src/features/store/services/store-today-pickup.helper.ts:27-44 | the counting loop builds exactly that grid, and nothing for an interval of 0 or less |
| PickupSlots.LeadTimeIsExact | src/features/store/services/store-pickup-schedule.service.ts:263-284 | rounding now up to the minute loses nothing: a minute passes the cutoff iff its instant is at least now + lead time |
| PickupSlots.HalvesJoin | src/features/store/services/store-pickup-schedule.service.ts:160-179 | filtering an ascending day at noon loses, repeats and reorders nothing |
| PickupSlots.GridIsClockTimes | src/features/store/services/store-pickup-schedule.service.ts:287-292 | the time strings of a grid read back to its minutes, in ascending order |
| PickupSlots.SplitDayKeepsAll | src/features/pickup/services/pickup-slot.service.ts:86-119 | morning followed by afternoon is the whole grid of the day |
| PickupSlots.HalfDayIsSplitAtNoon | src/features/store/services/store-pickup-schedule.service.ts:165-179 | the morning holds slots before 12:00 only, the afternoon slots from 12:00 on only |
| StoreSchedule.TimeColumnReads | src/features/store/services/store-today-pickup.helper.ts:47-49 | a TIME column reads as the hours and minutes of its instant, whatever its date and seconds |
| StoreSchedule.KeyNamesDay | src/features/store/services/store-pickup-schedule.service.ts:216-232 | the ISO key of a day with a four-digit year is its date string and parses to the start of that day |
| StoreSchedule.KeysDiffer | src/features/store/services/store-pickup-schedule.service.ts:216-232 | two such days never share a key |
| StoreSchedule.KeyOfYear | src/features/store/services/store-pickup-schedule.service.ts:216-228 | the ISO key has a four-digit year up to 9999, a sign and six digits beyond and before |
| StoreSchedule.CalendarErrors | src/features/store/services/store-pickup-schedule.service.ts:62-75 | the calendar answers iff the month parses, its year is 1001 to 9998 and the store is found, with the right error otherwise |
| StoreSchedule.SlotErrors | src/features/store/services/store-pickup-schedule.service.ts:117-134 | the same for the slot query and its date |
| StoreSchedule.ClosureLookup | src/features/store/repositories/store.repository.ts:211-226 | a day of the loaded range is in the closure set iff a live closure row says so |
| StoreSchedule.CapacityLookup | src/features/store/repositories/store.repository.ts:228-245 | the capacity loaded for a day of the range is that day's own row |
| StoreSchedule.BookedLookup | src/features/store/repositories/store.repository.ts:251-273 | grouping by KST date gives each day its own [midnight, next midnight) total |
| StoreSchedule.BookingsPartition | src/features/store/repositories/store.repository.ts:155-178 | the totals of consecutive days add up to the total of the range: no booking is lost or counted twice |
| StoreSchedule.ContextAnswersForDay | src/features/store/services/store-pickup-schedule.service.ts:182-260 | judging a day with a context loaded for any range that holds it is judging the day's own rows, so the one-day context is the restriction of the month's |
| ScheduleAgreement.CalendarEntry | src/features/store/services/store-pickup-schedule.service.ts:62-111 | every calendar entry carries its own date and the verdict of its own day, and the list is as long as the month |
| ScheduleAgreement.FindStoreIsRow | src/features/store/repositories/store.repository.ts:181-194 | a store is found iff it has an active row that is not deleted |
| ScheduleAgreement.HourOnIsRow | src/features/store/repositories/store.repository.ts:196-209 | hours are found for a weekday iff the store has a live row for it |
| ScheduleAgreement.CapacityOnIsRow | src/features/store/repositories/store.repository.ts:228-245 | a capacity is found for a day iff the store has a live row for it |
| ScheduleAgreement.OpenHoursIff | src/features/store/services/store-pickup-schedule.service.ts:234-238 | a day has opening hours iff its weekday's row is not closed and names both times |
| ScheduleAgreement.CalendarReasons | src/features/store/services/store-pickup-schedule.service.ts:216-260 | which reason each calendar entry carries, from the date, the rows of the day and, for today, whether some slot starts at least the lead time from now |
| ScheduleAgreement.OpensOnItsWeekdayOnly | src/features/store/services/store-pickup-schedule.service.ts:62-180 | a store whose live hours are for one weekday is selectable, and has slots, only on dates that many days, modulo 7, after a Sunday |
| ScheduleAgreement.TimeSlotsOfDay | src/features/store/services/store-pickup-schedule.service.ts:117-180 | the slot query answers with the whole grid of the day its date names, sold out when the day is refused |
| ScheduleAgreement.CalendarAgreesWithSlots | src/features/store/services/store-pickup-schedule.service.ts:62-180 | for every date the slot query accepts, its calendar entry is selectable iff it has an available slot, if and only if the tables do not offer a future open day whose interval or opening hours leave no grid |
| ScheduleAgreement.CalendarAgreesForGrids | src/features/store/services/store-pickup-schedule.service.ts:62-180 | for a store with a positive interval and opening minutes before closing minutes the two queries agree on every date |
| ScheduleAgreement.AcceptedWithoutGrid | src/features/seller/services/seller-store-hours.service.ts:104-113 | opening 2026-01-01T10:00Z and closing 2026-01-02T09:00Z pass the seller's check and are stored as 10:00 to 09:00 |
| ScheduleAgreement.SelectableDayWithoutSlots | src/features/store/services/store-pickup-schedule.service.ts:62-180 | with these hours and 30-minute slots every date is selectable in its calendar the day before while its slot query answers no slot |
| ScheduleAgreement.SelectableTodayShowsGrid | src/features/store/services/store-pickup-schedule.service.ts:117-180 | on a selectable today nothing but the lead time closes a slot |
| ScheduleAgreement.TodaySlotsKeepLeadTime | src/features/store/services/store-pickup-schedule.service.ts:263-284 | a store slot of today is available iff its instant is at least now + lead time, to the millisecond |
| TodayPickup.TodayIsKstDay | src/features/store/services/store-today-pickup.service.ts:144-160 | weekday, date, start and end are those of the KST day the instant lies in |
| TodayPickup.HoursByStoreLookup | src/features/store/repositories/store.repository.ts:97-115 | the bulk query of hours answers for each store as a query for that store would |
| TodayPickup.DailyCapacitiesLookup | src/features/store/repositories/store.repository.ts:135-149 | the same for capacities |
| TodayPickup.QuantitiesLookup | src/features/store/repositories/store.repository.ts:155-178 | the same for booked quantities |
| TodayPickup.TodayPickupStores | src/features/store/services/store-today-pickup.service.ts:44-101 | the loop with its early `continue`s keeps exactly the open stores of the ranking, in ranking order |
| TodayPickup.OpenStoresIsFilter | src/features/store/services/store-today-pickup.service.ts:59-101 | a store is listed iff it is ranked and its own facts of the day leave an available slot |
| TodayPickup.TodayAgreesWithCalendar | src/features/store/services/store-today-pickup.service.ts:59-160 | a ranked store is listed iff its calendar marks today selectable, with the slots of its own slot query, morning then afternoon |
| HomePickup.ComputePickupTimeSlots | src/features/pickup/services/pickup-slot.service.ts:86-119 | the loop that pushes into two halves builds the split grid |
| HomePickup.ClosedFormMatchesGrid | src/features/pickup/services/pickup-slot.service.ts:36-79 | the closed form for "today still has a slot" matches the loop |
| HomePickup.HomeCalendarAgreesWithSlots | src/features/pickup/services/pickup-slot.service.ts:36-119 | from year 1000 on, each date of the month is listed in order and is selectable iff its slot query offers an available slot |
| HomePickup.ReasonsAreOrdered | src/features/pickup/services/pickup-slot.service.ts:36-79 | PAST days form a prefix and OUT_OF_RANGE days a suffix of every month |
| HomePickup.HomeReasons | src/features/pickup/services/pickup-slot.service.ts:36-79 | from year 1000 on: PAST before today, OUT_OF_RANGE more than 30 days ahead, CLOSED today when an hour from now is past 19:30, selectable otherwise |
| HomePickup.HomeGrid | src/features/pickup/constants/pickup.constants.ts:8-11 | twenty slots, every half hour from 10:00 to 19:30 |
| HomePickup.ListsRequestedMonthFromYear1000 | src/features/pickup/services/pickup-slot.service.ts:36-79 | the calendar lists the month it was asked for iff the year is at least 1000 |
| HomePickup.FirstEntryIsElsewhere | src/features/pickup/services/pickup-slot.service.ts:36-79 | below year 1000 the first listed date is refused by the slot query or lies in another month |
| HomePickup.NeverWithin59Minutes | src/features/pickup/services/pickup-slot.service.ts:86-119 | an offered slot is more than 59 minutes ahead although seconds are dropped |
| HomePickup.OfferedFromOneHour | src/features/pickup/services/pickup-slot.service.ts:86-119 | a slot at least 60 minutes ahead is offered |
| KeysetPaging.SortDescSorts | src/features/product/repositories/product-review.repository.ts:116-156 | the listing holds every matching key once, likes descending then id descending |
| KeysetPaging.SortDescUnique | src/features/product/repositories/product-review.repository.ts:116-156 | there is only one such listing |
| KeysetPaging.PageMeaning | src/features/product/services/product-review.service.ts:136-179 | a page is the highest keys below the cursor, the next cursor is its last key, and `hasMore` is exact |
| KeysetPaging.AtMostOnceIfNeverFalls | src/features/product/repositories/product-review.repository.ts:116-156 | over any traversal with arbitrary changes, a review whose count never falls is returned at most once |
| KeysetPaging.AtLeastOnceIfNeverRises | src/features/product/repositories/product-review.repository.ts:116-156 | one that stays visible and whose count never rises is returned by the last page at the latest |
| KeysetPaging.ExactlyOnceIfFixed | src/features/product/services/product-review.service.ts:147-164 | one that stays visible with a fixed count is returned exactly once |
| PagingLimits.NeverRepeatsIff | src/features/product/repositories/product-review.repository.ts:116-156 | for every page size, a visible review is safe from being returned twice, whatever the other reviews do, iff its own count never falls |
| PagingLimits.NeverMissedIff | src/features/product/repositories/product-review.repository.ts:116-156 | and safe from being missed by a finished traversal iff its own count never rises |
| PagingLimits.FallRepeats | src/features/product/services/product-review.service.ts:132-134 | for every count history that falls and every page size there are tables on which the review is returned twice (`KeysetPaging.BoundaryReviewCanRepeat` is an instance) |
| PagingLimits.RiseMisses | src/features/product/services/product-review.service.ts:132-134 | for every count history that rises there are tables on which a finished traversal misses the review (`KeysetPaging.OvertakingReviewCanBeMissed` is an instance) |
| KeysetPaging.TraversalEnds | src/features/product/services/product-review.service.ts:147-164 | whatever the tables do between requests, a traversal with limit >= 1 ends |
| KeysetPaging.StaticWalk | src/features/store/services/store-review.service.ts:62-106 | on an unchanged table the pages concatenate to the sorted listing |
| KeysetPaging.StaticFinishes | src/features/store/services/store-review.service.ts:62-106 | and are finished once n * limit covers it |
| ReviewListing.QueriesAreGrouped | src/features/store/repositories/store-review.repository.ts:76-115 | each query lists a review once |
| ReviewListing.WhatIsListed | src/features/product/repositories/product-review.repository.ts:77-156 | which reviews each query lists, from the rows of review, product, store and media |
| ReviewListing.NoLikesCountZero | src/features/product/repositories/product-review.repository.ts:116-156 | a review without like rows counts zero |
| ReviewListing.LikeWriteMovesCount | src/features/product/repositories/product-review.repository.ts:143-144 | writing a like row moves a review's count by one exactly when the row starts or stops being a live like of it |
| ReviewListing.PageOfTwoReads | src/features/product/services/product-review.service.ts:137-225 | a page takes order and cursor from the id query and leaves out exactly the reviews deleted before their bodies are read |
| ReviewListing.LikesWalkDescends | src/features/product/repositories/product-review.repository.ts:116-156 | in a finished LIKES walk of an unchanged database an earlier review has more live like rows than a later one, or as many and the larger id |
| ReviewListing.CursorParsesIff | src/features/product/services/product-review.service.ts:182-194 | a cursor is read iff it is digits, a colon and digits with a count of at most 2^53 - 1, as those two numbers |
| ReviewListing.CursorAnswers | src/features/product/services/product-review.service.ts:136-150 | no cursor and an empty one ask for the first page, an unreadable one is refused, any other continues from its key |
| ReviewListing.CursorRoundTrip | src/features/product/services/product-review.service.ts:182-194 | a printed cursor parses back to itself iff its like count is a safe integer |
| ReviewListing.TokensCarryTheCursor | src/features/product/services/product-review.service.ts:136-194 | a client that follows the printed cursors sees exactly the traversal over keys, so every law above holds for clients |
| ReviewListing.SameReviewsIff | src/features/product/repositories/product-review.repository.ts:77-156 | the LIKES query and the LATEST query show the same reviews iff, for each live review of an open product, the product's store is open exactly when the review's store is |
| ReviewListing.QueriesCanDiffer | src/features/product/repositories/product-review.repository.ts:77-156 | a review that carries another, closed store is listed by LIKES and by neither LATEST nor the total |
| ReviewListing.StaticTraversals | src/features/product/repositories/product-review.repository.ts:77-156 | on an unchanged database LIKES and LATEST traversals are their sorted listings, LATEST is as long as the total count, and they are permutations of each other under exactly that condition |
| ReviewTables.HistoryKeepsSafe | src/features/user/repositories/review.repository.ts:182-218 | no history of committed writes leaves an active comment or active media on a deleted review |
| ReviewTables.NoZombieComments | src/features/user/repositories/user.repository.ts:656-695 | every active comment of a review was inserted after the review's latest re-activation |
| ReviewTables.WriteOnComment | src/features/user/repositories/review.repository.ts:204-214 | a write changes a comment only by switching it off, and only if it drops that comment or deletes that comment's review by its author |
| ReviewTables.CommentStays | src/features/user/repositories/review.repository.ts:182-218 | a comment keeps its row through every history until it is dropped or its own review is deleted |
| ReviewTables.AddedComment | src/features/user/repositories/user.repository.ts:687-694 | a comment on a live review adds one active row with author and text, and nothing else changes |
| ReviewTables.DeletedReview | src/features/user/repositories/review.repository.ts:182-218 | a deletion switches off the review and its media, and no other review or media |
| ReviewTables.RefusedDeletion | src/features/user/repositories/review.repository.ts:187-196 | a deletion by another account or of a deleted review changes nothing |
| ReviewTables.RestoredReview | src/features/user/repositories/review.repository.ts:54-98 | a rewrite switches the review on with its new text, keeps its author, item and product, and touches no comment and no other review's media |
| ReviewTables.LiveReviewShowsLatestList | src/features/user/repositories/review.repository.ts:39-102 | the active media of a live review are exactly its latest write's list, with sort_order 0 to k-1 |
| ReviewTables.ValidateMedia | src/features/user/services/user-review.service.ts:237-255 | the counting loop accepts iff the list holds at most ten images and one video |
| ReviewTables.LiveReviewMediaIsBounded | src/features/user/services/user-review.service.ts:120-137 | if every written list was validated, the active media of a live review are at most ten images and one video |
| ReviewTables.ReviewRepository.CreateOrRestoreReviewWithMedia | src/features/user/repositories/review.repository.ts:39-102 | the statements do what the whole write does, on a new id or on the restored row |
| ReviewTables.ReviewRepository.SoftDeleteReview | src/features/user/repositories/review.repository.ts:182-218 | deletes the review, its media and its comments iff it is live and owned by the caller, else nothing |
| ReviewTables.ReviewRepository.CreateReviewComment | src/features/user/repositories/user.repository.ts:665-695 | inserts a comment iff the review is live and its product and the product's store are active and not deleted |
| ReviewTransactions.NextKeepsInv | src/features/user/repositories/user.repository.ts:665-695 | every statement of every transaction keeps the lock invariant, and commits at most one whole write |
| ReviewTransactions.CommitOrderIsSerial | src/features/user/repositories/review.repository.ts:39-102 | in every interleaving the committed tables are the committed writes applied one after the other in commit order |
| ReviewTransactions.NoInterleavingIsUnsafe | src/features/user/repositories/review.repository.ts:182-218 | in no interleaving does a committed state show an active comment or media on a deleted review |
| ReviewTransactions.NoInterleavingMixesMedia | src/features/user/repositories/review.repository.ts:39-102 | in every interleaving the active media of a live review are its last committed list in order, at most ten images and one video |
| ReviewTransactions.NoInterleavingRevivesComments | src/features/user/repositories/user.repository.ts:656-695 | in every interleaving, a comment that is active after a deleted review was brought back has an id not yet handed out at that commit: it was inserted later |
| ReviewTransactions.NoCommitRevivesComments | src/features/user/repositories/user.repository.ts:656-695 | and in commit order it did not exist when the review was brought back |
| ReviewTransactions.NoInterleavingLosesComments | src/features/user/repositories/review.repository.ts:182-218 | in every interleaving a comment once committed keeps its row until it is dropped or its own review is deleted |
| ReviewTransactions.LocksMakeWait | src/features/user/repositories/user.repository.ts:671-680 | a comment waits for whoever is changing its review; a deletion or rewrite waits for those and for commenters |
| ReviewTransactions.CommentGoesThrough | src/features/user/repositories/user.repository.ts:670-692 | among readers of its review a comment is committed by its third statement, and refused by its first iff the review is not live or its shop is closed |
| ReviewTransactions.DeletionGoesThrough | src/features/user/repositories/review.repository.ts:187-216 | alone on a live review of its author a deletion commits review, media and comments at its fourth statement; otherwise it ends at its first |
| ReviewTransactions.RewriteGoesThrough | src/features/user/repositories/review.repository.ts:53-98 | alone on its review a rewrite commits content and media list together |
| ReviewTransactions.CreationGoesThrough | src/features/user/repositories/review.repository.ts:53-98 | a first review waits for nobody and commits the review and its media under new ids |
| ReviewLikes.RunKeepsValid | src/features/user/repositories/user.repository.ts:567-632 | over every run: nobody likes their own review, one row per review and account, one notification per row and each to the author |
| ReviewLikes.LikesAreInOrder | src/features/user/repositories/user.repository.ts:567-632 | the same, row by row: after every run no like by the author, one row for each review and account, as many notifications as rows, each to the author |
| ReviewLikes.HiddenReviewRefuses | src/features/user/repositories/user.repository.ts:571-583 | liking or unliking a missing or deleted review is answered not found and changes nothing |
| ReviewLikes.VisibleReviewLikes | src/features/user/repositories/user.repository.ts:583-631 | on a visible review the author is refused, everyone else likes it afterwards |
| ReviewLikes.ReviewEvents | src/features/user/repositories/review.repository.ts:54-98 | a review is visible when new or restored and not when deleted; its author stays |
| ReviewLikes.LikesFollowLastAction | src/features/user/repositories/user.repository.ts:567-654 | an account has an active like iff its last effective action on the review was a like |
| ReviewLikes.CountIsNumberOfLikers | src/features/product/repositories/product-review.repository.ts:393-402 | the like count is the number of accounts whose last effective action was a like |
| ReviewLikes.RewriteKeepsLikes | src/features/user/repositories/review.repository.ts:54-74 | deleting and restoring a review leaves its likes as they were |
| ReviewLikes.UserLikes.LikeReview | src/features/user/repositories/user.repository.ts:567-632 | not found, self-like, already liked, revived or new with its notification, each in its case, keeping the invariant |
| ReviewLikes.UserLikes.UnlikeReview | src/features/user/repositories/user.repository.ts:635-654 | not found for an invisible review, else unliked; the state is that of the unlike step |
| ReviewLikes.UnlikeIsIdempotent | src/features/user/repositories/user.repository.ts:634-654 | unliking again changes nothing and is answered as before; afterwards a visible review is not liked by the account, and no other like changed |
| Accounts.WithdrawnSubjectInjective | src/common/utils/withdrawn-identity.ts:29-34 | a retired subject tells apart both the account and the original subject |
| Accounts.LoginMeaning | src/features/auth/repositories/account.repository.ts:59-242 | a login returns an active account that owns the key from now on: its owner if it had one, a new account otherwise |
| Accounts.LoginFillsAccount | src/features/auth/repositories/account.repository.ts:139-285 | a login fills a missing email with a verified, non-empty one and a missing name, never overwrites either, and changes no other account |
| Accounts.ConflictChangesNothing | src/features/auth/repositories/account.repository.ts:96-111 | a refused login changes nothing |
| Accounts.RunFollowsRequests | src/features/auth/repositories/account.repository.ts:59-111 | a run is its logins and withdrawals, one after the other |
| Accounts.LoginConflictIff | src/features/auth/repositories/account.repository.ts:59-111 | a login is refused by the UNIQUE index iff a deleted row holds its very key |
| Accounts.WithdrawMeaning | src/features/user/repositories/user.repository.ts:180-250 | a withdrawal deletes the account, clears its email and retires every identity of it under the subject `withdrawn:` + id + `:` + hash, and keeps the tables valid |
| Accounts.WithdrawTouchesOwnRows | src/features/user/repositories/user.repository.ts:180-250 | a withdrawal leaves accounts and identities of others, and identities already deleted, as they were |
| Accounts.KeysStayUnique | src/features/user/repositories/user.repository.ts:218-250 | over every run (provider, subject) is unique across live and retired rows |
| Accounts.RepeatedLoginsAgree | src/features/auth/repositories/account.repository.ts:59-111 | until its owner withdraws, every login by a key returns the same account |
| Accounts.WithdrawnNeverReturns | src/features/auth/repositories/account.repository.ts:82-90 | no login after a withdrawal ever returns the withdrawn account |
| Accounts.LoginAfterWithdrawalIsNew | src/features/auth/repositories/account.repository.ts:82-90 | after the owner of a key withdrew, and whatever other logins and withdrawals came in between, the first login by the key creates an account that did not exist |
| Accounts.EmailIsKept | src/features/auth/repositories/account.repository.ts:139-199 | a non-null email is unchanged until the account withdraws |
| AccountRepository.AccountStore.UpsertUserByOidcIdentity | src/features/auth/repositories/account.repository.ts:59-111 | the statements of a login, with the UNIQUE check at each insert and update and the rollback on a conflict, do what the login function says |
| AccountRepository.AccountStore.RetireWithdrawnIdentity | src/features/auth/repositories/account.repository.ts:119-134 | replaces the subject and deletes the row unless another row holds the new key |
| AccountRepository.AccountStore.CreateNewIdentity | src/features/auth/repositories/account.repository.ts:204-242 | joins anew unless the key is taken |
| AccountRepository.AccountStore.SoftDeleteAccount | src/features/user/repositories/user.repository.ts:180-250 | the row-by-row retirement never meets the UNIQUE index and ends in the withdrawn state |
| RefreshSessions.RunKeepsValid | src/features/auth/repositories/refresh-session.repository.ts:24-108 | over every run `replaced_by` edges point to later sessions of the same account, only from revoked ones, one-to-one, and token hashes stay unique |
| RefreshSessions.ChainKeepsAccount | src/features/auth/repositories/refresh-session.repository.ts:55-87 | along a chain ids strictly increase and the account stays |
| RefreshSessions.OneLivePerChain | src/features/auth/repositories/refresh-session.repository.ts:55-87 | a chain has at most one unrevoked session |
| RefreshSessions.ChainsNeverMerge | src/features/auth/repositories/refresh-session.repository.ts:55-87 | chains that meet after equally many steps start at one session |
| RefreshSessions.RefreshConservesLive | src/features/auth/services/token.service.ts:91-137 | a successful refresh trades one live session for one new one of the same account and conserves every account's number |
| RefreshSessions.LiveSessionsAreIssued | src/features/auth/services/token.service.ts:59-137 | over every run an account has at most as many live sessions as were issued since its last password change or withdrawal |
| RefreshSessions.IssuedSinceSteps | src/features/auth/services/token.service.ts:59-89 | the bound counts each session issued to the account once and restarts at a password change or withdrawal |
| RefreshSessions.DeadTokenNeverAccepted | src/features/auth/repositories/refresh-session.repository.ts:42-53 | the token of a revoked or deleted session is refused in every later state |
| RefreshSessions.OldTokensAreRefused | src/features/auth/services/seller-credential.service.ts:192-202 | no token issued before a password change or withdrawal of its account is accepted afterwards |
| RefreshSessions.TokenIsSpentOnce | src/features/auth/services/token.service.ts:91-137 | a refreshed token is refused ever after, and its successor is accepted exactly until it expires |
| RefreshSessions.RefreshSessionRepository.CreateRefreshSession | src/features/auth/repositories/refresh-session.repository.ts:24-40 | adds a session unless its token hash is stored |
| RefreshSessions.RefreshSessionRepository.FindActiveRefreshSessionByHash | src/features/auth/repositories/refresh-session.repository.ts:42-53 | finds the session of the hash that is neither revoked, deleted nor expired |
| RefreshSessions.RefreshSessionRepository.RotateRefreshSession | src/features/auth/repositories/refresh-session.repository.ts:55-87 | creates the successor and marks the old session, or changes nothing |
| RefreshSessions.RevokeAllMeaning | src/features/auth/repositories/refresh-session.repository.ts:97-108 | after revoking all sessions of an account each of its tokens is refused from then on, every other token is answered as before, and earlier revocation times and other sessions stay |
| RefreshSessions.LogoutMeaning | src/features/auth/repositories/refresh-session.repository.ts:89-95 | a logout revokes the token's session at that time and nothing else; the token is refused ever after, every other token is answered as before |
| RefreshSessions.WithdrawMeaning | src/features/user/repositories/user.repository.ts:204-214 | a withdrawal revokes and deletes the account's live sessions and leaves every other row |
| RefreshSessions.RefreshSessionRepository.RotateRefresh | src/features/auth/services/token.service.ts:91-137 | one refresh request is the refresh step, accepted iff the token is active |
| RefreshSessions.RefreshSessionRepository.LogoutSeller | src/features/auth/services/seller-credential.service.ts:132-155 | revokes the session iff the token is active and its account a seller |
| RefreshSessions.RefreshSessionRepository.ChangeSellerPassword | src/features/auth/services/seller-credential.service.ts:157-216 | changes the hash and revokes all sessions iff every check passes, else nothing |
| RandomSample.IntIsUniform | src/common/providers/random.service.ts:17-19 | each value below n is hit by a stretch of length 1/n of the unit interval |
| RandomSample.Sample | src/common/providers/random.service.ts:25-33 | the in-place swaps on a copy return the elements drawn by the choices, for any count |
| RandomSample.SwapInPlace | src/common/providers/random.service.ts:30-30 | exchanges two elements of the pool and nothing else |
| RandomSample.DrawTakesFromPool | src/common/providers/random.service.ts:25-33 | a sample holds no element more often than the list |
| RandomSample.DrawIsSelection | src/common/providers/random.service.ts:25-33 | from distinct items a sample is an ordered selection without replacement |
| RandomSample.DrawIsInjective | src/common/providers/random.service.ts:25-33 | different choice vectors give different samples of distinct items |
| RandomSample.DrawIsOnto | src/common/providers/random.service.ts:25-33 | every ordered selection is drawn by some choice vector |
| RandomSample.SamplesArePositions | src/common/providers/random.service.ts:25-33 | for any list, repeated items or not, choice vectors correspond one-to-one to ordered selections of positions |
| RandomSample.AtMostCountIff | src/common/providers/random.service.ts:21-33 | the promised length bound holds iff the count is not negative or the list is no longer than its absolute value (`NegativeCountReturnsItems` is an instance) |
| RecentViews.TrimKeepsNewest | src/features/user/repositories/recent-product-view.repository.ts:103-121 | trimming leaves the first fifty of the newest-first order, in that order, however ties are listed |
| RecentViews.RecordBounds | src/features/user/services/user-recent-view.service.ts:61-81 | after a record the account shows at most fifty views whatever the clock did, and no other account changes |
| RecentViews.NeverMoreThanFifty | src/features/user/services/user-recent-view.service.ts:61-98 | over every run no account ever shows more than fifty |
| RecentViews.StepRefines | src/features/user/services/user-recent-view.service.ts:61-98 | each request moves the table as it moves the move-to-front list |
| RecentViews.TableIsMoveToFrontList | src/features/user/services/user-recent-view.service.ts:61-98 | with a rising clock the newest-first query answers exactly the move-to-front list cut at fifty, after every run |
| RecentViews.TiesComeInAnyOrder | src/features/user/repositories/recent-product-view.repository.ts:103-121 | two views of the same time may be answered in either order |
| RecentViews.UpsertMovesToFront | src/features/user/repositories/recent-product-view.repository.ts:73-95 | an upsert later than every stored view puts the product first in the newest-first order and leaves the order of the others |
| RecentViews.RecentProductViewRepository.DeleteOldestOverLimit | src/features/user/repositories/recent-product-view.repository.ts:103-121 | deletes exactly what the query lists past the limit |
| RecentViews.RecentProductViewRepository.SoftDeleteByProduct | src/features/user/repositories/recent-product-view.repository.ts:123-137 | deletes the shown row and says whether there was one |
| RecentViews.RecentProductViewRepository.SoftDeleteAllByAccount | src/features/user/repositories/recent-product-view.repository.ts:139-151 | deletes every shown row of the account and counts them |
| RecentViews.RecentProductViewRepository.RecordView | src/features/user/services/user-recent-view.service.ts:61-81 | an inactive product changes nothing; otherwise upsert, then trim |
| OrderStatus.AcceptedIff | src/features/order/policies/order-status-transition.policy.ts:15-52 | an update is accepted iff it is one allowed step of an own order with a fitting note, present for cancellations |
| OrderStatus.RefusalReasons | src/features/seller/services/seller-order.service.ts:128-147 | a refused update carries the first reason that applies |
| OrderStatus.AcceptedUpdateOrder | src/features/order/repositories/order.repository.ts:443-460 | an accepted update sets status and timestamp of its step and touches no other order |
| OrderStatus.AcceptedUpdateNotifies | src/features/order/repositories/order.repository.ts:472-489 | it sends the event of its step to the buyer, and none for a cancellation |
| OrderStatus.AcceptedUpdateRecords | src/features/order/repositories/order.repository.ts:462-508 | it records the step, the time and the trimmed note in history and audit log |
| OrderStatus.RunKeepsGood | src/features/order/repositories/order.repository.ts:415-523 | over every run each history, with or without the entry of the placing, chains to the current status, cancellations carry a non-empty note, and timestamps mirror the history |
| OrderStatus.CancellationsCarryNotes | src/features/seller/services/seller-order.service.ts:140-145 | in every run a cancellation carries a note of 1 to 500 characters without outer white space |
| OrderStatus.PlaceKeepsGood | prisma/seed/orders.ts:43-75 | a freshly placed order, whose history is one entry from nothing to Submitted, is in order, belongs to its buyer and stores, and placing it disturbs no other |
| OrderStatus.RunKeepsAudits | src/features/order/repositories/order.repository.ts:491-508 | from any state a run only appends to history and audit log, one matching entry each |
| OrderStatus.EachStatusOnce | src/features/order/policies/order-status-transition.policy.ts:15-48 | a chained history enters each status at most once, Submitted only by the placing, with strictly rising rank, so at most three entries are by sellers |
| OrderStatus.TimestampsMirrorHistory | src/features/order/repositories/order.repository.ts:443-470 | the timestamp of a step is set iff its status is in the history, and every entry, the placing too, has its changed_at as timestamp |
| OrderStatus.NotificationsFollowHistory | src/features/order/repositories/order.repository.ts:462-489 | from any state a run notifies the buyer of exactly the new history entries that call for it, in their order |
| OrderStatus.UpdatesAndNotifications | src/features/order/repositories/order.repository.ts:462-489 | from any state an order gets at most three updates, and as many status notifications as updates that are not cancellations |
| OrderStatus.LegalPathsAreReached | src/features/order/policies/order-status-transition.policy.ts:15-48 | from a fresh order, with or without the entry of its placing, every path of allowed steps is walked by some run |
| OrderStatus.RunsWalkLegalPaths | src/features/order/policies/order-status-transition.policy.ts:15-48 | and every run leaves each order on such a path |
| OrderStatus.SellerOrders.UpdateOrderStatusBySeller | src/features/order/repositories/order.repository.ts:415-523 | order, history, notification and audit rows are written together, or nothing for a foreign order |
| OrderStatus.SellerOrders.SellerUpdateOrderStatus | src/features/seller/services/seller-order.service.ts:124-158 | checks in order, then writes; a refused update names its reason and changes nothing |
| Text.TrimIsMiddle | src/common/utils/text-cleaner.ts:14-25 | trimming cuts white space off both ends and nothing else |
| Text.TrimOfPadded | src/common/utils/text-cleaner.ts:14-25 | text that neither starts nor ends with white space comes back from under any white space around it |
| Text.SpacesAre | src/common/utils/text-cleaner.ts:14-25 | the twenty-five characters that count as white space |
| Ranking.RatingShrinks | src/features/store/services/store-ranking.helper.ts:17-25 | the rating lies between average and prior at distance m/(n+m) of their gap from the average |
| Ranking.MoreReviewsTrustAverage | src/features/store/services/store-ranking.helper.ts:13-25 | with more reviews the rating moves strictly from the prior towards the average |
| Ranking.ScoreIsMonotone | src/features/store/services/store-ranking.helper.ts:30-44 | more orders, more wishes or a better average never lower the score, and it is equal iff nothing that counts changed |
| Ranking.RatingAddsFiveReviews | src/features/store/services/store-ranking.helper.ts:17-25 | the rating is the average after adding five reviews that give the prior |
| Ranking.ScoreExchange | src/features/store/services/store-ranking.helper.ts:30-44 | how the score trades its parts: logarithm of orders once, of wishes half, rating two fifths |
| Ranking.ComparatorIsStrictOrder | src/features/store/services/store-listing.service.ts:76-84 | on distinct ids the comparator is a strict total order; a store compared with itself is not |
| Ranking.RankDescends | src/features/store/services/store-listing.service.ts:76-84 | higher scores come first, among equal scores more reviews, among those the higher id |
| Ranking.RankRanks | src/features/store/services/store-listing.service.ts:76-84 | the sort ranks every pair |
| Ranking.RankPermutes | src/features/store/services/store-listing.service.ts:76-84 | and only permutes |
| Ranking.RankingIsUnique | src/features/store/services/store-listing.service.ts:76-84 | two ranked lists of the same stores are equal |
| Ranking.RankingIgnoresInputOrder | src/features/store/services/store-listing.service.ts:76-84 | the ranking depends neither on the order of the candidates nor on the sorting algorithm |
| Ranking.SortScored | src/features/store/services/store-listing.service.ts:76-84 | sorting the array in place gives the ranking of its old contents |
| Ranking.RankActiveStores | src/features/store/services/store-listing.service.ts:44-85 | every candidate is scored and ranked: scores descend, then review counts, then ids |
| Ranking.RankedIsScored | src/features/store/services/store-listing.service.ts:65-74 | every ranked entry is a candidate with its own counts, 0 where there are none |
| Ranking.NoAverageIsFourStars | src/features/store/services/store-listing.service.ts:63-63 | without any review the prior is 4.0 |
| Ranking.MoreOrdersRankFirst | src/features/store/services/store-listing.service.ts:76-84 | of two candidates alike but for recent orders, the one with more stands first |
| Ranking.PagesAreTheRanking | src/features/store/services/store-listing.service.ts:90-134 | pages of any size join to the whole ranking numbered from one, and `hasMore` says exactly whether the next page holds anything |
| Nickname.NeverCollide | src/features/auth/helpers/initial-nickname.helper.ts:22-36 | machine-made nicknames of two accounts, initial or deleted, never collide |
| Nickname.InitialIsMachineMade | src/features/auth/helpers/initial-nickname.helper.ts:33-35 | whatever names and emails the provider gave, the nickname ends in an underscore and the id |
| Nickname.IdIsReadable | src/features/user/services/user-profile.service.ts:191-201 | the text after the last underscore is the account id |
| Nickname.InitialForm | src/features/auth/helpers/initial-nickname.helper.ts:22-36 | only allowed characters, the whole suffix, and as much of the base as fits |
| Nickname.NameBeforeEmail | src/features/auth/helpers/initial-nickname.helper.ts:27-31 | the allowed characters of the name come first, then those of the email's local part, then "user" |
| Nickname.AllowedIff | src/features/auth/helpers/initial-nickname.helper.ts:4-5 | exactly ASCII letters and digits, Hangul syllables and the underscore are kept |
| Nickname.FitsColumnIff | src/features/auth/helpers/initial-nickname.helper.ts:1-36 | the nickname fits in 50 characters iff the id has at most 49 digits |
| Nickname.WideIdsFit | src/features/auth/helpers/initial-nickname.helper.ts:1-36 | every 64-bit id fits and leaves room for some of the name |
| Nickname.SanitizeIgnoresTrim | src/features/auth/helpers/initial-nickname.helper.ts:27-29 | trimming first changes nothing, and the sanitized name has only allowed characters |
| Nickname.LocalPart | src/features/auth/helpers/initial-nickname.helper.ts:30-30 | the part of an email before its first at sign |

## Left out

- Instants are unbounded integers; the limit of ±8.64e15 ms of ECMA-262 section 21.4.1 is not modelled.
- Floating point: scores and ratings are reals, `log1p` is any strictly increasing function, and a random draw is a real
  in [0, 1).
- Hashing and tokens: SHA-256 is any injective function; a generated token that collides is refused by the UNIQUE index;
  argon2 answers are parameters; JWT signing, cookies and the OIDC client are foreign calls.
- Concurrent requests are modelled statement by statement only for review transactions; a login, withdrawal, refresh,
  like, view or status update is one atomic step. Two writers racing past the same check are not covered.
- Two concurrent first reviews of one order item: the UNIQUE index on `order_item_id` is not part of `ReviewTransactions`.
- The LATEST cursor is a plain id; its string parsing is not modelled.
- Soft-delete, creation and update times are kept as flags except where a law is about them; user agents and addresses
  are dropped.
- A TIME column keeps whole seconds; the rounding of fractions of a second on storing is not modelled.
- Whether product and store of a commented review are active is a flag of the request in `ReviewTransactions`; the locks
  concern the review row only. `ReviewTables.ReviewRepository.CreateReviewComment` reads the rows.
- Uniqueness of emails and of nicknames chosen by users: such values can clash with generated ones.
- Names are strings of Unicode characters rather than UTF-16 units; every character a nickname keeps is a single unit.
- Lead time on future days: the code applies the cutoff only to today, so nothing is claimed for later days.
- Query plans of Prisma and MySQL: only the row-level meaning of each filter, order, limit and lock is kept. The order of
  rows with equal keys is a parameter wherever it matters.
- Order creation beyond its order and history rows, the paging of recent views, comments and store showcases, banners, search, conversations, FAQ, carts and
  the other CRUD services: mapping and short case splits.
- Wiring of NestJS modules, resolvers, guards, validation of inputs, loggers, configuration and object storage.
- RecentViews.RecentProductViewRepository.RecordView: upsert and trim are one step, although the code runs them one after
  the other without a transaction.
- Ranking.SortScored: an insertion sort stands for the built-in `sort`; `RankingIgnoresInputOrder` shows that any sort
  gives the same list.
