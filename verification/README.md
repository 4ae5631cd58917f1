# Proofs about gradido_blockchain

Dafny models of the parts of gradido_blockchain in which a fast structure has to agree with a simple
one, a protocol runs, or digits are carried, with proofs of what they promise. `dafny verify dfyconfig.toml`
checks everything.

## What is modelled

- **Parallel signature check** (`SignatureVerify`): master and workers as a step relation over one mutex,
  two condition variables with wait sets, a bounded queue and the `done` flag. Safety, conservation,
  freedom from deadlock, termination, and the result of every run.
- **Bitmap index** (`RoaringIndex`, with `DayTable`, `Bitmaps`, `Criteria`, `Filters`, `Addresses`, and
  `NaiveScan`, the scan of the chain the bitmaps stand for): updates and queries. Bitmaps are sets of
  numbers, `select` is the rank in the sorted listing.
- **Month bucket index** (`BucketIndex`, with `MonthEntries`, `BalanceHistory`, `Addresses`, `BucketSearch`,
  `RangeUtils`): buckets, balance lists, searches and counts. `BucketChain` relates the history to the
  transactions. `SearchIterator` is the iterator for searches the caller controls.
- **What is asked for** (`Asked`, `Pages`): the pages and counts a caller may expect of a chain, and when
  another selection gives the same ones. `RoaringAnswers`, `BucketAnswers` and `SearchIterator` compare the
  answers with it; `RoaringExamples` and `BucketExamples` have the inputs on which they differ. Keys are
  asked for with their community (CompactFilter.h:45-46), and a key that is not known takes part in nothing.
  Intervals count whole months in the month buckets (CompactFilter.h:50) and whole days in the bitmaps. A
  coin is that of the transaction in the month buckets (Filter.cpp:126-136); the bitmaps, which look at the
  balances, are asked for a balance in a foreign coin, or for balances in the own coin only.
- **Page loop** (`InMemory`): `findAll` with an element filter.
- **Involved addresses** (`ConfirmedTx`, `Dictionary`).
- **Carry loops and printer** (`KeyDerivation`, `DecimalPrinter`).
- **Block allocator** (`BlockMemory`), **hash list** (`HashList`), **mnemonic words** (`Mnemonic`),
  **builder and signature maps** (`Builder`, `Signatures`).

`Sequences`, `Wrappers` and `Primitives` hold shared definitions. A run of an index is a chain: numbers
start at 1 or more and go up by one, and dates never go back. Objects that the source updates in place are
classes; exceptions are `Result` values. Hash functions, the serializer, signing and signature checks are
parameters.

## Where the code departs from its promises

The model follows the code. Each departure has the exact condition and an input.

- Bitmap paging repeats the last entry when a page of two, or a page of a two-element result, has one entry
  left (`Filters.RepeatsLast`; `RoaringIndex.RepeatExample`).
- An interval that starts before the oldest day can give nothing too early
  (`RoaringIndex.TransactionsIndex.Trapped`; `RoaringIndex.TrappedExample`).
- The bitmap index does not restrict by its own coin, nor by the search types for missing keys
  (`RoaringAnswers.OwnCoinIsRight`, `MissingKeyIsRight`; `RoaringExamples.RunToDepartures`).
- It does not find a key that the body of a transaction names, but that neither signed, nor has a balance,
  nor is from another community or the root (`RoaringAnswers.OnlyNamed`; `RoaringExamples.RunToDepartures`).
- The month buckets know keys by their number alone, and give the transactions of another community's key
  with the number of the asked one (`BucketChain.IsMistaken`, `BucketAnswers.RightIfNothingOverlooked`,
  `CountIsAsked`, `BalanceSearchIsAsked`; `BucketExamples.RunToForeignKey`).
- They restrict nothing for a key without a community, either (the same; `BucketExamples.MissingCommunityExample`).
- The skip count of a page wraps at 2^32 (`Filters.WrapMatters`; `BucketExamples.WrapExample`).
- The descending bucket search does not see a month that holds numbers below the minimum, and no search
  sees an interval that begins behind the first instant of the newest month (`BucketAnswers.Overlooks`;
  `BucketExamples.StraddledMonthExample`, `LateIntervalExample`).
- The shortcut for the last balance change ignores the transaction type (`BucketAnswers.ShortcutIsAsked`;
  `BucketExamples.RunToShortcut`).
- Counts and the balance list ignore some intervals (`BucketIndex.TransactionsIndex.CountsAll`,
  `BalanceSeesAll`).
- The iterator stops at once if its first month has no entries, and going down if the highest number asked
  for lies above its last month (`SearchIterator.StartsInHole`, `StartsAbove`; `HoleExample`, `AboveExample`).
- A refused addition can leave a highest number above everything added, and the bitmap index keeps a
  transaction that its address index refuses (`BucketIndex.TransactionsIndex.AddTransaction`,
  `RoaringIndex.TransactionsIndex.AddTransactionIndices`).
- `findAll` visits the first page twice when it starts at page 0 (`InMemory.VisitedIsRest`).
- Numbers of 20 digits are printed from one byte before the buffer (`DecimalPrinter.TextAtBuffer`).
- A block assigned to itself, by copy or by move, ends up empty (`BlockMemory.Block.CopyAssign`, `MoveAssign`).
- A word that is not in the list can have the index of a listed one (`Mnemonic.Mnemonic.GetWordIndex`;
  `Mnemonic.UnlistedWordExample`).
- A signature map can differ from itself when two of its pairs have one hash (`Signatures.SameAsItself`).
- Bodies of creations and community roots never pair, and bodies with an unset key do not either
  (`Builder.TransactionBody.CanPair`).
- A local transaction whose community is missing when the first signature is given stays without bytes
  (`Builder.GradidoTransactionBuilder.SwitchBuildState`).

## Model

| member | source | states |
|---|---|---|
| SignatureVerify.NextKeepsInv | src/blockchain/batch/signaturesVerify.cpp:46-163 | Every step of every thread, and every spurious wake-up, keeps the protocol invariant: one holder of the mutex, no lost wake-up in either direction, pages popped or queued in order, every popped transaction verified or in exactly one hand, results equal to the bad numbers among the verified. |
| SignatureVerify.MutualExclusion | src/blockchain/batch/signaturesVerify.cpp:47-84 | No two threads are ever inside the mutex together. |
| SignatureVerify.TakenBatchIsProper | src/blockchain/batch/signaturesVerify.cpp:59-66 | front() and pop() are reached on a non-empty queue only; a batch is the front of the queue, with 500 transactions or, if there are fewer, with all of them. |
| SignatureVerify.QueueStaysBounded | src/blockchain/batch/signaturesVerify.cpp:129-149 | The queue grows only while it has fewer than 500 transactions for each worker and one more 500, and then by exactly the next page. |
| SignatureVerify.FullQueueHasDrainers | src/blockchain/batch/signaturesVerify.cpp:150-157 | While the master sleeps on a non-empty queue, no worker sleeps or has left. |
| SignatureVerify.NoDeadlock | src/blockchain/batch/signaturesVerify.cpp:46-163 | With at least one worker every reachable unfinished state has a program step, so no wake-up is lost and no worker sleeps on after the end. |
| SignatureVerify.StepDecreases | src/blockchain/batch/signaturesVerify.cpp:46-163 | Every program step lowers one lexicographic measure over pages, queue, batches, notifications, master and sleepers. |
| SignatureVerify.FinishedIsCorrect | src/blockchain/batch/signaturesVerify.cpp:129-165 | Once the master is through, each transaction before the first empty page was popped and verified exactly once, and the result is, as a multiset, the numbers with some bad signature. |
| SignatureVerify.EveryRunReturnsTheBadNumbers | src/blockchain/batch/signaturesVerify.cpp:90-165 | Every run in any order of the threads, with any finite number of spurious wake-ups, returns with exactly the bad numbers: each as often as transactions of that number have a failing signature. |
| SignatureVerify.BadNumbersAreCounted | src/blockchain/batch/signaturesVerify.cpp:67-85 | A number is reported once for each transaction of that number with a failing signature. |
| SignatureVerify.BadNumbersAnyOrder | src/blockchain/batch/signaturesVerify.cpp:67-85 | The order in which workers verify does not change the reported multiset. |
| SignatureVerify.HasBadSignature | src/blockchain/batch/signaturesVerify.cpp:72-84 | A transaction is bad exactly when some signature pair fails, whichever comes first. |
| SignatureVerify.ResolveThreadCount | src/blockchain/batch/ThreadingPolicy.cpp:9-23 | Every policy gives its share of the hardware threads, rounded down, and at least one worker. |
| NaiveScan.ScanIsSound | src/blockchain/TransactionsIndexRoaringBitmaps.cpp:353-472 | The scan of the chain with the tests the bitmaps record holds exactly the numbers of the transactions that pass them. |
| NaiveScan.ScanIsAscending | src/blockchain/TransactionsIndexRoaringBitmaps.cpp:171-174 | That scan is strictly ascending, as toUint64Array of a bitmap is. |
| NaiveScan.OwnCoinIsNoFilter | src/blockchain/TransactionsIndexRoaringBitmaps.cpp:377-382 | For a transaction of the own community a filter on the own coin excludes nothing; the coin filter is right exactly for foreign coins, no coin, or transactions with only own coins. |
| NaiveScan.MissingKeyIsNoFilter | src/blockchain/TransactionsIndexRoaringBitmaps.cpp:385-419 | MissingIndex and MissingCommunityId give the same answer as no key at all; RoaringAnswers.MissingKeyIsRight says when that is right. |
| RoaringIndex.TransactionsIndex.AddTransactionIndices | src/blockchain/TransactionsIndexRoaringBitmaps.cpp:66-101 | Succeeds exactly with a number, cold data, a number and day that fit, addresses that can be entered, and no key that gets a second address type. Adding the next transaction of a chain keeps bounds, day table and every bitmap in agreement with the chain; it stays entered when the address index refuses it in the end. After any other refusal the chain is the old one; refused for its day, it leaves the index in agreement exactly if its number is not above the highest, and a number above it is left as the highest. |
| RoaringIndex.TransactionsIndex.UpdateYearMonthDayTxRange | src/blockchain/TransactionsIndexRoaringBitmaps.cpp:334-351 | Exact new bounds and day table, when it throws, and which bounds have moved by then. |
| RoaringIndex.TransactionsIndex.YearMonthToIndexUpdateBounds | src/blockchain/TransactionsIndexRoaringBitmaps.cpp:306-332 | The month index of a day, the growth of the table by one step, the jump it refuses, and that the table has grown even then. |
| RoaringIndex.TransactionsIndex.YearMonthToIndex | src/blockchain/TransactionsIndexRoaringBitmaps.cpp:201-217 | Inside the bounds the index is the months since the oldest day. |
| RoaringIndex.TransactionsIndex.DaysAreClamped | src/blockchain/TransactionsIndexRoaringBitmaps.cpp:201-217 | A day before the oldest one has index 0, a day behind the newest one has the index of that. |
| RoaringIndex.TransactionsIndex.LastTxUpTo | src/blockchain/TransactionsIndexRoaringBitmaps.cpp:223-250 | The first backward scan stays in the table and ends; it finds the last number up to the end of the interval, or gives up exactly at the start slot. |
| RoaringIndex.TransactionsIndex.LastTxBefore | src/blockchain/TransactionsIndexRoaringBitmaps.cpp:252-269 | The second backward scan always finds the last number before the interval. |
| RoaringIndex.TransactionsIndex.GetTxRangeOfInterval | src/blockchain/TransactionsIndexRoaringBitmaps.cpp:219-272 | {0,0} exactly if nothing is confirmed in the days or the interval is trapped before the oldest day; otherwise exactly the first and last number of the days, with first <= last. |
| RoaringIndex.TransactionsIndex.CalculateTxRange | src/blockchain/TransactionsIndexRoaringBitmaps.cpp:274-304 | The range selects exactly the transactions inside number bounds and days; none is given only if there are none or the interval is trapped. |
| RoaringIndex.TransactionsIndex.KeyMaps | src/blockchain/TransactionsIndexRoaringBitmaps.cpp:385-419 | The key map restricts to exactly the transactions with the asked role of the key; a missing map means there are none. |
| RoaringIndex.TransactionsIndex.CoinMaps | src/blockchain/TransactionsIndexRoaringBitmaps.cpp:366-383 | The coin map, or the map to take away, selects exactly what the coin filter lets through. |
| RoaringIndex.TransactionsIndex.AggregateTransactions | src/blockchain/TransactionsIndexRoaringBitmaps.cpp:353-472 | Exactly the matching numbers, whatever the thread-local maps held before and whatever the order of the maps; nothing for a trapped interval. |
| RoaringIndex.TransactionsIndex.SelectedByAll | src/blockchain/TransactionsIndexRoaringBitmaps.cpp:430-441 | Leaving the range map out when the range is the whole chain never changes the selection. |
| RoaringIndex.QueryCache.UseRange | src/blockchain/TransactionsIndexRoaringBitmaps.cpp:434-440 | A cached range that is empty or one closed range ends up as the asked range, reused or rebuilt. |
| Bitmaps.ClosedRangeFromBounds | src/blockchain/TransactionsIndexRoaringBitmaps.cpp:434-438 | For such a set, minimum and maximum determine it, so the reuse test is exact. |
| Bitmaps.IntersectAll | src/blockchain/TransactionsIndexRoaringBitmaps.cpp:442-456 | The intersection contains exactly what all maps contain, in any order of the maps. |
| RoaringIndex.TransactionsIndex.CutPage | src/blockchain/TransactionsIndexRoaringBitmaps.cpp:109-169 | The page cut out of a result set by select and ranges is the page of its ordered listing, except where the last entry is repeated. |
| RoaringIndex.TransactionsIndex.FindTransactions | src/blockchain/TransactionsIndexRoaringBitmaps.cpp:103-170 | The page of the matching numbers in the asked direction, with the repeated entry and the wrapping skip count of the code. |
| RoaringIndex.TransactionsIndex.CountTransactions | src/blockchain/TransactionsIndexRoaringBitmaps.cpp:172-182 | The length of the unpaged answer. |
| RoaringIndex.FindTransactionsIsNaive | src/blockchain/TransactionsIndexRoaringBitmaps.cpp:103-170 | The result is the page of the scan if and only if: the interval is not trapped, the page does not repeat its last entry, and the skip count does not wrap, or the page is empty anyway. |
| RoaringAnswers.FindTransactionsIsAsked | src/blockchain/TransactionsIndexRoaringBitmaps.cpp:103-170 | The result is the page asked for if and only if it does not repeat its entry and the transactions given and asked for fulfil the condition of Pages.PageIsRight. Asked for are the transactions of the days, bounds and type in which the whole key takes part and whose balances are in the coin; a missing key takes part in nothing. |
| RoaringAnswers.ExtraAndLost | src/blockchain/TransactionsIndexRoaringBitmaps.cpp:353-472 | A transaction of the own community is given without being asked for exactly if it passes the tests while the key is missing, or the own coin is asked for and another one is among the balances; it is asked for without being given exactly if the interval is trapped, or the key is named by the body alone. |
| RoaringAnswers.ForeignKeysAreFound | src/blockchain/TransactionsIndexRoaringBitmaps.cpp:84-87 | No transaction of a key of another community is lost. |
| RoaringAnswers.OwnCoinIsRight | src/blockchain/TransactionsIndexRoaringBitmaps.cpp:366-383 | If nothing is lost and the skip count does not wrap, the page is right exactly if it does not repeat its entry, and nothing is left for it or no transaction given before its end has a coin besides the own one asked for. |
| RoaringAnswers.MissingKeyIsRight | src/blockchain/TransactionsIndexRoaringBitmaps.cpp:385-419 | A query for a missing key is answered rightly exactly if the page is empty. |
| RoaringAnswers.CountIsAsked | src/blockchain/TransactionsIndexRoaringBitmaps.cpp:172-182 | The count is right exactly if as many transactions are extra as are lost. |
| RoaringExamples.RunToDepartures | src/blockchain/TransactionsIndexRoaringBitmaps.cpp:66-101 | A run of one added transfer, after which a query for the own coin and one for a missing key give it without asking for it, and one for the sender asks for it without getting it. |
| Pages.PagesAgree | include/gradido_blockchain/blockchain/Pagination.h:20-31 | The page of one selection from a list is the page of another, with other skip counts, exactly if: the first element on it is in both, before it as many are lost as are extra up to the difference of the counts, and none is extra or lost on it; or both pages are empty. |
| Asked.GivenIsAsked | include/gradido_blockchain/blockchain/CompactFilter.h:28-51 | That condition for the transactions of a chain in the direction of the search. |
| Asked.RightWithExtras | include/gradido_blockchain/blockchain/CompactFilter.h:45-49 | If nothing is lost and the skip count does not wrap, the page is right exactly if nothing is left for it or nothing extra comes up before its end. |
| Asked.ListsAgree | include/gradido_blockchain/blockchain/CompactFilter.h:28-51 | Two selections have the same numbers exactly if nothing is extra or lost, and as many exactly if as many are extra as lost. |
| RoaringIndex.TrappedExample | src/blockchain/TransactionsIndexRoaringBitmaps.cpp:239-241 | One transaction in January is missed by an interval from 20 December to 25 January. |
| RoaringIndex.RepeatExample | src/blockchain/TransactionsIndexRoaringBitmaps.cpp:147-149 | The second page of two out of three entries repeats the third. |
| Filters.RepeatIsWrong | src/blockchain/TransactionsIndexRoaringBitmaps.cpp:134-149 | The special cases for pages of two are right exactly when the page is not the last entry alone. |
| Filters.PageFromSlice | src/blockchain/TransactionsIndexRoaringBitmaps.cpp:109-169 | The slice between the selected bounds, or one or two of its ends, is the page. |
| Filters.WrapMatters | include/gradido_blockchain/blockchain/Pagination.h:28-31 | The 32-bit skip count gives the right page exactly when the product fits into 32 bits or the wrapped count skips everything. |
| Filters.OverlapIsCommonInstant | include/gradido_blockchain/lib/TimepointInterval.h:120-123 | Two intervals that are not empty overlap exactly if an instant lies in both. |
| Filters.InstantsInOrder | include/gradido_blockchain/lib/TimepointInterval.h:85-123 | Instants are ordered by day, and by their place within a day. |
| NaiveScan.DaysOfInterval | src/blockchain/TransactionsIndexRoaringBitmaps.cpp:283-292 | The days between those of both ends are the days asked for; an interval that begins at the epoch has no first day, and one that ends there has none. |
| DayTable.ScanBack | src/blockchain/TransactionsIndexRoaringBitmaps.cpp:227-249 | A backward scan over the day table stays inside it and stops at the last number or at the start slot. |
| DayTable.BoundsNext | src/blockchain/TransactionsIndexRoaringBitmaps.cpp:334-351 | Entering the next transaction keeps bounds and the highest number of every day right. |
| DayTable.MonthsAreCounted | src/blockchain/TransactionsIndexRoaringBitmaps.cpp:201-217 | The month index is the same within a month and goes up by one to the next, over the end of a year as well. |
| Criteria.AllMarkNext | src/blockchain/TransactionsIndexRoaringBitmaps.cpp:75-99 | Entering the next transaction keeps each bitmap equal to the transactions that meet its criterion, also while the dictionary grows. |
| ConfirmedTx.GetInvolvedAddresses | src/data/compact/ConfirmedGradidoTx.cpp:336-403 | Sorted, without duplicates and the empty key, exactly the keys of balances, signers, and those the body names by its type: sender and recipient, each of the own or the pairing community, or the own keys of an address or a community; when it throws; the dictionary grows by signers only. |
| ConfirmedTx.Tx.BodyKeysAreNamed | src/data/compact/ConfirmedGradidoTx.cpp:377-399 | The keys read from the body are those that its fields name: sender and recipient for transfers, the recipient for a creation, both with the pairing community on the foreign side, user and account, or root, auf and gmw; reading fails exactly for other types and without cold data for a foreign side. |
| ConfirmedTx.Tx.OtherInvolvedAreNamed | src/data/compact/ConfirmedGradidoTx.cpp:444-470 | Otherwise involved are exactly the sender of an inbound, the recipient of an outbound transaction, and the root of a local community; a named key that is not is one of the own community. |
| ConfirmedTx.Tx.SignersAreRead | src/data/compact/ConfirmedGradidoTx.cpp:429-442 | Whether a key has signed is read exactly if it is foreign, or cold data are there and the dictionary has it; then it is told whether a signature key stands for it. |
| ConfirmedTx.KeysInOrder | include/gradido_blockchain/data/compact/PublicKeyIndex.h:19-31 | Keys are ordered by community, then by number. |
| Sequences.IsEmpty | src/memory/Block.cpp:206-214 | True exactly if all bytes are zero. |
| ConfirmedTx.CollectSigners | src/data/compact/ConfirmedGradidoTx.cpp:352-365 | Places the index of each signer behind the accounts and changes nothing else; fails exactly for an empty key or too many keys. |
| ConfirmedTx.InvolvedAddressesAgree | src/data/compact/ConfirmedGradidoTx.cpp:482-521 | isInvolved throws exactly for an own key that the dictionary lacks, with cold data, if neither a balance nor the body has it; else it agrees with membership in the involved addresses. |
| ConfirmedTx.RolesAreInvolved | src/data/compact/ConfirmedGradidoTx.cpp:444-470 | Every other-involved key is an involved address. |
| Dictionary.RuntimeDictionary.GetIndexForData | include/gradido_blockchain/lib/Dictionary.h:29-36 | 0 exactly for unknown data, else the index that stands for it. |
| Dictionary.RuntimeDictionary.GetDataForIndex | include/gradido_blockchain/lib/Dictionary.h:38-44 | Inverse to the index lookup, and nothing outside 1 to the size. |
| Dictionary.RuntimeDictionary.GetOrAddIndexForData | include/gradido_blockchain/lib/Dictionary.h:62-71 | Known data keeps its index; new data is appended; no index ever changes. |
| Dictionary.RuntimeDictionary.EntriesAreDistinct | include/gradido_blockchain/lib/Dictionary.h:73-78 | The entries have no repetition. |
| MonthEntries.Entry.IsMatchingFilter | src/blockchain/TransactionsIndex.cpp:664-703 | USE exactly for entries that meet the filter; STOP exactly for those of the type and coin that lie behind the bounds in the direction of the search. |
| MonthEntries.BalanceEntry.IsMatchingFilter | src/blockchain/TransactionsIndex.cpp:705-744 | USE exactly for entries that meet filter and months; STOP exactly for those of the type that lie behind the months, or with the coin behind the bounds. |
| MonthEntries.ScanLists | src/blockchain/TransactionsIndex.cpp:314-439 | The reference scan lists exactly the wanted numbers, ascending. |
| RangeUtils.IterateRangeInOrderCollectFiltered | include/gradido_blockchain/blockchain/RangeUtils.h:110-151 | The page, in either direction, of what the filter uses up to its first STOP. |
| RangeUtils.StopIsSafe | include/gradido_blockchain/blockchain/RangeUtils.h:143-147 | If nothing is used behind a STOP, stopping early loses nothing. |
| BalanceHistory.BalanceStopIsSafe | src/blockchain/TransactionsIndex.cpp:454-482 | On a balance list of a run, STOP loses nothing in either direction. |
| BalanceHistory.BalanceListScan | src/blockchain/TransactionsIndex.cpp:176-198 | The balance list of a key answers a balance query as the month entries would. |
| BalanceHistory.BalanceListAnswers | src/blockchain/TransactionsIndex.cpp:454-482 | Within months or without any, the balance list gives the reference scan. |
| BalanceHistory.ClampIsHarmless | src/blockchain/TransactionsIndex.cpp:322-327 | The last balance change as an upper bound cuts nothing off. |
| BalanceHistory.LastChangeIsLast | src/blockchain/AddressIndex.cpp:154-162 | The noted number is the highest one that changes the balance of the key. |
| BalanceHistory.ByNumberHolds | src/blockchain/TransactionsIndex.cpp:314-439 | The list behind the searches holds exactly the numbers of the bookings a query concerns, ascending. |
| Addresses.AddressIndex.AddTransactionNrForIndex | src/blockchain/AddressIndex.cpp:127-152 | A key keeps its first type; the transaction is noted once; fails exactly for another type and then changes nothing. |
| Addresses.AddressIndex.UpdateLastBalanceChangingTransactionNr | src/blockchain/AddressIndex.cpp:154-162 | Only a known key is updated, and only its last change. |
| Addresses.AddressIndex.AddTransaction | src/blockchain/AddressIndex.cpp:91-125 | Succeeds exactly if no key the transaction gives a type has or gets another one. Then the new keys are exactly those: auf with type 3 and gmw with 2, user and account with the given type, the recipient of a deferred transfer with 7; the number is noted once for each of them, and exactly the keys in the table with a balance have the last change noted. A failure changes no last change, and leaves what was registered before the type that did not fit. |
| Addresses.RegistrationsHold | src/blockchain/AddressIndex.cpp:93-120 | The registrations the code goes through are exactly those of the fields of the transaction. |
| Addresses.AddressIndex.LastBalanceChanged | src/blockchain/AddressIndex.cpp:201-211 | The noted number or 0; fails exactly for a key of another community. |
| BucketIndex.TransactionsIndex.TransactionNrUpdateBounds | src/blockchain/TransactionsIndex.cpp:131-142 | New number bounds, and when it throws. |
| BucketIndex.TransactionsIndex.YearMonthToIndexUpdateBounds | src/blockchain/TransactionsIndex.cpp:103-129 | Position of a month, growth by one step, refused jump, and that the buckets have grown even then. |
| BucketIndex.TransactionsIndex.MonthIndexRoundTrip | src/blockchain/TransactionsIndex.cpp:616-643 | yearMonthToIndex and indexToYearMonth undo each other; the former fails exactly outside the index. |
| BucketIndex.TransactionsIndex.FindTransactionsForMonthYear | src/blockchain/TransactionsIndex.cpp:600-614 | {0,0} exactly for a month without transactions, else the bounds of exactly its numbers. |
| BucketIndex.TransactionsIndex.AddEntry | src/blockchain/TransactionsIndex.cpp:145-201 | The exact state after an entry, with one balance change per bit of its mask; when it throws, and the exact state it leaves then. |
| BucketIndex.TransactionsIndex.AddTransaction | src/blockchain/TransactionsIndex.cpp:239-267 | Adding the next transaction of a run keeps buckets, bounds, balance lists and last changes in agreement with the history, and books exactly the keys taking part and the balances changed. A refusal leaves the history; refused before the buckets are looked at, it leaves the index in agreement exactly if the number is not above the highest; a number above it is left as the highest by every refusal. |
| BucketIndex.MovedBounds | src/blockchain/TransactionsIndex.cpp:131-142 | A number bound that moved is out of step with the history exactly if it lies above it. |
| BucketIndex.BookingKeepsState | src/blockchain/TransactionsIndex.cpp:145-267 | The step of that invariant as a lemma on states. |
| BucketSearch.FollowsNext | src/blockchain/TransactionsIndex.cpp:156-174 | Appending to the bucket of the month keeps every bucket equal to the entries of its month. |
| BucketChain.BookedIsMatched | src/blockchain/TransactionsIndex.cpp:664-703 | The index takes a query to concern a booking exactly if the transaction booked matches by the number of its key. |
| BucketChain.AskedIsMatched | src/blockchain/TransactionsIndex.cpp:685-700 | A transaction is asked for exactly if it matches and is not mistaken: no community was given for the key, or the number is that of a key of another community alone. |
| BucketChain.BooksNext | src/blockchain/TransactionsIndex.cpp:239-267 | Adding a transaction keeps the history in step with the chain while the dictionary grows. |
| BucketChain.ScanIsNumbers | src/blockchain/TransactionsIndex.cpp:314-439 | A list of bookings is the list of the transactions that were booked. |
| BucketIndex.TransactionsIndex.FilteredIntervalFits | src/blockchain/TransactionsIndex.cpp:645-655 | The filtered interval lies in the index and covers exactly the wanted months, or all months if the interval misses the index. |
| BucketIndex.TransactionsIndex.FilteredMonths | src/blockchain/TransactionsIndex.cpp:645-655 | The filtered interval has the months asked for that lie between the first and the last booking, or all between them. |
| BucketIndex.TransactionsIndex.MissingIsNoOverlap | src/blockchain/TransactionsIndex.cpp:348-350 | The test for an overlap fails exactly if an interval begins behind the first instant of the month of the last booking, ends before the first instant of the month of the first one, or the index has no month, or none but the one at the epoch. |
| BucketSearch.VisitAscending | src/blockchain/TransactionsIndex.cpp:363-393 | One bucket going up: skips, early end, STOP and full page extend the page by exactly what the bucket holds. |
| BucketSearch.VisitDescending | src/blockchain/TransactionsIndex.cpp:402-432 | One bucket going down; it breaks off exactly at a bucket that starts below the minimum. |
| BucketIndex.TransactionsIndex.SearchAscending | src/blockchain/TransactionsIndex.cpp:358-395 | The page, by the skip count of the code, of everything wanted in the months. |
| BucketIndex.TransactionsIndex.SearchDescending | src/blockchain/TransactionsIndex.cpp:396-434 | The page of what is wanted in the months above the lowest one the search gets to see. |
| BucketIndex.TransactionsIndex.FindTransactions | src/blockchain/TransactionsIndex.cpp:314-439 | Fails exactly for a balance query with a foreign key; else the page of the answer, with the clamp proved harmless. |
| BucketAnswers.AnswerIsGiven | src/blockchain/TransactionsIndex.cpp:314-439 | The unpaged answer holds exactly the transactions that match by number in the months the search sees; for the shortcut, the last change alone. |
| BucketAnswers.FindTransactionsIsAsked | src/blockchain/TransactionsIndex.cpp:314-439 | The page is the one asked for, with the whole key and without wrap-around, if and only if the transactions given and asked for fulfil the condition of Pages.PageIsRight. |
| BucketAnswers.ExtraAndLost | src/blockchain/TransactionsIndex.cpp:685-700 | A transaction is given without being asked for exactly if it is mistaken, and asked for without being given exactly if its month is not seen; with the shortcut, only the last change is given. |
| BucketAnswers.RightIfNothingOverlooked | src/blockchain/TransactionsIndex.cpp:396-416 | If no month asked for is out of sight and the skip count does not wrap, the page is right exactly if nothing is left for it or no mistaken transaction comes up before its end. |
| BucketAnswers.ShortcutIsAsked | src/blockchain/TransactionsIndex.cpp:329-341 | The one-result shortcut is right exactly if the last balance change is asked for: its type, and the community of the key. |
| BucketExamples.StraddledMonthExample | src/blockchain/TransactionsIndex.cpp:412-416 | Of two transactions of one month the newer alone is not found in descending order. |
| BucketExamples.LateIntervalExample | src/blockchain/TransactionsIndex.cpp:348-350 | An interval from the second day of the newest month finds nothing, but the count is one. |
| BucketExamples.WrapExample | include/gradido_blockchain/blockchain/Pagination.h:28-31 | Page 3 of 2^31 entries gives the only entry of an index instead of nothing. |
| BucketExamples.MissingCommunityExample | src/blockchain/TransactionsIndex.cpp:319-321 | A key without a community is answered with every transaction. |
| BucketExamples.RunToShortcut | src/blockchain/TransactionsIndex.cpp:329-341 | A run of one added transfer, after which it is given as the last creation of its recipient. |
| BucketExamples.RunToForeignKey | src/blockchain/TransactionsIndex.cpp:685-700 | A run of one inbound transfer from key 5 of community 2 to key 7 of community 1, after which it is given for key 5 of community 1 and counted for key 7 of community 2. |
| BucketIndex.TransactionsIndex.CountTransactions | src/blockchain/TransactionsIndex.cpp:501-563 | The number of bookings asked for, or of those in all months when the interval is ignored. |
| BucketIndex.TransactionsIndex.CountBucket | src/blockchain/TransactionsIndex.cpp:540-560 | Counting by subtraction and counting by the filter give the same number for a bucket. |
| BucketSearch.RunCount | src/blockchain/TransactionsIndex.cpp:549-559 | With number bounds only, max-min+1 counts the entries of a bucket. |
| BucketIndex.TransactionsIndex.CountBalanceChangingTxs | src/blockchain/TransactionsIndex.cpp:565-598 | The number of balance changes asked for; fails exactly for another search type. |
| BucketAnswers.CountIsAsked | src/blockchain/TransactionsIndex.cpp:501-598 | Both counts are right exactly if no transaction counted is mistaken or outside the interval. |
| BucketIndex.TransactionsIndex.FindTransactionsBalanceChangingForPublicKey | src/blockchain/TransactionsIndex.cpp:454-482 | The page from the balance list, and when it throws. |
| BucketAnswers.BalanceSearchIsAsked | src/blockchain/TransactionsIndex.cpp:454-482 | That page is the one asked for if and only if the condition of Pages.PageIsRight holds; where the skip count does not wrap, exactly if nothing is left for it or nothing mistaken or outside the interval comes up before its end. |
| SearchIterator.SearchIterator.constructor | include/gradido_blockchain/blockchain/TransactionsIndex.h:125-136 | The walk of a new iterator starts at the given entry and covers what is wanted from there; it is stopped outside the months of the filter or behind the entries of its month. |
| SearchIterator.SearchIterator.FilterCurrentEntry | include/gradido_blockchain/blockchain/TransactionsIndex.h:285-309 | The number of the entry exactly if the filter uses it; it stops only behind the bounds. |
| SearchIterator.SearchIterator.FindNextInRange | include/gradido_blockchain/blockchain/TransactionsIndex.h:310-329 | The first used entry going down; a stop only when nothing is left below. |
| SearchIterator.SearchIterator.Advance | src/blockchain/TransactionsIndex.cpp:764-850 | Each call gives the next wanted number of the walk or 0 exactly at its end, skipping empty months, and stays stopped after that. |
| SearchIterator.SearchIterator.GetCurrentOrNext | src/blockchain/TransactionsIndex.cpp:746-761 | The first wanted number from the start position on, or a stop. |
| SearchIterator.SearchIterator.Increment | include/gradido_blockchain/blockchain/TransactionsIndex.h:143-149 | ++ leaves exactly the current number behind. |
| SearchIterator.Begin | src/blockchain/TransactionsIndex.cpp:852-913 | The iterator for a query walks exactly the expected numbers, also where a number bound or the last balance change decides its start; fails exactly for a key that cannot be searched in a query that could want something. |
| SearchIterator.Collect | include/gradido_blockchain/blockchain/TransactionsIndex.h:139-169 | A loop to the end visits each expected number exactly once, in order, and ends; that is what is asked for if and only if no mistaken transaction matches, or, where the walk starts nowhere, nothing is asked for. |
| SearchIterator.ExpectedIsAsked | src/blockchain/TransactionsIndex.cpp:751-755 | The same for the expected numbers: the walk starts nowhere if the interval misses the index, its first month has no entries, or going down the highest number asked for lies above the last month. |
| SearchIterator.HoleExample | src/blockchain/TransactionsIndex.cpp:751-755 | With transactions in January and March a walk from February to March finds nothing. |
| SearchIterator.AboveExample | src/blockchain/TransactionsIndex.cpp:882-897 | With one transaction of number 1 a walk down from number 2 finds nothing. |
| InMemory.FindAll | src/blockchain/InMemory.cpp:296-328 | Ends behind the first page that fills the result, stops the element filter or is the last; gives what the element filter uses up to the first STOP there, fewer than two pages, and fails exactly if a transaction before that STOP is missing. |
| InMemory.OutcomeIsUnique | src/blockchain/InMemory.cpp:309-327 | There is one such end and one such result. |
| InMemory.FilterPage | src/blockchain/InMemory.cpp:312-324 | Fails exactly at a missing transaction before any STOP; else appends what the filter uses up to STOP. |
| InMemory.PagesAreRest | src/blockchain/InMemory.cpp:309-326 | From page 1 on the pages joined are the rest of the list, plus a repeated last entry for odd lists in pages of two. |
| InMemory.VisitedIsRest | src/blockchain/InMemory.cpp:309-326 | The search visits what lies behind the skipped entries exactly when it does not start at page 0 and does not repeat the last entry. |
| InMemory.AnswerIgnoresPage | src/blockchain/InMemory.cpp:304-325 | Raising the page number does not change what is paged. |
| KeyDerivation.Le32 | src/crypto/keyDerivation.cpp:5-13 | Four bytes that stand for the number in little endian. |
| KeyDerivation.Add28Mul8 | src/crypto/keyDerivation.cpp:15-30 | x + 8 * (low 28 bytes of y) modulo 2^256, also in place, with no overflow of the 16-bit sums. |
| KeyDerivation.Add256Bits | src/crypto/keyDerivation.cpp:32-41 | x + y modulo 2^256, also in place. |
| KeyDerivation.BytesAreDetermined | src/crypto/keyDerivation.cpp:15-41 | The value fixes every byte written. |
| DecimalPrinter.CountDigits | src/lib/DataTypeConverter.cpp:394-407 | The number of decimal digits, but at most 19. |
| DecimalPrinter.Uint64ToString | src/lib/DataTypeConverter.cpp:409-450 | The decimal text and terminator, everything else in memory untouched; with 20 digits it begins one byte before the buffer. |
| DecimalPrinter.TablePair | src/lib/DataTypeConverter.cpp:420-430 | The table holds the two digits of every number below 100. |
| DecimalPrinter.DecimalRoundTrip | src/lib/DataTypeConverter.cpp:409-450 | Reading the text gives the number back; only zero starts with a zero. |
| DecimalPrinter.TextAtBuffer | src/lib/DataTypeConverter.cpp:405-450 | The text at the buffer is the number exactly below 10^19, else its last 19 digits. |
| BlockMemory.RoundUpToBucket | include/gradido_blockchain/memory/Manager.h:29-40 | The smallest bucket that fits, -1 exactly if none does. |
| BlockMemory.BlockStack.GetBlock | src/memory/BlockStack.cpp:11-32 | A zeroed buffer: the top of the stack, or a new one exactly when the stack is empty. |
| BlockMemory.BlockStack.ReleaseBlock | src/memory/BlockStack.cpp:34-49 | The buffer goes on top unless the stack is full; heights never exceed 33 below size 512 and 9 from there on. |
| BlockMemory.StackHeights | src/memory/BlockStack.cpp:36-45 | The stacks hold up to 33 buffers for the buckets below 512, and up to 9 from there on. |
| BlockMemory.Manager.GetBlock | src/memory/Manager.cpp:32-48 | A zeroed buffer of the smallest fitting bucket or the exact size, which no block owns and which is not free. |
| BlockMemory.Manager.ReleaseBlock | src/memory/Manager.cpp:50-63 | The buffer goes back to the bucket it came from and to no other; all other stacks stay. |
| BlockMemory.Block.constructor | src/memory/Block.cpp:17-20 | A block of zeros with a buffer of its own; other blocks are undisturbed. |
| BlockMemory.Block.FromBytes | src/memory/Block.cpp:22-50 | A block with the bytes, or of zeros if there is no pointer to them. |
| BlockMemory.Block.Copy | src/memory/Block.cpp:52-56 | Equal content, different buffer. |
| BlockMemory.Block.Move | src/memory/Block.cpp:58-63 | The buffer changes its owner; the other block is empty. |
| BlockMemory.Block.MoveAssign | src/memory/Block.cpp:65-73 | The old buffer is released, the other is taken over; a block moved to itself ends up empty. |
| BlockMemory.Block.CopyAssign | src/memory/Block.cpp:75-88 | Equal content in another buffer, no other block disturbed; a block copied to itself ends up empty. |
| BlockMemory.Block.Clear | src/memory/Block.cpp:95-102 | The buffer is released and the block is empty. |
| BlockMemory.Block.Destroy | src/memory/Block.cpp:90-93 | The block is gone and its buffer released; all others keep exactly one owner. |
| HashList.HashList.ItemExists | src/lib/DRHashList.cpp:27-59 | Found exactly if the map has the hash, with its position. |
| HashList.HashList.FindByHash | src/lib/DRHashList.cpp:65-93 | The data of the map or null. |
| HashList.HashList.FindIndexForHash | src/lib/DRHashList.cpp:129-159 | The insertion point, from the last probed position. |
| HashList.PlaceIsUnique | src/lib/DRHashList.cpp:129-159 | There is only one insertion point. |
| HashList.HashList.AddByHash | src/lib/DRHashList.cpp:213-246 | Added exactly if the hash is new; the map and the capacity afterwards. |
| HashList.HashList.RemoveByHash | src/lib/DRHashList.cpp:265-283 | Removed exactly if it was there; the map afterwards. |
| HashList.HashList.Resize | src/lib/DRHashList.cpp:248-259 | More room, same list. |
| HashList.HashList.Clear | src/lib/DRHashList.cpp:196-205 | Empty; the memory is kept unless it is to be freed. |
| Mnemonic.Mnemonic.Init | src/crypto/mnemonic.cpp:71-150 | Succeeds exactly for at most 2048 different words, for any hash function; then the words are those of the list and the lookup tables are complete. |
| Mnemonic.Mnemonic.AddWord | src/crypto/mnemonic.cpp:104-141 | Fails exactly for a repeated word, under any collisions; else the tables hold for one word more. |
| Mnemonic.Mnemonic.GetWordIndex | src/crypto/mnemonic.cpp:158-174 | Every listed word gets its index; a word outside the list gets -1 unless its hash is that of exactly one listed word. |
| Mnemonic.SplitIsInverse | src/crypto/mnemonic.cpp:74-142 | Joining the words gives the list back. |
| Mnemonic.CStringIsFront | src/crypto/mnemonic.cpp:104-113 | What is left of a word is its front up to the first zero character. |
| Mnemonic.ErasingIsReady | src/crypto/mnemonic.cpp:147-150 | After colliding hashes are erased every word is found in exactly one table. |
| Mnemonic.UnlistedWordExample | src/crypto/mnemonic.cpp:158-174 | A list with the word "about" gives its index to the word "qbous". |
| Mnemonic.TwinHasSameHash | include/gradido_blockchain/lib/DRHash.h:44-63 | Every five-letter word that begins with a to j and does not end with a has the hash of another word. |
| Signatures.SignatureMap.Push | src/data/SignatureMap.cpp:13-22 | Refuses exactly a key that is there already, and then changes nothing. |
| Signatures.SignatureMap.IsPairing | src/data/SignatureMap.cpp:51-72 | True exactly if the key sets are equal. |
| Signatures.SignatureMap.IsTheSame | src/data/SignatureMap.cpp:23-49 | Each pair of the other map is the first own pair with its hash. |
| Signatures.SameAsItself | src/data/SignatureMap.cpp:23-49 | A map of several pairs is the same as itself exactly if no two of its pairs have one hash. |
| Signatures.SamePairs | src/data/SignatureMap.cpp:23-49 | Without equal hashes it is equality of the pairs in any order. |
| Builder.PairingBodies | src/data/TransactionBody.cpp:228-256 | Any two bodies pair exactly if memos and date are equal, the other communities differ, and both are of one type with equal fields: keys that are set and equal and the amount for transfers, for deferred ones also timeout and coin, for redeemed ones the number, and all fields of the other types with a pairing. |
| Builder.BodiesPair | src/data/TransactionBody.cpp:228-256 | The two bodies of a cross-community transaction pair exactly for types with a pairing and complete keys. |
| Builder.SidesOfTransaction | src/GradidoTransactionBuilder.cpp:512-534 | The outbound side is of the sender and names the recipient as other community, the inbound side the other way round; nothing else differs. |
| Builder.CrossTransactionsPair | src/GradidoTransactionBuilder.cpp:461-551 | In the cross-community state both signature maps have the same distinct keys in the same order, each signature covers its own body, and the bodies pair exactly if the type can. |
| Builder.GradidoTransactionBuilder.SwitchBuildState | src/GradidoTransactionBuilder.cpp:512-551 | Fixes one or two bodies; when it throws, and the state it leaves even then. |
| Builder.GradidoTransactionBuilder.Sign | src/GradidoTransactionBuilder.cpp:461-474 | Adds one signature to every body or to none; succeeds exactly for a new key and fixed bytes. |
| Builder.GradidoTransactionBuilder.SetSpecific | src/GradidoTransactionBuilder.cpp:142-374 | Chosen once, in the first state only, and with the sender community where keys get an index. |
| Builder.GradidoTransactionBuilder.SetTimeoutDeferredTransfer | src/GradidoTransactionBuilder.cpp:376-398 | Fixes the body at once. |
| Builder.GradidoTransactionBuilder.Build | src/GradidoTransactionBuilder.cpp:96-108 | The local transaction with all signatures; the builder is blank again. |
| Builder.GradidoTransactionBuilder.BuildOutbound | src/GradidoTransactionBuilder.cpp:110-122 | The outbound transaction with all signatures of its own bytes. |
| Builder.GradidoTransactionBuilder.BuildInbound | src/GradidoTransactionBuilder.cpp:124-140 | The inbound one, exactly if an anchor is set; the builder is blank again. |

## Left out

- SignatureVerify.EveryRunReturnsTheBadNumbers: a run may have any finite number of spurious wake-ups, not infinitely many; the pages have to end with an empty one and do not change during the check.
- RoaringIndex.TransactionsIndex.AddTransactionIndices: does not say which bitmaps a call has filled that fails at a single address, for a number that is not above the highest.
- InMemory.FindAll: pages are counted in 32 bits, so it asks that the entries before the first page, and the chain with one more page, stay below 2^32; the element filter is a function, and transactions are given as their numbers.
- SearchIterator.Begin: on months with 8-bit positions and an interval that does not begin or end at the epoch; where a number bound decides the start, the months looked at have entries, as the source takes for granted by reading their first and last ones and by its assertions.
- BlockMemory.Manager.GetBlock: allocation never fails.
- Signatures.SignatureMap.IsTheSame: the hash of a pair is any function.
- Builder.GradidoTransactionBuilder.SetSpecific: one method for the setters of all types but the timeout; the lookup of key indices for addresses and community roots is not part of it.
- SearchIterator, other operations: `--`, end iterators, 32-bit entry positions.
- The other overloads that fill the month buckets (from a TransactionEntry, from a hot transaction), `getAddressType`, `getBalanceChangingTxs`, JSON.
- reset and clear of the indexes and of InMemory.
- Transaction numbers are not bounded by 64 bits, and the pagination cursor of a search is not bounded by an int.
- The cardinality sort of the bitmaps is any order of them.
- The day granularity of the bitmap index against the exact instants of `Filter::matches`.
- Locks around InMemory and Dictionary; the shared mutexes make these calls atomic.
- Decompression of the word list and its logging; `DRStaticHashList::setData` and the lookup by index.
- setCreatedAt and the setters that take serialized bodies or community names in the builder.
- Everything behind libsodium, Roaring, protobuf and the core library: key pairs, hashes, encodings, decay.
