# Verified models of the nexum runtime

A Dafny model of the parts of the nexum runtime where a mistake is easy to make
and hard to see, with proofs of what those parts are for. `dafny verify
dfyconfig.toml` checks everything. The runtime's code is Rust; the files here
follow it branch by branch, as functions where it computes and as methods, loops
and classes where it updates state.

- **Cron schedules** (`Bits`, `Calendar`, `CronField`, `Cron`, `CronParse`).
  Dates by the 400-year era decomposition are proved against a calendar that
  turns one page at a time. The search for the next firing is proved to return
  the least one, for every schedule and every instant that 64 bits of seconds
  hold. A parsed expression is refused as never firing exactly when no day of
  the unbounded calendar matches its text, because any month, day and weekday
  that can meet do meet within one Gregorian cycle.
- **The local store** (`Bytes`, `Table`, `StoreSpec`, `LocalStore`,
  `StoreProtocol`, `Paging`, `Pagers`, `MockStore`). `StoreSpec.Perform` says
  what a write does, with no cache: caps, the database's failures, the quota
  measured by full scans, and all of the request or none. The store class, with
  its lazily seeded byte counters, is proved to do exactly that.
  `StoreProtocol` then takes the write transaction, the counters lock, the
  commit and the counter update apart into steps of any number of threads, and
  proves that every interleaving is a serial run with exact counters. `Paging`
  says what a page is; the database pager, the in-memory double and the
  module-side pager are each proved to give it, and scans that resume between
  arbitrary writes are proved complete.
- **`${VAR}` substitution** (`Substitution`, `TomlText`). The text is cut into
  copied units and tokens without looking at the environment; the result is
  that template, filled in. Documents printed from TOML parts are proved to be
  cut back into those parts.
- **Store migration** (`Migration`). Opening a file, over whole histories of
  completed, failed and crashed opens by releases that share a list of steps,
  from an existing store and from a new file, with the exact condition under
  which the path through the releases leaves no trace.
- **Small arithmetic** (`FixedPoint`, `TokenBucket`, `InterfaceTrack`, and the
  shared `Text` and `Arithmetic`). Decimal scaling and when it is exact, a rate
  limiter that admits exactly what its policy allows for any call times, and
  compatibility tracks.

## How the code is modelled

- A 64-bit mask is a natural number with bitwise operations defined digit by
  binary digit; the masks of a parsed schedule are proved to fit the word.
- The database is an ordered map with one write transaction at a time, which
  commits whole or not at all; a failing call is an argument (`Io`, `OpenIo`)
  of the modelled operation, or a step of the protocol.
- keccak-256 is an argument of `StoreSpec.Module`; isolation is stated for
  namespaces with different 32-byte digests.
- Unicode's `Alphabetic` property is an argument of the cron parser; only the
  digits, `*`, `-` and `/` are ever required not to have it. `White_Space`, which
  trimming removes, is written out.
- Table keys are bytes and module keys are UTF-8 bytes; configuration text is a
  sequence of characters, with error offsets counted in UTF-8 bytes as the code
  counts them.
- The rate limiter's floats and instants are real numbers.
- Text errors carry the fields the code puts in them; their wording is left out.

## Where the code and its description part

- `next_after` is documented to return nothing only past its search bound. It
  returns nothing exactly when the next firing does not fit in 64 bits of
  seconds (`Cron.NothingExactlyOnOverflow`), as after the last second that does
  (`Cron.LastSecondHasNone`), and the bound itself is never reached.
- `StateHandle::with_quota` documents the quota as key and value bytes. The
  database charges the prefix and a fixed overhead as well.
  `MockStore.AgreeUnlessInTheGap` says exactly which writes this refuses, and
  `MockStore.TenBytesHoldNothing` gives one.
- A scan resumes from the last key examined, and an empty resume key means "from
  the beginning". A module that stores the empty key can therefore scan for
  ever; `Paging.FinishesUnlessStalled` gives the exact condition, and
  `Pagers.SomeScanStalls` a store and a query that meet it. A stalled scan also
  returns the empty key again and again (`Paging.StallRepeatsTheEmptyKey`); no
  scan returns any other key twice (`Paging.OnlyTheEmptyKeyRepeats`).
- `scale_decimal` refuses the most negative value of its result type, although
  that value fits: `FixedPoint.MinimumIsRefused`.
- `scale_decimal` cuts the length of the fraction to 32 bits, so a fraction of
  2^32 digits or more can be read as a short one. Modules are built for a 32-bit
  guest, where no text is that long; only a 64-bit build of the same crate can
  misread one. `FixedPoint.ExactUnlessWrapped` gives the exact condition and
  `FixedPoint.LongFractionIsMisread` inputs that meet it. Together with the
  minimum these are the only values that fit and are not read as they are:
  `FixedPoint.ReadExactly`.
- The token bucket moves its refill instant back when it is given an earlier one,
  and can then refill one instant twice: `TokenBucket.BackwardsClockOveradmits`.
  Instants can come out of order: `SharedLogBounds::admit`
  (crates/nexum-runtime-logs/src/logs/bounds.rs:31-34) is handed its instant
  before it takes the bucket's lock. What is admitted is therefore stated, for
  any call times, against the time the clock moved forward
  (`TokenBucket.AdmitsExactlyThePolicy`, `TokenBucket.WindowBound`). That is the
  span of a window exactly when no call in it steps back
  (`TokenBucket.TravelIsSpan`), and then the documented policy holds
  (`TokenBucket.SpanPolicy`, `TokenBucket.SpanBound`).

## Model

| member | source | states |
|---|---|---|
| Calendar.FromDaysIsTheCalendar | crates/nexum-runtime-manifest/src/cron.rs:378-398 | The date of day d is what turning d pages of the Gregorian calendar from 1970-01-01 gives; it is a valid date, `to_days` gives d back, and day d + 1 is the next calendar day under the 4/100/400 rule. |
| Calendar.WeekdayIsTheCalendar | crates/nexum-runtime-manifest/src/cron.rs:430-433 | The weekday of day d is what turning d pages from Thursday, 1970-01-01, gives, Saturday turning to Sunday. |
| Calendar.DatedWeekdays | crates/nexum-runtime-manifest/src/cron.rs:430-433 | 29 February 2024 is a Thursday, 1 September 2024 a Sunday and 6 September 2024 a Friday. |
| Calendar.FromDaysOfToDays | crates/nexum-runtime-manifest/src/cron.rs:400-413 | `from_days` inverts `to_days` on every valid date from 1970 on. |
| Calendar.NextDayAddsOne | crates/nexum-runtime-manifest/src/cron.rs:400-413 | The calendar's next day has the next day number, across month ends, year ends and leap days. |
| Calendar.YearOfEraExact | crates/nexum-runtime-manifest/src/cron.rs:386-388 | The year-of-era formula reads back the year that a day of the era was built from, including the last day of leap years, centuries and the era. |
| Calendar.FirstOfNextMonthIsLeast | crates/nexum-runtime-manifest/src/cron.rs:415-427 | The month skip lands on the first day of another month and passes only days of the month it leaves. |
| Calendar.CycleRepeats | crates/nexum-runtime-manifest/src/cron.rs:17-19 | After 146097 days the month, the day and the weekday repeat, 400 years later. |
| Bits.TestBit | crates/nexum-runtime-manifest/src/cron.rs:184-203 | Masking a word with one shifted bit is non-zero exactly when the word has that bit. |
| Bits.TestLowBits | crates/nexum-runtime-manifest/src/cron.rs:260 | Masking with the low k bits is non-zero exactly when some bit below k is set. |
| Bits.TrailingZerosIsLowest | crates/nexum-runtime-manifest/src/cron.rs:219-220 | The trailing-zero count of a non-zero word is its lowest set bit. |
| Cron.DayMatchesIsDayFires | crates/nexum-runtime-manifest/src/cron.rs:184-209 | The month mask and the day rule, computed on bits, admit exactly the days the schedule means, under both the either rule and the both rule. |
| Cron.MinuteOfDayFromIsLeast | crates/nexum-runtime-manifest/src/cron.rs:211-222 | The hour walk with its bit scan gives the least matching minute of the day from a given one, or says rightly that there is none. |
| Cron.NextAfter | crates/nexum-runtime-manifest/src/cron.rs:172-199 | The search returns the least matching minute strictly after the instant, or nothing exactly when no match fits in 64 bits of seconds; an accepted schedule always has one short of that overflow. |
| Cron.NothingExactlyOnOverflow | crates/nexum-runtime-manifest/src/cron.rs:172-199 | For every accepted schedule and instant there is a least later firing, and nothing is returned if and only if it does not fit in 64 bits of seconds. |
| Cron.LastSecondHasNone | crates/nexum-runtime-manifest/src/cron.rs:172-199 | After the last second that 64 bits hold, an accepted schedule gets nothing although it fires later. |
| Cron.FiresByTheCalendar | crates/nexum-runtime-manifest/src/cron.rs:172-209 | A minute fires exactly when the date and the weekday on the page turned to are admitted by the day fields, and the hour and minute by theirs. |
| Cron.NextFriday | crates/nexum-runtime-manifest/src/cron.rs:700-703 | Midnight every Friday, asked on Sunday 1 September 2024, is next on the 6th. |
| Cron.SkipMonth | crates/nexum-runtime-manifest/src/cron.rs:184-188 | Skipping to the next month jumps over no firing. |
| Cron.RunIsEveryFiring | crates/nexum-runtime-manifest/src/cron.rs:172-199 | Calling the search again and again lists every firing once, in order, and nothing else. |
| Cron.DateMeetsWeekday | crates/nexum-runtime-manifest/src/cron.rs:17-19 | Every month, day that the month can have, and weekday meet on some day of a Gregorian cycle. |
| Cron.AcceptedFiresEveryCycle | crates/nexum-runtime-manifest/src/cron.rs:175-176 | An accepted schedule has a matching day in every 146097 consecutive days, so the search bound is never reached. |
| Cron.RefusalIsExact | crates/nexum-runtime-manifest/src/cron.rs:256-263 | The `NeverFires` test is exact: it refuses a schedule if and only if no day of the unbounded calendar matches it. |
| CronField.ParseField | crates/nexum-runtime-manifest/src/cron.rs:276-359 | A field is refused with the refusal of its first bad element; otherwise its mask has bit v exactly when some element's range and step admit v, weekday 7 folded onto 0, and is non-zero, legal and one word wide. |
| CronField.AddSpan | crates/nexum-runtime-manifest/src/cron.rs:349-356 | Walking a stepped range sets exactly the bits of the values it denotes. |
| CronField.TokenExact | crates/nexum-runtime-manifest/src/cron.rs:280-348 | A list element is accepted, with a given range and step, exactly when it is a spelling of `*`, a number, a range or a stepped one with values and step in bounds. |
| CronField.ParseOfRender | crates/nexum-runtime-manifest/src/cron.rs:294-348 | Printing a valid element and parsing the print gives back its range and step. |
| CronField.MeaningOfRender | crates/nexum-runtime-manifest/src/cron.rs:294-348 | For every element with numbers of any size in it: the first number out of its written range, a range that runs backwards or a step out of range is refused as such, naming the bounds, and anything else is the span it spells. |
| CronField.NumbersAccepted | crates/nexum-runtime-manifest/src/cron.rs:294-330 | A number on its own is accepted exactly from 0 to 59, 0 to 23, 1 to 31, 1 to 12 and 0 to 7, field by field. |
| CronField.NumberAdmitsItself | crates/nexum-runtime-manifest/src/cron.rs:349-356 | A number admits itself alone, but weekday 7 admits 0. |
| CronField.SteppedNumberIsMalformed | crates/nexum-runtime-manifest/src/cron.rs:318-319 | A step on a single number is malformed. |
| CronField.UnsupportedExactly | crates/nexum-runtime-manifest/src/cron.rs:284-293 | An element is refused as unsupported exactly for a letter, `#` or `?`. |
| CronField.FieldRoundTrip | crates/nexum-runtime-manifest/src/cron.rs:280 | Printing any list of valid elements as a field and parsing it gives back their ranges, in order. |
| CronField.MaskIsUnique | crates/nexum-runtime-manifest/src/cron.rs:276-279 | The mask of a field is determined by the values its text denotes. |
| CronParse.FromStr | crates/nexum-runtime-manifest/src/cron.rs:240-273 | An expression is refused as a macro, for its field count, for its first bad field, or because no day ever matches its text; otherwise the schedule fires on exactly the days and minutes the text says. |
| CronParse.ParseFields | crates/nexum-runtime-manifest/src/cron.rs:249-253 | The five masks encode exactly what the five fields say, or the first bad field is refused. |
| CronParse.StarRequiresBoth | crates/nexum-runtime-manifest/src/cron.rs:255 | A day field that begins with a star, stepped or not, makes both day fields required. |
| CronParse.NoStarRequiresEither | crates/nexum-runtime-manifest/src/cron.rs:255 | Without such a star, either day field is enough. |
| CronParse.TrimOfPadded | crates/nexum-runtime-manifest/src/cron.rs:241 | White space is removed from both ends and nothing else is. |
| CronParse.BlanksAreListed | crates/nexum-runtime-manifest/src/cron.rs:241-245 | Which characters separate fields, and which are trimmed, code point by code point. |
| CronParse.WordsOfSpaced | crates/nexum-runtime-manifest/src/cron.rs:245 | Fields separated by any blanks are read back as those fields. |
| Bytes.EncodeIsValid | crates/nexum-runtime-store/src/local_store_redb.rs:392-394 | The UTF-8 encoding of every text is accepted as text. |
| Bytes.ValidIsEncoded | crates/nexum-runtime-store/src/local_store_redb.rs:392-394 | Whatever is accepted as text is the UTF-8 encoding of some text. |
| Bytes.LessAtFirstDifference | crates/nexum-runtime-store/src/local_store_redb.rs:376-380 | Byte order is decided at the first difference, and a proper prefix comes first. |
| Bytes.PrefixIsContiguous | crates/nexum-runtime-store/src/local_store_redb.rs:376-380 | Between a prefix and a key that has it, in byte order, every key has it. |
| Table.EarlyStopMissesNothing | crates/nexum-runtime-store/src/local_store_redb.rs:381-389 | A walk from at or after a prefix that stops at the first key outside it visits exactly the keys a filter of the whole table would, in order. |
| Table.PrefixWalk | crates/nexum-runtime-store/src/local_store_redb.rs:332-339 | From the prefix itself, such a walk visits all keys of the prefix. |
| StoreSpec.FootprintAfterWrite | crates/nexum-runtime-store/src/local_store_redb.rs:252-278 | Releasing the old cost of the written keys and charging their new cost gives the true new footprint, and never releases more than the namespace holds. |
| StoreSpec.ChargeIsNewCost | crates/nexum-runtime-store/src/local_store_redb.rs:265-277 | What a request charges does not depend on the table it is applied to. |
| StoreSpec.UnsatisfiableIsExact | crates/nexum-runtime-store/src/local_store_redb.rs:194-208 | A write is refused as unsatisfiable exactly when the same write would be refused against every state of the store. |
| StoreSpec.CapsAsDocumented | crates/nexum-runtime-store/src/local_store_redb.rs:225-242 | A batch is refused, before anything else, exactly for more than 1024 operations, or else for more than 4 MiB of values. |
| StoreSpec.ValueBytesAdds | crates/nexum-runtime-store/src/local_store_redb.rs:232-238 | The bytes of a batch add up over its parts. |
| StoreSpec.ValueBytesOfOne | crates/nexum-runtime-store/src/local_store_redb.rs:232-238 | A set weighs its value and a delete nothing. |
| StoreSpec.ModulesAreDisjoint | crates/nexum-runtime-store/src/local_store_redb.rs:90-104 | Namespaces with different digests get handles with no key in common. |
| StoreSpec.WritesStayInside | crates/nexum-runtime-store/src/local_store_redb.rs:469-473 | A write in one namespace changes neither the entries nor the footprint of another. |
| StoreSpec.VerdictIsLocal | crates/nexum-runtime-store/src/local_store_redb.rs:193-209 | The quota verdict on a write depends on nothing outside its namespace. |
| LocalStore.Store.UsedBytes | crates/nexum-runtime-store/src/local_store_redb.rs:325-341 | The seeding scan, with its early stop, gives the sum of entry costs over the whole namespace, or the storage error. |
| LocalStore.Store.Count | crates/nexum-runtime-store/src/local_store_redb.rs:150-167 | The count is the number of table keys with the namespace and key prefix; a failing transaction, table or walk is reported as such. |
| LocalStore.Store.ListKeys | crates/nexum-runtime-store/src/local_store_redb.rs:370-395 | The listed keys are exactly the namespace's text keys with the prefix, in order; a failing transaction, table or walk is reported as such. |
| LocalStore.Store.Set | crates/nexum-runtime-store/src/local_store_redb.rs:169-220 | A set has the outcome of the cache-free contract: the table changes by that entry or not at all, errors are the contract's, and every tracked counter stays the full-scan footprint. |
| LocalStore.Store.Delete | crates/nexum-runtime-store/src/local_store_redb.rs:343-368 | The same for a delete, which no quota refuses. |
| LocalStore.Store.Apply | crates/nexum-runtime-store/src/local_store_redb.rs:222-318 | The same for a batch: on success the table is the operations run one by one, on any error neither table nor counters change. |
| LocalStore.Store.NetCost | crates/nexum-runtime-store/src/local_store_redb.rs:252-277 | The last-operation-wins map, walked in any order, gives the old and the new cost of the touched keys, each key once. |
| LocalStore.FinalIsLast | crates/nexum-runtime-store/src/local_store_redb.rs:254-260 | The last operation on a key says whether the batch leaves an entry there, and how long its value is. |
| LocalStore.CountersAfter | crates/nexum-runtime-store/src/local_store_redb.rs:215-218 | Updating the written namespace's counter keeps every other counter right too. |
| StoreProtocol.DecisionIsExact | crates/nexum-runtime-store/src/local_store_redb.rs:174-210 | With an agreeing cache, the decision taken from the counters is the cache-free verdict, the new counter is the new footprint, and no subtraction saturates. |
| StoreProtocol.StepKeepsInv | crates/nexum-runtime-store/src/local_store_redb.rs:171-220 | Every step of every thread keeps: one writer, one lock holder, transactions that see the committed table, and counters that agree once any landed write has been counted. |
| StoreProtocol.CountersAreExact | crates/nexum-runtime-store/src/local_store_redb.rs:43-44 | In every interleaving, whenever the counters lock is free, each tracked counter is the full-scan footprint of its namespace in the committed table. |
| StoreProtocol.NothingSaturates | crates/nexum-runtime-store/src/local_store_redb.rs:189-193 | In every interleaving, no saturating subtraction ever clamps. |
| StoreProtocol.RunsAreSerial | crates/nexum-runtime-store/src/local_store_redb.rs:222-224 | The committed table of every interleaving is the one the landed requests give when performed one at a time, without a cache, in commit order. |
| StoreProtocol.StepIsSerial | crates/nexum-runtime-store/src/local_store_redb.rs:211-219 | Only a landing commit changes the table, as its request alone would; a refusal is the one the request alone would get. |
| StoreProtocol.QuotaHolds | crates/nexum-runtime-store/src/local_store_redb.rs:108-114 | A namespace that starts within q and whose writers all carry a quota of at most q stays within q in every run. |
| StoreProtocol.NoDeadlock | crates/nexum-runtime-store/src/local_store_redb.rs:173-174 | While any thread is inside a write, some thread can take a step that finishes what it started. |
| Paging.PageWithinBounds | crates/nexum-runtime-api/src/state.rs:12-20 | A page respects its entry limit, its scan limit, and its byte cap unless it holds a single entry. |
| Paging.PageIsComplete | crates/nexum-runtime-store/src/local_store_redb.rs:432-466 | A page's entries are in order, wanted and kept; an unfinished page says how far it got, and nothing wanted up to there is missing. |
| Paging.PageIsMaximal | crates/nexum-runtime-store/src/local_store_redb.rs:443-459 | An unfinished page has examined all the rows it may, or its next row is kept and it has all the entries or all the bytes it may. |
| Paging.PageIsFiltered | crates/nexum-runtime-api/src/state.rs:24-41 | Every value on a page begins with the bytes the filter asks for, or does not begin with those it forbids, and no wanted row of that kind is missing up to the last key examined. |
| Paging.ScanIsFiltered | crates/nexum-runtime-api/src/state.rs:24-41 | A scan of an unchanged store returns exactly the wanted rows whose values are of that kind. |
| Paging.OnlyTheEmptyKeyRepeats | crates/nexum-runtime-store/src/local_store_redb.rs:397-400 | Whatever is written between the pages of a scan, the returned keys rise, and no key but the empty one is returned twice. |
| Paging.ScanIsAscending | crates/nexum-runtime-store/src/local_store_redb.rs:397-400 | If the first page does not stall, the returned keys strictly increase whatever is written between the pages, so none repeats. |
| Paging.ScanMissesNothing | crates/nexum-runtime-store/src/local_store_redb.rs:397-400 | A key present with a kept value at every page of a finished scan is returned by it. |
| Paging.FixedScanIsExact | crates/nexum-runtime-api/src/state.rs:82-92 | A scan of an unchanged store that does not stall ends, with exactly the kept rows of the prefix. |
| Paging.StallNeverEnds | crates/nexum-runtime-store/src/local_store_redb.rs:417-423 | A scan whose first page stops right after the empty key returns the same unfinished page for ever. |
| Paging.StallRepeatsTheEmptyKey | crates/nexum-runtime-store/src/local_store_redb.rs:417-423 | A stalled scan whose filter keeps the empty key returns it with every page. |
| Paging.FinishesUnlessStalled | crates/nexum-runtime-store/src/local_store_redb.rs:417-423 | That is the exact condition for a scan of an unchanged store not to end, and it cannot arise without the empty key. |
| Paging.CapCutsExactly | crates/nexum-runtime-store/src/local_store_redb.rs:451-459 | A byte cap changes nothing if and only if the uncapped page holds at most one entry or stays within the cap. |
| Pagers.ListEntries | crates/nexum-runtime-store/src/local_store_redb.rs:401-467 | The database pager refuses limits past their caps and otherwise returns the page of the namespace's contents that the query describes. |
| Pagers.BoundsAsDocumented | crates/nexum-runtime-api/src/state.rs:43-80 | Zero bounds are 1024 entries and 8192 rows, larger ones are refused, entries first, and a page holds 4 MiB. |
| Pagers.ZeroAsksForTheCaps | crates/nexum-runtime-api/src/state.rs:43-80 | A query with zero bounds gets the page of one that asks for the caps. |
| Pagers.ZeroIsUnbounded | crates/nexum-sdk/src/host.rs:292-309 | On the module side, zero bounds give everything on one page. |
| Pagers.WalkIsRows | crates/nexum-runtime-store/src/local_store_redb.rs:415-440 | From its lower bound, and up to the first key outside the prefix, the walk visits exactly the rows under the prefix and past the resume key, in order. |
| Pagers.PageEntries | crates/nexum-sdk/src/host.rs:292-334 | The module-side pager returns the page of the selected rows, with zero bounds unbounded and no byte cap. |
| Pagers.DefaultListEntries | crates/nexum-sdk/src/host.rs:353-363 | On any host, the fallback returns the first fault of the listing or of a fetch in key order; otherwise it pages the keys that were still there. |
| Pagers.FaithfulHostRows | crates/nexum-sdk/src/host.rs:353-363 | On a host that lists each key under the prefix once, in any order, and fetches what it holds, the page is that of exactly the rows under the prefix and strictly past the resume key. |
| Pagers.SomeScanStalls | crates/nexum-runtime-store/src/local_store_redb.rs:419-420 | With the empty key, another key and a scan limit of one, the bounds the database pager resolves give a scan that stalls. |
| Pagers.RowsAgree | crates/nexum-runtime-testing/src/store.rs:140-146 | The database walks the same rows as the in-memory pagers exactly when the empty key is not at stake. |
| Pagers.SdkPageIsHostPage | crates/nexum-sdk/src/host.rs:292-295 | For the same resolved bounds, and when the empty key is not at stake, the module-side page is the host's page if and only if it holds at most one entry or stays within the byte cap. |
| MockStore.Mock.Set | crates/nexum-runtime-testing/src/store.rs:76-103 | A set on the double changes its namespace as the contract says, with the quota measured on key and value bytes, and no other namespace. |
| MockStore.Mock.Delete | crates/nexum-runtime-testing/src/store.rs:105-110 | A delete removes the key from its namespace and touches no other. |
| MockStore.Mock.Apply | crates/nexum-runtime-testing/src/store.rs:175-243 | A batch lands whole or is refused whole, with the refusal of the contract. |
| MockStore.Mock.ListEntries | crates/nexum-runtime-testing/src/store.rs:126-173 | The double returns the described page of the rows strictly past the resume key. |
| MockStore.DefaultApply | crates/nexum-sdk/src/host.rs:364-378 | On any host, the fallback makes one call per operation, in order, and stops at the first refusal with the calls before it made and answered. |
| MockStore.FallbackLeavesAPrefix | crates/nexum-sdk/src/host.rs:364-378 | On the double, a refusal leaves exactly the operations before it applied. |
| MockStore.FallbackIsStricter | crates/nexum-sdk/src/host.rs:364-378 | From a namespace within quota, a batch that the fallback lands is also landed whole, with the same result. |
| MockStore.ViewFollowsTheDouble | crates/nexum-runtime-testing/src/store.rs:15-20 | For every request, what a module sees of the database changes exactly as the double's map does. |
| MockStore.FootprintsDifferByOverhead | crates/nexum-runtime-store/src/local_store_redb.rs:320-323 | The database footprint of a namespace is the double's plus the prefix and overhead of every entry. |
| MockStore.SixtyFourBytesAnEntry | crates/nexum-runtime-store/src/local_store_redb.rs:320-323 | In a namespace the difference is 64 bytes an entry. |
| MockStore.DoubleIsLooser | crates/nexum-runtime-testing/src/store.rs:76-103 | A write that lands on the database under a quota lands on the double under the same quota, with the same contents; the next row says when the converse holds. |
| MockStore.AgreeUnlessInTheGap | crates/nexum-runtime-api/src/state.rs:181-185 | For every table, handle and request, the database and the double land the same contents or both refuse, if and only if the quota does not fall between the key and value bytes of what the write would leave and those plus prefix and overhead per entry. |
| MockStore.TenBytesHoldNothing | crates/nexum-runtime-store/src/local_store_redb.rs:320-323 | Under a quota of ten, one byte of key and one of value land on the double and not on the database. |
| MockStore.PagesAgree | crates/nexum-runtime-testing/src/store.rs:126-173 | The double's page is the database's page for every query, when the empty key is not at stake. |
| Substitution.SubstituteEnvVars | crates/nexum-runtime-config/src/load.rs:51-96 | The scanner's output is the template of the text filled from the environment, and its error is the template's. |
| Substitution.LoneToken | crates/nexum-runtime-config/src/load.rs:63-84 | A token alone comes to its value exactly when it holds a name, which is one of A to Z or underscore and then those or digits, and the name is defined; otherwise the name is reported as invalid or missing. |
| Substitution.UnclosedIsLocated | crates/nexum-runtime-config/src/load.rs:63-72 | A token that is not closed is reported at the byte of the encoded text it opens at. |
| Substitution.Utf8LengthIsEncoded | crates/nexum-runtime-config/src/load.rs:59-72 | Offsets count the bytes of the UTF-8 encoding. |
| Substitution.CutIsLossless | crates/nexum-runtime-config/src/load.rs:86-93 | The copied pieces and the tokens, put together, are the text. |
| Substitution.CommentsAreCopied | crates/nexum-runtime-config/src/load.rs:55-57 | No token is ever taken from a comment. |
| Substitution.FillIsTemplating | crates/nexum-runtime-config/src/load.rs:63-95 | The first token with an undefined name is the error, then the way the cut ended; otherwise the result is the copied pieces with each token's value in its place. |
| Substitution.SameNamesSameOutcome | crates/nexum-runtime-config/src/load.rs:77-84 | Environments that define the same names fail alike, with the same error, or succeed alike. |
| Substitution.ValuesAreOpaque | crates/nexum-runtime-config/src/load.rs:56-57 | Values are never read again: with every variable set to its own token, the text comes back unchanged. |
| TomlText.DocumentCut | crates/nexum-runtime-config/src/load.rs:116-158 | A document printed from well-separated parts is cut into exactly those parts' pieces, and every string and closed comment leaves the scanner bare. |
| TomlText.CommentsAreFound | crates/nexum-runtime-config/src/load.rs:98-114 | The scanner is in the comment state on exactly the printed comment text. |
| TomlText.PartCut | crates/nexum-runtime-config/src/load.rs:122-146 | Each of the four string forms, bare text, a comment and an unterminated single-line string is read as what it is and no further. |
| TomlText.ClosingStep | crates/nexum-runtime-config/src/load.rs:149-157 | The closing quotes of a string, with up to two more before them in a multi-line one, are read as its close. |
| TomlText.SubstitutionExpands | crates/nexum-runtime-config/src/load.rs:51-58 | Substituting into a printed document replaces the variables of its keys and values, also one after a backslash in a basic string, and leaves its comments as they are. |
| Migration.StoreFile.OpenAt | crates/nexum-runtime-store/src/format.rs:76-112 | An open lands the whole upgrade with its stamp or changes no table; a newer stamp that the probe can read is refused with the file untouched; reopening at the stamped version changes no table. |
| Migration.Migrate | crates/nexum-runtime-store/src/format.rs:126-137 | The loop runs the steps from the found version up, in order, and stops at the first failure naming its versions. |
| Migration.StampRoundTrip | crates/nexum-runtime-store/src/format.rs:28-31 | The stamp's bytes are read back as the version they were written for; the next row gives the bytes. |
| Migration.StampIsLittleEndian | crates/nexum-runtime-store/src/format.rs:28-31 | Byte k of the stamp is the version divided by 256 to the k, modulo 256. |
| Migration.FoundExactly | crates/nexum-runtime-store/src/format.rs:157-177 | A file is new, unstamped or stamped exactly by what it holds: no table, only the data table, or under `format_version` four bytes of a number that is not zero, least significant first; anything else is unreadable. |
| Migration.SmallStamp | crates/nexum-runtime-store/src/format.rs:157-177 | A file stamped with the bytes v, 0, 0, 0 is at version v. |
| Migration.NewFileIsLaidOut | crates/nexum-runtime-store/src/format.rs:100-109 | A new file ends as an empty data table and the stamp's bytes under `format_version`. |
| Migration.UpgradeLandsAtVersion | crates/nexum-runtime-store/src/format.rs:105-111 | After an open that lands, the file is stamped with the release's version and a second open changes nothing. |
| Migration.PathIndependent | crates/nexum-runtime-store/src/format.rs:126-137 | With steps that cannot tell stamps apart, upgrading an existing store through an intermediate release gives the tables and stamp, or the failure, of one direct open. |
| Migration.StopIsHarmless | crates/nexum-runtime-store/src/format.rs:126-137 | With any steps, stopping at a release makes no difference if and only if the later steps run alike with and without that release's stamp. |
| Migration.HarmlessExactly | crates/nexum-runtime-store/src/format.rs:33-39 | For every list of steps, all stops are harmless for every existing store, if and only if each step treats whatever an existing store brings to it alike with and without the stamp of its release. |
| Migration.MetadataStepIsBlind | crates/nexum-runtime-store/src/format.rs:33-36 | A step that writes another key of the metadata table cannot tell stamps apart. |
| Migration.BlindnessMatters | crates/nexum-runtime-store/src/format.rs:33-36 | A step that looks for the metadata table can make the path matter. |
| Migration.HistoryIsWhole | crates/nexum-runtime-store/src/format.rs:95-97 | After any history of completed, failed and crashed opens, by any releases in any order, an existing store is as it was while nothing has landed, and otherwise as one direct open by the release that landed last leaves it. |
| Migration.FreshHistoryIsWhole | crates/nexum-runtime-store/src/format.rs:100-103 | From a new file, the store is still new while nothing has landed, and otherwise the empty layout of the release that created it, upgraded directly by the release that landed last. |
| Migration.CreatorMatters | crates/nexum-runtime-store/src/format.rs:100-103 | Creating at release 1 and upgrading can differ from creating at release 2. |
| Migration.OlderIsRefused | crates/nexum-runtime-store/src/format.rs:114-124 | A release refuses what a later one has upgraded, naming both versions, whatever the steps do. |
| Migration.RetryIsDirect | crates/nexum-runtime-store/src/format.rs:95-97 | After any such history, an open by a release older than the last that landed is refused as too new, naming both versions; any other gives exactly what it would have given at the start. |
| FixedPoint.ScaleDecimal | crates/nexum-sdk/src/config.rs:132-184 | A malformed text, and a magnitude past 256 bits, is a parse error, and one past the signed range a range error; otherwise the result is the signed magnitude, which is exact but for a fraction whose length wraps. |
| FixedPoint.Compose | crates/nexum-sdk/src/config.rs:159-174 | Padding a short fraction and cutting a long one both give the digits of the exact scaled value; a fraction whose length wraps is padded as a short one. |
| FixedPoint.ExactUnlessWrapped | crates/nexum-sdk/src/config.rs:159 | The outcome is that of the exact value times 10^decimals cut toward zero, if and only if not all hold: the fraction's length wraps, some digit is not zero, and the exact magnitude fits 256 bits. |
| FixedPoint.LongFractionIsMisread | crates/nexum-sdk/src/config.rs:159 | A fraction of a multiple of 2^32 digits, all zero but the last, at scale zero, gives one where the exact value is zero. |
| FixedPoint.WellFormedIsSpelling | crates/nexum-sdk/src/config.rs:138-158 | A text is well formed exactly when it is an optional minus, digits and at most one dot, with at least one digit. |
| FixedPoint.ScaledRoundTrip | crates/nexum-sdk/src/config.rs:132-184 | Every value of the result type but its minimum is parsed back from its print, at every scale. |
| FixedPoint.AcceptedExactly | crates/nexum-sdk/src/config.rs:132-184 | A text comes to a number if and only if it is a spelling whose magnitude is below 2^255, and to that magnitude with its sign. |
| FixedPoint.RefusedExactly | crates/nexum-sdk/src/config.rs:147-182 | The error is one of range exactly for a well-formed text whose magnitude has 256 bits, and one of parsing otherwise. |
| FixedPoint.ShortFractionsAreExact | crates/nexum-sdk/src/config.rs:159 | The outcome is exact for every fraction of fewer than 2^32 digits. |
| FixedPoint.ReadExactly | crates/nexum-sdk/src/config.rs:132-184 | A text whose exact value is one of the result type is read as that value, if and only if the value is not the minimum and the text does not have both a fraction whose length wraps and a digit that is not zero. |
| FixedPoint.MinimumIsRefused | crates/nexum-sdk/src/config.rs:179-183 | However it is written and at every scale, the minimum is refused, as out of range, or as unreadable if the fraction's length wraps. |
| FixedPoint.MinimumHasASpelling | crates/nexum-sdk/src/config.rs:179-183 | Some text has the minimum as its exact value. |
| TokenBucket.Bucket.TryAcquire | crates/nexum-runtime-config/src/dispatch_rate.rs:60-75 | A call refills for the elapsed time up to the capacity, takes a token exactly when there is one, and keeps the tokens in range. |
| TokenBucket.TokensInRange | crates/nexum-runtime-config/src/dispatch_rate.rs:45-46 | In every run, the tokens stay between zero and the capacity. |
| TokenBucket.FoundIsTightestBudget | crates/nexum-runtime-config/src/dispatch_rate.rs:60-75 | For any call times, the tokens a call finds are the tightest remaining budget over all windows that end with it. |
| TokenBucket.AdmitsExactlyThePolicy | crates/nexum-runtime-config/src/dispatch_rate.rs:60-75 | For any call times, a call is admitted if and only if admitting it keeps every window that ends with it within the capacity plus the rate times the time the clock moved forward in the window. |
| TokenBucket.WindowBound | crates/nexum-runtime-config/src/dispatch_rate.rs:60-75 | For any call times, at most the capacity plus the rate times the time the clock moved forward is admitted in any window. |
| TokenBucket.TravelIsSpan | crates/nexum-runtime-config/src/dispatch_rate.rs:63-68 | The time the clock moved forward in a window is at least its span, and equal to it if and only if no call in the window steps back. |
| TokenBucket.TravelOfOneStep | crates/nexum-runtime-config/src/dispatch_rate.rs:63-65 | A step forward counts in full and a step back not at all. |
| TokenBucket.SpanPolicy | crates/nexum-runtime-config/src/dispatch_rate.rs:6-14 | While no call steps back, a call is admitted if and only if every window that ends with it stays within the capacity plus the rate times its span. |
| TokenBucket.SpanBound | crates/nexum-runtime-config/src/dispatch_rate.rs:6-14 | In any window of at most a given span in which no call steps back, at most the capacity plus the rate times that span is admitted. |
| TokenBucket.SpacedCallsAreAdmitted | crates/nexum-runtime-config/src/dispatch_rate.rs:12-13 | Calls at least the inverse of the rate apart are all admitted. |
| TokenBucket.QuarterSecond | crates/nexum-runtime-config/src/dispatch_rate.rs:60-75 | With a burst of one and four a second, calls a quarter of a second apart are admitted and closer ones refused. |
| TokenBucket.BurstIsCapped | crates/nexum-runtime-config/src/dispatch_rate.rs:10-11 | A burst on a full bucket is admitted up to the capacity and no further. |
| TokenBucket.BackwardsClockOveradmits | crates/nexum-runtime-config/src/dispatch_rate.rs:63-68 | With an instant that runs back, a bucket of one admits two calls at one instant. |
| InterfaceTrack.TrackParses | crates/nexum-primitives/src/interface_id.rs:49-64 | The track of every interface id is accepted as itself. |
| InterfaceTrack.AcceptedIsTrack | crates/nexum-primitives/src/interface_id.rs:106-131 | Every accepted key is the track of some interface id. |
| InterfaceTrack.NameIsThreeWords | crates/nexum-primitives/src/interface_id.rs:66-87 | A name is valid if and only if it is three words of lower-case letters, digits and inner hyphens, joined by a colon and a slash. |
| InterfaceTrack.KeysExactly | crates/nexum-primitives/src/interface_id.rs:106-146 | A key is accepted if and only if it is a name and `@n`, `@0.n` or `@0.0.n`, with n a 64-bit number in decimal, not zero in the first two. |
| InterfaceTrack.SameTrackIsCompatible | crates/nexum-primitives/src/interface_id.rs:55-64 | Two ids share a track exactly when they name the same interface in versions that semantic versioning calls compatible: same major, or same 0.minor, or same 0.0.patch. |

## Left out

- LocalStore.Store.Set: counters and costs are unbounded, so 64-bit wrap-around of a byte count is not modelled; a database file cannot hold that many bytes.
- LocalStore.Store.Apply: the same holds for the sums of a batch.
- Pagers.PageEntries: an absent bound is the largest word of a 32-bit guest; a 64-bit build has a larger one, which no page reaches.
- TokenBucket.WindowBound: rounding of floating-point token counts is not modelled.
- Substitution.SubstituteEnvVars: a variable whose value is not Unicode counts as undefined, and reading the file and parsing the TOML afterwards are not part of the model.
- InterfaceTrack.TrackParses: pre-release and build tags, and the text form of full versions, are not modelled; they do not reach the track.
- Single-key reads of the store (`get`, `contains`, `len`): one lookup each.
- Parsing of full interface ids: it rests on an external version parser.
- The write-once config slot and the key lookups: one branch each.
- Chain providers, HTTP, logging, supervision, the module macros, the launcher and the command line: not part of this model.
