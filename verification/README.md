# Civil time and a bounded queue, verified

A Dafny model of three files of the repository and proofs of what they promise:

- `base/date.cpp`: Julian day numbers against the Gregorian calendar (`Gregorian.dfy`, `Date.dfy`,
  `DateProofs.dfy`);
- `base/time_zone.cpp`: seconds since the epoch to broken-down UTC and back (`UtcTime.dfy`,
  `UtcTimeProofs.dfy`), the time-zone table and its search (`ZoneData.dfy`), local time
  (`LocalTime.dfy`, `LocalTimeProofs.dfy`), and the zoneinfo reader (`TzFile.dfy`,
  `TzFileProofs.dfy`);
- `base/bounded_blocking_queue.h`: the monitor as a step system (`QueueProtocol.dfy`), as an object
  (`BoundedBlockingQueue.dfy`), and its proofs (`QueueProofs.dfy`).

`CxxInt.dfy` holds what C++ integers do that Dafny's do not: division that rounds toward zero, the
cast to `int`, and 32-bit overflow.

The layers build on each other. `GetYearMonthDay` and `GetJulianDayNumber` are inverse on the
calendar, so `to_utc_time` and `from_utc_time` are inverse; the binary search is a linear scan, so a
zone is a step function from instants to offsets; together these decide exactly which instants
survive a trip through local time, and the last theorem (`FileRoundTrip`) carries that back to the
bytes of a zoneinfo file.

## How it is modelled

- `struct tm`, `Date` and the table entries are values; `TmBuffer`, `Data`, `File`, `TimeZone` and
  `BoundedBlockingQueue` are objects whose methods update their fields as the program does.
- Each method is proved against a function of its inputs, and the theorems are about that function.
  `to_utc_time` truncates and then corrects, its function divides with a true floor;
  `findLocaltime` bisects, its function scans from the end; the reader reads in order, its function
  looks each field up by position.
- Integers are unbounded except where the width decides the outcome: `CheckedYearMonthDay` and
  `CheckedJulianDayNumber` evaluate in 32 bits, one operation at a time.
- An exception that the reader catches is a `Result`. A file is its bytes and a read position.
- A `tm_zone` pointer is the C string that it points to.
- In the queue a step is one critical section. A thread that sleeps has given the lock up; once
  woken it must take the lock again and may be overtaken; it may be woken for no reason. A post
  wakes one waiter, any one, if there is one.

## What turned out otherwise

- Before 1 March -4800 the date arithmetic is not a calendar, and nowhere before: every earlier day
  number gives a day of the month below 1, and no earlier date survives the round trip.
- `tm_yday` is one too small from March to December -4800, and `tm_wday` is seven too small before
  Julian day -1 except on Sundays.
- `from_local_time` finds a wall clock that occurs only if transitions are not too close: increasing
  keys in both orders do not suffice (`OrderAloneIsNotEnough`); spacing beyond the spread of the
  offsets does.
- With that spacing, an instant survives local time exactly when its wall clock is not shown again
  or the hour that repeats it is one hour from daylight saving to standard time.
- `from_local_time` compares the caller's own hour and minute, so a time with an hour or minute out of
  range comes back as if it were not flagged as daylight saving (`FlaggedWallClock`).
- A time zone made from any file, or from none, counts as valid; `HasTypeExactly` says when its
  table has a type to fall back on.
- The header lists years 1900 to 2500 for `from_utc_time` (`base/time_zone.h:28`); the code is right
  far beyond.
- The queue's header is not what it means to be: `put` waits on `m_not_empty` (lines 19 and 28),
  `m_not_full` is built without the mutex (line 13), and `pop_front` is named but not called (line
  41). The model calls `pop_front`, and proves FIFO safety for both ways to wait. With the wait as
  written, a producer can sleep beside a free slot for good, at every capacity above 0; with
  `m_not_full`, never (`NeverStuckExactly`).

## Model

| member | source | states |
|---|---|---|
| DateProofs.JulianDayRoundTrip | base/date.cpp:18-31 | every Julian day from -32044 on is a valid Gregorian date, and that date's Julian day number is the day itself |
| DateProofs.ValidExactlyFromFirstDay | base/date.cpp:18-31 | the result is a valid date if and only if the day is not before -32044 |
| DateProofs.DateRoundTrip | base/date.cpp:9-31 | a valid date survives the trip to a Julian day number and back if and only if it is not before 1 March -4800 |
| DateProofs.NextDayAddsOne | base/date.cpp:9-16 | the number goes up by exactly 1 from any date to its calendar successor, over month ends, leap days and century years |
| DateProofs.NextDayOfJulianDay | base/date.cpp:18-31 | the next Julian day is the next calendar day |
| DateProofs.JulianDayOrder | base/date.cpp:9-16 | one date is lexicographically before another if and only if its number is smaller |
| DateProofs.DifferenceCountsDays | base/date.cpp:9-16 | the difference of two numbers is how many calendar days lead from the earlier date to the later |
| DateProofs.MonthStart | base/date.cpp:9-16 | the number is that of 1 January plus the summed lengths of the months before plus the day, for any day value |
| DateProofs.YearStart | base/date.cpp:9-16 | consecutive 1 Januaries are 365 or 366 days apart by the leap rule |
| DateProofs.FirstCollision | base/date.cpp:9-16 | 29 February and 1 March -4800 get the same number, so the first date is sharp |
| DateProofs.YearMonthDayOverflowsExactly | base/date.cpp:18-31 | 32-bit evaluation gives the unbounded result if and only if the day is in [-536902956, 536838867]; otherwise an operation overflows |
| DateProofs.JulianDayNumberOverflowsExactly | base/date.cpp:9-16 | for a date of the calendar, 32-bit evaluation gives the unbounded result if and only if the date is not after 15 December 5874689; otherwise an operation overflows |
| DateProofs.JulianDayNumberNeverOverflows | base/date.cpp:9-16 | on the date of any day in [-32044, 536838867] the 32-bit evaluation overflows nowhere and gives the day back |
| UtcTime.FillHMS | base/time_zone.cpp:70-76 | seconds and minutes below 60, and the three fields weigh up to the argument |
| UtcTime.ToUtcTime | base/time_zone.cpp:316-342 | truncation, the fix-up for negative remainders and the casts to int give the fields by true floor division |
| UtcTime.FloorFixUp | base/time_zone.cpp:321-327 | after the fix-up, seconds and days are the floor remainder and quotient, negative times included |
| UtcTimeProofs.UtcRoundTrip | base/time_zone.cpp:316-357 | every second whose day is in the calendar, negative ones included, becomes a normalised date-time that converts back to it |
| UtcTimeProofs.DateTimeRoundTrip | base/time_zone.cpp:316-357 | a date-time whose second is in the calendar survives if and only if it is normalised |
| UtcTimeProofs.NormalisedIsUnique | base/time_zone.cpp:350-357 | no two normalised date-times are the same second |
| UtcTimeProofs.UtcTicks | base/time_zone.cpp:316-342 | one second later is one tick of a calendar clock, with all its carries |
| UtcTimeProofs.UtcEpoch | base/time_zone.cpp:316-342 | second 0 is Thursday 1 January 1970, 00:00:00 |
| UtcTimeProofs.Normalisation | base/time_zone.cpp:350-357 | for any day, hour, minute and second values, the two conversions give the unique normalised date-time exactly that many days and seconds after midnight on the first of the month |
| UtcTimeProofs.DayOfYear | base/time_zone.cpp:336-340 | tm_yday is the summed lengths of the preceding months plus mday - 1, within the length of the year, except for being one too small in year -4800 |
| UtcTimeProofs.DayOfWeek | base/time_zone.cpp:334 | tm_wday is the day of the week, except that it is seven too small on days other than Sunday before Julian day -1 |
| UtcTimeProofs.UtcFields | base/time_zone.cpp:318-341 | at every second tm_yday is 0 unless asked for, tm_isdst and the offset are 0, and the zone is "GMT" |
| UtcTimeProofs.PosixFormula | base/time_zone.cpp:316-342 | for every second from the epoch on, the fields satisfy the formula of section 4.16 of POSIX.1-2017 |
| ZoneData.LowerBound | base/time_zone.cpp:228-231 | the position that splits a sorted table into the transitions less than the sentry and the rest, for either order |
| ZoneData.FindLocaltime | base/time_zone.cpp:217-249 | the first type when the sentry is before every transition; else the type named by the first transition with the sentry's key, or by the last one before it where none has that key; hence by the last at or before it in a strict table |
| ZoneData.FoundIsLinearScan | base/time_zone.cpp:217-249 | in a sorted table the search agrees with a linear scan for every key if and only if no key repeats |
| LocalTime.TimeZone.FromFile | base/time_zone.cpp:255-262 | a time zone from a file is valid and holds what the reader leaves, even when the file cannot be opened |
| LocalTime.TimeZone.Fixed | base/time_zone.cpp:264-269 | a fixed zone has one standard type and no transitions |
| LocalTime.CString | base/time_zone.cpp:287 | the designation that tm_zone points to: the bytes up to the first null, none of them null |
| LocalTime.TimeZone.ToLocalTime | base/time_zone.cpp:271-291 | the fields of the wall clock at that instant, with the offset, flag and designation of the type in force |
| LocalTime.TimeZone.FromLocalTime | base/time_zone.cpp:293-314 | the instant guessed by local key, an hour earlier exactly when the daylight-saving branch fires |
| LocalTimeProofs.WellSpacedIsOrdered | base/time_zone.cpp:33-57 | spacing beyond the spread of offsets makes both key orders strictly increasing |
| LocalTimeProofs.GmtoffRecoversInstant | base/time_zone.cpp:271-291 | in every usable table the fields are normalised and their date and time less tm_gmtoff is the instant |
| LocalTimeProofs.TypeInForce | base/time_zone.cpp:271-291 | from one transition to the next, or for ever after the last, local time has the offset, flag and designation of the type the transition names, and the date and time at that offset |
| LocalTimeProofs.TypeBeforeTransitions | base/time_zone.cpp:221-225 | before every transition, and in a table without any, it has those of the first type |
| LocalTimeProofs.LocalDayFields | base/time_zone.cpp:283-284 | tm_yday and tm_wday of a local time are those of its own date |
| LocalTimeProofs.GuessIsLatest | base/time_zone.cpp:293-314 | with both orders strict, the instant found shows the wall clock if and only if that is not in the gap before the next transition, and is then the greatest that does |
| LocalTimeProofs.OrderAloneIsNotEnough | base/time_zone.cpp:293-314 | a table with both orders strict in which a wall clock that occurs is not found |
| LocalTimeProofs.WallClockFound | base/time_zone.cpp:293-314 | in a well-spaced table, with tm_isdst zero, the result shows the wall clock if and only if some instant does, and is the greatest of them |
| LocalTimeProofs.SkippedWallClock | base/time_zone.cpp:293-314 | a wall clock that no instant shows lies in a forward gap and comes back advanced by exactly the size of that gap; with the flag set, an hour less if the gap leads to standard time and the caller's hour and minute are those on the clock beyond it |
| LocalTimeProofs.HackFiresExactly | base/time_zone.cpp:302-312 | for times that to_local_time produced, the branch fires if and only if the wall clock is shown again after a change from daylight saving to standard time |
| LocalTimeProofs.LocalRoundTrip | base/time_zone.cpp:271-314 | an instant survives local time if and only if its wall clock is not shown again, or is shown again by a one-hour end of daylight saving |
| LocalTimeProofs.EveryInstantRoundTrips | base/time_zone.cpp:271-314 | all instants survive if and only if every backward transition is 3600 s from a daylight-saving type to a standard one, the stretch before the first transition included |
| LocalTimeProofs.FlagOnUnrepeatedTime | base/time_zone.cpp:293-314 | an instant shown once comes back under any flag, except a standard time flagged as daylight saving, which comes back an hour early |
| LocalTimeProofs.RepeatedHour | base/time_zone.cpp:302-313 | at a one-hour end of daylight saving the flag selects between the two showings of a wall clock |
| LocalTimeProofs.FlaggedWallClock | base/time_zone.cpp:293-314 | any wall clock that occurs, under any flag and with fields normalised or not, gives the last instant that shows it, or an hour before if flagged as daylight saving where that instant is in standard time and the caller's hour and minute are on the clock, as they are in normalised fields and never are when out of range |
| TzFile.File.ReadBytes | base/time_zone.cpp:116-123 | the next bytes and the position after them, or an error on a short file |
| TzFile.File.ReadInt32 | base/time_zone.cpp:125-132 | the next four bytes as a big-endian two's complement number, or an error |
| TzFile.File.ReadUInt8 | base/time_zone.cpp:134-141 | the next byte, or an error |
| TzFile.ReadHeader | base/time_zone.cpp:154-165 | succeeds if and only if 44 bytes are there and start with the magic; then gives the counts at their places |
| TzFile.ReadTimes | base/time_zone.cpp:167-173 | the transition times, or an error if and only if the file is too short for them |
| TzFile.ReadIndices | base/time_zone.cpp:175-179 | the type indices, or an error if and only if the file is too short for them |
| TzFile.ReadLocaltimes | base/time_zone.cpp:181-188 | all type records, or those that precede the cut in a short file |
| TzFile.AddTransitions | base/time_zone.cpp:190-195 | one transition a time, its local key the time plus the offset of its type |
| TzFile.ReadBlock | base/time_zone.cpp:152-208 | for any bytes, reading in order leaves what the layout puts at each position, and succeeds if and only if all of it is there |
| TzFile.ReadTimeZoneFile | base/time_zone.cpp:147-215 | always answers true; the data are as the try block left them |
| TzFileProofs.MagicOctets | base/time_zone.cpp:154-165 | a header is recognised if and only if there are 44 bytes and the first four are the octets 54 5A 69 66 of section 3.1 of RFC 8536 |
| TzFileProofs.AllTransitionsOrNone | base/time_zone.cpp:147-215 | for any bytes, either no transitions or exactly timecnt of them with all typecnt types, each local key being the UTC key plus its type's offset |
| TzFileProofs.CutFile | base/time_zone.cpp:147-215 | cutting the file at any byte keeps all transitions or none, a prefix of the types, and the designations only with all the rest |
| TzFileProofs.CutKeepsExactly | base/time_zone.cpp:170-197 | what a cut keeps: the transitions if and only if it is not before the designations, each type whose record is whole, the designations if and only if it is not before their end |
| TzFileProofs.HasTypeExactly | base/time_zone.cpp:147-224 | there is a first type to fall back on if and only if the header is good and the first type record is in the file |
| TzFileProofs.TzifRoundTrip | base/time_zone.cpp:147-215 | a version 1 block written as sections 3.1 and 3.2 of RFC 8536 lay down, with any nonzero octet for daylight saving, reads back to exactly its times, indices, offsets, flags and designations, whatever follows |
| TzFileProofs.ReadingGivesTable | base/time_zone.cpp:170-195 | reading a block whose times are further apart than its offsets differ establishes both strict orders and every assumption on tables |
| TzFileProofs.FileShowsType | base/time_zone.cpp:147-291 | a zone read from a file with ascending times shows, at every instant, the offset, flag and designation that the block names for it |
| TzFileProofs.FileRoundTrip | base/time_zone.cpp:147-314 | a zone read from a well-spaced file whose backward steps all end daylight saving by an hour shows every instant as the block has it, and takes it to local time and back |
| BoundedBlockingQueue.BoundedBlockingQueue.constructor | base/bounded_blocking_queue.h:10-15 | an empty queue of the given capacity |
| BoundedBlockingQueue.BoundedBlockingQueue.Post | base/locker.h:85-87 | one waiter of the condition is woken if there is any, and nothing else changes |
| BoundedBlockingQueue.BoundedBlockingQueue.RunPut | base/bounded_blocking_queue.h:16-34 | sleeps, with no other change, if and only if the queue is full; else appends the value, overwriting nothing, leaves and posts; exactly the step of the protocol |
| BoundedBlockingQueue.BoundedBlockingQueue.RunTake | base/bounded_blocking_queue.h:34-44 | sleeps, with no other change, if and only if the queue is empty; else returns and removes the oldest value, leaves and posts; exactly the step of the protocol |
| BoundedBlockingQueue.BoundedBlockingQueue.Empty | base/bounded_blocking_queue.h:45-48 | true if and only if everything put has been taken |
| BoundedBlockingQueue.BoundedBlockingQueue.Full | base/bounded_blocking_queue.h:49-52 | true if and only if puts are ahead of takes by the capacity |
| QueueProofs.FifoSafety | base/bounded_blocking_queue.h:16-44 | in every interleaving and with either wiring, the values taken followed by the queue are the values put in lock order, within the capacity, and neither history is rewritten |
| QueueProofs.EachPutPushesOnce | base/bounded_blocking_queue.h:16-34 | in every interleaving each thread's values are pushed once each, in call order, but for the call it is still in |
| QueueProofs.EachTakePopsOnce | base/bounded_blocking_queue.h:34-44 | in every interleaving a thread leaves take only with a value: its pops and the call it is still in are as many as its calls |
| QueueProofs.PostWakesOne | base/bounded_blocking_queue.h:16-44 | with either wiring a push, and a pop, wakes one of the threads that sleep on the condition it posts, if there is one, and changes no other |
| QueueProofs.PutWakesConsumer | base/bounded_blocking_queue.h:16-24 | with either wiring, where consumers sleep and no producer does, a put that pushes turns exactly one sleeping consumer into a woken one |
| QueueProofs.ConsumersAlwaysServed | base/bounded_blocking_queue.h:16-44 | with either wiring, along every interleaving in which no put finds the queue full, the queued values do not outnumber the woken consumers while a consumer sleeps |
| QueueProofs.WakeupsArrive | base/bounded_blocking_queue.h:16-44 | with the intended wiring, while a producer sleeps the free slots do not outnumber the woken producers, and dually for consumers and values |
| QueueProofs.NeverAllAsleep | base/bounded_blocking_queue.h:16-44 | whenever a producer and a consumer both sleep, at least as many threads as the capacity have been woken |
| QueueProofs.RestIsBlockedForReason | base/bounded_blocking_queue.h:16-44 | when no thread is about to run, sleeping producers face a full queue and sleeping consumers an empty one |
| QueueProofs.SomeThreadCanRun | base/bounded_blocking_queue.h:16-44 | unless the monitor is at rest, some thread can take a step |
| QueueProofs.ComesToRest | base/bounded_blocking_queue.h:16-44 | without new calls and spurious wakeups every interleaving ends, within twice the threads inside put and take plus those that want the lock |
| QueueProofs.AsWrittenGetsStuck | base/bounded_blocking_queue.h:16-24 | with the wait as written, at any capacity above 0 an interleaving leaves a producer asleep beside a free slot with no thread to run |
| QueueProofs.NeverStuckExactly | base/bounded_blocking_queue.h:16-44 | sleeping threads are always blocked for that reason if and only if put waits on m_not_full or the capacity is 0 |

## Left out

- `::gmtime_r` and `::timegm`: modelled by the repository's own `to_utc_time` and `from_utc_time`, as
  the FIXME comments at `base/time_zone.cpp:284` and `:299` intend.
- Opening files, `fread` internals, `stderr` output, memory exhaustion in `reserve`, and pointer lifetimes.
- UtcTime.ToUtcTime: asks that the day not overflow 32 bits, because overflow is undefined behaviour;
  `YearMonthDayOverflowsExactly` gives the exact range.
- LocalTime.TimeZone.ToLocalTime: asks for a non-empty type list and indices in range, which the program
  indexes without looking; `HasTypeExactly` and `ReadingGivesTable` say when a file gives them.
- TzFile.ReadBlock: asks for type indices in range and a non-negative number of designation characters,
  where the program has undefined behaviour; negative time and type counts are modelled.
- The field `names`, which nothing uses, and the loop over leap seconds, which does nothing.
- The version 2 block and footer, which the program does not read.
- `Date::to_iso_string` and the comparisons and accessors of `Date`: only formatting or one expression each.
- The second overload of `put`: the same steps, with a move in place of a copy.
- BoundedBlockingQueue.BoundedBlockingQueue.RunPut: `put` and `take` are split where they sleep, since a
  blocking call has no end the verifier could prove; their loops are the repetition of a step.
- The mutex, the condition variables and `boost::circular_buffer` themselves; fairness, and the progress
  of any one thread.
- The rest of the repository (`net/`, `chatserver/`, and the other files of `base/`).
