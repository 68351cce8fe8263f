# Prayer schedule and next-prayer rule

A Dafny model of the scheduling core of the Prayer Companion app: the
`DayPrayersInfo` value that holds one day's six prayers, and the rule by
which the `GetNextPrayer` use case picks the next prayer to perform.

- `prayers.dfy` (module `Prayers`): the `Prayer` enum and its declaration
  order Fajr, Duha, Dhuhr, Asr, Maghrib, Isha (`Prayer.values()`).
- `day_prayers_info.dfy` (module `DayPrayers`): `PrayerInfo`, the
  `DayPrayersInfo` data class, its `init` check (`Make`, which fails with
  `WrongPrayers` where Kotlin's `require` throws), `get` (`Get`, which
  fails with `PrayerNotFound` where Kotlin throws) and the `Default` value.
- `next_prayer.dfy` (module `NextPrayer`): `Resolve`, the next-prayer rule.
  It scans today's entries in canonical order for the first one whose time is
  strictly later than the clock's instant; when there is none it answers with
  the Fajr of tomorrow's schedule, tagged `Tomorrow`.
- `outcomes.dfy` (module `Outcomes`): the `Result` type used for both.

Date-times are abstract integer timestamps. The clock is injected as a frozen
`Clock` value (`Clock.fixed` in the tests). Tomorrow's schedule is an input:
the outcome of the repository fetch, a `Result` whose failure becomes
`ScheduleUnavailable`. `Resolve` is a function of its three inputs, so two
calls with the same schedule, fetch outcome and frozen clock give the same
answer by construction.

Every Kotlin `DayPrayersInfo` object has passed its `init` check, so the
model's `Resolve` requires `Valid()` of today's schedule and of a fetched
tomorrow; an invalid schedule is not a runtime case of the use case.
`Get`, `Make` and `Find` take any list, as the Kotlin code does.

The implementation of `GetNextPrayer` is not part of this model; its
behaviour is taken from its test suite. The test fixture
`PrayersFakeRepository` is not part of this model either: `SampleDay` uses
times chosen so that every expectation of that suite holds of them, and
`TestSuiteScenarios` replays all thirteen test cases on it.

## Model

| member | source | states |
|---|---|---|
| Prayers.AllPrayers | app/src/main/java/com/prayercompanion/prayercompanionandroid/domain/models/DayPrayersInfo.kt:15 | `Prayer.values().toList()` lists six prayers and none of them twice |
| Prayers.Ordinal | app/src/main/java/com/prayercompanion/prayercompanionandroid/domain/models/DayPrayersInfo.kt:15 | every prayer has a position below six in `Prayer.values()` and the enum value there is that prayer |
| Prayers.Following | app/src/main/java/com/prayercompanion/prayercompanionandroid/domain/models/DayPrayersInfo.kt:15 | the prayer after `p` (not Isha) is the one at the next position in canonical order |
| DayPrayers.Tags | app/src/main/java/com/prayercompanion/prayercompanionandroid/domain/models/DayPrayersInfo.kt:15 | `prayers.map { it.prayer }` has one tag per entry, the `i`-th being the `i`-th entry's prayer |
| DayPrayers.Find | app/src/main/java/com/prayercompanion/prayercompanionandroid/domain/models/DayPrayersInfo.kt:21 | `find`: the position returned is the first entry that matches; every entry before it fails to match; the length of the list means none matches |
| DayPrayers.DayPrayersInfo.Valid | app/src/main/java/com/prayercompanion/prayercompanionandroid/domain/models/DayPrayersInfo.kt:15 | the `require` condition holds exactly when there are six entries and the `i`-th carries the `i`-th enum value |
| DayPrayers.DayPrayersInfo.Get | app/src/main/java/com/prayercompanion/prayercompanionandroid/domain/models/DayPrayersInfo.kt:20-22 | `get` succeeds exactly when some entry carries the prayer, then returns the first such entry, whose tag is the prayer; otherwise it fails with "prayer not found" |
| DayPrayers.Make | app/src/main/java/com/prayercompanion/prayercompanionandroid/domain/models/DayPrayersInfo.kt:10-18 | construction succeeds exactly when there are six entries whose tags are the enum values in declaration order, and then keeps the list unchanged and is valid; otherwise it fails carrying the received tag list |
| DayPrayers.Default | app/src/main/java/com/prayercompanion/prayercompanionandroid/domain/models/DayPrayersInfo.kt:24-64 | `Default` passes the constructor's check, has six entries, every one at 00:00 of the date read when the companion value is first initialised, with status `None` and an empty status history |
| DayPrayers.ValidHasOneEntryPerPrayer | app/src/main/java/com/prayercompanion/prayercompanionandroid/domain/models/DayPrayersInfo.kt:14-18 | a valid schedule has six entries, the entry at each prayer's canonical position carries that prayer, and no two entries share a tag |
| DayPrayers.MakeRejectsDuplicate | app/src/main/java/com/prayercompanion/prayercompanionandroid/domain/models/DayPrayersInfo.kt:15 | a list in which two entries carry the same prayer is rejected with `WrongPrayers` |
| DayPrayers.MakeRejectsMissing | app/src/main/java/com/prayercompanion/prayercompanionandroid/domain/models/DayPrayersInfo.kt:15 | a list in which no entry carries some prayer is rejected with `WrongPrayers` |
| DayPrayers.MakeRejectsOutOfOrder | app/src/main/java/com/prayercompanion/prayercompanionandroid/domain/models/DayPrayersInfo.kt:15 | a list with two entries in reverse canonical order is rejected, even when it holds each prayer once |
| DayPrayers.EntryAtPosition | app/src/main/java/com/prayercompanion/prayercompanionandroid/domain/models/DayPrayersInfo.kt:15 | on a valid schedule the entry at position `i` carries the `i`-th prayer |
| DayPrayers.GetOnValid | app/src/main/java/com/prayercompanion/prayercompanionandroid/domain/models/DayPrayersInfo.kt:15-22 | on a valid schedule `get(p)` never throws and returns the entry at `p`'s canonical position, whose tag is `p` |
| NextPrayer.FirstLater | app/src/test/java/com/prayercompanion/prayercompanionandroid/domain/usecases/GetNextPrayerTest.kt:129-208 | the first position whose time is strictly later than now: every earlier entry is at or before now |
| NextPrayer.Resolve | app/src/test/java/com/prayercompanion/prayercompanionandroid/domain/usecases/GetNextPrayerTest.kt:33-216 | fails only when every prayer of today has passed and the fetch of tomorrow failed; a `Today` answer is a prayer strictly later than now with no earlier prayer later than now, and `get` returns it; a `Tomorrow` answer comes only when every prayer of today is at or before now and is tomorrow's Fajr |
| NextPrayer.BeforeFajr | app/src/test/java/com/prayercompanion/prayercompanionandroid/domain/usecases/GetNextPrayerTest.kt:33-44 | before Fajr's time the answer is today's Fajr |
| NextPrayer.FromPrayerUntilNext | app/src/test/java/com/prayercompanion/prayercompanionandroid/domain/usecases/GetNextPrayerTest.kt:46-195 | from a prayer's time, inclusive, until the next prayer's time, exclusive, the answer is the next prayer of today, on a schedule whose times do not go back |
| NextPrayer.AtPrayerTimeMovesOn | app/src/test/java/com/prayercompanion/prayercompanionandroid/domain/usecases/GetNextPrayerTest.kt:128-208 | at exactly a prayer's time the answer is never that prayer of today (strict comparison), whatever the order of the times |
| NextPrayer.AtOrAfterIsha | app/src/test/java/com/prayercompanion/prayercompanionandroid/domain/usecases/GetNextPrayerTest.kt:115-126 | at or after Isha's time (the exact-time case is lines 197-208) the answer is tomorrow's Fajr, or `ScheduleUnavailable` when the fetch failed |
| NextPrayer.TomorrowOnlyAfterLastPrayer | app/src/test/java/com/prayercompanion/prayercompanionandroid/domain/usecases/GetNextPrayerTest.kt:33-113 | while some prayer of today is later than now (the between-prayer tests, and the exact-time tests at lines 128-195) the answer is of today and does not depend on the fetch of tomorrow |
| NextPrayer.ResolveOnDefault | app/src/main/java/com/prayercompanion/prayercompanionandroid/domain/models/DayPrayersInfo.kt:24-64 | on `Default` the answer is always Fajr: today's before midnight, tomorrow's from midnight on |
| NextPrayer.SampleDay | app/src/test/java/com/prayercompanion/prayercompanionandroid/domain/usecases/GetNextPrayerTest.kt:33-126 | the sample schedule passes the constructor's check and its times do not go back |
| NextPrayer.TestSuiteScenarios | app/src/test/java/com/prayercompanion/prayercompanionandroid/domain/usecases/GetNextPrayerTest.kt:33-208 | all thirteen test expectations: the six between-prayer cases, after Isha, and the six exact-time cases, whose instants are read from the schedule as the tests do with `get(P).time` |

## Left out

- The `GetNextPrayer` implementation itself is not part of this model; the rule is modelled from its test suite.
- Calendar arithmetic, time zones and `LocalDate.now()`: date-times are integers, and `Default` takes as a parameter 00:00 of the date read when its companion value is first initialised.
- The repository fetch of tomorrow's schedule (I/O, location, coroutines): its outcome is an input of `Resolve`.
- `PrayerStatus` and the element type of the status history are defined in files that are not part of this model; `PrayerStatus` keeps `None` and carries the other statuses by name, and a history element is a status with a start and end timestamp.
- Resolve: an invalid schedule of today or tomorrow is excluded by its preconditions rather than answered with a "schedule invalid" error, because every `DayPrayersInfo` object has passed the `init` check, so that error cannot occur in the use case.
- Default: the model makes `Default` a function of that date, while the source fixes the date once per process (a `val` in a `companion object`), so in a running app it goes stale after midnight; `ResolveOnDefault` covers that stale case (the clock at or after `midnight`).
- Default: the six `LocalDate.now()` reads are one `midnight` parameter, so the model assumes all six reads see the same date (a read across midnight could in principle give entries on two dates).
- The constructor does not require the times to be in order, and neither does the model; the lemmas that need ordered times say so in their preconditions (`Chronological`).
- `Resolve` does not relate tomorrow's Fajr time to now: nothing in the use case's tests or in `DayPrayersInfo` ties the two schedules together.
- Everything outside the scheduling core: screens, navigation, sign-in, location services and lifecycle observers.
