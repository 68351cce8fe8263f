/** The next-prayer rule of the `GetNextPrayer` use case: the first prayer of
    today's schedule whose time is strictly later than the clock's instant,
    or else the Fajr of tomorrow's schedule. */
module NextPrayer {
  import opened Outcomes
  import opened Prayers
  import opened DayPrayers

  /** An injected clock frozen at one instant (`Clock.fixed`). */
  datatype Clock = Fixed(instant: int)

  /** Which day's schedule the resolved prayer belongs to. */
  datatype Day = Today | Tomorrow

  datatype NextPrayerResult = NextPrayerResult(prayer: Prayer, dateTime: int, day: Day)

  /** Fetching tomorrow's schedule failed; the provider's reason is kept. */
  datatype ResolutionError = ScheduleUnavailable(reason: string)

  /** The position of the first entry strictly later than `now`, or the
      schedule's length when every entry is at or before `now`. */
  function FirstLater(s: seq<PrayerInfo>, now: int): (i: nat)
    ensures i <= |s|
    ensures forall j :: 0 <= j < i ==> s[j].dateTime <= now
    ensures i < |s| ==> s[i].dateTime > now
  {
    Find(s, (e: PrayerInfo) => e.dateTime > now)
  }

  /** `GetNextPrayer.call`. `tomorrow` is the outcome of fetching the next
      day's schedule, consulted only when every prayer of today has passed. */
  function Resolve(today: DayPrayersInfo, tomorrow: Result<DayPrayersInfo, string>, clock: Clock)
    : (r: Result<NextPrayerResult, ResolutionError>)
    requires today.Valid()
    requires tomorrow.Success? ==> tomorrow.value.Valid()
    // It fails only when the fetch was needed and failed.
    ensures r.Success? <==>
              tomorrow.Success? || exists j :: 0 <= j < |today.prayers| && today.prayers[j].dateTime > clock.instant
    ensures r.Failure? ==> tomorrow.Failure? && r.error == ScheduleUnavailable(tomorrow.error)
    // A prayer of today: strictly later than now, and no earlier prayer is.
    ensures r.Success? && r.value.day == Today ==>
              today.Get(r.value.prayer) == Success(today.At(r.value.prayer)) &&
              r.value.dateTime == today.At(r.value.prayer).dateTime > clock.instant &&
              forall j :: 0 <= j < Ordinal(r.value.prayer) ==> today.prayers[j].dateTime <= clock.instant
    // Otherwise every prayer of today is at or before now, and the answer is tomorrow's Fajr.
    ensures r.Success? && r.value.day == Tomorrow ==>
              (forall j :: 0 <= j < |today.prayers| ==> today.prayers[j].dateTime <= clock.instant) &&
              tomorrow.Success? && r.value.prayer == Fajr &&
              tomorrow.value.Get(Fajr) == Success(tomorrow.value.At(Fajr)) &&
              r.value.dateTime == tomorrow.value.At(Fajr).dateTime
  {
    var i := FirstLater(today.prayers, clock.instant);
    if i < |today.prayers| then
      var entry := today.prayers[i];
      EntryAtPosition(today, i);
      GetOnValid(today, entry.prayer);
      Success(NextPrayerResult(entry.prayer, entry.dateTime, Today))
    else
      match tomorrow
      case Failure(reason) => Failure(ScheduleUnavailable(reason))
      case Success(next) =>
        GetOnValid(next, Fajr);
        Success(NextPrayerResult(Fajr, next.At(Fajr).dateTime, Tomorrow))
  }

  /** Before Fajr's time the answer is today's Fajr. */
  lemma BeforeFajr(today: DayPrayersInfo, tomorrow: Result<DayPrayersInfo, string>, clock: Clock)
    requires today.Valid()
    requires tomorrow.Success? ==> tomorrow.value.Valid()
    requires clock.instant < today.At(Fajr).dateTime
    ensures Resolve(today, tomorrow, clock) == Success(NextPrayerResult(Fajr, today.At(Fajr).dateTime, Today))
  {
  }

  /** From a prayer's time (inclusive) up to the next prayer's time (exclusive)
      the answer is the next prayer, on a schedule whose times do not go back. */
  lemma {:induction false} FromPrayerUntilNext(
    today: DayPrayersInfo, tomorrow: Result<DayPrayersInfo, string>, clock: Clock, p: Prayer)
    requires today.Valid() && today.Chronological()
    requires tomorrow.Success? ==> tomorrow.value.Valid()
    requires p != Isha
    requires today.At(p).dateTime <= clock.instant < today.At(Following(p)).dateTime
    ensures Resolve(today, tomorrow, clock) ==
              Success(NextPrayerResult(Following(p), today.At(Following(p)).dateTime, Today))
  {
  }

  /** At exactly a prayer's time the answer is never that prayer of today:
      the comparison is strict. No ordering of the times is needed. */
  lemma {:induction false} AtPrayerTimeMovesOn(
    today: DayPrayersInfo, tomorrow: Result<DayPrayersInfo, string>, clock: Clock, p: Prayer)
    requires today.Valid()
    requires tomorrow.Success? ==> tomorrow.value.Valid()
    requires clock.instant == today.At(p).dateTime
    ensures Resolve(today, tomorrow, clock).Success? && Resolve(today, tomorrow, clock).value.day == Today ==>
              Resolve(today, tomorrow, clock).value.prayer != p
  {
  }

  /** At or after Isha's time, on a schedule whose times do not go back, the
      answer is tomorrow's Fajr, or the fetch error. */
  lemma {:induction false} AtOrAfterIsha(
    today: DayPrayersInfo, tomorrow: Result<DayPrayersInfo, string>, clock: Clock)
    requires today.Valid() && today.Chronological()
    requires tomorrow.Success? ==> tomorrow.value.Valid()
    requires clock.instant >= today.At(Isha).dateTime
    ensures Resolve(today, tomorrow, clock) ==
              match tomorrow
              case Success(next) => Success(NextPrayerResult(Fajr, next.At(Fajr).dateTime, Tomorrow))
              case Failure(reason) => Failure(ScheduleUnavailable(reason))
  {
  }

  /** Tomorrow's schedule matters only when every prayer of today has passed:
      otherwise two different fetch outcomes give the same answer. */
  lemma {:induction false} TomorrowOnlyAfterLastPrayer(
    today: DayPrayersInfo, t1: Result<DayPrayersInfo, string>, t2: Result<DayPrayersInfo, string>,
    clock: Clock, p: Prayer)
    requires today.Valid()
    requires t1.Success? ==> t1.value.Valid()
    requires t2.Success? ==> t2.value.Valid()
    requires today.At(p).dateTime > clock.instant
    ensures Resolve(today, t1, clock) == Resolve(today, t2, clock)
    ensures Resolve(today, t1, clock).Success? && Resolve(today, t1, clock).value.day == Today
  {
  }

  /** On `Default` (every prayer at `midnight`) the answer is today's Fajr before
      `midnight` and tomorrow's Fajr from `midnight` on; Duha to Isha never come
      up. Once a running process has passed the following midnight, `Default`
      still holds the earlier date, so the clock is always at or after
      `midnight`: the second case, tomorrow's Fajr or `ScheduleUnavailable`. */
  lemma {:induction false} ResolveOnDefault(
    midnight: int, tomorrow: Result<DayPrayersInfo, string>, clock: Clock)
    requires tomorrow.Success? ==> tomorrow.value.Valid()
    ensures Default(midnight).Valid()
    ensures var r := Resolve(Default(midnight), tomorrow, clock);
            r.Success? ==> r.value.prayer == Fajr && (r.value.day == Today <==> clock.instant < midnight)
  {
  }

  /** A schedule whose times, in minutes after `midnight`, agree with every
      expectation of the use case's test suite: Fajr 04:00, Duha 06:00,
      Dhuhr 12:00, Asr 15:00, Maghrib 18:00, Isha 19:30. */
  function SampleDay(midnight: int): (d: DayPrayersInfo)
    ensures d.Valid() && d.Chronological()
  {
    DayPrayersInfo([
      PrayerInfo(Fajr, midnight + 240, PrayerStatus.None, []),
      PrayerInfo(Duha, midnight + 360, PrayerStatus.None, []),
      PrayerInfo(Dhuhr, midnight + 720, PrayerStatus.None, []),
      PrayerInfo(Asr, midnight + 900, PrayerStatus.None, []),
      PrayerInfo(Maghrib, midnight + 1080, PrayerStatus.None, []),
      PrayerInfo(Isha, midnight + 1170, PrayerStatus.None, [])])
  }

  /** The use case's test cases, on `SampleDay(0)` with tomorrow `SampleDay(1440)`:
      between prayers, at each prayer's exact time, and after Isha. */
  lemma {:induction false} TestSuiteScenarios()
    ensures var today, tomorrow := SampleDay(0), Success(SampleDay(1440));
      && Resolve(today, tomorrow, Fixed(120)) == Success(NextPrayerResult(Fajr, 240, Today))
      && Resolve(today, tomorrow, Fixed(330)) == Success(NextPrayerResult(Duha, 360, Today))
      && Resolve(today, tomorrow, Fixed(450)) == Success(NextPrayerResult(Dhuhr, 720, Today))
      && Resolve(today, tomorrow, Fixed(750)) == Success(NextPrayerResult(Asr, 900, Today))
      && Resolve(today, tomorrow, Fixed(930)) == Success(NextPrayerResult(Maghrib, 1080, Today))
      && Resolve(today, tomorrow, Fixed(1110)) == Success(NextPrayerResult(Isha, 1170, Today))
      && Resolve(today, tomorrow, Fixed(1230)) == Success(NextPrayerResult(Fajr, 1680, Tomorrow))
      && Resolve(today, tomorrow, Fixed(today.At(Fajr).dateTime)) == Success(NextPrayerResult(Duha, 360, Today))
      && Resolve(today, tomorrow, Fixed(today.At(Duha).dateTime)) == Success(NextPrayerResult(Dhuhr, 720, Today))
      && Resolve(today, tomorrow, Fixed(today.At(Dhuhr).dateTime)) == Success(NextPrayerResult(Asr, 900, Today))
      && Resolve(today, tomorrow, Fixed(today.At(Asr).dateTime)) == Success(NextPrayerResult(Maghrib, 1080, Today))
      && Resolve(today, tomorrow, Fixed(today.At(Maghrib).dateTime)) == Success(NextPrayerResult(Isha, 1170, Today))
      && Resolve(today, tomorrow, Fixed(today.At(Isha).dateTime)) == Success(NextPrayerResult(Fajr, 1680, Tomorrow))
  {
    var today: DayPrayersInfo, tomorrow: Result<DayPrayersInfo, string> := SampleDay(0), Success(SampleDay(1440));
    BeforeFajr(today, tomorrow, Fixed(120));
    FromPrayerUntilNext(today, tomorrow, Fixed(330), Fajr);
    FromPrayerUntilNext(today, tomorrow, Fixed(450), Duha);
    FromPrayerUntilNext(today, tomorrow, Fixed(750), Dhuhr);
    FromPrayerUntilNext(today, tomorrow, Fixed(930), Asr);
    FromPrayerUntilNext(today, tomorrow, Fixed(1110), Maghrib);
    AtOrAfterIsha(today, tomorrow, Fixed(1230));
    FromPrayerUntilNext(today, tomorrow, Fixed(today.At(Fajr).dateTime), Fajr);
    FromPrayerUntilNext(today, tomorrow, Fixed(today.At(Duha).dateTime), Duha);
    FromPrayerUntilNext(today, tomorrow, Fixed(today.At(Dhuhr).dateTime), Dhuhr);
    FromPrayerUntilNext(today, tomorrow, Fixed(today.At(Asr).dateTime), Asr);
    FromPrayerUntilNext(today, tomorrow, Fixed(today.At(Maghrib).dateTime), Maghrib);
    AtOrAfterIsha(today, tomorrow, Fixed(today.At(Isha).dateTime));
  }

}
