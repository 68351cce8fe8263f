/** One calendar day's prayer schedule: the `DayPrayersInfo` data class.
    Date-times are abstract integer timestamps (larger is later). */
module DayPrayers {
  import opened Outcomes
  import opened Prayers

  /** The status a user records for a prayer. Only `None` appears in this
      model; the other statuses are carried by name. */
  datatype PrayerStatus = None | Recorded(name: string)

  /** One element of a prayer's status history: a status and the time range
      in which it applies. */
  datatype StatusWithTimeRange = StatusWithTimeRange(status: PrayerStatus, start: int, end: int)

  /** `PrayerInfo`: one prayer's entry in a day's schedule. */
  datatype PrayerInfo = PrayerInfo(
    prayer: Prayer,
    dateTime: int,
    selectedStatus: PrayerStatus,
    statusesWithTimeRanges: seq<StatusWithTimeRange>)

  /** The two ways the class fails: the `require` in `init` and the throw in `get`. */
  datatype ScheduleError =
    | WrongPrayers(tags: seq<Prayer>)  // "DayPrayersInfo created on wrong prayers [...]"
    | PrayerNotFound                   // "prayer not found"

  /** `prayers.map { it.prayer }`: the tag of every entry, in order. */
  function Tags(s: seq<PrayerInfo>): (tags: seq<Prayer>)
    ensures |tags| == |s|
    ensures forall i :: 0 <= i < |s| ==> tags[i] == s[i].prayer
  {
    if s == [] then [] else [s[0].prayer] + Tags(s[1..])
  }

  /** Kotlin's `find` as a position: the index of the first entry that
      `matches`, or `|s|` when there is none. */
  function Find(s: seq<PrayerInfo>, matches: PrayerInfo -> bool): (i: nat)
    ensures i <= |s|
    ensures forall j :: 0 <= j < i ==> !matches(s[j])
    ensures i < |s| ==> matches(s[i])
  {
    if s == [] then 0
    else if matches(s[0]) then 0
    else 1 + Find(s[1..], matches)
  }

  datatype DayPrayersInfo = DayPrayersInfo(prayers: seq<PrayerInfo>) {

    /** The `init` invariant: the tags are the enum values in declaration order. */
    predicate Valid()
      ensures Valid() <==>
                |prayers| == |AllPrayers()| &&
                forall i :: 0 <= i < |prayers| ==> prayers[i].prayer == AllPrayers()[i]
    {
      Tags(prayers) == AllPrayers()
    }

    /** `get(prayer)`: the first entry carrying the tag, or the "prayer not found" error. */
    function Get(p: Prayer): (r: Result<PrayerInfo, ScheduleError>)
      ensures r.Success? <==> exists i :: 0 <= i < |prayers| && prayers[i].prayer == p
      ensures r.Success? ==> r.value.prayer == p && r.value in prayers
      ensures r.Success? ==> exists i :: 0 <= i < |prayers| && prayers[i] == r.value &&
                               forall j :: 0 <= j < i ==> prayers[j].prayer != p
      ensures r.Failure? ==> r.error == PrayerNotFound
    {
      var i := Find(prayers, (e: PrayerInfo) => e.prayer == p);
      if i < |prayers| then Success(prayers[i]) else Failure(PrayerNotFound)
    }

    /** The entry at `p`'s position in canonical order. */
    function At(p: Prayer): PrayerInfo
      requires Valid()
    {
      prayers[Ordinal(p)]
    }

    /** Times never go backwards along canonical order. The constructor does
        not demand this (`Default` has six equal times). */
    predicate Chronological() {
      forall i, j :: 0 <= i <= j < |prayers| ==> prayers[i].dateTime <= prayers[j].dateTime
    }
  }

  /** The primary constructor with its `init` check. */
  function Make(prayers: seq<PrayerInfo>): (r: Result<DayPrayersInfo, ScheduleError>)
    ensures r.Success? <==>
              |prayers| == |AllPrayers()| &&
              forall i :: 0 <= i < |prayers| ==> prayers[i].prayer == AllPrayers()[i]
    ensures r.Success? ==> r.value.prayers == prayers && r.value.Valid()
    ensures r.Failure? ==> r.error.WrongPrayers? && |r.error.tags| == |prayers| &&
                           forall i :: 0 <= i < |prayers| ==> r.error.tags[i] == prayers[i].prayer
  {
    var tags := Tags(prayers);
    if tags == AllPrayers() then Success(DayPrayersInfo(prayers)) else Failure(WrongPrayers(tags))
  }

  /** The `Default` companion value. `midnight` is 00:00 of the date read by
      `LocalDate.now()` when the companion object is first initialised; that
      date then stays fixed for the life of the process. */
  function Default(midnight: int): (d: DayPrayersInfo)
    ensures Make(d.prayers) == Success(d)
    ensures |d.prayers| == |AllPrayers()|
    ensures forall i :: 0 <= i < |d.prayers| ==>
              d.prayers[i].dateTime == midnight &&
              d.prayers[i].selectedStatus == PrayerStatus.None &&
              d.prayers[i].statusesWithTimeRanges == []
  {
    DayPrayersInfo([
      PrayerInfo(Fajr, midnight, PrayerStatus.None, []),
      PrayerInfo(Duha, midnight, PrayerStatus.None, []),
      PrayerInfo(Dhuhr, midnight, PrayerStatus.None, []),
      PrayerInfo(Asr, midnight, PrayerStatus.None, []),
      PrayerInfo(Maghrib, midnight, PrayerStatus.None, []),
      PrayerInfo(Isha, midnight, PrayerStatus.None, [])])
  }

  /** A valid schedule holds exactly one entry per prayer. */
  lemma {:induction false} ValidHasOneEntryPerPrayer(d: DayPrayersInfo)
    requires d.Valid()
    ensures |d.prayers| == |AllPrayers()|
    ensures forall p: Prayer :: d.prayers[Ordinal(p)].prayer == p
    ensures forall i, j ::
              (0 <= i < |d.prayers| && 0 <= j < |d.prayers| && d.prayers[i].prayer == d.prayers[j].prayer) ==> i == j
  {
  }

  /** Two entries with the same tag are rejected, whatever the length. */
  lemma {:induction false} MakeRejectsDuplicate(prayers: seq<PrayerInfo>, i: nat, j: nat)
    requires i < j < |prayers| && prayers[i].prayer == prayers[j].prayer
    ensures Make(prayers) == Failure(WrongPrayers(Tags(prayers)))
  {
  }

  /** A prayer that no entry carries makes the constructor reject the list. */
  lemma {:induction false} MakeRejectsMissing(prayers: seq<PrayerInfo>, p: Prayer)
    requires forall i :: 0 <= i < |prayers| ==> prayers[i].prayer != p
    ensures Make(prayers) == Failure(WrongPrayers(Tags(prayers)))
  {
    if |prayers| == |AllPrayers()| {
      assert prayers[Ordinal(p)].prayer != AllPrayers()[Ordinal(p)];
    }
  }

  /** Two entries out of canonical order make the constructor reject the list,
      even when every prayer is present exactly once. */
  lemma {:induction false} MakeRejectsOutOfOrder(prayers: seq<PrayerInfo>, i: nat, j: nat)
    requires i < j < |prayers| && Ordinal(prayers[i].prayer) > Ordinal(prayers[j].prayer)
    ensures Make(prayers) == Failure(WrongPrayers(Tags(prayers)))
  {
  }

  /** On a valid schedule the entry at position `i` carries the `i`-th prayer,
      and it is the entry `At` that prayer. */
  lemma EntryAtPosition(d: DayPrayersInfo, i: nat)
    requires d.Valid() && i < |d.prayers|
    ensures Ordinal(d.prayers[i].prayer) == i
    ensures d.At(d.prayers[i].prayer) == d.prayers[i]
  {
  }

  /** On a valid schedule `get` never throws and returns the entry at the
      prayer's canonical position. */
  lemma {:induction false} GetOnValid(d: DayPrayersInfo, p: Prayer)
    requires d.Valid()
    ensures d.Get(p) == Success(d.At(p))
    ensures d.At(p).prayer == p
  {
  }

}
