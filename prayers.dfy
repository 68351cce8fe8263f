/** The six daily prayers, in the declaration order of the `Prayer` enum.
    That order is both the display order and the chronological order within
    one day; `Prayer.values().toList()` is `AllPrayers` below. */
module Prayers {

  datatype Prayer = Fajr | Duha | Dhuhr | Asr | Maghrib | Isha

  /** `Prayer.values().toList()`: the six prayers in canonical order, none
      twice (`Ordinal` gives each prayer's place in it). */
  function AllPrayers(): (all: seq<Prayer>)
    ensures |all| == 6
    ensures forall i, j :: 0 <= i < j < |all| ==> all[i] != all[j]
  {
    [Fajr, Duha, Dhuhr, Asr, Maghrib, Isha]
  }

  /** The position of a prayer in canonical order (its enum ordinal). */
  function Ordinal(p: Prayer): (n: nat)
    ensures n < |AllPrayers()| && AllPrayers()[n] == p
  {
    match p
    case Fajr => 0
    case Duha => 1
    case Dhuhr => 2
    case Asr => 3
    case Maghrib => 4
    case Isha => 5
  }

  /** The prayer that comes right after `p` on the same day; Isha has none. */
  function Following(p: Prayer): (q: Prayer)
    requires p != Isha
    ensures Ordinal(q) == Ordinal(p) + 1
  {
    match p
    case Fajr => Duha
    case Duha => Dhuhr
    case Dhuhr => Asr
    case Asr => Maghrib
    case Maghrib => Isha
  }

}
