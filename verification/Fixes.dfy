/** A GPS fix and the merge `|=` that fuses the sentences of one update interval. */
module Fixes {

  datatype Flags = Flags(status: bool, date: bool, time: bool, location: bool, altitude: bool,
                         speed: bool, heading: bool, satellites: bool)
  {
    /** `valid |= r.valid`, which the source does byte by byte. */
    function Or(r: Flags): Flags {
      Flags(status || r.status, date || r.date, time || r.time, location || r.location,
            altitude || r.altitude, speed || r.speed, heading || r.heading, satellites || r.satellites)
    }
  }

  const NOTHING := Flags(false, false, false, false, false, false, false, false)

  datatype Date = Date(date: int, month: int, year: int)
  datatype Clock = Clock(hours: int, minutes: int, seconds: int, centiseconds: int)
  datatype Place = Place(lat: int, lon: int)
  datatype Decimal = Decimal(whole: int, frac: int)

  /** The members this build configures. `status` is the ordinal of the enumeration, which is sorted
      by accuracy. A member keeps its value when its flag is off. */
  datatype Fix = Fix(valid: Flags, status: nat, date: Date, weekday: int, time: Clock, location: Place,
                     altitude: Decimal, speed: Decimal, heading: Decimal, satellites: int)

  /** What `gps_fix::init` leaves: no flag set, everything zero, the date at the epoch (a Saturday). */
  const EMPTY := Fix(NOTHING, 0, Date(1, 1, 0), 7, Clock(0, 0, 0, 0), Place(0, 0),
                     Decimal(0, 0), Decimal(0, 0), Decimal(0, 0), 0)

  /** `l |= r`. The weekday inside the date structure is never copied. */
  function Merge(l: Fix, r: Fix): Fix {
    Fix(l.valid.Or(r.valid),
        if r.valid.status && (!l.valid.status || l.status < r.status) then r.status else l.status,
        if r.valid.date then r.date else l.date,
        l.weekday,
        if r.valid.time then r.time else l.time,
        if r.valid.location then r.location else l.location,
        if r.valid.altitude then r.altitude else l.altitude,
        if r.valid.speed then r.speed else l.speed,
        if r.valid.heading then r.heading else l.heading,
        if r.valid.satellites then r.satellites else l.satellites)
  }

  /** Left to right, from a slot that holds `start`. */
  function MergeAll(start: Fix, fs: seq<Fix>): Fix {
    if fs == [] then start else Merge(MergeAll(start, fs[..|fs| - 1]), fs[|fs| - 1])
  }

  /** Grouping does not matter. */
  lemma MergeAssociative(a: Fix, b: Fix, c: Fix)
    ensures Merge(Merge(a, b), c) == Merge(a, Merge(b, c))
  {}

  lemma {:induction false} MergeAllGroups(start: Fix, first: Fix, fs: seq<Fix>)
    ensures MergeAll(start, [first] + fs) == Merge(start, MergeAll(first, fs))
    decreases |fs|
  {
    var all := [first] + fs;
    if fs == [] {
      assert all[..0] == [];
    } else {
      var front := fs[..|fs| - 1];
      assert all[..|all| - 1] == [first] + front;
      MergeAllGroups(start, first, front);
      MergeAssociative(start, MergeAll(first, front), fs[|fs| - 1]);
    }
  }

  /** The value a member ends with when the last sentence that reports it wins. */
  function LastReported<T>(fs: seq<Fix>, has: Fix -> bool, get: Fix -> T, none: T): T {
    if fs == [] then none
    else if has(fs[|fs| - 1]) then get(fs[|fs| - 1])
    else LastReported(fs[..|fs| - 1], has, get, none)
  }

  /** The best status reported, if any is. */
  function BestStatus(fs: seq<Fix>): nat {
    if fs == [] then 0
    else
      var (rest, f) := (BestStatus(fs[..|fs| - 1]), fs[|fs| - 1]);
      if f.valid.status && f.status > rest then f.status else rest
  }

  /** What a merged interval means: every member is the last one reported; the status is the most
      accurate one reported (MergeAllStatus); a flag is set exactly when some sentence sets it
      (MergeAllFlags). */
  lemma {:induction false} MergeAllMeaning(fs: seq<Fix>)
    ensures var m := MergeAll(EMPTY, fs);
            && m.date == LastReported(fs, (f: Fix) => f.valid.date, (f: Fix) => f.date, EMPTY.date)
            && m.time == LastReported(fs, (f: Fix) => f.valid.time, (f: Fix) => f.time, EMPTY.time)
            && m.location == LastReported(fs, (f: Fix) => f.valid.location, (f: Fix) => f.location, EMPTY.location)
            && m.altitude == LastReported(fs, (f: Fix) => f.valid.altitude, (f: Fix) => f.altitude, EMPTY.altitude)
            && m.speed == LastReported(fs, (f: Fix) => f.valid.speed, (f: Fix) => f.speed, EMPTY.speed)
            && m.heading == LastReported(fs, (f: Fix) => f.valid.heading, (f: Fix) => f.heading, EMPTY.heading)
            && m.satellites ==
               LastReported(fs, (f: Fix) => f.valid.satellites, (f: Fix) => f.satellites, EMPTY.satellites)
  {
    if fs != [] {
      MergeAllMeaning(fs[..|fs| - 1]);
    }
  }

  function Reported(fs: seq<Fix>, has: Fix -> bool): bool {
    fs != [] && (has(fs[|fs| - 1]) || Reported(fs[..|fs| - 1], has))
  }

  lemma {:induction false} MergeAllStatus(fs: seq<Fix>)
    ensures var m := MergeAll(EMPTY, fs);
            m.status == BestStatus(fs) && (!m.valid.status ==> m.status == 0)
  {
    if fs != [] {
      MergeAllStatus(fs[..|fs| - 1]);
    }
  }

  lemma {:induction false} MergeAllFlags(fs: seq<Fix>)
    ensures MergeAll(EMPTY, fs).valid ==
            Flags(Reported(fs, (f: Fix) => f.valid.status), Reported(fs, (f: Fix) => f.valid.date),
                  Reported(fs, (f: Fix) => f.valid.time), Reported(fs, (f: Fix) => f.valid.location),
                  Reported(fs, (f: Fix) => f.valid.altitude), Reported(fs, (f: Fix) => f.valid.speed),
                  Reported(fs, (f: Fix) => f.valid.heading), Reported(fs, (f: Fix) => f.valid.satellites))
  {
    if fs != [] {
      MergeAllFlags(fs[..|fs| - 1]);
    }
  }
}
