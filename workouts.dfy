/**
 * The workout entities: the base `Workout` fields (id, date, distance,
 * duration, coordinates, type, description) and the two variants, Running
 * (cadence, pace) and Cycling (elevation gain, speed). An entity is never
 * changed after construction, so it is a value here; each class constructor
 * of the source is a function building that value.
 */
module Workouts {
  import opened Numbers
  import opened Decimal

  /** A map position `[lat, lng]`. */
  datatype LatLng = LatLng(lat: real, lng: real)

  /** `Date.getMonth()`: 0 for January up to 11 for December. */
  type MonthIndex = m: int | 0 <= m < 12

  /** `Date.getDate()`: the day of the month. */
  type DayOfMonth = d: int | 1 <= d <= 31 witness 1

  /** The local calendar date of creation, as the description reads it. */
  datatype CalendarDate = CalendarDate(month: MonthIndex, day: DayOfMonth)

  /** The fixed English month table of `_setDescription`. */
  const Months: seq<string> := [
    "January", "February", "March", "April", "May", "June",
    "July", "August", "September", "October", "November", "December"
  ]

  /** The workout types the constructors store. */
  predicate IsWorkoutType(t: string) {
    t == "running" || t == "cycling"
  }

  datatype Workout =
    | Running(id: string, date: CalendarDate, distance: Num, duration: Num,
              coords: LatLng, description: string, cadence: Num, pace: Num)
    | Cycling(id: string, date: CalendarDate, distance: Num, duration: Num,
              coords: LatLng, description: string, elevationGain: Num, speed: Num)
  {
    /** The `type` field: fixed by the variant's constructor. */
    function Type(): (t: string)
      ensures IsWorkoutType(t)
      ensures Running? <==> t == "running"
    {
      if Running? then "running" else "cycling"
    }
  }

  /** `String.prototype.toUpperCase` on one character, for ASCII letters. */
  function UpperAscii(c: char): (u: char)
    ensures 'a' <= c <= 'z' ==> 'A' <= u <= 'Z' && u as int - 'A' as int == c as int - 'a' as int
    ensures !('a' <= c <= 'z') ==> u == c
  {
    if 'a' <= c <= 'z' then (c as int - 32) as char else c
  }

  /**
   * `s[0].toUpperCase() + s.slice(1)`. For an empty string `s[0]` is
   * `undefined`, and calling `toUpperCase` on it throws a TypeError.
   */
  function Capitalize(s: string): (r: string)
    requires |s| > 0
    ensures |r| == |s| && r[1..] == s[1..]
    ensures 'a' <= s[0] <= 'z' ==> 'A' <= r[0] <= 'Z' && r[0] as int - 'A' as int == s[0] as int - 'a' as int
    ensures !('a' <= r[0] <= 'z')
    ensures !('a' <= s[0] <= 'z') ==> r == s
  {
    [UpperAscii(s[0])] + s[1..]
  }

  /** `_setDescription`: "<Type> on <Month> <day>". */
  function Describe(workoutType: string, date: CalendarDate): (d: string)
    requires |workoutType| > 0
    ensures |d| > |workoutType| + 4
    ensures d[..|workoutType|] == Capitalize(workoutType)
    ensures d[|workoutType|..|workoutType| + 4] == " on "
    ensures d[|workoutType| + 4..] == Months[date.month] + " " + NatToString(date.day)
  {
    Capitalize(workoutType) + " on " + Months[date.month] + " " + NatToString(date.day)
  }

  /** JavaScript's `s.slice(-k)` for `k > 0`: at most the last `k` characters. */
  function SliceFromEnd(s: string, k: nat): (r: string)
    requires k > 0
    ensures |r| == if |s| < k then |s| else k
    ensures s == s[..|s| - |r|] + r
  {
    if |s| <= k then s else TakeLast(s, k)
  }

  /** `(Date.now() + "").slice(-10)` for the creation timestamp `now`. */
  function IdOf(now: nat): (id: string)
    ensures 1 <= |id| <= 10 && AllDigits(id)
    ensures |id| == if |NatToString(now)| < 10 then |NatToString(now)| else 10
  {
    SliceFromEnd(NatToString(now), 10)
  }

  /** The `Running` constructor, including its `super` call and `_calcPace`. */
  function NewRunning(distance: Num, duration: Num, coords: LatLng, cadence: Num,
                      date: CalendarDate, now: nat): (w: Workout)
    ensures w.Running? && w.Type() == "running"
    ensures w.distance == distance && w.duration == duration && w.coords == coords
    ensures w.cadence == cadence && w.date == date && w.id == IdOf(now)
    ensures w.description == Describe("running", date)
    ensures w.pace == Divide(duration, distance)
    ensures IsFinitePositive(distance) && IsFinitePositive(duration) ==>
              IsFinitePositive(w.pace) && w.pace.r * distance.r == duration.r
  {
    Running(IdOf(now), date, distance, duration, coords, Describe("running", date),
            cadence, Divide(duration, distance))
  }

  /** The `Cycling` constructor, including its `super` call and `_calcSpeed`. */
  function NewCycling(distance: Num, duration: Num, coords: LatLng, elevationGain: Num,
                      date: CalendarDate, now: nat): (w: Workout)
    ensures w.Cycling? && w.Type() == "cycling"
    ensures w.distance == distance && w.duration == duration && w.coords == coords
    ensures w.elevationGain == elevationGain && w.date == date && w.id == IdOf(now)
    ensures w.description == Describe("cycling", date)
    ensures w.speed == Divide(distance, Divide(duration, Finite(60.0)))
    ensures IsFinitePositive(distance) && IsFinitePositive(duration) ==>
              IsFinitePositive(w.speed) && w.speed.r * duration.r == 60.0 * distance.r
  {
    var hours := Divide(duration, Finite(60.0));
    Cycling(IdOf(now), date, distance, duration, coords, Describe("cycling", date),
            elevationGain, Divide(distance, hours))
  }

  /**
   * What a workout that passed the form's checks looks like: positive finite
   * distance and duration, the variant's extra field checked as the form
   * checks it, the derived metric consistent with the base fields, and the
   * description derived from the type and date.
   */
  ghost predicate WellFormed(w: Workout) {
    && IsFinitePositive(w.distance) && IsFinitePositive(w.duration)
    && 1 <= |w.id| <= 10 && AllDigits(w.id)
    && w.description == Describe(w.Type(), w.date)
    && (w.Running? ==>
          IsFinitePositive(w.cadence) && IsFinitePositive(w.pace)
          && w.pace.r * w.distance.r == w.duration.r)
    && (w.Cycling? ==>
          w.elevationGain.Finite? && IsFinitePositive(w.speed)
          && w.speed.r * w.duration.r == 60.0 * w.distance.r)
  }

  /** A run built from positive finite inputs is well-formed. */
  lemma RunningWellFormed(distance: Num, duration: Num, coords: LatLng, cadence: Num,
                          date: CalendarDate, now: nat)
    requires IsFinitePositive(distance) && IsFinitePositive(duration) && IsFinitePositive(cadence)
    ensures WellFormed(NewRunning(distance, duration, coords, cadence, date, now))
  {
    var w := NewRunning(distance, duration, coords, cadence, date, now);
    assert w.Type() == "running" && w.description == Describe("running", date);
    assert IsFinitePositive(w.pace) && w.pace.r * w.distance.r == w.duration.r;
  }

  /** A ride built from positive finite distance and duration and a finite elevation gain is well-formed. */
  lemma CyclingWellFormed(distance: Num, duration: Num, coords: LatLng, elevationGain: Num,
                          date: CalendarDate, now: nat)
    requires IsFinitePositive(distance) && IsFinitePositive(duration) && elevationGain.Finite?
    ensures WellFormed(NewCycling(distance, duration, coords, elevationGain, date, now))
  {
    var w := NewCycling(distance, duration, coords, elevationGain, date, now);
    assert w.Type() == "cycling" && w.description == Describe("cycling", date);
    assert IsFinitePositive(w.speed) && w.speed.r * w.duration.r == 60.0 * w.distance.r;
  }

  /** A 5 km run over 30 minutes has a pace of 6 min/km. */
  lemma RunningPaceExample(coords: LatLng, cadence: Num, date: CalendarDate, now: nat)
    ensures NewRunning(Finite(5.0), Finite(30.0), coords, cadence, date, now).pace == Finite(6.0)
  {
  }

  /** A 20 km ride over 60 minutes has a speed of 20 km/h. */
  lemma CyclingSpeedExample(coords: LatLng, elevationGain: Num, date: CalendarDate, now: nat)
    ensures NewCycling(Finite(20.0), Finite(60.0), coords, elevationGain, date, now).speed == Finite(20.0)
  {
  }

  /** A run logged on 15 October is described as "Running on October 15". */
  lemma DescriptionExample()
    ensures Describe("running", CalendarDate(9, 15)) == "Running on October 15"
  {
  }

  // ---------------------------------------------------------------------------
  // Description

  /** The description starts with the capitalised type followed by " on ". */
  lemma DescriptionPrefix(t: string, date: CalendarDate)
    requires IsWorkoutType(t)
    ensures |Describe(t, date)| > 11
    ensures Describe(t, date)[..11] == (if t == "running" then "Running on " else "Cycling on ")
    ensures Describe(t, date)[11..] == Months[date.month] + " " + NatToString(date.day)
  {
  }

  lemma MonthNamesDistinct(i: MonthIndex, j: MonthIndex)
    requires Months[i] == Months[j]
    ensures i == j
  {
  }

  lemma MonthNamesHaveNoSpace(m: MonthIndex)
    ensures ' ' !in Months[m]
  {
  }

  /** A separator that occurs in neither head splits both strings the same way. */
  lemma {:induction false} SplitAtSeparator(a1: string, b1: string, a2: string, b2: string, sep: char)
    requires sep !in a1 && sep !in a2
    requires a1 + [sep] + b1 == a2 + [sep] + b2
    ensures a1 == a2 && b1 == b2
  {
    var s := a1 + [sep] + b1;
    assert s[|a1|] == sep && s[|a2|] == sep;
    if |a1| < |a2| {
      assert false;  // s[|a1|] is a character of a2
    } else if |a2| < |a1| {
      assert false;  // s[|a2|] is a character of a1
    }
    assert a1 == s[..|a1|] == a2;
    assert b1 == s[|a1| + 1..] == b2;
  }

  /** A description determines the workout type, the month and the day. */
  lemma DescriptionInjective(t1: string, d1: CalendarDate, t2: string, d2: CalendarDate)
    requires IsWorkoutType(t1) && IsWorkoutType(t2)
    requires Describe(t1, d1) == Describe(t2, d2)
    ensures t1 == t2 && d1 == d2
  {
    DescriptionPrefix(t1, d1);
    DescriptionPrefix(t2, d2);
    var s := Describe(t1, d1);
    assert s[0] == (if t1 == "running" then 'R' else 'C');
    assert s[0] == (if t2 == "running" then 'R' else 'C');
    MonthNamesHaveNoSpace(d1.month);
    MonthNamesHaveNoSpace(d2.month);
    SplitAtSeparator(Months[d1.month], NatToString(d1.day), Months[d2.month], NatToString(d2.day), ' ');
    MonthNamesDistinct(d1.month, d2.month);
    NatToStringInjective(d1.day, d2.day);
  }

  // ---------------------------------------------------------------------------
  // Identifier

  /** The id's digits denote the timestamp modulo 10^10. */
  lemma IdValue(now: nat)
    ensures DigitsToNat(IdOf(now)) == now % Pow10(10)
  {
    var s := NatToString(now);
    if |s| <= 10 {
      assert IdOf(now) == s;
      DigitsOfNatToString(now);
      Pow10Monotone(|s|, 10);
      ModUnique(now, Pow10(10), 0, now);
    } else {
      assert IdOf(now) == TakeLast(s, 10);
      TakeLastValue(now, 10);
    }
  }

  /** Timestamps that differ modulo 10^10 get different ids. */
  lemma IdsDiffer(t1: nat, t2: nat)
    requires t1 % Pow10(10) != t2 % Pow10(10)
    ensures IdOf(t1) != IdOf(t2)
  {
    IdValue(t1);
    IdValue(t2);
  }

  /** A timestamp of at least 10^9 renders to at least ten digits. */
  lemma TenDigits(n: nat)
    requires n >= Pow10(9)
    ensures |NatToString(n)| >= 10
  {
    if |NatToString(n)| < 10 {
      Pow10Monotone(|NatToString(n)|, 9);
    }
  }

  /** Adding a multiple of `m` does not change the remainder modulo `m`. */
  lemma ModAddMultiple(n: nat, m: nat)
    requires m > 0
    ensures (n + m) % m == n % m
  {
    ModUnique(n + m, m, n / m + 1, n % m);
  }

  /**
   * Once the timestamp has ten digits, a timestamp 10^10 ms (about 115 days)
   * later gets the same id: the id alone does not identify a workout.
   */
  lemma IdRepeats(now: nat)
    requires now >= Pow10(9)
    ensures IdOf(now) == IdOf(now + Pow10(10))
  {
    var p := Pow10(10);
    var later := now + p;
    var id1, id2 := IdOf(now), IdOf(later);
    TenDigits(now);
    TenDigits(later);
    assert |id1| == 10 && |id2| == 10;
    IdValue(now);
    IdValue(later);
    ModAddMultiple(now, p);
    assert DigitsToNat(id1) == DigitsToNat(id2);
    DigitsInjective(id1, id2);
  }

  /** Timestamps less than `m` apart have different remainders modulo `m`. */
  lemma ModDiffer(a: nat, b: nat, m: nat)
    requires m > 0 && a < b < a + m
    ensures a % m != b % m
  {
    var q, r := a / m, a % m;
    var gap := b - a;
    if r + gap < m {
      ModUnique(b, m, q, r + gap);
    } else {
      assert m * (q + 1) == m * q + m;
      ModUnique(b, m, q + 1, r + gap - m);
    }
  }

  /**
   * Workouts created at strictly increasing timestamps that all lie within
   * one span of 10^10 ms carry pairwise distinct ids.
   */
  lemma IdsDistinctWithinWindow(ws: seq<Workout>, stamps: seq<nat>)
    requires |ws| == |stamps|
    requires forall i | 0 <= i < |ws| :: ws[i].id == IdOf(stamps[i])
    requires forall i, j | 0 <= i < j < |stamps| :: stamps[i] < stamps[j]
    requires |stamps| > 0 ==> stamps[|stamps| - 1] < stamps[0] + Pow10(10)
    ensures forall i, j | 0 <= i < j < |ws| :: ws[i].id != ws[j].id
  {
    if |stamps| > 0 {
      var first, last := stamps[0], stamps[|stamps| - 1];
      WindowBounds(stamps);
      forall i, j | 0 <= i < j < |ws|
        ensures ws[i].id != ws[j].id
      {
        IdsDistinctPair(first, stamps[i], stamps[j], last);
      }
    }
  }

  /** In an increasing sequence every element lies between the first and the last. */
  lemma WindowBounds(stamps: seq<nat>)
    requires |stamps| > 0
    requires forall i, j | 0 <= i < j < |stamps| :: stamps[i] < stamps[j]
    ensures forall i | 0 <= i < |stamps| :: stamps[0] <= stamps[i] <= stamps[|stamps| - 1]
  {
    forall i | 0 <= i < |stamps|
      ensures stamps[0] <= stamps[i] <= stamps[|stamps| - 1]
    {
      if 0 < i { assert stamps[0] < stamps[i]; }
      if i < |stamps| - 1 { assert stamps[i] < stamps[|stamps| - 1]; }
    }
  }

  /** Two timestamps in one window of 10^10 ms give different ids. */
  lemma IdsDistinctPair(first: nat, a: nat, b: nat, last: nat)
    requires first <= a < b <= last < first + Pow10(10)
    ensures IdOf(a) != IdOf(b)
  {
    ModDiffer(a, b, Pow10(10));
    IdsDiffer(a, b);
  }
}
