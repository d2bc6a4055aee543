# Mapty workout logging, modelled in Dafny

Mapty lets a user click a point on a map, fill in a form and log a run or a
ride there. This project models the core of that program's `script.js`:

- **form submission** (`App._newWorkout`). The form's type decides the
  branch. `"running"` needs finite, strictly positive distance, duration and
  cadence. Every other type goes to the cycling branch. That branch needs
  finite distance, duration and elevation, but only distance and duration
  must be positive. On rejection the handler alerts and returns before the
  list is touched. On acceptance it appends one workout, placed at the
  pending map click.
- **the workout entities** (`Workout`, `Running`, `Cycling`). Each one holds
  its base fields, an id and a description. A run also holds cadence and
  pace = duration / distance. A ride also holds elevation gain and
  speed = distance / (duration / 60). The description is
  "<Type> on <Month> <day>", built from a fixed English month table. The id
  is at most the last ten characters of the decimal creation timestamp.
- **the session** (`App`). It holds the private `#workouts` list and the
  pending `#mapEvent`. A map click sets the pending location. A submit
  either rejects or appends.

Modules:

- `Numbers` (numbers.dfy) holds JavaScript numbers. A number is finite or
  one of NaN, +Infinity or -Infinity. The module also gives
  `Number.isFinite`, `x > 0` and `/`.
- `Decimal` (decimal.dfy) holds the decimal rendering of naturals and its
  inverse, the value of a digit string.
- `Workouts` (workouts.dfy) holds the workout value, the constructors, the
  description and the id.
- `App` (app.dfy) holds the validation, the pipeline as a function
  (`CreateWorkout`) and the `Session` class. The class has the list and the
  pending click as fields. Its methods are proved against `CreateWorkout`.

The clock, the DOM and the map are not called. Their results are
parameters:

- the calendar date (month 0..11, day 1..31) that `new Date()` gives;
- the timestamp that `Date.now()` gives, which the source reads separately;
- the form fields, already converted by `Number(...)`;
- the clicked position.

A submit that comes before any map click makes the source throw a
TypeError when it reads `this.#mapEvent.latlng` (script.js:81). It throws
before any check of the inputs. The model returns `MissingMapEvent` for
this case and leaves the list unchanged. The pending click is never cleared
after a submit, and the model keeps it too.

## Model

| member | source | states |
|---|---|---|
| `Numbers.Divide` | script.js:223-226 | JavaScript `/`: NaN propagates; for a non-zero finite divisor the quotient times the divisor is the dividend; a positive value divided by a positive finite one stays positive; finite over infinite is 0 |
| `Decimal.NatToString` | script.js:177 | `Date.now() + ""` is all digits, at least one, with no leading zero; a string of length L stands for a value below 10^L, and for L > 1 at least 10^(L-1) |
| `Decimal.DigitsOfNatToString` | script.js:177 | reading back the decimal rendering gives the number again (round trip) |
| `Decimal.NatToStringInjective` | script.js:207-209 | different numbers render differently, so the rendered day identifies the day |
| `Decimal.TakeLastValue` | script.js:177 | the last k digits of a rendering stand for the number mod 10^k |
| `Decimal.DigitsInjective` | script.js:177 | two digit strings of equal length and equal value are the same string |
| `Workouts.Workout.Type` | script.js:184-185 | the `type` field is "running" exactly for the Running variant, otherwise "cycling" |
| `Workouts.Capitalize` | script.js:207 | `s[0].toUpperCase() + s.slice(1)` keeps the length and every character after the first. A lower-case ASCII first letter becomes the matching upper-case letter. A string not starting lower-case is unchanged |
| `Workouts.UpperAscii` | script.js:207 | `toUpperCase` on one character: a lower-case ASCII letter becomes the upper-case letter at the same alphabet position; any other character is unchanged |
| `Workouts.Describe` | script.js:192-210 | `_setDescription`: the capitalised type, then " on ", then the month's name from the 12-entry table, a space and the day in decimal |
| `Workouts.SliceFromEnd` | script.js:177 | `slice(-k)` yields the suffix of length min(k, length) |
| `Workouts.IdOf` | script.js:177 | the id has 1 to 10 digits, exactly 10 once the timestamp has 10 or more |
| `Workouts.NewRunning` | script.js:184-189 | stores type "running" and the given distance, duration, coords, cadence, date and id; for positive finite distance and duration, pace is positive finite and pace × distance = duration (lines 217-226) |
| `Workouts.NewCycling` | script.js:184-189 | stores type "cycling" and the given distance, duration, coords, elevation gain, date and id; for positive finite distance and duration, speed is positive finite and speed × duration = 60 × distance (lines 233-242) |
| `Workouts.RunningPaceExample` | script.js:223-226 | 5 km in 30 min gives pace 6 |
| `Workouts.CyclingSpeedExample` | script.js:239-242 | 20 km in 60 min gives speed 20 |
| `Workouts.DescriptionExample` | script.js:192-210 | a run on 15 October is described as "Running on October 15" |
| `Workouts.DescriptionPrefix` | script.js:207-209 | the description starts with "Running on " or "Cycling on ", and the rest is the month name from the 12-entry table, a space and the day |
| `Workouts.DescriptionInjective` | script.js:192-210 | two descriptions are equal only when the type, the month and the day are equal |
| `Workouts.IdValue` | script.js:177 | the id's digits stand for the timestamp mod 10^10 |
| `Workouts.IdsDiffer` | script.js:177 | timestamps that differ mod 10^10 get different ids |
| `Workouts.IdsDistinctWithinWindow` | script.js:177 | workouts created at strictly increasing timestamps that all lie within 10^10 ms have pairwise distinct ids |
| `Workouts.IdRepeats` | script.js:177 | from 10^9 ms on, the timestamp 10^10 ms later gets the same id, so ids are not unique across that span |
| `Numbers.IsFinite` | script.js:74 | `Number.isFinite` holds exactly for values that are not NaN, +Infinity or -Infinity |
| `Numbers.IsPositive` | script.js:75 | `input > 0` is false for NaN and -Infinity, and for a finite value holds exactly when it is above zero; finite and positive together mean a finite value above zero |
| `App.Every` | script.js:73-75 | `inputs.every(test)` is true exactly when every input passes the test |
| `App.IsInputsValid` | script.js:73-74 | `isInputsValid(...inputs)` holds exactly when every input is finite |
| `App.IsInputsPositive` | script.js:75 | `isInputsPositive(...inputs)` holds exactly when every input is +Infinity or a finite value above zero |
| `App.CreateWorkout` | script.js:71-102 | no pending click gives the TypeError outcome whatever the inputs. "running" is accepted iff distance, duration and cadence are finite and > 0. Any other type is accepted iff distance and duration are finite and > 0 and elevation is finite. A rejection carries the alert text. An accepted workout has the click's coords, the form's numbers, the given date and id, the variant matching the type, and is well-formed |
| `App.ElevationSignIgnored` | script.js:93-101 | a cycling submission with zero or negative finite elevation is accepted as a Cycling workout |
| `App.Session.constructor` | script.js:16-17 | a new session has an empty list and no pending click |
| `App.Session.ShowForm` | script.js:49-50 | a map click stores its position as the pending location and leaves the list unchanged |
| `App.Session.NewWorkout` | script.js:71-104 | gives the outcome `CreateWorkout` gives for the pending click; a rejection leaves the list unchanged; an acceptance appends exactly that workout at the end; the pending click is kept; every listed workout stays well-formed |

## Left out

- Geolocation, Leaflet map set-up, tiles, click wiring, markers and popups (script.js:23-47, 156-172) are browser and library calls. The model keeps only the click's effect: it stores the pending position.
- DOM form handling (script.js:3-9, 51-69) is left out: show and hide, focus, toggling the field, and the `setTimeout` re-display. So is `Number(...)` parsing of the input strings (script.js:77-80). The model takes already-converted numbers.
- HTML list rendering (script.js:110-154) is string templating into the DOM with `toFixed(1)` formatting, and is left out.
- Numbers.Divide: results are exact reals, with no IEEE-754 rounding. Overflow to Infinity and underflow to 0 are not modelled either. For example, a distance of 1e-320 with a duration of 1e300 gives an infinite pace in JavaScript, while `Workouts.NewRunning` promises a finite one. Signed zero is not modelled: a zero divisor counts as +0.
- Workouts.NewRunning: the finite positive pace holds in exact real arithmetic; in floating point an extreme quotient can overflow to Infinity or underflow to 0.
- Workouts.NewCycling: the finite positive speed holds in exact real arithmetic, with the same floating-point caveat as the pace.
- Workouts.UpperAscii: `toUpperCase` is modelled for ASCII letters only. The types the constructors store, "running" and "cycling", are ASCII.
- Workouts.Capitalize: upper-cases the first character through `Workouts.UpperAscii`, so it is ASCII-only as well.
- `Date` and `Date.now()` are not read, and time zones are not modelled. The month, day and timestamp are inputs, and the timestamp is taken as non-negative.
- The source has no persistence (storage, reload, serialisation). It also has no list-entry activation or panning. None of these is modelled.
