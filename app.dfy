/**
 * The `App` session: the list of logged workouts and the pending map click,
 * with the form-submission pipeline of `_newWorkout` that validates the
 * parsed form fields and appends a Running or Cycling workout.
 */
module App {
  import opened Numbers
  import opened Workouts

  datatype Option<T> = None | Some(value: T)

  /** The parsed form fields (`Number(input.value)` for the numeric ones). */
  datatype FormInput = FormInput(workoutType: string, distance: Num, duration: Num,
                                 cadence: Num, elevation: Num)

  /** The message the submit handler alerts on invalid input. */
  const InvalidInputMessage: string := "please insert positive numbers only"

  /**
   * What one form submission does: a new workout to append, an alert that
   * rejects the input, or a TypeError because no map click was recorded.
   */
  datatype Outcome =
    | Accepted(workout: Workout)
    | Rejected(message: string)
    | MissingMapEvent

  /** `inputs.every(test)`: scans the inputs left to right, stopping at the first failure. */
  function Every(inputs: seq<Num>, test: Num -> bool): (r: bool)
    ensures r <==> forall i | 0 <= i < |inputs| :: test(inputs[i])
  {
    |inputs| == 0 || (test(inputs[0]) && Every(inputs[1..], test))
  }

  /** `isInputsValid(...inputs)`. */
  predicate IsInputsValid(inputs: seq<Num>)
    ensures IsInputsValid(inputs) <==> forall i | 0 <= i < |inputs| :: inputs[i].Finite?
  {
    Every(inputs, IsFinite)
  }

  /** `isInputsPositive(...inputs)`. */
  predicate IsInputsPositive(inputs: seq<Num>)
    ensures IsInputsPositive(inputs) <==>
              forall i | 0 <= i < |inputs| :: inputs[i].Infinity? || (inputs[i].Finite? && inputs[i].r > 0.0)
  {
    Every(inputs, IsPositive)
  }

  /**
   * `_newWorkout` as a function of the form, the pending click, the calendar
   * date and the `Date.now()` timestamp read by the new workout.
   */
  function CreateWorkout(form: FormInput, click: Option<LatLng>, date: CalendarDate, now: nat): (r: Outcome)
    ensures click.None? <==> r.MissingMapEvent?
    ensures r.Rejected? ==> r.message == InvalidInputMessage
    ensures click.Some? && form.workoutType == "running" ==>
              (r.Accepted? <==> IsFinitePositive(form.distance) && IsFinitePositive(form.duration)
                                && IsFinitePositive(form.cadence))
    ensures click.Some? && form.workoutType != "running" ==>
              (r.Accepted? <==> IsFinitePositive(form.distance) && IsFinitePositive(form.duration)
                                && form.elevation.Finite?)
    ensures r.Accepted? ==>
              && r.workout.coords == click.value
              && (r.workout.Running? <==> form.workoutType == "running")
              && r.workout.distance == form.distance && r.workout.duration == form.duration
              && (r.workout.Running? ==> r.workout.cadence == form.cadence)
              && (r.workout.Cycling? ==> r.workout.elevationGain == form.elevation)
              && r.workout.date == date && r.workout.id == IdOf(now)
              && WellFormed(r.workout)
  {
    match click
    case None => MissingMapEvent
    case Some(latlng) =>
      if form.workoutType == "running" then
        var inputs := [form.distance, form.duration, form.cadence];
        if !IsInputsValid(inputs) || !IsInputsPositive(inputs) then
          Rejected(InvalidInputMessage)
        else
          assert inputs[0] == form.distance && inputs[1] == form.duration && inputs[2] == form.cadence;
          RunningWellFormed(form.distance, form.duration, latlng, form.cadence, date, now);
          Accepted(NewRunning(form.distance, form.duration, latlng, form.cadence, date, now))
      else
        var checked := [form.distance, form.duration, form.elevation];
        var positive := [form.distance, form.duration];
        if !IsInputsValid(checked) || !IsInputsPositive(positive) then
          Rejected(InvalidInputMessage)
        else
          assert checked[0] == positive[0] == form.distance && checked[1] == positive[1] == form.duration;
          assert checked[2] == form.elevation;
          CyclingWellFormed(form.distance, form.duration, latlng, form.elevation, date, now);
          Accepted(NewCycling(form.distance, form.duration, latlng, form.elevation, date, now))
  }

  /** Zero or negative elevation gain does not stop a cycling workout. */
  lemma ElevationSignIgnored(form: FormInput, latlng: LatLng, date: CalendarDate, now: nat)
    requires form.workoutType != "running"
    requires IsFinitePositive(form.distance) && IsFinitePositive(form.duration)
    requires form.elevation.Finite? && form.elevation.r <= 0.0
    ensures CreateWorkout(form, Some(latlng), date, now).Accepted?
    ensures CreateWorkout(form, Some(latlng), date, now).workout.Cycling?
  {
  }

  /**
   * The browser session of `App`: `#workouts` and `#mapEvent` (only the
   * click position of the map event is kept). The map itself is not modelled.
   */
  class Session {
    var workouts: seq<Workout>
    var mapEvent: Option<LatLng>

    /** Every logged workout passed the form's checks. */
    ghost predicate Valid()
      reads this
    {
      forall i | 0 <= i < |workouts| :: WellFormed(workouts[i])
    }

    /** `new App()`: no workouts and no click yet. */
    constructor ()
      ensures Valid()
      ensures workouts == [] && mapEvent == None
    {
      workouts := [];
      mapEvent := None;
    }

    /** `_showForm`: a map click records its position as the pending location. */
    method ShowForm(click: LatLng)
      requires Valid()
      modifies this
      ensures Valid()
      ensures mapEvent == Some(click) && workouts == old(workouts)
    {
      mapEvent := Some(click);
    }

    /**
     * `_newWorkout`: a submission either leaves the list as it was or appends
     * exactly one workout at its end, placed at the pending click.
     */
    method NewWorkout(form: FormInput, date: CalendarDate, now: nat) returns (outcome: Outcome)
      requires Valid()
      modifies this
      ensures Valid()
      ensures outcome == CreateWorkout(form, old(mapEvent), date, now)
      ensures mapEvent == old(mapEvent)
      ensures outcome.Accepted? ==> workouts == old(workouts) + [outcome.workout]
      ensures !outcome.Accepted? ==> workouts == old(workouts)
    {
      if mapEvent.None? {
        return MissingMapEvent;
      }
      var latlng := mapEvent.value;
      var workout: Workout;
      if form.workoutType == "running" {
        var inputs := [form.distance, form.duration, form.cadence];
        if !IsInputsValid(inputs) || !IsInputsPositive(inputs) {
          return Rejected(InvalidInputMessage);
        }
        workout := NewRunning(form.distance, form.duration, latlng, form.cadence, date, now);
      } else {
        if !IsInputsValid([form.distance, form.duration, form.elevation])
           || !IsInputsPositive([form.distance, form.duration]) {
          return Rejected(InvalidInputMessage);
        }
        workout := NewCycling(form.distance, form.duration, latlng, form.elevation, date, now);
      }
      assert CreateWorkout(form, mapEvent, date, now) == Accepted(workout);
      workouts := workouts + [workout];
      outcome := Accepted(workout);
    }
  }
}
