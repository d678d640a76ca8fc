/**
 * The `validate` step of the edit-reservation form: three checks run one after another, each
 * pushing its error onto a shared list, and the form submits only when the
 * list stays empty.
 */
module ReservationEdit {
  import opened Calendar
  import opened BookingPolicy
  import ReservationForm

  /** `isFutureDate`: complain when the requested moment is before now. */
  method IsFutureDate(errors: seq<Msg>, date: Date, time: Time, now: int) returns (out: seq<Msg>)
    ensures out == errors + (if InPast(date, time, now) then [NotInFuture] else [])
  {
    out := errors;
    var reservationDateTime := LocalMillis(date, time);
    if reservationDateTime < now {
      out := out + [NotInFuture];
    }
  }

  /** `isTuesday`: complain when the date's UTC weekday is Tuesday. */
  method IsTuesday(errors: seq<Msg>, date: Date) returns (out: seq<Msg>)
    ensures out == errors + (if ClosedOn(date) then [ClosedOnTuesday] else [])
  {
    out := errors;
    var day := Weekday(date);
    if day == 2 {
      out := out + [ClosedOnTuesday];
    }
  }

  /** `isOpenHours`: the if / else-if ladder on the local hours and minutes. */
  method IsOpenHours(errors: seq<Msg>, time: Time) returns (out: seq<Msg>)
    requires ValidTime(time)
    ensures out == errors + HoursViolation(time)
  {
    out := errors;
    var hours, minutes := time.hour, time.minute;
    if hours < 10 || (hours == 10 && minutes < 30) {
      out := out + [BeforeOpening];
    } else if hours == 21 && minutes > 30 {
      out := out + [TooCloseToClosing];
    } else if hours >= 22 || (hours == 22 && minutes >= 30) {
      out := out + [AfterClosing];
    }
  }

  /**
   * `validate`: every check runs, none short-circuits; the result is true
   * exactly when no error was collected. `time` is what `getHours()` and
   * `getMinutes()` return, so it is a valid time of day.
   */
  method Validate(date: Date, time: Time, now: int) returns (errors: seq<Msg>, ok: bool)
    requires ValidTime(time)
    ensures errors == Violations(date, time, now)
    ensures ok <==> |errors| == 0
  {
    errors := [];
    errors := IsFutureDate(errors, date, time, now);
    errors := IsTuesday(errors, date);
    errors := IsOpenHours(errors, time);
    if |errors| != 0 {
      ok := false;
      return;
    }
    ok := true;
  }

  /**
   * The edit screen's copy of `validate` and the create screen's one agree on
   * every date, time and clock reading: same errors, same verdict.
   */
  method AgreesWithCreateForm(date: Date, time: Time, now: int) returns (same: bool)
    requires ValidTime(time)
    ensures same
  {
    var createErrors, createOk := ReservationForm.Validate(date, time, now);
    var editErrors, editOk := Validate(date, time, now);
    same := createErrors == editErrors && createOk == editOk;
  }
}
