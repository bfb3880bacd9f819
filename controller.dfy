/** The session controller as the object the screen holds: its fields are
    updated in place by the operations below, each proved to have the effect
    the matching `Session` function describes and to keep `Session.Inv`. */
module Controller {
  import opened Config
  import TimerText
  import opened Session

  class ViewModel {
    var model: Model
    var status: Status
    var isTimerRunning: bool
    var isSessionActive: bool
    var progress: Fraction
    var pomodoroCount: int
    var pomodorLengthInSeconds: int  // live work countdown
    var breakLengthInSeconds: int    // live break countdown
    var timerString: string
    var completedPomodoro: int
    var notifications: nat           // "session complete" notifications emitted

    /** The fields as one value. */
    function Snapshot(): State
      reads this
    {
      State(model, status, isTimerRunning, isSessionActive, progress, pomodoroCount,
            pomodorLengthInSeconds, breakLengthInSeconds, timerString, completedPomodoro, notifications)
    }

    ghost predicate Valid()
      reads this
    {
      Inv(Snapshot())
    }

    constructor ()
      ensures Snapshot() == Initial() && Valid()
    {
      model := Default();
      status := Pomodoro;
      isTimerRunning := false;
      isSessionActive := false;
      progress := Full;
      pomodoroCount := 0;
      pomodorLengthInSeconds := 0;
      breakLengthInSeconds := 0;
      timerString := "00:00";
      completedPomodoro := 0;
      notifications := 0;
    }

    /** Shows the configured work length. */
    method PrepareTimerString()
      modifies this
      ensures Snapshot() == Session.PrepareTimerString(old(Snapshot()))
      ensures old(Valid()) ==> Valid()
    {
      timerString := TimerText.Format(model.PomodoroLengthInSeconds());
    }

    method StartTimer()
      requires Valid()
      modifies this
      ensures Valid() && Snapshot() == Session.StartTimer(old(Snapshot()))
    {
      isTimerRunning := true;
      if !isSessionActive {
        pomodoroCount := model.pomodoroCount;
        pomodorLengthInSeconds := model.PomodoroLengthInSeconds();
        breakLengthInSeconds := model.BreakLengthInSeconds();
        PrepareTimerString();
      }
      isSessionActive := true;
    }

    method StopTimer()
      requires Valid()
      modifies this
      ensures Valid() && Snapshot() == Session.StopTimer(old(Snapshot()))
    {
      isTimerRunning := false;
    }

    /** Returns to an idle session loaded from the configuration, from any state. */
    method ResetTimer()
      modifies this
      ensures Valid() && Snapshot() == Session.ResetTimer(old(Snapshot()))
    {
      isTimerRunning := false;
      progress := Full;
      completedPomodoro := 0;
      isSessionActive := false;
      status := Pomodoro;
      pomodoroCount := model.pomodoroCount;
      pomodorLengthInSeconds := model.PomodoroLengthInSeconds();
      breakLengthInSeconds := model.BreakLengthInSeconds();
      PrepareTimerString();
    }

    /** One tick of the work phase; `UpdateTimer` calls it in that phase only. */
    method PomodoroRunning()
      requires Valid() && isTimerRunning && status == Pomodoro
      modifies this
      ensures Valid() && Snapshot() == Session.PomodoroRunning(old(Snapshot()))
    {
      if pomodorLengthInSeconds > 0 {
        pomodorLengthInSeconds := pomodorLengthInSeconds - 1;
        timerString := TimerText.Format(pomodorLengthInSeconds);
        progress := Fraction(pomodorLengthInSeconds, model.PomodoroLengthInSeconds());
      } else {
        pomodoroCount := pomodoroCount - 1;
        completedPomodoro := completedPomodoro + 1;
        if pomodoroCount > 0 {
          status := Break;
          pomodorLengthInSeconds := model.PomodoroLengthInSeconds();
          progress := Full;
        } else {
          status := Pomodoro;
          progress := Full;
          ResetTimer();
          notifications := notifications + 1;
        }
      }
    }

    /** One tick of the break phase; `UpdateTimer` calls it in that phase only. */
    method BreakRunning()
      requires Valid() && isTimerRunning && status == Break
      modifies this
      ensures Valid() && Snapshot() == Session.BreakRunning(old(Snapshot()))
    {
      if breakLengthInSeconds > 0 {
        breakLengthInSeconds := breakLengthInSeconds - 1;
        timerString := TimerText.Format(breakLengthInSeconds);
        progress := Fraction(breakLengthInSeconds, model.BreakLengthInSeconds());
      } else {
        status := Pomodoro;
        progress := Full;
        breakLengthInSeconds := model.BreakLengthInSeconds();
      }
    }

    /** Advances the current phase; the only caller is `Tick`, while running. */
    method UpdateTimer()
      requires Valid() && isTimerRunning
      modifies this
      ensures Valid() && Snapshot() == Session.UpdateTimer(old(Snapshot()))
    {
      match status
      case Pomodoro => PomodoroRunning();
      case Break => BreakRunning();
    }

    /** What the screen's periodic timer does: advance only while running. */
    method Tick()
      requires Valid()
      modifies this
      ensures Valid() && Snapshot() == Session.Tick(old(Snapshot()))
    {
      if isTimerRunning {
        UpdateTimer();
      }
    }

    /** A settings edit: the new configuration is stored, and a change resets
        the session. */
    method Configure(m: Model)
      requires Valid()
      modifies this
      ensures Valid() && Snapshot() == Session.Configure(old(Snapshot()), m)
    {
      var changed := m != model;
      model := m;
      if changed {
        ResetTimer();
      }
    }
  }
}
