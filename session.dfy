/** The session controller's state machine, as values: one state record with
    the controller's fields, and one function per controller operation. The
    `Controller.ViewModel` class is proved to follow these functions, and the
    lemmas here state what the operations promise. */
module Session {
  import opened Config
  import TimerText

  /** The phase the countdown is in. */
  datatype Status = Pomodoro | Break

  /** The ring's fill as an exact ratio of two second counts; the controller
      keeps it as a floating-point quotient. */
  datatype Fraction = Fraction(num: int, den: int)

  const Full := Fraction(1, 1)

  /** The controller's fields. `pomodorLengthInSeconds` and
      `breakLengthInSeconds` are the live countdowns of the two phases (the
      configured lengths live in `model`); `notifications` counts the
      "session complete" notifications emitted so far. */
  datatype State = State(
    model: Model,
    status: Status,
    isTimerRunning: bool,
    isSessionActive: bool,
    progress: Fraction,
    pomodoroCount: int,
    pomodorLengthInSeconds: int,
    breakLengthInSeconds: int,
    timerString: string,
    completedPomodoro: int,
    notifications: nat)

  /** The state a freshly created controller has. */
  function Initial(): State
  {
    State(Default(), Pomodoro, false, false, Full, 0, 0, 0, "00:00", 0, 0)
  }

  /** The countdown of the current phase. */
  function PhaseCounter(s: State): int
  {
    match s.status
    case Pomodoro => s.pomodorLengthInSeconds
    case Break => s.breakLengthInSeconds
  }

  /** The configured length of the current phase, in seconds. */
  function PhaseLength(s: State): nat
  {
    match s.status
    case Pomodoro => s.model.PomodoroLengthInSeconds()
    case Break => s.model.BreakLengthInSeconds()
  }

  /** What every reachable state satisfies. */
  predicate Inv(s: State)
  {
    (s.isTimerRunning ==> s.isSessionActive) &&
    (!s.isSessionActive ==> s.completedPomodoro == 0 && s.status == Pomodoro) &&
    0 <= s.completedPomodoro &&
    (s.isSessionActive ==> 0 <= s.pomodoroCount && s.pomodoroCount + s.completedPomodoro == s.model.pomodoroCount) &&
    0 <= s.pomodorLengthInSeconds <= s.model.PomodoroLengthInSeconds() &&
    0 <= s.breakLengthInSeconds <= s.model.BreakLengthInSeconds() &&
    // only the current phase's countdown is ever partly used
    (s.isSessionActive && s.status == Pomodoro ==> s.breakLengthInSeconds == s.model.BreakLengthInSeconds()) &&
    (s.status == Break ==> s.isSessionActive && 0 < s.pomodoroCount &&
                           s.pomodorLengthInSeconds == s.model.PomodoroLengthInSeconds()) &&
    0 <= s.progress.num <= s.progress.den && 0 < s.progress.den
  }

  /** During a session the display shows the current countdown, except right
      after a phase change: a transition does not rewrite the text, so the
      full new phase is shown as the "00:00" the previous phase ended on. */
  predicate DisplayConsistent(s: State)
    requires Inv(s)
  {
    s.isSessionActive ==>
      s.timerString == TimerText.Format(PhaseCounter(s)) ||
      (PhaseCounter(s) == PhaseLength(s) && s.timerString == TimerText.Format(0))
  }

  /** The display text for the configured work length (not the live countdown). */
  function PrepareTimerString(s: State): State
  {
    s.(timerString := TimerText.Format(s.model.PomodoroLengthInSeconds()))
  }

  function StartTimer(s: State): State
  {
    var running := s.(isTimerRunning := true);
    var loaded :=
      if !s.isSessionActive then
        PrepareTimerString(running.(pomodoroCount := s.model.pomodoroCount,
                                    pomodorLengthInSeconds := s.model.PomodoroLengthInSeconds(),
                                    breakLengthInSeconds := s.model.BreakLengthInSeconds()))
      else running;
    loaded.(isSessionActive := true)
  }

  function StopTimer(s: State): State
  {
    s.(isTimerRunning := false)
  }

  function ResetTimer(s: State): State
  {
    PrepareTimerString(s.(isTimerRunning := false, progress := Full, completedPomodoro := 0,
                          isSessionActive := false, status := Pomodoro,
                          pomodoroCount := s.model.pomodoroCount,
                          pomodorLengthInSeconds := s.model.PomodoroLengthInSeconds(),
                          breakLengthInSeconds := s.model.BreakLengthInSeconds()))
  }

  /** One tick of the work phase. */
  function PomodoroRunning(s: State): State
  {
    if s.pomodorLengthInSeconds > 0 then
      var left := s.pomodorLengthInSeconds - 1;
      s.(pomodorLengthInSeconds := left, timerString := TimerText.Format(left),
         progress := Fraction(left, s.model.PomodoroLengthInSeconds()))
    else
      var counted := s.(pomodoroCount := s.pomodoroCount - 1, completedPomodoro := s.completedPomodoro + 1);
      if counted.pomodoroCount > 0 then
        counted.(status := Break, pomodorLengthInSeconds := s.model.PomodoroLengthInSeconds(), progress := Full)
      else
        var done := ResetTimer(counted.(status := Pomodoro, progress := Full));
        done.(notifications := done.notifications + 1)
  }

  /** One tick of the break phase. */
  function BreakRunning(s: State): State
  {
    if s.breakLengthInSeconds > 0 then
      var left := s.breakLengthInSeconds - 1;
      s.(breakLengthInSeconds := left, timerString := TimerText.Format(left),
         progress := Fraction(left, s.model.BreakLengthInSeconds()))
    else
      s.(status := Pomodoro, progress := Full, breakLengthInSeconds := s.model.BreakLengthInSeconds())
  }

  function UpdateTimer(s: State): State
  {
    match s.status
    case Pomodoro => PomodoroRunning(s)
    case Break => BreakRunning(s)
  }

  /** The scheduler's tick: the countdown only advances while running. */
  function Tick(s: State): State
  {
    if s.isTimerRunning then UpdateTimer(s) else s
  }

  /** An edit of the settings: a configuration that differs from the current
      one resets the session. */
  function Configure(s: State, m: Model): State
  {
    if m == s.model then s else ResetTimer(s.(model := m))
  }

  /** Where a session ends: reset, with the completion notification emitted. */
  function Finished(s: State): State
  {
    ResetTimer(s).(notifications := s.notifications + 1)
  }

  /** `n` ticks in a row. */
  function Ticks(s: State, n: nat): State
    decreases n
  {
    if n == 0 then s else Ticks(Tick(s), n - 1)
  }

  /** The state after the current phase's countdown has been decremented to `left`. */
  function CountedDown(s: State, left: nat): State
  {
    match s.status
    case Pomodoro =>
      s.(pomodorLengthInSeconds := left, timerString := TimerText.Format(left),
         progress := Fraction(left, s.model.PomodoroLengthInSeconds()))
    case Break =>
      s.(breakLengthInSeconds := left, timerString := TimerText.Format(left),
         progress := Fraction(left, s.model.BreakLengthInSeconds()))
  }

  /** Ticks needed for the rest of a session from the start of a work interval
      with `k` intervals to go: every work interval lasts `w` ticks and every
      break between two of them `b` ticks. */
  function RemainingTicks(k: nat, w: nat, b: nat): (r: nat)
    ensures r >= w
  {
    if k <= 1 then w else w + b + RemainingTicks(k - 1, w, b)
  }

  /** Ticks needed for a whole session of `m`: each phase lasts its length
      plus one tick. */
  function SessionTicks(m: Model): nat
  {
    RemainingTicks(m.pomodoroCount, m.PomodoroLengthInSeconds() + 1, m.BreakLengthInSeconds() + 1)
  }

  // ---------------------------------------------------------------------------
  // Invariant

  lemma InitialInv()
    ensures Inv(Initial()) && DisplayConsistent(Initial())
    ensures !Initial().isSessionActive && Initial().timerString == TimerText.Format(0)
  {
    TimerText.FormatWithoutHours();
  }

  /** Every operation keeps the invariant; configuration edits included. */
  lemma InvPreserved(s: State, m: Model)
    requires Inv(s)
    ensures Inv(PrepareTimerString(s)) && Inv(StartTimer(s)) && Inv(StopTimer(s)) && Inv(ResetTimer(s))
    ensures Inv(Tick(s)) && Inv(Configure(s, m))
  {
  }

  /** A tick keeps the display consistent with the countdown. */
  lemma DisplayAfterTick(s: State)
    requires Inv(s) && DisplayConsistent(s)
    ensures Inv(Tick(s)) && DisplayConsistent(Tick(s))
  {
    InvPreserved(s, s.model);
    var t := Tick(s);
    if s.isTimerRunning {
      if PhaseCounter(s) > 0 {
        TickCountsDown(s);
      } else {
        assert s.timerString == TimerText.Format(0);
        match s.status
        case Pomodoro =>
          if t.isSessionActive {
            assert t.status == Break && t.timerString == s.timerString;
          }
        case Break =>
          assert t.status == Pomodoro && t.timerString == s.timerString;
      }
    }
  }

  /** Every operation but a stand-alone `PrepareTimerString` keeps the display
      consistent with the countdown. */
  lemma DisplayPreserved(s: State, m: Model)
    requires Inv(s) && DisplayConsistent(s)
    ensures Inv(StartTimer(s)) && DisplayConsistent(StartTimer(s))
    ensures Inv(StopTimer(s)) && DisplayConsistent(StopTimer(s))
    ensures Inv(ResetTimer(s)) && DisplayConsistent(ResetTimer(s))
    ensures Inv(Tick(s)) && DisplayConsistent(Tick(s))
    ensures Inv(Configure(s, m)) && DisplayConsistent(Configure(s, m))
  {
    InvPreserved(s, m);
    DisplayAfterTick(s);
  }

  // ---------------------------------------------------------------------------
  // One operation at a time

  /** Starting always runs the timer and marks the session active. A session
      that was not active is loaded from the configuration; resuming a paused
      one changes nothing else. */
  lemma StartTimerEffect(s: State)
    requires Inv(s)
    ensures StartTimer(s).isTimerRunning && StartTimer(s).isSessionActive
    ensures !s.isSessionActive ==>
      StartTimer(s) == s.(isTimerRunning := true, isSessionActive := true,
                          pomodoroCount := s.model.pomodoroCount,
                          pomodorLengthInSeconds := s.model.PomodoroLengthInSeconds(),
                          breakLengthInSeconds := s.model.BreakLengthInSeconds(),
                          timerString := TimerText.Format(s.model.PomodoroLengthInSeconds())) &&
      StartTimer(s).status == Pomodoro && StartTimer(s).completedPomodoro == 0
    ensures s.isSessionActive ==> StartTimer(s) == s.(isTimerRunning := true)
    ensures StartTimer(StartTimer(s)) == StartTimer(s)
  {
  }

  /** Stopping pauses: only the running flag changes, and no number of ticks
      changes the paused state. */
  lemma {:induction false} StopTimerPauses(s: State, n: nat)
    ensures !StopTimer(s).isTimerRunning
    ensures StopTimer(s).(isTimerRunning := s.isTimerRunning) == s
    ensures Ticks(StopTimer(s), n) == StopTimer(s)
    decreases n
  {
    if n > 0 {
      StopTimerPauses(s, n - 1);
    }
  }

  /** A reset leaves an idle session loaded from the configuration; it keeps
      only the configuration and the notification count, so resetting twice
      is resetting once. */
  lemma ResetTimerEffect(s: State)
    ensures var t := ResetTimer(s);
      !t.isTimerRunning && !t.isSessionActive &&
      t.completedPomodoro == 0 && t.status == Pomodoro && t.progress == Full &&
      t.pomodoroCount == s.model.pomodoroCount &&
      t.pomodorLengthInSeconds == s.model.PomodoroLengthInSeconds() &&
      t.breakLengthInSeconds == s.model.BreakLengthInSeconds() &&
      t.timerString == TimerText.Format(s.model.PomodoroLengthInSeconds()) &&
      t.model == s.model && t.notifications == s.notifications
    ensures Inv(ResetTimer(s)) && DisplayConsistent(ResetTimer(s))
    ensures ResetTimer(ResetTimer(s)) == ResetTimer(s)
  {
  }

  /** Two states with the same configuration and notification count reset to
      the same state. */
  lemma ResetForgets(s: State, t: State)
    requires s.model == t.model && s.notifications == t.notifications
    ensures ResetTimer(s) == ResetTimer(t) && Finished(s) == Finished(t)
  {
  }

  /** A tick with time left in the current phase takes exactly one second off
      that phase's countdown, shows the new value, and changes nothing else. */
  lemma TickCountsDown(s: State)
    requires s.isTimerRunning && PhaseCounter(s) > 0
    ensures Tick(s) == CountedDown(s, PhaseCounter(s) - 1)
    ensures PhaseCounter(Tick(s)) == PhaseCounter(s) - 1 >= 0
    ensures Tick(s).timerString == TimerText.Format(PhaseCounter(s) - 1)
    ensures Tick(s).status == s.status && Tick(s).pomodoroCount == s.pomodoroCount &&
            Tick(s).completedPomodoro == s.completedPomodoro &&
            Tick(s).notifications == s.notifications
    ensures s.status == Pomodoro ==> Tick(s).breakLengthInSeconds == s.breakLengthInSeconds
    ensures s.status == Break ==> Tick(s).pomodorLengthInSeconds == s.pomodorLengthInSeconds
  {
    var t := CountedDown(s, PhaseCounter(s) - 1);
    assert Tick(s) == t;
    match s.status
    case Pomodoro => assert t.pomodorLengthInSeconds == PhaseCounter(s) - 1;
    case Break => assert t.breakLengthInSeconds == PhaseCounter(s) - 1;
  }

  /** A work-phase tick at zero consumes one interval. With intervals left it
      moves to the break with the work countdown refilled and changes nothing
      else (in particular not the display); otherwise the session is reset and
      one notification is emitted. */
  lemma WorkPhaseEnds(s: State)
    requires s.isTimerRunning && s.status == Pomodoro && s.pomodorLengthInSeconds == 0
    ensures s.pomodoroCount > 1 ==>
      Tick(s) == s.(status := Break, pomodoroCount := s.pomodoroCount - 1,
                    completedPomodoro := s.completedPomodoro + 1,
                    pomodorLengthInSeconds := s.model.PomodoroLengthInSeconds(), progress := Full)
    ensures s.pomodoroCount > 1 && Inv(s) ==>
      Tick(s).isSessionActive && Tick(s).breakLengthInSeconds == s.model.BreakLengthInSeconds()
    ensures s.pomodoroCount <= 1 ==>
      Tick(s) == Finished(s)
  {
  }

  /** A break-phase tick at zero returns to work with the break countdown
      refilled and changes nothing else; the work countdown is then full. */
  lemma BreakPhaseEnds(s: State)
    requires s.isTimerRunning && s.status == Break && s.breakLengthInSeconds == 0
    ensures Tick(s) == s.(status := Pomodoro, progress := Full,
                          breakLengthInSeconds := s.model.BreakLengthInSeconds())
    ensures Inv(s) ==> Tick(s).pomodorLengthInSeconds == s.model.PomodoroLengthInSeconds()
  {
  }

  /** A configuration edit that changes something resets the session under the
      new configuration; re-entering the same configuration changes nothing. */
  lemma ConfigureEffect(s: State, m: Model)
    ensures Configure(s, m).model == m
    ensures m == s.model ==> Configure(s, m) == s
    ensures m != s.model ==> Configure(s, m) == ResetTimer(s.(model := m))
    ensures m != s.model ==>
      (!Configure(s, m).isSessionActive &&
       Configure(s, m).pomodorLengthInSeconds == m.PomodoroLengthInSeconds() &&
       Configure(s, m).breakLengthInSeconds == m.BreakLengthInSeconds() &&
       Configure(s, m).pomodoroCount == m.pomodoroCount)
  {
  }

  // ---------------------------------------------------------------------------
  // Many ticks

  lemma {:induction false} TicksAdd(s: State, a: nat, b: nat)
    ensures Ticks(s, a + b) == Ticks(Ticks(s, a), b)
    decreases a
  {
    if a > 0 {
      TicksAdd(Tick(s), a - 1, b);
    }
  }

  /** Counting down again overrides an earlier count-down. */
  lemma CountedDownAgain(s: State, a: nat, b: nat)
    ensures PhaseCounter(CountedDown(s, a)) == a && CountedDown(s, a).status == s.status
    ensures CountedDown(CountedDown(s, a), b) == CountedDown(s, b)
  {
  }

  /** The invariant holds after any number of ticks. */
  lemma {:induction false} InvTicks(s: State, n: nat)
    requires Inv(s)
    ensures Inv(Ticks(s, n))
    decreases n
  {
    if n > 0 {
      InvPreserved(s, s.model);
      InvTicks(Tick(s), n - 1);
    }
  }

  /** `n` ticks with at least `n` seconds left in the current phase count the
      phase down by `n` and do nothing else. */
  lemma {:induction false} CountDown(s: State, n: nat)
    requires s.isTimerRunning && 0 < n <= PhaseCounter(s)
    ensures Ticks(s, n) == CountedDown(s, PhaseCounter(s) - n)
    decreases n
  {
    var c := PhaseCounter(s);
    var u := Ticks(s, n - 1);
    if n > 1 {
      CountDown(s, n - 1);
      CountedDownAgain(s, c - (n - 1), c - n);
    }
    assert u.isTimerRunning && PhaseCounter(u) == c - (n - 1);
    assert Ticks(s, n) == Tick(u) by {
      TicksAdd(s, n - 1, 1);
    }
    TickCountsDown(u);
  }

  /** A running work phase with both countdowns full, as every work interval
      of a session begins. */
  predicate WorkStart(s: State)
  {
    s.isTimerRunning && s.isSessionActive && s.status == Pomodoro &&
    s.pomodorLengthInSeconds == s.model.PomodoroLengthInSeconds() &&
    s.breakLengthInSeconds == s.model.BreakLengthInSeconds()
  }

  /** A work phase that starts with its countdown full ends `length + 1` ticks
      later: the countdown stands at zero for one tick before the transition. */
  lemma WorkPhase(s: State)
    requires WorkStart(s)
    ensures var w := s.model.PomodoroLengthInSeconds();
      var t := Ticks(s, w + 1);
      (s.pomodoroCount > 1 ==>
         t.status == Break && t.isTimerRunning && t.isSessionActive &&
         t.pomodoroCount == s.pomodoroCount - 1 && t.completedPomodoro == s.completedPomodoro + 1 &&
         t.pomodorLengthInSeconds == w && t.breakLengthInSeconds == s.model.BreakLengthInSeconds() &&
         t.notifications == s.notifications && t.model == s.model) &&
      (s.pomodoroCount <= 1 ==> t == Finished(s))
    ensures var z := Ticks(s, s.model.PomodoroLengthInSeconds());
      z.status == Pomodoro && z.pomodorLengthInSeconds == 0 && z.isSessionActive
  {
    var w := s.model.PomodoroLengthInSeconds();
    var z := Ticks(s, w);
    if w > 0 {
      CountDown(s, w);
    }
    assert z.isTimerRunning && z.isSessionActive && z.status == Pomodoro && z.pomodorLengthInSeconds == 0;
    assert z.breakLengthInSeconds == s.breakLengthInSeconds;
    assert z.pomodoroCount == s.pomodoroCount && z.completedPomodoro == s.completedPomodoro;
    assert z.model == s.model && z.notifications == s.notifications;
    TicksAdd(s, w, 1);
    WorkPhaseEnds(z);
    ResetForgets(z, s);
  }

  /** Throughout a work phase that starts full the phase stays work, up to and
      including the tick at which its countdown reaches zero. */
  lemma WorkPhaseStaysAtWork(s: State)
    requires WorkStart(s)
    ensures forall n: nat :: n <= s.model.PomodoroLengthInSeconds() ==> Ticks(s, n).status == Pomodoro
  {
    forall n: nat | n <= s.model.PomodoroLengthInSeconds()
      ensures Ticks(s, n).status == Pomodoro
    {
      if n > 0 {
        CountDown(s, n);
      }
    }
  }

  /** A break that starts with its countdown full ends `length + 1` ticks later
      at the start of the next work interval. */
  lemma BreakPhase(s: State)
    requires s.isTimerRunning && s.isSessionActive && s.status == Break
    requires s.pomodorLengthInSeconds == s.model.PomodoroLengthInSeconds()
    requires s.breakLengthInSeconds == s.model.BreakLengthInSeconds()
    ensures var t := Ticks(s, s.model.BreakLengthInSeconds() + 1);
      WorkStart(t) && t.pomodoroCount == s.pomodoroCount && t.completedPomodoro == s.completedPomodoro &&
      t.notifications == s.notifications && t.model == s.model
  {
    var b := s.model.BreakLengthInSeconds();
    var z := Ticks(s, b);
    if b > 0 {
      CountDown(s, b);
    }
    assert z.isTimerRunning && z.isSessionActive && z.status == Break && z.breakLengthInSeconds == 0;
    assert z.pomodorLengthInSeconds == s.pomodorLengthInSeconds;
    TicksAdd(s, b, 1);
    BreakPhaseEnds(z);
  }

  /** One work phase and the break after it, each started with its countdown
      full, take `length + 1` ticks apiece and consume one interval. */
  lemma Cycle(s: State)
    requires WorkStart(s) && s.pomodoroCount >= 2
    ensures var t := Ticks(s, s.model.PomodoroLengthInSeconds() + 1 + (s.model.BreakLengthInSeconds() + 1));
      WorkStart(t) &&
      t.pomodoroCount == s.pomodoroCount - 1 && t.completedPomodoro == s.completedPomodoro + 1 &&
      t.model == s.model && t.notifications == s.notifications
  {
    var w, b := s.model.PomodoroLengthInSeconds() + 1, s.model.BreakLengthInSeconds() + 1;
    var br := Ticks(s, w);
    assert br.isTimerRunning && br.isSessionActive && br.status == Break &&
           br.pomodoroCount == s.pomodoroCount - 1 && br.completedPomodoro == s.completedPomodoro + 1 &&
           br.pomodorLengthInSeconds == br.model.PomodoroLengthInSeconds() &&
           br.breakLengthInSeconds == br.model.BreakLengthInSeconds() &&
           br.model == s.model && br.notifications == s.notifications by {
      WorkPhase(s);
    }
    assert Ticks(s, w + b) == Ticks(br, b) by {
      TicksAdd(s, w, b);
    }
    BreakPhase(br);
  }

  /** The last work interval is still running one tick before its end, and
      ends the session on the next tick. */
  lemma LastInterval(s: State)
    requires WorkStart(s) && s.pomodoroCount <= 1
    ensures Ticks(s, s.model.PomodoroLengthInSeconds()).isSessionActive
    ensures Ticks(s, s.model.PomodoroLengthInSeconds() + 1) == Finished(s)
  {
    WorkPhase(s);
  }

  /** `k` intervals take `k` work phases and `k - 1` breaks. */
  lemma {:induction false} RemainingTicksValue(k: nat, w: nat, b: nat)
    requires k >= 1
    ensures RemainingTicks(k, w, b) == k * w + (k - 1) * b
    decreases k
  {
    if k > 1 {
      RemainingTicksValue(k - 1, w, b);
      assert k * w + (k - 1) * b == w + b + ((k - 1) * w + (k - 2) * b);
    }
  }

  /** The ticks before the last interval are one cycle followed by those of
      one interval fewer. */
  lemma CycleThenRest(s: State, k: nat, w: nat, b: nat, f: State)
    requires k >= 2 && Ticks(Ticks(s, w + b), RemainingTicks(k - 1, w, b) - w) == f
    ensures Ticks(s, RemainingTicks(k, w, b) - w) == f
  {
    TicksAdd(s, w + b, RemainingTicks(k - 1, w, b) - w);
  }

  /** From the start of a work interval with `k` intervals to go, the cycles
      before the last interval lead to the start of the last interval. */
  lemma {:induction false} LastIntervalStart(s: State, k: nat)
    requires WorkStart(s) && s.pomodoroCount == k
    ensures var w, b := s.model.PomodoroLengthInSeconds() + 1, s.model.BreakLengthInSeconds() + 1;
      var u := Ticks(s, RemainingTicks(k, w, b) - w);
      WorkStart(u) && u.pomodoroCount <= 1 && u.model == s.model && u.notifications == s.notifications
    decreases k, 1
  {
    if k >= 2 {
      LastIntervalStartAfterCycle(s, k);
    }
  }

  /** The inductive step of `LastIntervalStart`: one cycle, then the rest. */
  lemma {:induction false} LastIntervalStartAfterCycle(s: State, k: nat)
    requires WorkStart(s) && s.pomodoroCount == k >= 2
    ensures var w, b := s.model.PomodoroLengthInSeconds() + 1, s.model.BreakLengthInSeconds() + 1;
      var u := Ticks(s, RemainingTicks(k, w, b) - w);
      WorkStart(u) && u.pomodoroCount <= 1 && u.model == s.model && u.notifications == s.notifications
    decreases k, 0
  {
    var w, b := s.model.PomodoroLengthInSeconds() + 1, s.model.BreakLengthInSeconds() + 1;
    var next := Ticks(s, w + b);
    assert WorkStart(next) && next.pomodoroCount == k - 1 &&
           next.model == s.model && next.notifications == s.notifications by {
      Cycle(s);
    }
    var v := Ticks(next, RemainingTicks(k - 1, w, b) - w);
    assert WorkStart(v) && v.pomodoroCount <= 1 && v.model == s.model && v.notifications == s.notifications by {
      LastIntervalStart(next, k - 1);
    }
    assert Ticks(s, RemainingTicks(k, w, b) - w) == v by {
      CycleThenRest(s, k, w, b, v);
    }
  }

  /** From the start of a work interval with `k` intervals to go, the session
      completes after `RemainingTicks` ticks: it is reset and exactly one
      notification has been emitted. One tick earlier it is still active, so
      it does not complete sooner. */
  lemma RemainingSession(s: State, k: nat)
    requires WorkStart(s) && s.pomodoroCount == k
    ensures var w, b := s.model.PomodoroLengthInSeconds() + 1, s.model.BreakLengthInSeconds() + 1;
      Ticks(s, RemainingTicks(k, w, b)) == Finished(s) &&
      Ticks(s, RemainingTicks(k, w, b) - 1).isSessionActive
  {
    var w, b := s.model.PomodoroLengthInSeconds() + 1, s.model.BreakLengthInSeconds() + 1;
    var c := RemainingTicks(k, w, b) - w;
    var u := Ticks(s, c);
    assert WorkStart(u) && u.pomodoroCount <= 1 && u.model == s.model && u.notifications == s.notifications by {
      LastIntervalStart(s, k);
    }
    assert Ticks(u, w) == Finished(s) && Ticks(u, w - 1).isSessionActive by {
      LastInterval(u);
      ResetForgets(u, s);
    }
    TicksAdd(s, c, w);
    TicksAdd(s, c, w - 1);
  }

  /** Starting an idle session and letting it run `SessionTicks` ticks
      completes it, and not a tick sooner: the controller is back in the idle state it was reset to,
      with one more notification. With a single interval no break is entered. */
  lemma WholeSession(s: State)
    requires Inv(s) && !s.isSessionActive
    ensures Ticks(StartTimer(s), SessionTicks(s.model)) == Finished(s)
    ensures Ticks(StartTimer(s), SessionTicks(s.model) - 1).isSessionActive
    ensures s.model.pomodoroCount <= 1 ==>
      forall n: nat :: n <= s.model.PomodoroLengthInSeconds() ==> Ticks(StartTimer(s), n).status == Pomodoro
  {
    var t := StartTimer(s);
    assert WorkStart(t) && t.pomodoroCount == s.model.pomodoroCount &&
           t.model == s.model && t.notifications == s.notifications;
    RemainingSession(t, s.model.pomodoroCount);
    ResetForgets(t, s);
    if s.model.pomodoroCount <= 1 {
      WorkPhaseStaysAtWork(t);
    }
  }

  /** The end-to-end example: one 20-minute interval completes on the 1201st
      tick, not the 1200th, back at "20:00" with one notification. */
  lemma SingleTwentyMinuteSession(s: State)
    requires Inv(s) && !s.isSessionActive && s.model == Model(1, 20, 5)
    ensures StartTimer(s).timerString == "20:00"
    ensures Ticks(StartTimer(s), 1200).isSessionActive
    ensures var t := Ticks(StartTimer(s), 1201);
      !t.isSessionActive && t.pomodorLengthInSeconds == 1200 && t.completedPomodoro == 0 &&
      t.timerString == "20:00" && t.notifications == s.notifications + 1
  {
    TimerText.FormatWithoutHours();
    WholeSession(s);
    WorkPhase(StartTimer(s));
  }
}
