/** The session configuration that the settings sheet edits: how many work
    intervals a session has and how long work and break intervals last.
    The sliders only produce whole numbers, so all three are natural numbers. */
module Config {

  datatype Model = Model(pomodoroCount: nat, pomodoroLengthInMinutes: nat, breakLengthInMinutes: nat)
  {
    /** Length of a work interval in seconds. */
    function PomodoroLengthInSeconds(): (r: nat)
      ensures r % 60 == 0 && r / 60 == pomodoroLengthInMinutes
    {
      pomodoroLengthInMinutes * 60
    }

    /** Length of a break interval in seconds. */
    function BreakLengthInSeconds(): (r: nat)
      ensures r % 60 == 0 && r / 60 == breakLengthInMinutes
    {
      breakLengthInMinutes * 60
    }
  }

  /** The configuration a fresh controller starts with. */
  function Default(): (m: Model)
    ensures m.pomodoroCount == 3
    ensures m.PomodoroLengthInSeconds() == 1200 && m.BreakLengthInSeconds() == 300
  {
    Model(3, 20, 5)
  }

  /** Two configurations are equal exactly when their three fields are; this
      equality is what decides whether an edit resets the session. */
  lemma EqualityIsFieldwise(a: Model, b: Model)
    ensures a == b <==>
      (a.pomodoroCount == b.pomodoroCount &&
       a.pomodoroLengthInMinutes == b.pomodoroLengthInMinutes &&
       a.breakLengthInMinutes == b.breakLengthInMinutes)
  {
  }
}
