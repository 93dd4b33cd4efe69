/**
 The history-dialog draft of the program: the converter starts with five seeded records
 and an enabled history button, and the dialog shows them with the draft's wording.
 */
module Draft {
  import opened Lines
  import opened Records
  import opened HistoryView
  import opened Session

  /** The records the draft's converter starts with, oldest first. */
  const Seeded: seq<string> := [
    "10.0°C is 50°F", "10.0°F is -12°C",
    "52.0°F is 11°C", "12.0°F is -11°C",
    "5.0°C is 41°F"]

  /** The draft's window: seeded history, history button enabled, no dialog open. */
  function DraftInit(): (s: State)
    ensures s.history == Seeded && s.buttons.historyEnabled && s.historyDialogs == 0
  {
    State(Seeded, "", Buttons(true, true), 0, 0, map[])
  }

  /**
   With five calculations shown, the dialog lists the seeded records newest first, one
   per line and without a trailing line break.
   */
  lemma SeededView()
    ensures NewestFirst(Seeded, 5) ==
      ["5.0°C is 41°F", "12.0°F is -11°C", "52.0°F is 11°C", "10.0°F is -12°C", "10.0°C is 50°F"]
    ensures ViewText(Seeded, 5) ==
      "5.0°C is 41°F" + "\n" + "12.0°F is -11°C" + "\n" + "52.0°F is 11°C" + "\n"
      + "10.0°F is -12°C" + "\n" + "10.0°C is 50°F"
  {
    var v := NewestFirst(Seeded, 5);
    assert v == [Seeded[4], Seeded[3], Seeded[2], Seeded[1], Seeded[0]];
    assert v[1..][1..][1..][1..] == [Seeded[0]];
    assert Join(v[1..][1..][1..], "\n") == Seeded[1] + "\n" + Seeded[0];
    assert Join(v[1..][1..], "\n") == Seeded[2] + "\n" + (Seeded[1] + "\n" + Seeded[0]);
    assert Join(v[1..], "\n") == Seeded[3] + "\n" + (Seeded[2] + "\n" + (Seeded[1] + "\n" + Seeded[0]));
  }

  /** All five seeded records fit, so the draft's label uses its "all" wording, duplicated word included. */
  lemma SeededLabel()
    ensures CalcAmount(Draft, |Seeded|, 5) == "all your your calculations"
    ensures IntroText(Draft, |Seeded|, 5) ==
      "Below are " + "all your your calculations" + " calculations (to the nearest degree)."
  {
  }

  /** In the draft too, the history button is disabled while the dialog is open and enabled after closing it. */
  lemma DraftOpenClose(env: Env)
    requires env.Valid()
    ensures var afterOpen := Step(env, DraftInit(), PressHistory);
      && afterOpen.historyDialogs == 1 && !afterOpen.buttons.historyEnabled
      && afterOpen.history == Seeded
      && Step(env, afterOpen, CloseHistory) == DraftInit()
  {
  }
}
