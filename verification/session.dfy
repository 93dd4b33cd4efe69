/**
 The converter window and its two dialogs as a state machine. The help and history
 buttons are disabled while their dialog is open and enabled again when it closes; a
 valid conversion enables the history button. Dialogs are not modal, so the converter
 buttons stay usable while a dialog is open. A disabled button ignores presses.
 */
module Session {
  import opened Wrappers
  import opened Lines
  import opened Records
  import opened Validation
  import opened HistoryView
  import opened Export

  datatype Buttons = Buttons(helpEnabled: bool, historyEnabled: bool)

  /**
   The converter's state: the stored records (oldest first), the answer label, the two
   button flags, how many help and history dialogs are open, and the files exports wrote.
   */
  datatype State = State(
    history: seq<string>,
    answer: string,
    buttons: Buttons,
    helpDialogs: nat,
    historyDialogs: nat,
    files: map<string, string>)

  /** What the user can do: a conversion button, the help / history buttons, a dialog's close or export button. */
  datatype Event =
    | PressConvert(button: Direction, input: Option<real>)
    | PressHelp
    | CloseHelp
    | PressHistory
    | CloseHistory
    | PressExport(date: Date)

  /** A fresh window: no records, the help button enabled, the history button disabled. */
  function Init(): State {
    State([], NotANumberText, Buttons(true, false), 0, 0, map[])
  }

  /** The minimum each conversion button hands to `check_temp`. */
  function MinimumOf(env: Env, button: Direction): int {
    match button
    case ToCelsius => env.absZeroFahrenheit
    case ToFahrenheit => env.absZeroCelsius
  }

  /** Each conversion button yields records of its own direction. */
  lemma ButtonSelectsDirection(env: Env, button: Direction)
    requires env.Valid()
    ensures DirectionOf(env, MinimumOf(env, button)) == button
  {
  }

  /**
   A conversion as the source performs it: on a valid input the record is appended and
   the history button is enabled, whether or not a history dialog is open.
   */
  function ConvertAsWritten(env: Env, s: State, button: Direction, input: Option<real>): (t: State)
    requires env.Valid()
    ensures Validate(input, MinimumOf(env, button)).Accepted? ==> t.buttons.historyEnabled
  {
    var o := CheckTemp(env, s.history, input, MinimumOf(env, button));
    if Validate(input, MinimumOf(env, button)).Accepted? then
      s.(history := o.history, answer := o.answer, buttons := s.buttons.(historyEnabled := true))
    else
      s.(answer := o.answer)
  }

  /**
   A conversion with the history button enabled only when no history dialog is open,
   which keeps the promise that at most one history dialog exists.
   */
  function ConvertGuarded(env: Env, s: State, button: Direction, input: Option<real>): (t: State)
    requires env.Valid()
    ensures s.historyDialogs > 0 ==> t.buttons.historyEnabled == s.buttons.historyEnabled
  {
    var o := CheckTemp(env, s.history, input, MinimumOf(env, button));
    if Validate(input, MinimumOf(env, button)).Accepted? then
      s.(history := o.history, answer := o.answer,
         buttons := s.buttons.(historyEnabled := s.buttons.historyEnabled || s.historyDialogs == 0))
    else
      s.(answer := o.answer)
  }

  /** Every event other than a conversion; these are the same in both versions. */
  function DialogStep(s: State, e: Event): (t: State)
    requires !e.PressConvert?
    ensures t.history == s.history
  {
    match e
    case PressHelp =>
      if s.buttons.helpEnabled then s.(helpDialogs := s.helpDialogs + 1, buttons := s.buttons.(helpEnabled := false)) else s
    case CloseHelp =>
      if s.helpDialogs > 0 then s.(helpDialogs := s.helpDialogs - 1, buttons := s.buttons.(helpEnabled := true)) else s
    case PressHistory =>
      if s.buttons.historyEnabled then s.(historyDialogs := s.historyDialogs + 1, buttons := s.buttons.(historyEnabled := false)) else s
    case CloseHistory =>
      if s.historyDialogs > 0 then s.(historyDialogs := s.historyDialogs - 1, buttons := s.buttons.(historyEnabled := true)) else s
    case PressExport(d) =>
      if s.historyDialogs > 0 then s.(files := WriteExport(s.files, d, s.history).files) else s
  }

  /** The converter with the guarded conversion. */
  function Step(env: Env, s: State, e: Event): State
    requires env.Valid()
  {
    if e.PressConvert? then ConvertGuarded(env, s, e.button, e.input) else DialogStep(s, e)
  }

  /** The converter exactly as the source behaves. */
  function StepAsWritten(env: Env, s: State, e: Event): State
    requires env.Valid()
  {
    if e.PressConvert? then ConvertAsWritten(env, s, e.button, e.input) else DialogStep(s, e)
  }

  function Run(env: Env, s: State, events: seq<Event>): State
    requires env.Valid()
    decreases |events|
  {
    if |events| == 0 then s else Run(env, Step(env, s, events[0]), events[1..])
  }

  function RunAsWritten(env: Env, s: State, events: seq<Event>): State
    requires env.Valid()
    decreases |events|
  {
    if |events| == 0 then s else RunAsWritten(env, StepAsWritten(env, s, events[0]), events[1..])
  }

  /** Every stored entry is a record string, and none holds a line break. */
  predicate RecordsOnly(history: seq<string>) {
    forall i :: 0 <= i < |history| ==> '\n' !in history[i] && ParseRecord(history[i]).Some?
  }

  /**
   The dialog invariant: at most one dialog of each kind, each button enabled exactly
   when its dialog is closed (for history: and there is something to show), and an open
   history dialog always has records to show.
   */
  predicate Inv(s: State) {
    && s.helpDialogs <= 1
    && (s.buttons.helpEnabled <==> s.helpDialogs == 0)
    && s.historyDialogs <= 1
    && (s.buttons.historyEnabled <==> s.historyDialogs == 0 && 0 < |s.history|)
    && (s.historyDialogs > 0 ==> 0 < |s.history|)
    && RecordsOnly(s.history)
  }

  lemma InitInv()
    ensures Inv(Init())
  {
  }

  lemma ConvertGuardedPreservesInv(env: Env, s: State, button: Direction, input: Option<real>)
    requires env.Valid()
    requires Inv(s)
    ensures Inv(ConvertGuarded(env, s, button, input))
    ensures s.history <= ConvertGuarded(env, s, button, input).history
  {
    var minTemp := MinimumOf(env, button);
    CheckTempAppendsExactlyOnValid(env, s.history, input, minTemp);
    if Validate(input, minTemp).Accepted? {
      var o := CheckTemp(env, s.history, input, minTemp);
      var t := ConvertGuarded(env, s, button, input);
      assert t.history == s.history + [o.answer];
      assert '\n' !in o.answer;
      forall i | 0 <= i < |t.history|
        ensures '\n' !in t.history[i] && ParseRecord(t.history[i]).Some?
      {
        if i < |s.history| { assert t.history[i] == s.history[i]; }
      }
    }
  }

  /** Every step keeps the dialog invariant, and the history only ever grows at its end. */
  lemma StepPreservesInv(env: Env, s: State, e: Event)
    requires env.Valid()
    requires Inv(s)
    ensures Inv(Step(env, s, e))
    ensures s.history <= Step(env, s, e).history
  {
    if e.PressConvert? {
      ConvertGuardedPreservesInv(env, s, e.button, e.input);
    }
  }

  /**
   From a fresh window, whatever the user does: never two dialogs of one kind, the
   history dialog only opens on a non-empty history (so building its view never
   indexes an empty list), and only record strings are stored.
   */
  lemma {:induction false} RunPreservesInv(env: Env, s: State, events: seq<Event>)
    requires env.Valid()
    requires Inv(s)
    ensures Inv(Run(env, s, events))
    ensures s.history <= Run(env, s, events).history
    decreases |events|
  {
    if |events| > 0 {
      StepPreservesInv(env, s, events[0]);
      RunPreservesInv(env, Step(env, s, events[0]), events[1..]);
    }
  }

  lemma ReachableInv(env: Env, events: seq<Event>)
    requires env.Valid()
    ensures Inv(Run(env, Init(), events))
  {
    InitInv();
    RunPreservesInv(env, Init(), events);
  }

  /**
   What the source as written still guarantees: the history button is enabled, and a
   history dialog is open, only when there are records to show. It does not keep the
   one-dialog promise (see `AsWrittenOpensSecondHistoryDialog`).
   */
  predicate InvAsWritten(s: State) {
    && (s.buttons.historyEnabled ==> 0 < |s.history|)
    && (s.historyDialogs > 0 ==> 0 < |s.history|)
  }

  lemma StepAsWrittenPreservesInv(env: Env, s: State, e: Event)
    requires env.Valid()
    requires InvAsWritten(s)
    ensures InvAsWritten(StepAsWritten(env, s, e))
    ensures s.history <= StepAsWritten(env, s, e).history
  {
    if e.PressConvert? {
      CheckTempAppendsExactlyOnValid(env, s.history, e.input, MinimumOf(env, e.button));
    }
  }

  lemma {:induction false} RunAsWrittenPreservesInv(env: Env, s: State, events: seq<Event>)
    requires env.Valid()
    requires InvAsWritten(s)
    ensures InvAsWritten(RunAsWritten(env, s, events))
    ensures s.history <= RunAsWritten(env, s, events).history
    decreases |events|
  {
    if |events| > 0 {
      StepAsWrittenPreservesInv(env, s, events[0]);
      RunAsWrittenPreservesInv(env, StepAsWritten(env, s, events[0]), events[1..]);
    }
  }

  /**
   In the program as written, whatever the user does, the history dialog never opens on
   an empty history, so building its view never indexes an empty list.
   */
  lemma ReachableInvAsWritten(env: Env, events: seq<Event>)
    requires env.Valid()
    ensures var s := RunAsWritten(env, Init(), events);
      && (s.buttons.historyEnabled ==> 0 < |s.history|)
      && (s.historyDialogs > 0 ==> 0 < |s.history|)
  {
    RunAsWrittenPreservesInv(env, Init(), events);
  }

  /** An open history dialog can always build its view, and its lines are the newest records. */
  lemma OpenDialogView(env: Env, s: State)
    requires env.Valid()
    requires Inv(s)
    requires s.historyDialogs > 0
    ensures SplitOn(ViewText(s.history, env.maxCalcs), '\n') == NewestFirst(s.history, env.maxCalcs)
  {
    ViewTextLines(s.history, env.maxCalcs);
  }

  /** Opening the history dialog and closing it again restores the state. */
  lemma HistoryOpenClose(env: Env, s: State)
    requires env.Valid()
    requires Inv(s)
    requires s.buttons.historyEnabled
    ensures !Step(env, s, PressHistory).buttons.historyEnabled
    ensures Step(env, Step(env, s, PressHistory), CloseHistory) == s
  {
  }

  /** Opening the help dialog and closing it again restores the state. */
  lemma HelpOpenClose(env: Env, s: State)
    requires env.Valid()
    requires Inv(s)
    requires s.buttons.helpEnabled
    ensures !Step(env, s, PressHelp).buttons.helpEnabled
    ensures Step(env, Step(env, s, PressHelp), CloseHelp) == s
  {
  }

  /**
   In the source, a valid conversion with the history dialog open enables the history
   button again, so a second press opens a second history dialog.
   */
  lemma AsWrittenOpensSecondHistoryDialog()
    ensures var env := Env(-273, -459, 5, x => 50, x => 10, x => "10.0");
      && env.Valid()
      && var events := [PressConvert(ToFahrenheit, Some(10.0)), PressHistory,
                        PressConvert(ToFahrenheit, Some(10.0)), PressHistory];
      && RunAsWritten(env, Init(), events).historyDialogs == 2
      && Run(env, Init(), events).historyDialogs == 1
  {
    var env := Env(-273, -459, 5, x => 50, x => 10, x => "10.0");
    assert Plain("10.0");
    assert env.Valid();
    var c := PressConvert(ToFahrenheit, Some(10.0));
    var events := [c, PressHistory, c, PressHistory];
    var s1 := StepAsWritten(env, Init(), c);
    var s2 := StepAsWritten(env, s1, PressHistory);
    var s3 := StepAsWritten(env, s2, c);
    var s4 := StepAsWritten(env, s3, PressHistory);
    assert s4.historyDialogs == 2;
    assert RunAsWritten(env, Init(), events) == RunAsWritten(env, s1, events[1..]);
    assert events[1..][1..][1..][1..] == [];
    var g1 := Step(env, Init(), c);
    var g2 := Step(env, g1, PressHistory);
    var g3 := Step(env, g2, c);
    var g4 := Step(env, g3, PressHistory);
    assert g4.historyDialogs == 1;
  }
}
