# Temperature converter core, modelled in Dafny

The repository is a tkinter program that converts a temperature between Celsius and
Fahrenheit, keeps a history of the conversions, shows the newest of them in a history
dialog and exports the whole history to a dated text file. Nearly all of it is widget
layout. This project models the logic inside the widgets of the finished converter
(`B_01_Temp_Gui_v2.py`) and of the history-dialog draft (`C_03_History_GUI_v2.py`). It
states that logic as pure functions over a `seq<string>` history, plus a small state
machine for the help and history buttons.

Modules, one file each:

- `Wrappers` (`wrappers.dfy`): `Option`.
- `Decimal` (`decimal.dfy`): Python's `str(int)` and zero-padded `strftime` fields, with
  the parsers that read them back.
- `Lines` (`lines.dfy`): reversal, join with a separator, write each line followed by a
  terminator, and split back into lines.
- `Records` (`records.dfy`): the environment (constants, conversions, float rendering),
  the conversion direction and the record string `"{x}°C is {f(x)}°F"` / `"{x}°F is {g(x)}°C"`,
  with a parser.
- `Validation` (`validation.dfy`): `check_temp` and `convert`.
- `HistoryView` (`history_view.dfy`): the newest-first, `MAX_CALCS`-bounded view, the
  source's loop that builds it, and the intro label of both snapshots.
- `Export` (`export.dfy`): file name, header and content of the export, and the
  overwrite of the file.
- `Session` (`session.dfy`): buttons, dialogs and events.
- `Draft` (`draft.dfy`): the seeded history and dialog of the draft snapshot.

Collaborators that are not shown are parameters, gathered in `Records.Env`:

- the constants `ABS_ZERO_CELSIUS`, `ABS_ZERO_FAHRENHEIT` and `MAX_CALCS` from
  `all_constants`;
- the rounding conversions `to_fahrenheit` / `to_celsius` from `conversion_rounding`;
- Python's rendering of a float.

`Env.Valid` asks for three things. The two minima differ. `MAX_CALCS` is positive. A
rendered float holds no degree sign and no line break.

The parsed entry is an `Option<real>`: `None` stands for `float()` raising `ValueError`.
The date is a parameter, and the file system is a `map<string, string>`.

## Model

| member | source | states |
|---|---|---|
| `Validation.Validate` | B_01_Temp_Gui_v2.py:93-105 | Non-numeric input is "not a number". A number is accepted exactly when it is at or above the minimum, so the bound is inclusive. Anything below it is rejected. |
| `Validation.Convert` | B_01_Temp_Gui_v2.py:113-132 | A valid conversion appends exactly one record at the end and leaves earlier records unchanged. The record shown is the one appended. Read back, it names the rendered input, the direction the minimum selects and the rounded answer. |
| `Validation.CheckTemp` | B_01_Temp_Gui_v2.py:79-111 | Not a number: the message is "Please enter a number" and the history is unchanged. Below the minimum: the message is "Enter a number more than / equal to {min}" and the history is unchanged. Otherwise the result is that of `convert`. |
| `Validation.CheckTempAppendsExactlyOnValid` | B_01_Temp_Gui_v2.py:96-132 | The answer label reads as a record exactly when the input was accepted. In that case the history grew by exactly that record; otherwise it is unchanged. It never loses a record. |
| `Validation.BelowMinimumNamesBound` | B_01_Temp_Gui_v2.py:93-101 | The below-minimum message carries the minimum, and the number in it reads back as that minimum. |
| `Validation.DirectionFollowsMinimum` | B_01_Temp_Gui_v2.py:120-126 | The Celsius minimum gives a "°C is …°F" record holding `to_fahrenheit(x)`. Any other minimum gives a "°F is …°C" record holding `to_celsius(x)`. |
| `Records.DirectionOf` | B_01_Temp_Gui_v2.py:120-126 | Fahrenheit is the target exactly when the minimum is the Celsius absolute zero. |
| `Records.Record` | B_01_Temp_Gui_v2.py:120-126 | A record holds a degree sign and never a line break, so it stays one line of the view and of the export. |
| `Records.RecordRoundTrip` | B_01_Temp_Gui_v2.py:120-126 | Parsing a record gives back the input as rendered, the direction and the rounded answer. |
| `Decimal.IntRoundTrip` | B_01_Temp_Gui_v2.py:93 | The f-string rendering of an integer (the minimum, the answer) reads back as that integer. |
| `Decimal.PadRoundTrip` | B_01_Temp_Gui_v2.py:319-322 | A zero-padded day, month or year reads back as its number. |
| `Decimal.PadWidth` | B_01_Temp_Gui_v2.py:319-322 | A value with at most `width` digits pads to exactly `width` characters. |
| `HistoryView.NewestFirst` | B_01_Temp_Gui_v2.py:243-262 | The view has min(`MAX_CALCS`, total) items. Item i is `history[total-1-i]`. |
| `HistoryView.BuildView` | B_01_Temp_Gui_v2.py:242-262 | The source's loop puts every shown record but the last with a line break, then the last bare. The result is the shown records joined by "\n" with no trailing line break. |
| `HistoryView.ViewTextLines` | B_01_Temp_Gui_v2.py:242-262 | The label text split at line breaks is exactly the shown records, newest first. |
| `HistoryView.ViewIsNewestSuffix` | C_03_History_GUI_v2.py:70-89 | The view is the reversal of the newest records only. Records older than those are absent. When the history fits, all of it is shown, reversed. |
| `HistoryView.LabelMatchesView` | B_01_Temp_Gui_v2.py:234-240 | The "all" wording appears exactly when every record is shown. Otherwise the label is "…-showing N / total", and its counts read back as the number of records shown and the number stored. |
| `HistoryView.CountsRoundTrip` | B_01_Temp_Gui_v2.py:239-240 | "{N} / {total}" reads back as the pair (N, total). |
| `Export.WriteExport` | B_01_Temp_Gui_v2.py:324-344 | The export file holds exactly the new content and every other file is untouched. The message is "Export Successful! The file is called {stem}.txt". |
| `Export.ContentLines` | B_01_Temp_Gui_v2.py:335-344 | Read line by line, the file is the title, "Generated: DD/MM/YYYY", an empty line, the intro, then every record oldest first with none cut by `MAX_CALCS`. The last line ends with a line break. |
| `Export.HeaderIsTerminated` | B_01_Temp_Gui_v2.py:336-338 | The three header writes are the four header lines, each ended by a line break. |
| `Export.ExportIdempotent` | B_01_Temp_Gui_v2.py:333-335 | Exporting the same history twice on one day leaves the same files as exporting once. The file is overwritten, not appended to. |
| `Export.FileNameRoundTrip` | B_01_Temp_Gui_v2.py:319-333 | The file name is 27 characters long, `temperatures_YYYY_MM_DD.txt`, and reads back as the date it was made from. |
| `Export.FileNameInjective` | B_01_Temp_Gui_v2.py:325 | Different days never share an export file name. |
| `Session.ButtonSelectsDirection` | B_01_Temp_Gui_v2.py:48-50 | "To Celsius" passes the Fahrenheit minimum and yields a Celsius record. "To Fahrenheit" does the opposite. |
| `Session.ConvertAsWritten` | B_01_Temp_Gui_v2.py:128-132 | A valid conversion enables the history button, even while a history dialog is open. |
| `Session.ConvertGuarded` | B_01_Temp_Gui_v2.py:128-129 | The corrected conversion leaves the history button alone while a history dialog is open. |
| `Session.DialogStep` | B_01_Temp_Gui_v2.py:204-210 | Opening, closing and exporting never change the history. |
| `Session.InitInv` | B_01_Temp_Gui_v2.py:72-77 | The window starts with the help button enabled, the history button disabled and no records. |
| `Session.ConvertGuardedPreservesInv` | B_01_Temp_Gui_v2.py:128-132 | A conversion keeps the dialog invariant and only stores record strings. |
| `Session.StepPreservesInv` | B_01_Temp_Gui_v2.py:218-228 | Every event keeps the invariant. There is at most one dialog of each kind. Each button is enabled exactly when its dialog is closed; for history, only when there are records to show. The history only grows at its end. |
| `Session.RunPreservesInv` | B_01_Temp_Gui_v2.py:346-352 | The invariant and append-only history hold over any sequence of events. |
| `Session.ReachableInv` | B_01_Temp_Gui_v2.py:72-77 | In the corrected machine, every state reachable from a fresh window satisfies the invariant: at most one dialog of each kind, and the history dialog never opens on an empty history. |
| `Session.StepAsWrittenPreservesInv` | B_01_Temp_Gui_v2.py:128-132 | In the program as written, every event keeps the history button enabled, and a history dialog open, only when there are records. The history only grows at its end. |
| `Session.RunAsWrittenPreservesInv` | B_01_Temp_Gui_v2.py:346-352 | The as-written guarantee and the append-only history hold over any sequence of events. |
| `Session.ReachableInvAsWritten` | B_01_Temp_Gui_v2.py:72-77 | In the program as written, from a fresh window the history dialog never opens on an empty history, so the crash when indexing its last item is unreachable. |
| `Session.OpenDialogView` | B_01_Temp_Gui_v2.py:243-262 | Whenever a history dialog is open, the view can be built and its lines are the newest records. |
| `Session.HistoryOpenClose` | B_01_Temp_Gui_v2.py:346-352 | Opening the history dialog disables its button. Closing it re-enables the button and restores the state. |
| `Session.HelpOpenClose` | B_01_Temp_Gui_v2.py:204-210 | Opening the help dialog disables its button. Closing it re-enables the button and restores the state. |
| `Session.AsWrittenOpensSecondHistoryDialog` | B_01_Temp_Gui_v2.py:128-129 | Sequence: convert, open history, convert, press history. In the source this opens two history dialogs. In the corrected model only one is open. |
| `Draft.DraftInit` | C_03_History_GUI_v2.py:16-30 | The draft starts with the five seeded records, the history button enabled and no dialog. |
| `Draft.SeededView` | C_03_History_GUI_v2.py:69-89 | With `MAX_CALCS = 5`, the view is the five seeded records in reverse order, joined by "\n". |
| `Draft.SeededLabel` | C_03_History_GUI_v2.py:61-67 | The draft's wording is "all your your calculations", with the word repeated as in the source. |
| `Draft.DraftOpenClose` | C_03_History_GUI_v2.py:141-147 | Opening the draft's dialog disables the history button and leaves the list as it was. Closing it enables the button again. |

## Findings

| source | as written | input that shows it | evidently intended | confidence | as-written member | corrected member |
|---|---|---|---|---|---|---|
| B_01_Temp_Gui_v2.py:128-129 | `convert` sets the history button to NORMAL on every valid conversion | press "To Fahrenheit" with 10, press "History / Export", press "To Fahrenheit" with 10, press "History / Export" again: two history dialogs are open | the button stays disabled while a history dialog is open; the docstring at lines 142-146 says the button is disabled so that users can't create multiple history boxes | medium, not executed | `Session.AsWrittenOpensSecondHistoryDialog` (over `Session.ConvertAsWritten`) | `Session.ConvertGuarded` (used by `Session.Step`; `Session.StepPreservesInv`) |

`Session.StepAsWritten` and `Session.RunAsWritten` model the source as written.
`Session.Step` and `Session.Run` use the corrected conversion. The two differ only in
that one transition.

## Left out

- Widgets, layout, colours, fonts, `Toplevel` and the window-close protocol wiring. These
  are presentation only.
- Resetting the entry box and its colours (lines 89-91, 109-111).
- The help text.
- `print` output.
- `C_01_Temp_Gui_v1.py` and `C_03_History_GUI.py`. They hold layout and fixed text only.
- `all_constants` and `conversion_rounding` are not part of this model. Their constants and
  conversions are fields of `Records.Env`, so no formula or rounding rule is assumed. The
  answer is taken to be an integer rendered like `str(int)`.
- Python's float parsing and rendering. Parsing is an `Option<real>`. Rendering is
  `Env.showFloat`, assumed free of degree signs and line breaks. `nan` and `inf` have no
  counterpart in `real`.
- Opening and writing the file, and `date.today()`. The export is a pure function of the
  date and the history into a file map. `export_data` does not catch write errors; a
  write error is not modelled.
- A year below 1000 is padded to four digits, as the file-name format promises. C
  libraries differ on whether `strftime("%Y")` pads such years.
- The history dialog's labels are not kept in the state. The view is computed from the
  history. The source fixes the text when the dialog opens, while the export button
  writes the live list.
- The `IndexError` of an empty history view. `HistoryView.BuildView` requires a non-empty
  history. `Session.ReachableInvAsWritten` shows that the disabled button guarantees one in
  the program as written, and `Session.ReachableInv` shows the same in the corrected machine.
- Validation.CheckTemp: takes `ABS_ZERO_CELSIUS` and `ABS_ZERO_FAHRENHEIT` to be Python
  ints, so the below-minimum message renders the minimum like `str(int)` ("-273"). A float
  constant would render as "-273.0"; `all_constants` is not part of this model.
- `check_temp` parses the entry with `float()` and sets the answer label itself. It does not
  return an error value to a caller.
