/**
 `HistoryExport.export_data`: the whole history, oldest first and never cut to
 `MAX_CALCS`, written under a fixed three-line header to a file named after the
 calendar date. The date is a parameter (the clock is not modelled) and the file
 system is a map from file names to contents.
 */
module Export {
  import opened Wrappers
  import opened Decimal
  import opened Lines

  /** A calendar date as `date.today()` yields it. */
  datatype Date = Date(day: nat, month: nat, year: nat) {
    predicate Valid() {
      1 <= day <= 31 && 1 <= month <= 12 && 1 <= year <= 9999
    }
  }

  /** `strftime("%d")`, `strftime("%m")` and `strftime("%Y")`. */
  function DayText(d: Date): string { PadLeft(d.day, 2) }
  function MonthText(d: Date): string { PadLeft(d.month, 2) }
  function YearText(d: Date): string { PadLeft(d.year, 4) }

  const FilePrefix := "temperatures_"
  const FileSuffix := ".txt"

  /** `temperatures_{YYYY}_{MM}_{DD}`, the name without its extension. */
  function FileStem(d: Date): string {
    FilePrefix + YearText(d) + "_" + MonthText(d) + "_" + DayText(d)
  }

  function FileName(d: Date): string {
    FileStem(d) + FileSuffix
  }

  /** The label text shown after an export. */
  function SuccessMessage(d: Date): string {
    "Export Successful! The file is called " + FileStem(d) + FileSuffix
  }

  const TitleLine := "***** Temperature Calculations ***** "

  /** One header line; written as two literals only to keep the literal short. */
  const IntroLine := "Here is your calculation " + "history (oldest to newest) "

  function GeneratedLine(d: Date): string {
    "Generated: " + DayText(d) + "/" + MonthText(d) + "/" + YearText(d)
  }

  /** The header as lines: title, generation date, an empty line, intro. */
  function HeaderLines(d: Date): seq<string> {
    [TitleLine, GeneratedLine(d), "", IntroLine]
  }

  /** The three header `write`s. */
  function Header(d: Date): string {
    TitleLine + "\n" + GeneratedLine(d) + "\n\n" + IntroLine + "\n"
  }

  /** The file content: the header, then every record followed by a line break. */
  function Content(d: Date, history: seq<string>): string {
    Header(d) + Terminated(history, '\n')
  }

  /** What an export leaves behind: the files and the message shown. */
  datatype Exported = Exported(files: map<string, string>, message: string)

  /**
   Opening the file with mode `"w"` replaces whatever it held: the export's file holds
   exactly the new content and every other file is untouched.
   */
  function WriteExport(files: map<string, string>, d: Date, history: seq<string>): (r: Exported)
    ensures r.files.Keys == files.Keys + {FileName(d)}
    ensures r.files[FileName(d)] == Content(d, history)
    ensures forall name :: name in files && name != FileName(d) ==> r.files[name] == files[name]
    ensures r.message == SuccessMessage(d)
  {
    Exported(files[FileName(d) := Content(d, history)], SuccessMessage(d))
  }

  /**
   The file read back line by line is the header, then every record oldest first with
   none dropped, then the empty text after the last line break.
   */
  lemma ContentLines(d: Date, history: seq<string>)
    requires NoneContains(history, '\n')
    ensures SplitOn(Content(d, history), '\n') == HeaderLines(d) + history + [""]
  {
    var h := HeaderLines(d);
    HeaderIsTerminated(d);
    TerminatedAppend(h, history, '\n');
    HeaderHasNoLineBreak(d);
    assert NoneContains(h + history, '\n');
    SplitTerminated(h + history, '\n');
  }

  lemma HeaderIsTerminated(d: Date)
    ensures Terminated(HeaderLines(d), '\n') == Header(d)
  {
    var g := GeneratedLine(d);
    var h := HeaderLines(d);
    assert h[1..] == [g, "", IntroLine];
    assert h[1..][1..] == ["", IntroLine];
    assert h[1..][1..][1..] == [IntroLine];
    assert Terminated([IntroLine], '\n') == IntroLine + "\n";
    assert Terminated(["", IntroLine], '\n') == "\n" + IntroLine + "\n";
    assert Terminated([g, "", IntroLine], '\n') == g + "\n\n" + IntroLine + "\n";
  }

  lemma HeaderHasNoLineBreak(d: Date)
    ensures NoneContains(HeaderLines(d), '\n')
  {
    GeneratedHasNoLineBreak(d);
    FixedLinesHaveNoLineBreak();
    var h := HeaderLines(d);
    assert h[0] == TitleLine && h[1] == GeneratedLine(d) && h[2] == "" && h[3] == IntroLine;
  }

  lemma GeneratedHasNoLineBreak(d: Date)
    ensures '\n' !in GeneratedLine(d)
  {
    NoLineBreakInDigits(DayText(d));
    NoLineBreakInDigits(MonthText(d));
    NoLineBreakInDigits(YearText(d));
  }

  lemma FixedLinesHaveNoLineBreak()
    ensures '\n' !in TitleLine
    ensures '\n' !in IntroLine
  {
  }

  lemma NoLineBreakInDigits(s: string)
    requires AllDigits(s)
    ensures '\n' !in s
  {
    forall k | 0 <= k < |s| ensures s[k] != '\n' { assert IsDigit(s[k]); }
  }

  /** Exporting twice on the same day leaves the same files as exporting once. */
  lemma ExportIdempotent(files: map<string, string>, d: Date, history: seq<string>)
    ensures WriteExport(WriteExport(files, d, history).files, d, history) == WriteExport(files, d, history)
  {
  }

  /**
   The file name reads back as the date it was made from, so two different days never
   share an export file and a day's repeated exports always overwrite each other.
   */
  function ParseFileName(name: string): Option<Date> {
    // Layout: FilePrefix at 0..13, year at 13..17, '_' at 17, month at 18..20,
    // '_' at 20, day at 21..23, FileSuffix at 23..27.
    if |name| != 27 || name[..13] != FilePrefix || name[23..] != FileSuffix
       || name[17] != '_' || name[20] != '_' then None
    else
      match (ParseNat(name[13..17]), ParseNat(name[18..20]), ParseNat(name[21..23]))
      case (Some(y), Some(m), Some(dd)) => Some(Date(dd, m, y))
      case _ => None
  }

  lemma FileNameRoundTrip(d: Date)
    requires d.Valid()
    ensures |FileName(d)| == 27
    ensures ParseFileName(FileName(d)) == Some(d)
  {
    assert Pow10(2) == 100 && Pow10(4) == 10000;
    PadWidth(d.year, 4);
    PadWidth(d.month, 2);
    PadWidth(d.day, 2);
    var name := FileName(d);
    assert name[..13] == FilePrefix;
    assert name[13..17] == YearText(d);
    assert name[18..20] == MonthText(d);
    assert name[21..23] == DayText(d);
    assert name[23..] == FileSuffix;
    PadRoundTrip(d.year, 4);
    PadRoundTrip(d.month, 2);
    PadRoundTrip(d.day, 2);
  }

  lemma FileNameInjective(d1: Date, d2: Date)
    requires d1.Valid() && d2.Valid()
    requires FileName(d1) == FileName(d2)
    ensures d1 == d2
  {
    FileNameRoundTrip(d1);
    FileNameRoundTrip(d2);
  }
}
