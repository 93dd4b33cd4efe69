/**
 `HistoryExport.__init__`: the history dialog shows the newest calculations first, at
 most `MAX_CALCS` of them, one per line, under an intro label that says whether all
 of them are shown. The same algorithm appears in two snapshots of the program with
 different label wording.
 */
module HistoryView {
  import opened Wrappers
  import opened Decimal
  import opened Lines

  /** The newest `min(maxCalcs, |history|)` records, newest first. */
  function NewestFirst(history: seq<string>, maxCalcs: nat): (v: seq<string>)
    requires 0 < maxCalcs
    ensures |v| == if |history| <= maxCalcs then |history| else maxCalcs
    ensures forall i :: 0 <= i < |v| ==> v[i] == history[|history| - 1 - i]
  {
    var shown := if |history| <= maxCalcs then |history| else maxCalcs;
    Reverse(history)[..shown]
  }

  /** The text of the calculation label: the shown records separated by line breaks. */
  function ViewText(history: seq<string>, maxCalcs: nat): string
    requires 0 < maxCalcs
  {
    Join(NewestFirst(history, maxCalcs), "\n")
  }

  /**
   The loop the dialog runs to build the label text: every shown record but the last
   followed by a line break, then the last one on its own. The source indexes the last
   record directly, so an empty history would raise `IndexError`; the disabled history
   button keeps that from happening.
   */
  method BuildView(history: seq<string>, maxCalcs: nat) returns (text: string)
    requires 0 < |history|
    requires 0 < maxCalcs
    ensures text == ViewText(history, maxCalcs)
  {
    var newestFirst := Reverse(history);
    var last: nat;
    if |newestFirst| <= maxCalcs {
      last := |newestFirst| - 1;
    } else {
      last := maxCalcs - 1;
    }
    var front := newestFirst[..last];
    text := "";
    var k := 0;
    while k < |front|
      invariant 0 <= k <= |front|
      invariant text == Terminated(front[..k], '\n')
    {
      TerminatedAppend(front[..k], [front[k]], '\n');
      assert front[..k + 1] == front[..k] + [front[k]];
      text := text + front[k] + "\n";
      k := k + 1;
    }
    text := text + newestFirst[last];
    var shown := NewestFirst(history, maxCalcs);
    assert front == shown[..|shown| - 1];
    assert front[..k] == front;
    TerminatedThenLast(shown, '\n');
  }

  /**
   The label text read back line by line is the shown records, newest first, provided no
   record holds a line break (records never do).
   */
  lemma ViewTextLines(history: seq<string>, maxCalcs: nat)
    requires 0 < |history|
    requires 0 < maxCalcs
    requires NoneContains(history, '\n')
    ensures SplitOn(ViewText(history, maxCalcs), '\n') == NewestFirst(history, maxCalcs)
  {
    var v := NewestFirst(history, maxCalcs);
    assert NoneContains(v, '\n') by {
      forall i | 0 <= i < |v| ensures '\n' !in v[i] {
        assert v[i] == history[|history| - 1 - i];
      }
    }
    SplitJoin(v, '\n');
  }

  /**
   The view is exactly the newest records of the history, reversed: every record older
   than the shown ones is left out, and when the history fits, every record is shown.
   */
  lemma ViewIsNewestSuffix(history: seq<string>, maxCalcs: nat)
    requires 0 < maxCalcs
    ensures var v := NewestFirst(history, maxCalcs);
      && v == Reverse(history[|history| - |v|..])
      && (|history| <= maxCalcs ==> v == Reverse(history))
  {
  }

  /** Which snapshot of the program: the finished converter or the history-dialog draft. */
  datatype Snapshot = Final | Draft

  /** The wording used when every calculation is shown (the draft repeats a word). */
  function AllWording(snap: Snapshot): string {
    match snap
    case Final => "all your calculations"
    case Draft => "all your your calculations"
  }

  /** The wording in front of the counts when the view is cut short. */
  function ShowingWording(snap: Snapshot): string {
    match snap
    case Final => "your calculations -showing "
    case Draft => "your recent calculations -showing "
  }

  /** The counts as the label writes them: `"{shown} / {total}"`. */
  function Counts(shown: nat, total: nat): string {
    NatToString(shown) + " / " + NatToString(total)
  }

  /** The `calc_amount` phrase of the intro label. */
  function CalcAmount(snap: Snapshot, total: nat, maxCalcs: nat): string {
    if total <= maxCalcs then AllWording(snap) else ShowingWording(snap) + Counts(maxCalcs, total)
  }

  /** The whole intro label of the dialog. */
  function IntroText(snap: Snapshot, total: nat, maxCalcs: nat): string {
    "Below are " + CalcAmount(snap, total, maxCalcs) + " calculations (to the nearest degree)."
  }

  /** Reads `"{shown} / {total}"` back. */
  function ParseCounts(s: string): Option<(nat, nat)> {
    var i := FirstIndex(s, ' ');
    if |s| < i + 3 || s[i..i + 3] != " / " then None
    else
      match (ParseNat(s[..i]), ParseNat(s[i + 3..]))
      case (Some(a), Some(b)) => Some((a, b))
      case _ => None
  }

  lemma CountsRoundTrip(shown: nat, total: nat)
    ensures ParseCounts(Counts(shown, total)) == Some((shown, total))
  {
    var a := NatToString(shown);
    var b := NatToString(total);
    var s := Counts(shown, total);
    assert ' ' !in a by {
      forall k | 0 <= k < |a| ensures a[k] != ' ' { assert IsDigit(a[k]); }
    }
    assert s == a + [' '] + ("/ " + b);
    FirstIndexAfter(a, ' ', "/ " + b);
    assert s[..|a|] == a;
    assert s[|a|..|a| + 3] == " / ";
    assert s[|a| + 3..] == b;
    NatRoundTrip(shown);
    NatRoundTrip(total);
  }

  /**
   The intro label agrees with the view: it uses the "all" wording exactly when every
   record is shown, and otherwise its counts read back as the number of records shown
   and the number stored.
   */
  lemma LabelMatchesView(snap: Snapshot, history: seq<string>, maxCalcs: nat)
    requires 0 < maxCalcs
    ensures var a := CalcAmount(snap, |history|, maxCalcs);
      var v := NewestFirst(history, maxCalcs);
      && (a == AllWording(snap) <==> |v| == |history|)
      && (a != AllWording(snap) ==>
            && a[..|ShowingWording(snap)|] == ShowingWording(snap)
            && ParseCounts(a[|ShowingWording(snap)|..]) == Some((|v|, |history|)))
  {
    var a := CalcAmount(snap, |history|, maxCalcs);
    if |history| > maxCalcs {
      assert a[0] != AllWording(snap)[0];
      assert a[|ShowingWording(snap)|..] == Counts(maxCalcs, |history|);
      CountsRoundTrip(maxCalcs, |history|);
    }
  }
}
