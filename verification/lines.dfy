/**
 Line-oriented text: reversing a list of lines, joining lines with a separator (as the
 history view does), writing lines each followed by a terminator (as the export file
 does), and splitting text back into lines.
 */
module Lines {

  /** The lines in the opposite order, as Python's `list(reversed(xs))`. */
  function Reverse<T>(xs: seq<T>): (r: seq<T>)
    ensures |r| == |xs|
    ensures forall i :: 0 <= i < |xs| ==> r[i] == xs[|xs| - 1 - i]
  {
    if |xs| == 0 then [] else Reverse(xs[1..]) + [xs[0]]
  }

  /** The lines separated by `sep`, with no separator after the last one. */
  function Join(items: seq<string>, sep: string): string
  {
    if |items| == 0 then ""
    else if |items| == 1 then items[0]
    else items[0] + sep + Join(items[1..], sep)
  }

  /** Every line followed by `c`, as a loop of `write(item); write("\n")` produces. */
  function Terminated(items: seq<string>, c: char): string
  {
    if |items| == 0 then "" else items[0] + [c] + Terminated(items[1..], c)
  }

  /** The text cut at every occurrence of `c`; the pieces never contain `c`. */
  function SplitOn(s: string, c: char): (parts: seq<string>)
    ensures 0 < |parts|
    ensures forall i :: 0 <= i < |parts| ==> c !in parts[i]
  {
    if |s| == 0 then [""]
    else
      var rest := SplitOn(s[1..], c);
      if s[0] == c then [""] + rest else [[s[0]] + rest[0]] + rest[1..]
  }

  predicate NoneContains(items: seq<string>, c: char) {
    forall i :: 0 <= i < |items| ==> c !in items[i]
  }

  /** A piece without the separator is one line. */
  lemma {:induction false} SplitWithout(a: string, c: char)
    requires c !in a
    ensures SplitOn(a, c) == [a]
  {
    if |a| > 0 {
      SplitWithout(a[1..], c);
      assert [a[0]] + a[1..] == a;
    }
  }

  /** Splitting at the first separator yields the piece before it, then the rest's split. */
  lemma {:induction false} SplitAtFirst(a: string, c: char, b: string)
    requires c !in a
    ensures SplitOn(a + [c] + b, c) == [a] + SplitOn(b, c)
  {
    if |a| == 0 {
      assert (a + [c] + b)[1..] == b;
    } else {
      assert (a + [c] + b)[1..] == a[1..] + [c] + b;
      SplitAtFirst(a[1..], c, b);
      assert [a[0]] + a[1..] == a;
    }
  }

  /** Joined lines split back into the same lines when no line holds the separator. */
  lemma {:induction false} SplitJoin(items: seq<string>, c: char)
    requires 0 < |items|
    requires NoneContains(items, c)
    ensures SplitOn(Join(items, [c]), c) == items
  {
    if |items| == 1 {
      SplitWithout(items[0], c);
    } else {
      SplitAtFirst(items[0], c, Join(items[1..], [c]));
      SplitJoin(items[1..], c);
      assert [items[0]] + items[1..] == items;
    }
  }

  /** Terminated lines split back into the same lines plus the empty text after the last terminator. */
  lemma {:induction false} SplitTerminated(items: seq<string>, c: char)
    requires NoneContains(items, c)
    ensures SplitOn(Terminated(items, c), c) == items + [""]
  {
    if |items| > 0 {
      SplitAtFirst(items[0], c, Terminated(items[1..], c));
      SplitTerminated(items[1..], c);
      assert [items[0]] + items[1..] == items;
    }
  }

  lemma {:induction false} TerminatedAppend(a: seq<string>, b: seq<string>, c: char)
    ensures Terminated(a + b, c) == Terminated(a, c) + Terminated(b, c)
  {
    if |a| > 0 {
      assert (a + b)[1..] == a[1..] + b;
      TerminatedAppend(a[1..], b, c);
    } else {
      assert a + b == b;
    }
  }

  /** Terminating all but the last line and then adding the last one bare is joining. */
  lemma {:induction false} TerminatedThenLast(items: seq<string>, c: char)
    requires 0 < |items|
    ensures Terminated(items[..|items| - 1], c) + items[|items| - 1] == Join(items, [c])
  {
    if |items| > 1 {
      var tail := items[1..];
      assert items[..|items| - 1][1..] == tail[..|tail| - 1];
      TerminatedThenLast(tail, c);
    }
  }

  /** Position of the first `c` in `s`, or `|s|` when there is none. */
  function FirstIndex(s: string, c: char): (i: nat)
    ensures i <= |s|
    ensures i < |s| ==> s[i] == c
    ensures forall k :: 0 <= k < i ==> s[k] != c
  {
    if |s| == 0 then 0
    else if s[0] == c then 0
    else 1 + FirstIndex(s[1..], c)
  }

  lemma FirstIndexAfter(a: string, c: char, b: string)
    requires c !in a
    ensures FirstIndex(a + [c] + b, c) == |a|
  {
    var s := a + [c] + b;
    assert s[|a|] == c;
    assert forall k :: 0 <= k < |a| ==> s[k] == a[k];
  }
}
