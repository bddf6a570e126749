/** The lines of the server log, kept in a ring (`Log`, `Clear`, `SetMaxNumberLines` and the row
    lookup of serverlogger.cpp). */
module ServerLog {
  import opened Options

  // ---------------------------------------------------------------- control characters

  predicate IsControl(c: char) {
    (c != 9 as char && c <= 31 as char) || c == 127 as char
  }

  /** `remove_ctrl_chars` */
  function Printable(s: string): (r: string)
    ensures forall c :: c in r <==> c in s && !IsControl(c)
  {
    if s == "" then ""
    else
      assert forall c :: c in s <==> c == s[0] || c in s[1..];
      (if IsControl(s[0]) then "" else [s[0]]) + Printable(s[1..])
  }

  /** Character by character, in order: what lies below the blank is dropped, except for tabs, and so
      is DEL; everything else stays. */
  lemma {:induction false} PrintableByChar(a: string, c: char, b: string)
    ensures Printable(a + [c] + b)
         == Printable(a) + (if (c < ' ' && c != '\t') || c as int == 0x7f then "" else [c]) + Printable(b)
    decreases |a|
  {
    hide Printable;
    PrintableNothing();
    if a == "" {
      assert "" + [c] + b == [c] + b;
      PrintableFirst(c, b);
      var kept := if IsControl(c) then "" else [c];
      assert "" + kept + Printable(b) == kept + Printable(b);
    } else {
      var kept := if IsControl(a[0]) then "" else [a[0]];
      var more := if IsControl(c) then "" else [c];
      PrintableFirst(a[0], a[1..] + [c] + b);
      PrintableFirst(a[0], a[1..]);
      assert [a[0]] + (a[1..] + [c] + b) == a + [c] + b && [a[0]] + a[1..] == a;
      PrintableByChar(a[1..], c, b);
      assert kept + (Printable(a[1..]) + more + Printable(b)) == (kept + Printable(a[1..])) + more + Printable(b);
    }
  }

  lemma PrintableNothing()
    ensures Printable("") == ""
  {
  }

  lemma PrintableFirst(c: char, b: string)
    ensures Printable([c] + b) == (if IsControl(c) then "" else [c]) + Printable(b)
  {
    assert ([c] + b)[1..] == b;
  }

  // ---------------------------------------------------------------- the ring

  /** `begin` is where the oldest line is once the ring has come round. */
  datatype Ring = Ring(lines: seq<string>, begin: nat, max: nat)

  datatype Op = Write(line: string) | Clear | SetMax(max: nat)

  /** The next line does not go outside of the vector. */
  predicate CanWrite(s: Ring) {
    |s.lines| == s.max > 0 ==> s.begin < s.max
  }

  function Do(s: Ring, op: Op): Ring
    requires op.Write? ==> CanWrite(s)
  {
    match op
    case Clear => s.(lines := [], begin := 0)
    case SetMax(max) => s.(lines := if |s.lines| > max then s.lines[..max] else s.lines, max := max)
    case Write(line) =>
      if |s.lines| != s.max then s.(lines := s.lines + [line])
      else if s.max == 0 then s
      else s.(lines := s.lines[s.begin := line], begin := if s.begin + 1 == s.max then 0 else s.begin + 1)
  }

  predicate WellFormed(s: Ring) {
    |s.lines| <= s.max && (s.begin == 0 || s.begin < |s.lines| == s.max)
  }

  /** The lines from the oldest to the newest. */
  function Rows(s: Ring): seq<string>
    requires WellFormed(s)
  {
    s.lines[s.begin..] + s.lines[..s.begin]
  }

  /** Where the line of a row is looked up. */
  function Slot(s: Ring, row: nat): (i: nat)
    requires s.max > 0
    ensures i < s.max
  {
    (row + s.begin) % s.max
  }

  lemma RowIsThere(s: Ring, row: nat)
    requires WellFormed(s) && row < |s.lines|
    ensures Slot(s, row) < |s.lines| && s.lines[Slot(s, row)] == Rows(s)[row]
  {
    SlotWraps(row, s.begin, s.max);
  }

  lemma SlotWraps(row: nat, begin: nat, max: nat)
    requires row < max && (begin < max || begin == 0)
    ensures (row + begin) % max == if row + begin < max then row + begin else row + begin - max
  {
  }

  // ---------------------------------------------------------------- what is shown

  /** The last `n` lines. */
  function Newest(lines: seq<string>, n: nat): seq<string> {
    if |lines| <= n then lines else lines[|lines| - n..]
  }

  /** A new line comes last and pushes out the oldest one if there is no room. */
  lemma WriteShows(s: Ring, line: string)
    requires WellFormed(s)
    ensures CanWrite(s) && WellFormed(Do(s, Write(line)))
    ensures Rows(Do(s, Write(line))) == Newest(Rows(s) + [line], s.max)
  {
    var after := Do(s, Write(line));
    if s.max > 0 && |s.lines| == s.max {
      assert Rows(after) == s.lines[s.begin + 1..] + s.lines[..s.begin] + [line];
    }
  }

  lemma ClearShows(s: Ring)
    requires WellFormed(s)
    ensures WellFormed(Do(s, Clear)) && Rows(Do(s, Clear)) == []
  {
  }

  lemma NewestOfNewest(lines: seq<string>, line: string, n: nat)
    ensures Newest(Newest(lines, n) + [line], n) == Newest(lines + [line], n)
  {
  }

  /** The lines written since the last clearing. */
  function Written(ops: seq<Op>): seq<string>
    decreases |ops|
  {
    if ops == [] then []
    else
      var before, op := ops[..|ops| - 1], ops[|ops| - 1];
      if op.Clear? then [] else if op.Write? then Written(before) + [op.line] else Written(before)
  }

  /** The ring after `ops`; none if one of them writes outside of the vector. */
  function Run(s: Ring, ops: seq<Op>): Option<Ring>
    decreases |ops|
  {
    if ops == [] then Some(s)
    else
      var before, op := Run(s, ops[..|ops| - 1]), ops[|ops| - 1];
      if before.None? || (op.Write? && !CanWrite(before.value)) then None else Some(Do(before.value, op))
  }

  /** With a size that is set once, any run of writing and clearing shows exactly the newest
      lines that fit, and touches nothing outside of the vector. */
  lemma {:induction false} ShowsNewest(max: nat, ops: seq<Op>)
    requires forall op :: op in ops ==> !op.SetMax?
    ensures var r := Run(Ring([], 0, max), ops);
            && r.Some? && WellFormed(r.value) && r.value.max == max
            && Rows(r.value) == Newest(Written(ops), max)
    decreases |ops|
  {
    hide Rows, Newest, CanWrite, WellFormed;
    if ops == [] {
      NothingShown(max);
    } else {
      var before, op := ops[..|ops| - 1], ops[|ops| - 1];
      assert op in ops && forall o :: o in before ==> o in ops;
      ShowsNewest(max, before);
      var s := Run(Ring([], 0, max), before).value;
      if op.Write? {
        WriteShows(s, op.line);
        NewestOfNewest(Written(before), op.line, max);
      } else {
        ClearShows(s);
        NothingShown(max);
      }
    }
  }

  lemma NothingShown(max: nat)
    ensures WellFormed(Ring([], 0, max)) && Rows(Ring([], 0, max)) == [] == Newest([], max)
  {
  }

  // ---------------------------------------------------------------- changing the size

  /** Every row can be looked up and the next line can be written. */
  predicate Safe(s: Ring) {
    && |s.lines| <= s.max
    && (forall row :: 0 <= row < |s.lines| ==> Slot(s, row) < |s.lines|)
    && CanWrite(s)
  }

  /** The beginning of the ring is not adjusted when its size is changed. That is safe exactly if
      the ring begins in its first slot, or the new size is between the beginning and the old
      size, or nothing may be kept at all; otherwise there is a row, or a next line, outside of
      the vector. */
  lemma ResizeSafeExactly(s: Ring, max: nat)
    requires WellFormed(s)
    ensures Safe(Do(s, SetMax(max))) <==> s.begin == 0 || s.begin < max <= s.max || max == 0
  {
    var after := Do(s, SetMax(max));
    if s.begin == 0 || s.begin < max <= s.max {
      assert WellFormed(after);
      forall row | 0 <= row < |after.lines|
        ensures Slot(after, row) < |after.lines|
      {
        RowIsThere(after, row);
      }
    } else if max > s.max {
      var row := s.max - s.begin;
      SmallIsItself(s.max, max);
      assert Slot(after, row) == s.max;
    }
  }

  lemma SmallIsItself(x: nat, d: nat)
    requires x < d
    ensures x % d == x
  {
  }

  /** A change of size to which the ring is safe: it begins in its first slot, keeps nothing, or
      keeps all that is in front of its beginning. */
  predicate Guarded(s: Ring, op: Op) {
    op.SetMax? ==> s.begin == 0 || op.max == 0 || s.begin < op.max <= s.max
  }

  /** What guarded runs keep: a well-formed ring, or one that may not keep anything. */
  predicate Steady(s: Ring) {
    WellFormed(s) || (s.lines == [] && s.max == 0)
  }

  lemma SteadyIsSafe(s: Ring)
    requires Steady(s)
    ensures Safe(s)
  {
    forall row | 0 <= row < |s.lines|
      ensures Slot(s, row) < |s.lines|
    {
      RowIsThere(s, row);
    }
  }

  predicate GuardedRun(s: Ring, ops: seq<Op>)
    decreases |ops|
  {
    ops == [] ||
      (var before := Run(s, ops[..|ops| - 1]);
       && GuardedRun(s, ops[..|ops| - 1])
       && (before.Some? ==> Guarded(before.value, ops[|ops| - 1])))
  }

  /** Over every run in which all changes of size are guarded, no row and no line is ever outside
      of the vector. */
  lemma {:induction false} GuardedRunIsSafe(s: Ring, ops: seq<Op>)
    requires Steady(s) && GuardedRun(s, ops)
    ensures var r := Run(s, ops);
            r.Some? && Steady(r.value) && Safe(r.value)
    decreases |ops|
  {
    hide Steady, Safe, Guarded;
    if ops != [] {
      GuardedRunIsSafe(s, ops[..|ops| - 1]);
      StepStaysSteady(Run(s, ops[..|ops| - 1]).value, ops[|ops| - 1]);
      SteadyIsSafe(Run(s, ops).value);
    } else {
      SteadyIsSafe(s);
    }
  }

  lemma StepStaysSteady(s: Ring, op: Op)
    requires Steady(s) && Guarded(s, op)
    ensures op.Write? ==> CanWrite(s)
    ensures Steady(Do(s, op))
  {
    if op.Write? && WellFormed(s) {
      WriteShows(s, op.line);
    }
  }

  /** And every other change of size leads outside, at once or with lines written after it. */
  lemma UnguardedGoesWrong(s: Ring, max: nat) returns (more: seq<Op>)
    requires Steady(s) && !Guarded(s, SetMax(max))
    ensures forall op :: op in more ==> op.Write?
    ensures var r := Run(Do(s, SetMax(max)), more);
            r.Some? && !Safe(r.value)
  {
    var after := Do(s, SetMax(max));
    more := [];
    if WellFormed(s) {
      ResizeSafeExactly(s, max);
    } else if s.begin < max {
      more := [Write("")];
      assert more[..0] == [];
      assert Run(after, more[..0]) == Some(after);
      SmallIsItself(s.begin, max);
      assert Slot(Do(after, Write("")), 0) == s.begin;
    } else {
      more := seq(max, _ => Write(""));
      FillsUp(after, max);
    }
  }

  lemma {:induction false} FillsUp(s: Ring, n: nat)
    requires s.lines == [] && n <= s.max
    ensures Run(s, seq(n, _ => Write(""))) == Some(s.(lines := seq(n, _ => "")))
  {
    if n > 0 {
      FillsUp(s, n - 1);
      assert seq(n, _ => Write(""))[..n - 1] == seq(n - 1, _ => Write(""));
      assert seq(n - 1, _ => "") + [""] == seq(n, _ => "");
    } else {
      assert s.(lines := seq(0, _ => "")) == s;
    }
  }

  /** What is left when the size is reduced: of a ring that begins in its first slot its oldest
      lines, of another one its oldest and its newest lines without those between them. */
  lemma ResizeShows(s: Ring, max: nat)
    requires WellFormed(s) && (s.begin == 0 || s.begin < max <= s.max)
    ensures WellFormed(Do(s, SetMax(max)))
    ensures var rows, shown := Rows(s), Rows(Do(s, SetMax(max)));
            && (s.begin == 0 ==> shown == if |rows| <= max then rows else rows[..max])
            && (s.begin > 0 ==> shown == rows[..max - s.begin] + rows[s.max - s.begin..])
  {
    var l := s.lines;
    if s.begin > 0 {
      assert Rows(s)[..max - s.begin] == l[s.begin..max];
      assert Rows(s)[s.max - s.begin..] == l[..s.begin];
    }
  }

  // ---------------------------------------------------------------- the logger

  class Logger {
    var lines: seq<string>
    var begin: nat
    var max: nat

    ghost function Abstract(): Ring
      reads this
    {
      Ring(lines, begin, max)
    }

    constructor (max: nat)
      ensures Abstract() == Ring([], 0, max)
    {
      lines, begin, this.max := [], 0, max;
    }

    method SetMaxNumberLines(max: nat)
      modifies this
      ensures Abstract() == Do(old(Abstract()), SetMax(max))
    {
      this.max := max;
      if |lines| > max {
        lines := lines[..max];
      }
    }

    method Log(line: string, removeControls: bool)
      requires CanWrite(Abstract())
      modifies this
      ensures Abstract() == Do(old(Abstract()), Write(if removeControls then Printable(line) else line))
    {
      var text := if removeControls then Printable(line) else line;
      if |lines| == max {
        if max > 0 {
          lines := lines[begin := text];
          begin := Next(begin + 1, max);
        }
      } else {
        lines := lines + [text];
      }
    }

    method Clear()
      modifies this
      ensures Abstract() == Do(old(Abstract()), Op.Clear)
    {
      lines, begin := [], 0;
    }

    /** The text of a row; empty if there is none. */
    method RowText(row: int) returns (r: string)
      requires Safe(Abstract())
      ensures r == if 0 <= row < |lines| then lines[Slot(Abstract(), row)] else ""
      ensures WellFormed(Abstract()) ==>
                r == if 0 <= row < |lines| then Rows(Abstract())[row] else ""
    {
      if row >= 0 && row < |lines| {
        var slot := Slot(Ring(lines, begin, max), row);
        r := lines[slot];
        if WellFormed(Abstract()) {
          RowIsThere(Abstract(), row);
        }
      } else {
        r := "";
      }
    }
  }

  function Next(i: nat, max: nat): (r: nat)
    requires i <= max && max > 0
    ensures r == if i == max then 0 else i
  {
    i % max
  }
}
