/**
 Splitting text into lines: once over the whole text (section 9.2.6 of the HTML Living
 Standard: a line ends at CRLF, LF or CR), and piece by piece with one byte of lookahead.
 */
module Lines {
  import opened Basics
  import opened Utf8

  const LF: byte := 0x0A
  const CR: byte := 0x0D

  // ---------------------------------------------------------------------
  // Reference: rewrite every line end to LF, then cut at LF
  // ---------------------------------------------------------------------

  function NormalizeBreaks(t: Bytes): Bytes {
    if t == [] then []
    else if t[0] != CR then [t[0]] + NormalizeBreaks(t[1..])
    else [LF] + NormalizeBreaks(if |t| > 1 && t[1] == LF then t[2..] else t[1..])
  }

  function CutAtLf(t: Bytes): (pieces: seq<Bytes>)
    ensures pieces != []
  {
    if t == [] then [[]]
    else if t[0] == LF then [[]] + CutAtLf(t[1..])
    else
      var rest := CutAtLf(t[1..]);
      [[t[0]] + rest[0]] + rest[1..]
  }

  /** The lines of a complete text. What follows the last line end is a line if it is not empty. */
  function LinesOf(t: Bytes): seq<Bytes> {
    var pieces := CutAtLf(NormalizeBreaks(t));
    if pieces[|pieces| - 1] == [] then pieces[..|pieces| - 1] else pieces
  }

  // ---------------------------------------------------------------------
  // One line at a time
  // ---------------------------------------------------------------------

  /** `str::find` for an ASCII byte. */
  function Find(t: Bytes, b: byte): (r: Option<nat>)
    ensures r.None? ==> b !in t
    ensures r.Some? ==> r.value < |t| && t[r.value] == b && b !in t[..r.value]
  {
    if t == [] then None
    else if t[0] == b then Some(0)
    else
      match Find(t[1..], b)
      case None => None
      case Some(i) => assert t[..i + 1] == [t[0]] + t[1..][..i]; Some(i + 1)
  }

  predicate IsBreak(b: byte) { b == LF || b == CR }

  /** `i` is where the first line of `t` ends. */
  predicate EndsAt(t: Bytes, i: nat) {
    i < |t| && IsBreak(t[i]) && forall j :: 0 <= j < i ==> !IsBreak(t[j])
  }

  predicate NoBreak(t: Bytes) { forall j :: 0 <= j < |t| ==> !IsBreak(t[j]) }

  /** Index just after the line end at `i`. */
  function After(t: Bytes, i: nat): (k: nat)
    requires i < |t|
    ensures i < k <= |t|
  {
    if t[i] == CR && i + 1 < |t| && t[i + 1] == LF then i + 2 else i + 1
  }

  /** What is retained when no complete line can be taken: no LF, and a CR only as the last byte. */
  predicate Held(t: Bytes) {
    NoBreak(t) || (EndsAt(t, |t| - 1) && t[|t| - 1] == CR)
  }

  datatype Popped = NoLine | Line(line: Bytes, rest: Bytes)

  function FirstBreak(t: Bytes): (i: nat)
    ensures if i < |t| then EndsAt(t, i) else i == |t| && NoBreak(t)
  {
    if t == [] || IsBreak(t[0]) then 0 else 1 + FirstBreak(t[1..])
  }

  /** The next line of `t`. With `flush` the text is known to be complete. */
  function NextLine(t: Bytes, flush: bool): (p: Popped)
    ensures p.Line? ==> |p.rest| < |t|
  {
    var i := FirstBreak(t);
    if i == |t| then (if flush && t != [] then Line(t, []) else NoLine)
    else if t[i] == CR && i + 1 == |t| && !flush then NoLine
    else Line(t[..i], t[After(t, i)..])
  }

  lemma FirstBreakUnique(t: Bytes, i: nat)
    requires EndsAt(t, i)
    ensures FirstBreak(t) == i
  {
  }

  // ---------------------------------------------------------------------
  // The two agree
  // ---------------------------------------------------------------------

  lemma {:induction false} NormalizeUpTo(t: Bytes, i: nat)
    requires EndsAt(t, i)
    ensures NormalizeBreaks(t) == t[..i] + [LF] + NormalizeBreaks(t[After(t, i)..])
    decreases i
  {
    if i > 0 {
      var s := t[1..];
      assert forall j :: 0 <= j < |s| ==> s[j] == t[j + 1];
      NormalizeUpTo(s, i - 1);
      assert s[After(s, i - 1)..] == t[After(t, i)..];
      assert t[..i] == [t[0]] + s[..i - 1];
    } else {
      assert t[..0] == [];
    }
  }

  lemma {:induction false} CutUpTo(a: Bytes, b: Bytes)
    requires LF !in a
    ensures CutAtLf(a + [LF] + b) == [a] + CutAtLf(b)
  {
    var t := a + [LF] + b;
    if a == [] {
      assert t[1..] == b;
    } else {
      CutUpTo(a[1..], b);
      assert t[1..] == a[1..] + [LF] + b;
      assert [a[0]] + a[1..] == a;
      assert ([a[1..]] + CutAtLf(b))[1..] == CutAtLf(b);
    }
  }

  lemma {:induction false} NormalizeNoBreak(t: Bytes)
    requires NoBreak(t)
    ensures NormalizeBreaks(t) == t && CutAtLf(t) == [t]
  {
    if t != [] {
      NormalizeNoBreak(t[1..]);
    }
  }

  /** The line split, one line at a time: this is all the incremental parser needs. */
  lemma LinesStep(t: Bytes)
    ensures NoBreak(t) ==> LinesOf(t) == if t == [] then [] else [t]
    ensures forall i: nat :: EndsAt(t, i) ==> LinesOf(t) == [t[..i]] + LinesOf(t[After(t, i)..])
  {
    if NoBreak(t) {
      NormalizeNoBreak(t);
    }
    forall i: nat | EndsAt(t, i)
      ensures LinesOf(t) == [t[..i]] + LinesOf(t[After(t, i)..])
    {
      var rest := t[After(t, i)..];
      NormalizeUpTo(t, i);
      CutUpTo(t[..i], NormalizeBreaks(rest));
      var pieces := CutAtLf(NormalizeBreaks(rest));
      assert ([t[..i]] + pieces)[..|pieces|] == [t[..i]] + pieces[..|pieces| - 1];
    }
  }

  /**
   A line taken before the text is complete is the first line of every completion; the
   CR held back is what makes this true when CR and LF arrive apart.
   */
  lemma {:induction false} NextLineIsFinal(t: Bytes, more: Bytes)
    ensures match NextLine(t, false)
            case Line(line, rest) => LinesOf(t + more) == [line] + LinesOf(rest + more)
            case NoLine => Held(t)
  {
    var i := FirstBreak(t);
    if NextLine(t, false).Line? {
      BreakIsFinal(t, more, i);
      LinesStep(t + more);
    }
  }

  /** With a byte of lookahead after a CR, where the line and its end lie is settled. */
  lemma BreakIsFinal(t: Bytes, more: Bytes, i: nat)
    requires EndsAt(t, i) && !(t[i] == CR && i + 1 == |t|)
    ensures EndsAt(t + more, i) && FirstBreak(t + more) == i
    ensures (t + more)[..i] == t[..i]
    ensures (t + more)[After(t + more, i)..] == t[After(t, i)..] + more
  {
  }

  /** On a complete text the lines are taken in order and none is lost. */
  lemma NextLineFlush(t: Bytes)
    ensures match NextLine(t, true)
            case Line(line, rest) => LinesOf(t) == [line] + LinesOf(rest)
            case NoLine => t == [] && LinesOf(t) == []
  {
    LinesStep(t);
    LinesStep([]);
  }

  /** What is held back is, but for its CR, the start of one line. */
  lemma HeldStartsALine(t: Bytes, more: Bytes)
    requires Held(t) && t != []
    ensures var all := LinesOf(t + more);
            all != [] && (if NoBreak(t) then t <= all[0] else all[0] == t[..|t| - 1])
  {
    LinesStep(t + more);
    if NoBreak(t) {
      var i := FirstBreak(t + more);
      if i < |t + more| {
        assert i >= |t|;
      }
    } else {
      assert EndsAt(t + more, |t| - 1);
      assert (t + more)[..|t| - 1] == t[..|t| - 1];
    }
  }

  /** Taking a line cuts the buffer at character boundaries only. */
  lemma {:induction false} NextLineWellFormed(t: Bytes, flush: bool)
    requires WellFormed(t)
    ensures match NextLine(t, flush)
            case Line(line, rest) => WellFormed(line) && WellFormed(rest)
            case NoLine => true
  {
    var i := FirstBreak(t);
    if i < |t| {
      WellFormedAroundAscii(t, i);
      if After(t, i) == i + 2 {
        WellFormedAroundAscii(t[i + 1..], 0);
        assert t[i + 1..][1..] == t[i + 2..];
      }
    }
  }
}
