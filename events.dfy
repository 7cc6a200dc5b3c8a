/** The event stream the converters consume and the token stream they produce.
    Absolute ticks are non-negative (they are sums of MIDI delta times). */
module Events {

  /** A strictly positive integer: `ticks_per_beat` of a MIDI file and the
      denominator of a MIDI time signature (a power of two). */
  type Pos = x: int | x > 0 witness 1

  /** The MIDI messages the converters look at. */
  datatype Msg =
    | TimeSignature(numerator: nat, denominator: Pos)
    | SetTempo(tempo: nat)                       // microseconds per beat
    | NoteOn(channel: nat, note: nat, velocity: nat)
    | NoteOff(channel: nat, note: nat)

  /** A message at an absolute tick (`ChartEvent`/`TmEvent` without their
      derived fields). */
  datatype TimedEvent = TimedEvent(tick: nat, msg: Msg)

  predicate IsNoteEvent(e: TimedEvent)
  {
    e.msg.NoteOn? || e.msg.NoteOff?
  }

  /** What one `print` call writes into the chart body.  Directives carry
      their numbers instead of their decimal text. */
  datatype Token =
    | Cells(symbols: string, newline: bool)   // a run of grid cells; `end=''` when !newline
    | LineBreak                               // print('')
    | MeasureDirective(upper: nat, lower: Pos) // '#MEASURE upper/lower'
    | TempoDirective(usecPerBeat: nat)        // '#BPMCHANGE <bpm of usecPerBeat>'
    | MeasureEnd                              // ','

  /** Number of grid cells a token writes. */
  function CellsOf(t: Token): nat
  {
    if t.Cells? then |t.symbols| else 0
  }

  /** Number of grid cells written by a token sequence. */
  function CellCount(out: seq<Token>): nat
  {
    if out == [] then 0 else CellCount(out[..|out| - 1]) + CellsOf(out[|out| - 1])
  }

  lemma CellCountSnoc(out: seq<Token>, t: Token)
    ensures CellCount(out + [t]) == CellCount(out) + CellsOf(t)
  {
    assert (out + [t])[..|out|] == out;
  }

  lemma {:induction false} CellCountAppend(a: seq<Token>, b: seq<Token>)
    ensures CellCount(a + b) == CellCount(a) + CellCount(b)
    decreases |b|
  {
    if b == [] {
      assert a + b == a;
    } else {
      var b' := b[..|b| - 1];
      assert a + b == (a + b') + [b[|b| - 1]];
      CellCountAppend(a, b');
      CellCountSnoc(a + b', b[|b| - 1]);
      CellCountSnoc(b', b[|b| - 1]);
      assert b' + [b[|b| - 1]] == b;
    }
  }

  /** The cell symbols a token sequence writes, in order: the chart body
      with its directives, line breaks and measure ends left out. */
  function CellText(out: seq<Token>): (s: string)
    ensures |s| == CellCount(out)
  {
    if out == [] then [] else CellText(out[..|out| - 1]) + (if out[|out| - 1].Cells? then out[|out| - 1].symbols else [])
  }

  lemma CellTextSnoc(out: seq<Token>, t: Token)
    ensures CellText(out + [t]) == CellText(out) + (if t.Cells? then t.symbols else [])
  {
    assert (out + [t])[..|out|] == out;
  }

  /** The cell of the grid of `tickGcd` ticks from `tickBeg` that a tick
      falls on: `tick_rel // tick_gcd`. */
  function CellIndex(tick: int, tickBeg: int, tickGcd: Pos): int
  {
    (tick - tickBeg) / tickGcd
  }

  /** The cell an event acts on in the event loop of `scan_measure`: its
      `CellIndex`, or cell 0 for a tick before the measure start, whose
      negative index never passes `idiv_last`, which starts at 0. */
  function FoldedCell(tick: int, tickBeg: int, tickGcd: Pos): nat
  {
    var idiv := CellIndex(tick, tickBeg, tickGcd);
    if idiv < 0 then 0 else idiv
  }

  /** A timing event, which prints a directive. */
  predicate HasDirective(e: TimedEvent)
  {
    e.msg.TimeSignature? || e.msg.SetTempo?
  }

  /** The directive a timing event prints: `#MEASURE` for a signature,
      `#BPMCHANGE` for a tempo. */
  function DirectiveOf(e: TimedEvent): Token
    requires HasDirective(e)
  {
    if e.msg.TimeSignature? then MeasureDirective(e.msg.numerator, e.msg.denominator) else TempoDirective(e.msg.tempo)
  }

  predicate IsDirective(t: Token)
  {
    t.MeasureDirective? || t.TempoDirective?
  }

  /** Each directive a token sequence writes, with the number of cells
      written before it: where in the chart it sits. */
  function Placed(out: seq<Token>): seq<(int, Token)>
  {
    if out == [] then []
    else Placed(out[..|out| - 1]) + (if IsDirective(out[|out| - 1]) then [(CellCount(out[..|out| - 1]), out[|out| - 1])] else [])
  }

  lemma PlacedSnoc(out: seq<Token>, t: Token)
    ensures Placed(out + [t]) == Placed(out) + (if IsDirective(t) then [(CellCount(out), t)] else [])
  {
    assert (out + [t])[..|out|] == out;
  }

  /** The directives of the events `[lo, hi)` in order, each with the cell
      its event acts on. */
  function EventDirectives(events: seq<TimedEvent>, lo: nat, hi: nat, tickBeg: int, tickGcd: Pos): seq<(int, Token)>
    requires lo <= hi <= |events|
  {
    if hi == lo then []
    else
      var e := events[hi - 1];
      EventDirectives(events, lo, hi - 1, tickBeg, tickGcd)
        + if HasDirective(e) then [(FoldedCell(e.tick, tickBeg, tickGcd), DirectiveOf(e))] else []
  }

  /** Number of measure terminators in a token sequence. */
  function MeasureEnds(out: seq<Token>): nat
  {
    if out == [] then 0
    else MeasureEnds(out[..|out| - 1]) + (if out[|out| - 1] == MeasureEnd then 1 else 0)
  }

  lemma MeasureEndsSnoc(out: seq<Token>, t: Token)
    ensures MeasureEnds(out + [t]) == MeasureEnds(out) + (if t == MeasureEnd then 1 else 0)
  {
    assert (out + [t])[..|out|] == out;
  }

  lemma {:induction false} MeasureEndsAppend(a: seq<Token>, b: seq<Token>)
    ensures MeasureEnds(a + b) == MeasureEnds(a) + MeasureEnds(b)
    decreases |b|
  {
    if b == [] {
      assert a + b == a;
    } else {
      var b' := b[..|b| - 1];
      assert a + b == (a + b') + [b[|b| - 1]];
      MeasureEndsAppend(a, b');
      MeasureEndsSnoc(a + b', b[|b| - 1]);
      MeasureEndsSnoc(b', b[|b| - 1]);
      assert b' + [b[|b| - 1]] == b;
    }
  }

  /** The `emit` closure of `scan_measure`: print into the chart when there
      is one (`write`), do nothing on the silent pass. */
  function Emit(out: seq<Token>, t: Token, write: bool): seq<Token>
  {
    if write then out + [t] else out
  }

  lemma EmitCounts(out: seq<Token>, t: Token, write: bool)
    ensures CellCount(Emit(out, t, write)) == CellCount(out) + (if write then CellsOf(t) else 0)
    ensures MeasureEnds(Emit(out, t, write)) == MeasureEnds(out) + (if write && t == MeasureEnd then 1 else 0)
  {
    if write {
      CellCountSnoc(out, t);
      MeasureEndsSnoc(out, t);
    }
  }

  /** `n * '0'` in Python. */
  function Zeros(n: nat): (s: string)
    ensures |s| == n && forall k :: 0 <= k < n ==> s[k] == '0'
  {
    seq(n, _ => '0')
  }

  predicate NonDecreasing(events: seq<TimedEvent>)
  {
    forall i, j :: 0 <= i < j < |events| ==> events[i].tick <= events[j].tick
  }

  /** Two runs in tick order, the first at or before `m` and the second at
      or after it, make one run in tick order. */
  lemma NonDecreasingAppend(a: seq<TimedEvent>, b: seq<TimedEvent>, m: int)
    requires NonDecreasing(a) && NonDecreasing(b)
    requires forall x | x in a :: x.tick <= m
    requires forall y | y in b :: m <= y.tick
    ensures NonDecreasing(a + b)
  {
    forall i, j | 0 <= i < j < |a + b|
      ensures (a + b)[i].tick <= (a + b)[j].tick
    {
      if i < |a| <= j {
        assert a[i] in a && b[j - |a|] in b;
      }
    }
  }
}
