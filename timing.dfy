/** MIDI_Timing_to_TJA.py: a chart of the timing events alone.  `TmState`
    (lines 10-36) holds the signature, the tempo and the measure cursor;
    `emit_measure` (lines 39-81) writes one measure as empty cells on the
    gcd grid of its events; `main` (lines 97-132) seeds the tempo and steps
    through the measures.  The float `bpm` is kept as the tempo it comes
    from, in microseconds per beat. */
module MidiTimingToTja {
  import opened Events
  import opened Quantize
  import CS = ChartScan
  import M = MidiToTja

  // ---------------------------------------------------------------------
  // The state, as a value

  /** The fields of a `TmState` (`i_measure_begin` is never read and is
      left out). */
  datatype Tm = Tm(ticksPerBeat: Pos, tsignUpper: nat, tsignLower: Pos, tempo: nat, tickMeasureBegin: nat)
  {
    /** `get_ticks_per_measure`: the floor of
        `ticks_per_beat * 4 * upper / lower`, but never below 1. */
    function TicksPerMeasure(): (r: int)
      ensures r >= 1
      ensures r == 1 || r * tsignLower <= ticksPerBeat * 4 * tsignUpper < (r + 1) * tsignLower
    {
      var n := ticksPerBeat * 4 * tsignUpper / tsignLower;
      if n >= 1 then n else 1
    }

    /** `get_tick_measure_end`. */
    function TickMeasureEnd(): (r: int)
      ensures r > tickMeasureBegin
    {
      tickMeasureBegin + TicksPerMeasure()
    }
  }

  /** A fresh `TmState(ticks_per_beat)`: 4/4 at 120 BPM, cursor at 0. */
  function InitialTm(ticksPerBeat: Pos): Tm
  {
    Tm(ticksPerBeat, 4, 4, CS.DefaultUsecPerBeat, 0)
  }

  /** The state change of one event in the loop of `emit_measure`
      (lines 68-73). */
  function ApplyTm(t: Tm, e: TimedEvent): Tm
  {
    match e.msg
    case TimeSignature(n, d) => t.(tsignUpper := n, tsignLower := d)
    case SetTempo(tempo) => t.(tempo := tempo)
    case _ => t
  }

  /** The state changes of a run of events, in order. */
  function ApplyTms(t: Tm, es: seq<TimedEvent>): (r: Tm)
    ensures r.ticksPerBeat == t.ticksPerBeat && r.tickMeasureBegin == t.tickMeasureBegin
  {
    if es == [] then t else ApplyTm(ApplyTms(t, es[..|es| - 1]), es[|es| - 1])
  }

  lemma ApplyTmsSnoc(t: Tm, es: seq<TimedEvent>, e: TimedEvent)
    ensures ApplyTms(t, es + [e]) == ApplyTm(ApplyTms(t, es), e)
  {
    assert (es + [e])[..|es|] == es;
  }

  /** After a run of events the signature is that of its last
      `time_signature` event and the tempo that of its last `set_tempo`
      event; without one, the value before the run stays. */
  lemma {:induction false} LastChangeWins(t: Tm, es: seq<TimedEvent>)
    ensures var r := ApplyTms(t, es);
      && ((forall k :: 0 <= k < |es| ==> !es[k].msg.TimeSignature?) ==>
            r.tsignUpper == t.tsignUpper && r.tsignLower == t.tsignLower)
      && (forall k | 0 <= k < |es| && es[k].msg.TimeSignature?
            && (forall j :: k < j < |es| ==> !es[j].msg.TimeSignature?) ::
            r.tsignUpper == es[k].msg.numerator && r.tsignLower == es[k].msg.denominator)
      && ((forall k :: 0 <= k < |es| ==> !es[k].msg.SetTempo?) ==> r.tempo == t.tempo)
      && (forall k | 0 <= k < |es| && es[k].msg.SetTempo?
            && (forall j :: k < j < |es| ==> !es[j].msg.SetTempo?) ::
            r.tempo == es[k].msg.tempo)
  {
    if es != [] {
      var init, e := es[..|es| - 1], es[|es| - 1];
      LastChangeWins(t, init);
      var r, x := ApplyTms(t, es), ApplyTms(t, init);
      assert r == ApplyTm(x, e);
      forall k | 0 <= k < |es| && es[k].msg.TimeSignature? && (forall j :: k < j < |es| ==> !es[j].msg.TimeSignature?)
        ensures r.tsignUpper == es[k].msg.numerator && r.tsignLower == es[k].msg.denominator
      {
        if k < |init| {
          assert init[k] == es[k] && forall j :: k < j < |init| ==> !init[j].msg.TimeSignature?;
        }
      }
      forall k | 0 <= k < |es| && es[k].msg.SetTempo? && (forall j :: k < j < |es| ==> !es[j].msg.SetTempo?)
        ensures r.tempo == es[k].msg.tempo
      {
        if k < |init| {
          assert init[k] == es[k] && forall j :: k < j < |init| ==> !init[j].msg.SetTempo?;
        }
      }
    }
  }

  // ---------------------------------------------------------------------
  // Measure stepping of `main`, as a function of the state

  /** The `while` loop of `main` (lines 120-123): while the current measure
      ends at or before `tick`, emit the pending range `[imb, i)` and
      advance.  Gives the state and the new start of the pending range. */
  function StepTm(t: Tm, events: seq<TimedEvent>, imb: nat, i: nat, tick: nat): (r: (Tm, nat))
    requires imb <= i <= |events|
    ensures imb <= r.1 <= i
    ensures r.0.TickMeasureEnd() > tick
    decreases tick - t.tickMeasureBegin
  {
    if t.TickMeasureEnd() <= tick then
      var t1 := ApplyTms(t, events[imb..i]);
      StepTm(t1.(tickMeasureBegin := t1.TickMeasureEnd()), events, i, i, tick)
    else (t, imb)
  }

  /** A `time_signature` event at the start of the current measure is
      applied at once (lines 126-129). */
  function SyncTm(t: Tm, e: TimedEvent): Tm
  {
    if e.tick == t.tickMeasureBegin && e.msg.TimeSignature? then
      t.(tsignUpper := e.msg.numerator, tsignLower := e.msg.denominator)
    else t
  }

  /** The state `main` leaves behind, from event `i` on with pending range
      starting at `imb`. */
  function TmFrom(t: Tm, events: seq<TimedEvent>, i: nat, imb: nat): Tm
    requires imb <= i <= |events|
    decreases |events| - i
  {
    if i == |events| then ApplyTms(t, events[imb..])
    else
      var r := StepTm(t, events, imb, i, events[i].tick);
      TmFrom(SyncTm(r.0, events[i]), events, i + 1, r.1)
  }

  /** The `emit_measure` calls of the stepping loop of `main` (lines
      120-123), in the order it makes them: the pending range on the
      current measure, then an empty range on each further measure that
      ends at or before `tick`. */
  ghost function StepTmFlushes(t: Tm, events: seq<TimedEvent>, imb: nat, i: nat, tick: nat): seq<CS.Flush>
    requires imb <= i <= |events|
    decreases tick - t.tickMeasureBegin
  {
    if t.TickMeasureEnd() <= tick then
      var t1 := ApplyTms(t, events[imb..i]);
      [CS.Flush(imb, i, t.tickMeasureBegin, t.TicksPerMeasure())]
        + StepTmFlushes(t1.(tickMeasureBegin := t1.TickMeasureEnd()), events, i, i, tick)
    else []
  }

  /** Every `emit_measure` call `main` makes from event `i` on, with the
      pending range starting at `imb`: each with its range and the start
      and length of the measure it is made on. */
  ghost function TmFlushes(t: Tm, events: seq<TimedEvent>, i: nat, imb: nat): seq<CS.Flush>
    requires imb <= i <= |events|
    decreases |events| - i
  {
    if i == |events| then [CS.Flush(imb, |events|, t.tickMeasureBegin, t.TicksPerMeasure())]
    else
      var r := StepTm(t, events, imb, i, events[i].tick);
      StepTmFlushes(t, events, imb, i, events[i].tick) + TmFlushes(SyncTm(r.0, events[i]), events, i + 1, r.1)
  }

  // ---------------------------------------------------------------------
  // What one `emit_measure` call writes

  /** `(tick - tick_beg) // tick_gcd` of the last event of the range: the
      final `idiv_last`, 0 for an empty range. */
  function LastDiv(events: seq<TimedEvent>, lo: nat, hi: nat, begin: int, g: Pos): int
    requires lo <= hi <= |events|
  {
    if lo == hi then 0 else (events[hi - 1].tick - begin) / g
  }

  /** The grid cells an `emit_measure` call writes when its events lie in
      its measure: the whole grid, unless every event sits on the first
      cell (or there is none), when it writes no cell at all. */
  ghost function EmittedCells(events: seq<TimedEvent>, f: CS.Flush): nat
  {
    if f.lo <= f.hi <= |events| then
      var g := MeasureGcd(events, f.lo, f.hi, f.begin, f.length);
      if LastDiv(events, f.lo, f.hi, f.begin, g) != 0 then f.length / g else 0
    else 0
  }

  ghost function TimingCells(events: seq<TimedEvent>, flushes: seq<CS.Flush>): nat
  {
    if flushes == [] then 0
    else TimingCells(events, flushes[..|flushes| - 1]) + EmittedCells(events, flushes[|flushes| - 1])
  }

  lemma {:induction false} TimingCellsAppend(events: seq<TimedEvent>, a: seq<CS.Flush>, b: seq<CS.Flush>)
    ensures TimingCells(events, a + b) == TimingCells(events, a) + TimingCells(events, b)
    decreases |b|
  {
    if b == [] {
      assert a + b == a;
    } else {
      var b' := b[..|b| - 1];
      assert (a + b)[..|a + b| - 1] == a + b';
      TimingCellsAppend(events, a, b');
    }
  }

  /** Every event of the range is at or after `begin`. */
  predicate StartsFrom(events: seq<TimedEvent>, lo: nat, hi: nat, begin: int)
    requires lo <= hi <= |events|
  {
    forall j | lo <= j < hi :: begin <= events[j].tick
  }

  /** Every `time_signature` event of the range is at `tick`. */
  predicate SignaturesAt(events: seq<TimedEvent>, lo: nat, hi: nat, tick: int)
    requires lo <= hi <= |events|
  {
    forall j | lo <= j < hi && events[j].msg.TimeSignature? :: events[j].tick == tick
  }

  /** The `emit_measure` call got only events of its own measure. */
  ghost predicate FlushInMeasure(events: seq<TimedEvent>, f: CS.Flush)
  {
    f.lo <= f.hi <= |events| && InMeasure(events, f.lo, f.hi, f.begin, f.length)
  }

  /** Every `time_signature` event the call got sits at its measure start. */
  ghost predicate FlushSignaturesAtStart(events: seq<TimedEvent>, f: CS.Flush)
  {
    f.lo <= f.hi <= |events| && SignaturesAt(events, f.lo, f.hi, f.begin)
  }

  /** Every call got only events of its own measure. */
  ghost predicate FlushesInMeasure(events: seq<TimedEvent>, flushes: seq<CS.Flush>)
  {
    flushes == [] ||
    (FlushesInMeasure(events, flushes[..|flushes| - 1]) && FlushInMeasure(events, flushes[|flushes| - 1]))
  }

  /** Every signature change sits at the start of the measure that gets it. */
  ghost predicate SignaturesAtMeasureStarts(events: seq<TimedEvent>, flushes: seq<CS.Flush>)
  {
    flushes == [] ||
    (SignaturesAtMeasureStarts(events, flushes[..|flushes| - 1]) && FlushSignaturesAtStart(events, flushes[|flushes| - 1]))
  }

  /** The signature a run of events leaves is the one before it. */
  predicate KeepsSignature(t: Tm, es: seq<TimedEvent>)
  {
    var r := ApplyTms(t, es);
    r.tsignUpper == t.tsignUpper && r.tsignLower == t.tsignLower
  }

  /** A measure-initial signature change keeps the pending events before
      the end of the measure: on events in tick order they all lie at or
      before event `i`, which lies before the end. */
  lemma PendingStaysBefore(events: seq<TimedEvent>, imb: nat, i: nat, before: Tm, after: Tm)
    requires imb <= i < |events| && NonDecreasing(events)
    requires CS.EndsBefore(events, imb, i, before.TickMeasureEnd()) && events[i].tick < before.TickMeasureEnd()
    requires after == SyncTm(before, events[i])
    ensures CS.EndsBefore(events, imb, i + 1, after.TickMeasureEnd())
  {
    forall j | imb <= j < i + 1
      ensures events[j].tick < after.TickMeasureEnd()
    {
      if after != before {
        assert events[j].tick <= events[i].tick;
      }
    }
  }

  /** The measure after an emitted range starts one measure length of the
      signature the range leaves behind after the start of the emitted
      measure, not where the emitted measure ended: a `time_signature`
      event inside the range that lengthens the measure makes the next
      measure start after events that are then emitted in it, on negative
      cells. */
  lemma {:induction false} AdvanceUsesNewSignature(t: Tm, events: seq<TimedEvent>, imb: nat, i: nat, tick: nat)
    requires imb <= i <= |events| && t.TickMeasureEnd() <= tick
    ensures var r, t1 := StepTm(t, events, imb, i, tick), ApplyTms(t, events[imb..i]);
      && r.1 == i
      && r.0.tickMeasureBegin >= t.tickMeasureBegin + t1.TicksPerMeasure()
      && (t.tickMeasureBegin + t1.TicksPerMeasure() > tick ==>
            r.0.tickMeasureBegin == t.tickMeasureBegin + t1.TicksPerMeasure())
  {
    var t1 := ApplyTms(t, events[imb..i]);
    var t2 := t1.(tickMeasureBegin := t1.TickMeasureEnd());
    StepTmAdvances(t2, events, i, i, tick);
  }

  /** An instance: at 480 ticks per beat, a change to 8/4 at tick 100 does
      not end the first measure at tick 100; the measure is stretched to
      3840 ticks, so the `set_tempo` at tick 1920 is pending when the next
      measure starts at 3840, after it. */
  lemma MidMeasureSignatureOvershoots()
    ensures var events := [TimedEvent(100, TimeSignature(8, 4)), TimedEvent(1920, SetTempo(400000))];
      StepTm(InitialTm(480), events, 0, 1, 1920) == (Tm(480, 8, 4, CS.DefaultUsecPerBeat, 3840), 1)
  {
    var events := [TimedEvent(100, TimeSignature(8, 4)), TimedEvent(1920, SetTempo(400000))];
    assert events[0..1] == [events[0]];
    assert ApplyTms(InitialTm(480), events[0..1]) == ApplyTm(ApplyTms(InitialTm(480), []), events[0]);
  }

  lemma {:induction false} StepTmAdvances(t: Tm, events: seq<TimedEvent>, imb: nat, i: nat, tick: nat)
    requires imb <= i <= |events|
    ensures StepTm(t, events, imb, i, tick).0.tickMeasureBegin >= t.tickMeasureBegin
    ensures t.TickMeasureEnd() > tick ==> StepTm(t, events, imb, i, tick) == (t, imb)
    decreases tick - t.tickMeasureBegin
  {
    if t.TickMeasureEnd() <= tick {
      var t1 := ApplyTms(t, events[imb..i]);
      StepTmAdvances(t1.(tickMeasureBegin := t1.TickMeasureEnd()), events, i, i, tick);
    }
  }

  /** The empty cells `emit_measure` prints up to an event on a later
      cell (lines 64-66), on a line of their own. */
  method ZerosUpTo(out: seq<Token>, idivLast: int, idiv: int) returns (o: seq<Token>)
    ensures idiv > idivLast ==> o == out + [Cells(Zeros(idiv - idivLast), true)]
    ensures idiv <= idivLast ==> o == out
    ensures MeasureEnds(o) == MeasureEnds(out)
    ensures CellCount(o) == CellCount(out) + (if idiv > idivLast then idiv - idivLast else 0)
    ensures Placed(o) == Placed(out)
  {
    o := out;
    if idiv > idivLast {
      o := Put(out, Cells(Zeros(idiv - idivLast), true));
    }
  }

  /** What the event loop of `emit_measure` keeps of its output at event
      `i`: `idiv_last` is the cell of the last event, and on events in tick
      order inside the measure the cells printed reach it. */
  ghost predicate ZerosSoFar(events: seq<TimedEvent>, lo: nat, hi: nat, i: nat, tickBeg: int, tickGcd: Pos,
                             ndiv: int, out: seq<Token>, idivLast: int)
  {
    && lo <= i <= hi <= |events|
    && idivLast == LastDiv(events, lo, i, tickBeg, tickGcd)
    && MeasureEnds(out) == 0
    && (NonDecreasing(events) && InMeasure(events, lo, hi, tickBeg, ndiv * tickGcd) ==>
          0 <= idivLast < ndiv && CellCount(out) == idivLast)
  }

  /** The cells up to one more event keep `ZerosSoFar`. */
  lemma ZerosStep(events: seq<TimedEvent>, lo: nat, hi: nat, i: nat, tickBeg: int, tickGcd: Pos, ndiv: int,
                  out: seq<Token>, idivLast: int, o: seq<Token>, idiv: int)
    requires i < hi && ZerosSoFar(events, lo, hi, i, tickBeg, tickGcd, ndiv, out, idivLast)
    requires idiv == (events[i].tick - tickBeg) / tickGcd
    requires MeasureEnds(o) == MeasureEnds(out)
    requires CellCount(o) == CellCount(out) + (if idiv > idivLast then idiv - idivLast else 0)
    ensures ZerosSoFar(events, lo, hi, i + 1, tickBeg, tickGcd, ndiv, o, idiv)
  {
    var measureEnd := tickBeg + ndiv * tickGcd;
    if NonDecreasing(events) && InMeasure(events, lo, hi, tickBeg, ndiv * tickGcd) {
      if i > lo {
        CS.DivMonotone(events[i - 1].tick - tickBeg, events[i].tick - tickBeg, tickGcd);
      }
      CellInMeasure(events[i].tick, tickBeg, measureEnd, ndiv, tickGcd);
    }
  }

  /** The directives the event loop of `emit_measure` has printed by event
      `i`: on events in tick order inside the measure, each event's
      directive stands before the cell of that event, in event order. */
  ghost predicate PlacedSoFar(events: seq<TimedEvent>, lo: nat, hi: nat, i: nat, tickBeg: int, tickGcd: Pos,
                              ndiv: int, out: seq<Token>)
  {
    && lo <= i <= hi <= |events|
    && (NonDecreasing(events) && InMeasure(events, lo, hi, tickBeg, ndiv * tickGcd) ==>
          Placed(out) == EventDirectives(events, lo, i, tickBeg, tickGcd))
  }

  /** The cells up to one more event, then its directive, keep
      `PlacedSoFar`: the directive lands on the event's own cell. */
  lemma PlacedStep(events: seq<TimedEvent>, lo: nat, hi: nat, i: nat, tickBeg: int, tickGcd: Pos, ndiv: int,
                   out: seq<Token>, idivLast: int, out1: seq<Token>, o: seq<Token>, idiv: int)
    requires i < hi && ZerosSoFar(events, lo, hi, i, tickBeg, tickGcd, ndiv, out, idivLast)
    requires PlacedSoFar(events, lo, hi, i, tickBeg, tickGcd, ndiv, out)
    requires idiv == (events[i].tick - tickBeg) / tickGcd
    requires CellCount(out1) == CellCount(out) + (if idiv > idivLast then idiv - idivLast else 0)
    requires Placed(out1) == Placed(out)
    requires Placed(o) == Placed(out1) + (if HasDirective(events[i]) then [(CellCount(out1), DirectiveOf(events[i]))] else [])
    ensures PlacedSoFar(events, lo, hi, i + 1, tickBeg, tickGcd, ndiv, o)
  {
    if NonDecreasing(events) && InMeasure(events, lo, hi, tickBeg, ndiv * tickGcd) {
      if i > lo {
        CS.DivMonotone(events[i - 1].tick - tickBeg, events[i].tick - tickBeg, tickGcd);
      }
      CellInMeasure(events[i].tick, tickBeg, tickBeg + ndiv * tickGcd, ndiv, tickGcd);
      assert CellCount(out1) == FoldedCell(events[i].tick, tickBeg, tickGcd);
    }
  }

  /** Appending a token, with what it adds to the counts. */
  method Put(out: seq<Token>, t: Token) returns (o: seq<Token>)
    ensures o == out + [t]
    ensures CellCount(o) == CellCount(out) + CellsOf(t)
    ensures MeasureEnds(o) == MeasureEnds(out) + (if t == MeasureEnd then 1 else 0)
    ensures Placed(o) == Placed(out) + (if IsDirective(t) then [(CellCount(out), t)] else [])
  {
    CellCountSnoc(out, t);
    MeasureEndsSnoc(out, t);
    PlacedSnoc(out, t);
    o := out + [t];
  }

  // ---------------------------------------------------------------------
  // The class

  class TmState {
    const ticksPerBeat: Pos
    var tsignUpper: nat
    var tsignLower: Pos
    var tempo: nat
    var tickMeasureBegin: nat

    function Value(): Tm
      reads this
    {
      Tm(ticksPerBeat, tsignUpper, tsignLower, tempo, tickMeasureBegin)
    }

    /** `TmState(ticks_per_beat)` (lines 11-17). */
    constructor (ticksPerBeat: Pos)
      ensures Value() == InitialTm(ticksPerBeat)
    {
      this.ticksPerBeat := ticksPerBeat;
      tsignUpper, tsignLower := 4, 4;
      tempo := CS.DefaultUsecPerBeat;
      tickMeasureBegin := 0;
    }

    /** `sync_measure_begin_state` (lines 19-27): an event at the start of
        the current measure sets the signature or the tempo it carries.
        `main` does not call it. */
    method SyncMeasureBeginState(e: TimedEvent)
      modifies this
      ensures e.tick != old(tickMeasureBegin) ==> Value() == old(Value())
      ensures e.tick == old(tickMeasureBegin) ==> Value() == ApplyTm(old(Value()), e)
    {
      if e.tick != tickMeasureBegin {
        return;
      }
      if e.msg.TimeSignature? {
        tsignUpper, tsignLower := e.msg.numerator, e.msg.denominator;
      } else if e.msg.SetTempo? {
        tempo := e.msg.tempo;
      }
    }

    /** `advance_measure` (lines 35-36): the cursor moves forward by exactly
        one measure length, at least one tick. */
    method AdvanceMeasure()
      modifies this
      ensures Value() == old(Value()).(tickMeasureBegin := old(Value().TickMeasureEnd()))
      ensures tickMeasureBegin == old(tickMeasureBegin) + old(Value().TicksPerMeasure())
      ensures tickMeasureBegin > old(tickMeasureBegin)
    {
      tickMeasureBegin := Value().TickMeasureEnd();
    }

    /** The seeding loop of `main` (lines 101-105): the tempo of the last
        `set_tempo` among the events at tick 0. */
    method SeedTempo(timing: seq<TimedEvent>)
      modifies this
      ensures Value() == old(Value()).(tempo := M.LeadingTempo(timing, old(tempo)))
    {
      var i := 0;
      while i < |timing| && timing[i].tick == 0
        invariant 0 <= i <= |timing|
        invariant M.LeadingTempo(timing[i..], tempo) == M.LeadingTempo(timing, old(tempo))
        invariant Value() == old(Value()).(tempo := tempo)
      {
        assert timing[i..][1..] == timing[i + 1..];
        if timing[i].msg.SetTempo? {
          tempo := timing[i].msg.tempo;
        }
        i := i + 1;
      }
    }

    /** One event of the loop of `emit_measure` (lines 68-74): its state
        change and the directive it prints, if any. */
    method ApplyMessage(e: TimedEvent) returns (directive: Token, hasDirective: bool)
      modifies this
      ensures Value() == ApplyTm(old(Value()), e)
      ensures hasDirective <==> e.msg.TimeSignature? || e.msg.SetTempo?
      ensures e.msg.TimeSignature? ==> directive == MeasureDirective(e.msg.numerator, e.msg.denominator)
      ensures e.msg.SetTempo? ==> directive == TempoDirective(e.msg.tempo)
    {
      directive, hasDirective := MeasureEnd, false;
      match e.msg {
        case TimeSignature(n, d) =>
          tsignUpper, tsignLower := n, d;
          directive, hasDirective := MeasureDirective(tsignUpper, tsignLower), true;
        case SetTempo(t) =>
          tempo := t;
          directive, hasDirective := TempoDirective(tempo), true;
        case _ =>
      }
    }

    /** One event of the loop of `emit_measure` with its directive
        printed (lines 68-74). */
    method PrintMessage(e: TimedEvent, out: seq<Token>) returns (o: seq<Token>)
      modifies this
      ensures Value() == ApplyTm(old(Value()), e)
      ensures e.msg.TimeSignature? ==> o == out + [MeasureDirective(e.msg.numerator, e.msg.denominator)]
      ensures e.msg.SetTempo? ==> o == out + [TempoDirective(e.msg.tempo)]
      ensures !(e.msg.TimeSignature? || e.msg.SetTempo?) ==> o == out
      ensures CellCount(o) == CellCount(out) && MeasureEnds(o) == MeasureEnds(out)
      ensures Placed(o) == Placed(out) + (if HasDirective(e) then [(CellCount(out), DirectiveOf(e))] else [])
    {
      var directive, hasDirective := ApplyMessage(e);
      o := out;
      if hasDirective {
        o := Put(out, directive);
      }
    }

    /** The event loop of `emit_measure` (lines 61-74) on the grid of
        `tickGcd` ticks from `tickBeg`: empty cells up to each later cell,
        then the event's directive.  `idiv_last` follows every event, so it
        ends as the cell of the last one.  On events in tick order inside
        the `ndiv` cells of the measure, the cells written reach exactly
        that cell. */
    method EmitEvents(events: seq<TimedEvent>, lo: nat, hi: nat, tickBeg: int, tickGcd: Pos, ndiv: int)
      returns (out: seq<Token>, idivLast: int)
      requires lo <= hi <= |events|
      requires ndiv >= 1
      modifies this
      ensures Value() == ApplyTms(old(Value()), events[lo..hi])
      ensures idivLast == LastDiv(events, lo, hi, tickBeg, tickGcd)
      ensures MeasureEnds(out) == 0
      ensures NonDecreasing(events) && InMeasure(events, lo, hi, tickBeg, ndiv * tickGcd) ==>
        0 <= idivLast < ndiv && CellCount(out) == idivLast
      ensures NonDecreasing(events) && InMeasure(events, lo, hi, tickBeg, ndiv * tickGcd) ==>
        Placed(out) == EventDirectives(events, lo, hi, tickBeg, tickGcd)
    {
      ghost var t0 := Value();
      idivLast := 0;
      out := [];
      var i := lo;
      while i < hi
        invariant lo <= i <= hi
        invariant Value() == ApplyTms(t0, events[lo..i])
        invariant ZerosSoFar(events, lo, hi, i, tickBeg, tickGcd, ndiv, out, idivLast)
        invariant PlacedSoFar(events, lo, hi, i, tickBeg, tickGcd, ndiv, out)
      {
        out, idivLast := EmitNext(events, lo, hi, i, tickBeg, tickGcd, ndiv, t0, out, idivLast);
        i := i + 1;
      }
    }

    /** One iteration of the event loop of `emit_measure` (lines 63-74):
        the empty cells up to the event's cell, then its directive. */
    method EmitNext(events: seq<TimedEvent>, lo: nat, hi: nat, i: nat, tickBeg: int, tickGcd: Pos, ndiv: int,
                    ghost t0: Tm, out: seq<Token>, idivLast: int)
      returns (o: seq<Token>, idiv: int)
      requires lo <= i < hi <= |events|
      requires Value() == ApplyTms(t0, events[lo..i])
      requires ZerosSoFar(events, lo, hi, i, tickBeg, tickGcd, ndiv, out, idivLast)
      requires PlacedSoFar(events, lo, hi, i, tickBeg, tickGcd, ndiv, out)
      modifies this
      ensures Value() == ApplyTms(t0, events[lo..i + 1])
      ensures ZerosSoFar(events, lo, hi, i + 1, tickBeg, tickGcd, ndiv, o, idiv)
      ensures PlacedSoFar(events, lo, hi, i + 1, tickBeg, tickGcd, ndiv, o)
    {
      var e := events[i];
      idiv := (e.tick - tickBeg) / tickGcd;
      var out1 := ZerosUpTo(out, idivLast, idiv);
      o := PrintMessage(e, out1);
      ZerosStep(events, lo, hi, i, tickBeg, tickGcd, ndiv, out, idivLast, o, idiv);
      PlacedStep(events, lo, hi, i, tickBeg, tickGcd, ndiv, out, idivLast, out1, o, idiv);
      ApplyNext(t0, events, lo, i);
    }

    /** `emit_measure(tm_state, events, range(lo, hi), tja)` (lines 39-81):
        the measure length is fixed at entry, a signature event inside the
        range only changes the state for the measures after it, and the
        measure ends with ','.  On events in tick order inside the measure
        it has either every cell of its gcd grid or, when the last event
        sits on the first cell, none. */
    method EmitMeasure(events: seq<TimedEvent>, lo: nat, hi: nat) returns (out: seq<Token>)
      requires lo <= hi <= |events|
      modifies this
      ensures Value() == ApplyTms(old(Value()), events[lo..hi])
      ensures MeasureEnds(out) == 1 && out[|out| - 1] == MeasureEnd
      ensures var begin, length := old(tickMeasureBegin), old(Value().TicksPerMeasure());
        NonDecreasing(events) && InMeasure(events, lo, hi, begin, length) ==>
        CellCount(out) == EmittedCells(events, CS.Flush(lo, hi, begin, length))
      ensures var begin, length := old(tickMeasureBegin), old(Value().TicksPerMeasure());
        NonDecreasing(events) && InMeasure(events, lo, hi, begin, length) ==>
        Placed(out) == EventDirectives(events, lo, hi, begin, MeasureGcd(events, lo, hi, begin, length))
    {
      var tickBeg := tickMeasureBegin;
      var tickEnd := Value().TickMeasureEnd();
      var length := tickEnd - tickBeg;

      var tickGcd := GridUnit(events, lo, hi, tickBeg, length);
      var ndivs := (tickEnd - tickBeg) / tickGcd;
      assert ndivs * tickGcd == length;
      var idivLast;
      out, idivLast := EmitEvents(events, lo, hi, tickBeg, tickGcd, ndivs);

      // the measure closes with a comma
      if idivLast != 0 {
        if idivLast < ndivs {
          out := Put(out, Cells(Zeros(ndivs - idivLast), false));
        }
      }
      out := Put(out, MeasureEnd);
    }

    /** The measure stepping of `main` before event `i` (lines 120-123):
        emit the pending range `[imb, i)` and advance while the current
        measure ends at or before the event.  The cursor stays at or before
        the event unless the emitted range changed the signature. */
    method StepOver(events: seq<TimedEvent>, imb: nat, i: nat)
      returns (out: seq<Token>, imbNext: nat, ghost flushes: seq<CS.Flush>)
      requires imb <= i < |events|
      modifies this
      ensures (Value(), imbNext) == StepTm(old(Value()), events, imb, i, events[i].tick)
      ensures flushes == StepTmFlushes(old(Value()), events, imb, i, events[i].tick)
      ensures flushes == [] ==> Value() == old(Value()) && imbNext == imb
      ensures flushes != [] ==>
        imbNext == i && flushes[0] == CS.Flush(imb, i, old(tickMeasureBegin), old(Value().TicksPerMeasure()))
      ensures forall k | 0 < k < |flushes| :: flushes[k].lo == i && flushes[k].hi == i
      ensures flushes != [] && KeepsSignature(old(Value()), events[imb..i]) ==> tickMeasureBegin <= events[i].tick
      ensures MeasureEnds(out) == |flushes|
      ensures CS.EndsBefore(events, imb, i, old(Value().TickMeasureEnd())) ==> CS.FlushesEndBefore(events, flushes)
      ensures InMeasure(events, imb, i, old(tickMeasureBegin), old(Value().TicksPerMeasure())) ==>
        FlushesInMeasure(events, flushes)
      ensures NonDecreasing(events) && FlushesInMeasure(events, flushes) ==>
        CellCount(out) == TimingCells(events, flushes)
    {
      ghost var t0 := Value();
      var tick := events[i].tick;
      out, imbNext, flushes := [], imb, [];
      OverStart(events, t0, imb, i);
      while Value().TickMeasureEnd() <= tick
        invariant OverState(events, t0, imb, i, Value(), imbNext, flushes)
        invariant OverOutput(events, t0, imb, i, out, flushes)
        decreases tick - tickMeasureBegin
      {
        ghost var v := Value();
        var o;
        ghost var f;
        o, f := EmitAndAdvance(events, imbNext, i);
        OverStateStep(events, t0, imb, i, v, Value(), imbNext, flushes, f);
        OverOutputStep(events, t0, imb, i, v, imbNext, out, o, flushes, f);
        out, flushes := out + o, flushes + [f];
        imbNext := i;
      }
      OverEnd(events, t0, imb, i, Value(), imbNext, out, flushes);
    }

    /** One turn of the `while` loop of `main` (lines 121-123): emit the
        pending range, then advance by the length the range leaves behind. */
    method EmitAndAdvance(events: seq<TimedEvent>, lo: nat, hi: nat) returns (out: seq<Token>, ghost f: CS.Flush)
      requires lo <= hi <= |events|
      modifies this
      ensures f == CS.Flush(lo, hi, old(tickMeasureBegin), old(Value().TicksPerMeasure()))
      ensures var t1 := ApplyTms(old(Value()), events[lo..hi]); Value() == t1.(tickMeasureBegin := t1.TickMeasureEnd())
      ensures KeepsSignature(old(Value()), events[lo..hi]) ==> tickMeasureBegin == old(Value().TickMeasureEnd())
      ensures MeasureEnds(out) == 1
      ensures NonDecreasing(events) && InMeasure(events, lo, hi, f.begin, f.length) ==>
        CellCount(out) == EmittedCells(events, f)
    {
      f := CS.Flush(lo, hi, tickMeasureBegin, Value().TicksPerMeasure());
      out := EmitMeasure(events, lo, hi);
      AdvanceMeasure();
    }

    /** One turn of the loop of `main` (lines 117-129): step over the
        measures that end at or before event `i`, then apply a time
        signature that sits at the start of the measure, so that the
        measure holding the event takes its length from it.  A pending
        range whose signature events all sit at the measure start leaves
        the signature as it found it. */
    method TimingStep(events: seq<TimedEvent>, imb: nat, i: nat)
      returns (out: seq<Token>, imbNext: nat, ghost flushes: seq<CS.Flush>)
      requires imb <= i < |events|
      modifies this
      ensures imb <= imbNext <= i
      ensures TmFrom(old(Value()), events, i, imb) == TmFrom(Value(), events, i + 1, imbNext)
      ensures flushes == StepTmFlushes(old(Value()), events, imb, i, events[i].tick)
      ensures TmFlushes(old(Value()), events, i, imb) == flushes + TmFlushes(Value(), events, i + 1, imbNext)
      ensures flushes == [] ==> imbNext == imb
      ensures flushes != [] ==> imbNext == i && flushes[0].lo == imb && flushes[0].hi == i
      ensures forall k | 0 < k < |flushes| :: flushes[k].lo == i && flushes[k].hi == i
      ensures MeasureEnds(out) == |flushes|
      ensures events[i].tick < Value().TickMeasureEnd()
      ensures events[i].tick == tickMeasureBegin && events[i].msg.TimeSignature? ==>
        tsignUpper == events[i].msg.numerator && tsignLower == events[i].msg.denominator
      ensures (SignaturesAt(events, imb, i, old(tickMeasureBegin)) ==> KeepsSignature(old(Value()), events[imb..i])) ==>
        (SignaturesAt(events, imbNext, i + 1, tickMeasureBegin) ==> KeepsSignature(Value(), events[imbNext..i + 1]))
      ensures NonDecreasing(events) && CS.EndsBefore(events, imb, i, old(Value().TickMeasureEnd())) ==>
        CS.FlushesEndBefore(events, flushes) && CS.EndsBefore(events, imbNext, i + 1, Value().TickMeasureEnd())
      ensures InMeasure(events, imb, i, old(tickMeasureBegin), old(Value().TicksPerMeasure())) ==>
        FlushesInMeasure(events, flushes)
      ensures old(tickMeasureBegin) <= events[i].tick && StartsFrom(events, imb, i, old(tickMeasureBegin))
        && (SignaturesAt(events, imb, i, old(tickMeasureBegin)) ==> KeepsSignature(old(Value()), events[imb..i]))
        && SignaturesAtMeasureStarts(events, flushes)
        ==> tickMeasureBegin <= events[i].tick && StartsFrom(events, imbNext, i + 1, tickMeasureBegin)
      ensures NonDecreasing(events) && FlushesInMeasure(events, flushes) ==>
        CellCount(out) == TimingCells(events, flushes)
    {
      var e := events[i];
      ghost var t0 := Value();
      out, imbNext, flushes := StepOver(events, imb, i);
      ghost var before := Value();
      SyncMeasureStart(e);
      if NonDecreasing(events) && CS.EndsBefore(events, imb, i, t0.TickMeasureEnd()) {
        PendingStaysBefore(events, imbNext, i, before, Value());
      }
      if SignaturesAt(events, imb, i, t0.tickMeasureBegin) ==> KeepsSignature(t0, events[imb..i]) {
        SyncKeepsSignature(t0, before, Value(), events, imb, imbNext, i);
      }
      TmFromStep(t0, events, i, imb);
      if t0.tickMeasureBegin <= e.tick && StartsFrom(events, imb, i, t0.tickMeasureBegin)
        && (SignaturesAt(events, imb, i, t0.tickMeasureBegin) ==> KeepsSignature(t0, events[imb..i]))
        && SignaturesAtMeasureStarts(events, flushes)
      {
        StartStaysBefore(events, imb, i, t0, before, Value(), imbNext, flushes);
      }
    }

    /** The sync of `main` with a measure-initial time signature change
        (lines 126-129). */
    method SyncMeasureStart(e: TimedEvent)
      modifies this
      ensures Value() == SyncTm(old(Value()), e)
      ensures e.tick == tickMeasureBegin && e.msg.TimeSignature? ==>
        tsignUpper == e.msg.numerator && tsignLower == e.msg.denominator
    {
      if e.tick == tickMeasureBegin && e.msg.TimeSignature? {
        tsignUpper, tsignLower := e.msg.numerator, e.msg.denominator;
      }
    }

    /** The loop of `main` (lines 116-129): every event but those of the
        last, still pending, range `[imb, |events|)` has been emitted. */
    method MeasuresBefore(events: seq<TimedEvent>)
      returns (out: seq<Token>, imb: nat, ghost flushes: seq<CS.Flush>)
      modifies this
      ensures imb <= |events|
      ensures TmFrom(Value(), events, |events|, imb) == TmFrom(old(Value()), events, 0, 0)
      ensures flushes + [CS.Flush(imb, |events|, tickMeasureBegin, Value().TicksPerMeasure())]
        == TmFlushes(old(Value()), events, 0, 0)
      ensures CS.Contiguous(flushes, imb)
      ensures forall k | 0 <= k < |flushes| :: flushes[k].hi <= imb
      ensures MeasureEnds(out) == |flushes|
      ensures NonDecreasing(events) ==>
        CS.FlushesEndBefore(events, flushes) && CS.EndsBefore(events, imb, |events|, Value().TickMeasureEnd())
      ensures NonDecreasing(events) && old(tickMeasureBegin) == 0 && SignaturesAtMeasureStarts(events, flushes) ==>
        FlushesInMeasure(events, flushes) && StartsFrom(events, imb, |events|, tickMeasureBegin)
      ensures NonDecreasing(events) && FlushesInMeasure(events, flushes) ==>
        CellCount(out) == TimingCells(events, flushes)
    {
      ghost var t0 := Value();
      imb := 0;
      out, flushes := [], [];
      var i := 0;
      ProgressStart(events, t0);
      while i < |events|
        invariant i <= |events|
        invariant Progress(events, t0, out, flushes, imb, i, Value())
      {
        var o, imbNext, fs := StepWithProgress(events, t0, imb, i, out, flushes);
        out, flushes, imb := out + o, flushes + fs, imbNext;
        i := i + 1;
      }
      ProgressEnd(events, t0, out, flushes, imb, Value());
    }

    /** `TimingStep` as a turn of the loop of `main`: it keeps `Progress`. */
    method StepWithProgress(events: seq<TimedEvent>, ghost t0: Tm, imb: nat, i: nat,
                            ghost out0: seq<Token>, ghost flushes0: seq<CS.Flush>)
      returns (out: seq<Token>, imbNext: nat, ghost flushes: seq<CS.Flush>)
      requires i < |events| && Progress(events, t0, out0, flushes0, imb, i, Value())
      modifies this
      ensures Progress(events, t0, out0 + out, flushes0 + flushes, imbNext, i + 1, Value())
    {
      ghost var v := Value();
      out, imbNext, flushes := TimingStep(events, imb, i);
      ProgressStep(events, t0, v, Value(), out0, out, flushes0, flushes, imb, imbNext, i);
    }

    /** The last `emit_measure` call of `main` (line 132): the pending
        range up to the end of the events. */
    method EmitLastMeasure(events: seq<TimedEvent>, imb: nat)
      returns (out: seq<Token>, ghost f: CS.Flush)
      requires imb <= |events|
      modifies this
      ensures Value() == TmFrom(old(Value()), events, |events|, imb)
      ensures f == CS.Flush(imb, |events|, old(tickMeasureBegin), old(Value().TicksPerMeasure()))
      ensures MeasureEnds(out) == 1
      ensures CS.EndsBefore(events, imb, |events|, old(Value().TickMeasureEnd())) ==> CS.FlushesEndBefore(events, [f])
      ensures NonDecreasing(events) && FlushesInMeasure(events, [f]) ==> CellCount(out) == TimingCells(events, [f])
    {
      assert events[imb..|events|] == events[imb..];
      f := CS.Flush(imb, |events|, tickMeasureBegin, Value().TicksPerMeasure());
      out := EmitMeasure(events, imb, |events|);
      FlushesSingle(events, f);
      assert TimingCells(events, [f]) == EmittedCells(events, f) by {
        assert [f][..0] == [];
      }
    }

    /** The measure loop of `main` with its final `emit_measure`
        (lines 116-132).  The ghost `flushes` records the `emit_measure`
        calls: they partition the events into contiguous ascending ranges
        and each ends its measure with ','.  On events in tick order each
        got only events before the end of its measure; from a fresh cursor,
        when every signature change sits at the start of the measure that
        gets it, each got only events of its own measure, and the chart has
        exactly the cells their grids call for. */
    method EmitChart(events: seq<TimedEvent>) returns (out: seq<Token>, ghost flushes: seq<CS.Flush>)
      modifies this
      ensures Value() == TmFrom(old(Value()), events, 0, 0)
      ensures flushes == TmFlushes(old(Value()), events, 0, 0)
      ensures CS.Partition(flushes, |events|)
      ensures MeasureEnds(out) == |flushes|
      ensures NonDecreasing(events) ==> CS.FlushesEndBefore(events, flushes)
      ensures NonDecreasing(events) && old(tickMeasureBegin) == 0 && SignaturesAtMeasureStarts(events, flushes) ==>
        FlushesInMeasure(events, flushes)
      ensures NonDecreasing(events) && FlushesInMeasure(events, flushes) ==>
        CellCount(out) == TimingCells(events, flushes)
    {
      var imb, o;
      ghost var f;
      out, imb, flushes := MeasuresBefore(events);
      // the events from the last measure start on form the final measure
      ghost var v := Value();
      o, f := EmitLastMeasure(events, imb);
      LastMeasureAppend(events, old(tickMeasureBegin) == 0, v, out, imb, flushes, o, f);
      out, flushes := out + o, flushes + [f];
    }
  }

  /** Both properties of a sequence of calls hold of it exactly when they
      hold of each part. */
  lemma {:induction false} FlushesAppend(events: seq<TimedEvent>, a: seq<CS.Flush>, b: seq<CS.Flush>)
    ensures FlushesInMeasure(events, a + b) <==> FlushesInMeasure(events, a) && FlushesInMeasure(events, b)
    ensures SignaturesAtMeasureStarts(events, a + b) <==>
      SignaturesAtMeasureStarts(events, a) && SignaturesAtMeasureStarts(events, b)
    decreases |b|
  {
    if b == [] {
      assert a + b == a;
    } else {
      var b' := b[..|b| - 1];
      assert (a + b)[..|a + b| - 1] == a + b';
      FlushesAppend(events, a, b');
    }
  }

  /** A single call has each property exactly when its flush has it. */
  lemma FlushesSingle(events: seq<TimedEvent>, f: CS.Flush)
    ensures FlushesInMeasure(events, [f]) <==> FlushInMeasure(events, f)
    ensures SignaturesAtMeasureStarts(events, [f]) <==> FlushSignaturesAtStart(events, f)
    ensures TimingCells(events, [f]) == EmittedCells(events, f)
  {
    assert [f][..0] == [];
  }

  /** The measures before the last start, then the last measure, make up
      the whole chart: the calls partition the events, and the counts and
      the per-measure facts of both parts hold of the whole. */
  lemma LastMeasureAppend(events: seq<TimedEvent>, fromZero: bool, v: Tm, out: seq<Token>, imb: nat,
                          flushes: seq<CS.Flush>, o: seq<Token>, f: CS.Flush)
    requires imb <= |events|
    requires CS.Contiguous(flushes, imb) && forall k | 0 <= k < |flushes| :: flushes[k].hi <= imb
    requires MeasureEnds(out) == |flushes|
    requires NonDecreasing(events) ==>
      CS.FlushesEndBefore(events, flushes) && CS.EndsBefore(events, imb, |events|, v.TickMeasureEnd())
    requires NonDecreasing(events) && fromZero && SignaturesAtMeasureStarts(events, flushes) ==>
      FlushesInMeasure(events, flushes) && StartsFrom(events, imb, |events|, v.tickMeasureBegin)
    requires NonDecreasing(events) && FlushesInMeasure(events, flushes) ==>
      CellCount(out) == TimingCells(events, flushes)
    requires f == CS.Flush(imb, |events|, v.tickMeasureBegin, v.TicksPerMeasure())
    requires MeasureEnds(o) == 1
    requires CS.EndsBefore(events, imb, |events|, v.TickMeasureEnd()) ==> CS.FlushesEndBefore(events, [f])
    requires NonDecreasing(events) && FlushesInMeasure(events, [f]) ==> CellCount(o) == TimingCells(events, [f])
    ensures CS.Partition(flushes + [f], |events|)
    ensures MeasureEnds(out + o) == |flushes + [f]|
    ensures NonDecreasing(events) ==> CS.FlushesEndBefore(events, flushes + [f])
    ensures NonDecreasing(events) && fromZero && SignaturesAtMeasureStarts(events, flushes + [f]) ==>
      FlushesInMeasure(events, flushes + [f])
    ensures NonDecreasing(events) && FlushesInMeasure(events, flushes + [f]) ==>
      CellCount(out + o) == TimingCells(events, flushes + [f])
  {
    MeasureEndsAppend(out, o);
    CellCountAppend(out, o);
    TimingCellsAppend(events, flushes, [f]);
    if NonDecreasing(events) {
      CS.FlushesEndBeforeAppend(events, flushes, [f]);
    }
    FlushesAppend(events, flushes, [f]);
    FlushesSingle(events, f);
    CS.ContiguousAppend(flushes, imb, [f], |events|);
  }

  /** The output of two runs of calls, one after the other, has the
      measure ends and, when both runs got only events of their measures,
      the cells of both. */
  lemma Account(events: seq<TimedEvent>, sorted: bool, out: seq<Token>, o: seq<Token>, a: seq<CS.Flush>, b: seq<CS.Flush>)
    requires MeasureEnds(out) == |a| && MeasureEnds(o) == |b|
    requires sorted && FlushesInMeasure(events, a) ==> CellCount(out) == TimingCells(events, a)
    requires sorted && FlushesInMeasure(events, b) ==> CellCount(o) == TimingCells(events, b)
    ensures MeasureEnds(out + o) == |a + b|
    ensures sorted && FlushesInMeasure(events, a + b) ==> CellCount(out + o) == TimingCells(events, a + b)
  {
    MeasureEndsAppend(out, o);
    CellCountAppend(out, o);
    TimingCellsAppend(events, a, b);
    FlushesAppend(events, a, b);
  }

  /** The measure-start sync keeps a pending range whose signature events
      all sit at the measure start from changing the signature: each of them
      was applied as it arrived, and the emission applies them again in
      the same order. */
  lemma SyncKeepsSignature(t0: Tm, before: Tm, after: Tm, events: seq<TimedEvent>, imb: nat, imbNext: nat, i: nat)
    requires imb <= imbNext <= i < |events|
    requires imbNext == i || (imbNext == imb && before == t0)
    requires after == SyncTm(before, events[i])
    requires SignaturesAt(events, imb, i, t0.tickMeasureBegin) ==> KeepsSignature(t0, events[imb..i])
    ensures SignaturesAt(events, imbNext, i + 1, after.tickMeasureBegin) ==> KeepsSignature(after, events[imbNext..i + 1])
  {
    var e := events[i];
    ApplyNext(after, events, imbNext, i);
    if imbNext == i {
      assert events[imbNext..i] == [];
    } else if SignaturesAt(events, imbNext, i + 1, after.tickMeasureBegin) && !e.msg.TimeSignature? {
      assert SignaturesAt(events, imb, i, t0.tickMeasureBegin);
    }
  }

  /** What the stepping loop of `main` (lines 120-123) keeps of the state,
      from state `t0` over the pending range `[imb, i)`, at state `v` with
      the pending range starting at `imbNext`. */
  ghost predicate OverState(events: seq<TimedEvent>, t0: Tm, imb: nat, i: nat, v: Tm, imbNext: nat,
                            flushes: seq<CS.Flush>)
  {
    var tick := if i < |events| then events[i].tick else 0;
    && imb <= imbNext <= i < |events|
    && StepTm(v, events, imbNext, i, tick) == StepTm(t0, events, imb, i, tick)
    && flushes + StepTmFlushes(v, events, imbNext, i, tick) == StepTmFlushes(t0, events, imb, i, tick)
    && (flushes == [] ==> imbNext == imb && v == t0)
    && (flushes != [] ==>
          imbNext == i && flushes[0] == CS.Flush(imb, i, t0.tickMeasureBegin, t0.TicksPerMeasure()))
    && (flushes != [] ==> t0.TickMeasureEnd() <= tick)
    && (flushes != [] && KeepsSignature(t0, events[imb..i]) ==> v.tickMeasureBegin <= tick)
    && (forall k | 0 < k < |flushes| :: flushes[k].lo == i && flushes[k].hi == i)
  }

  /** What the same loop keeps of its output. */
  ghost predicate OverOutput(events: seq<TimedEvent>, t0: Tm, imb: nat, i: nat, out: seq<Token>, flushes: seq<CS.Flush>)
  {
    && imb <= i <= |events|
    && MeasureEnds(out) == |flushes|
    && (CS.EndsBefore(events, imb, i, t0.TickMeasureEnd()) ==> CS.FlushesEndBefore(events, flushes))
    && (InMeasure(events, imb, i, t0.tickMeasureBegin, t0.TicksPerMeasure()) ==>
          FlushesInMeasure(events, flushes))
    && (NonDecreasing(events) && FlushesInMeasure(events, flushes) ==>
          CellCount(out) == TimingCells(events, flushes))
  }

  lemma OverStart(events: seq<TimedEvent>, t0: Tm, imb: nat, i: nat)
    requires imb <= i < |events|
    ensures OverState(events, t0, imb, i, t0, imb, [])
    ensures OverOutput(events, t0, imb, i, [], [])
  {
    var tick := events[i].tick;
    assert [] + StepTmFlushes(t0, events, imb, i, tick) == StepTmFlushes(t0, events, imb, i, tick);
  }

  /** One emitted and advanced measure keeps `OverState`. */
  lemma OverStateStep(events: seq<TimedEvent>, t0: Tm, imb: nat, i: nat, v: Tm, w: Tm, imbNext: nat,
                      flushes: seq<CS.Flush>, f: CS.Flush)
    requires OverState(events, t0, imb, i, v, imbNext, flushes)
    requires v.TickMeasureEnd() <= events[i].tick
    requires f == CS.Flush(imbNext, i, v.tickMeasureBegin, v.TicksPerMeasure())
    requires var t1 := ApplyTms(v, events[imbNext..i]); w == t1.(tickMeasureBegin := t1.TickMeasureEnd())
    requires KeepsSignature(v, events[imbNext..i]) ==> w.tickMeasureBegin == v.TickMeasureEnd()
    ensures OverState(events, t0, imb, i, w, i, flushes + [f])
  {
    StepTmFlushesStep(events, t0, imb, i, v, w, imbNext, flushes, f);
    if flushes != [] {
      assert events[imbNext..i] == [];
    }
  }

  /** One emitted and advanced measure moves its call from the calls
      still to come to those made. */
  lemma StepTmFlushesStep(events: seq<TimedEvent>, t0: Tm, imb: nat, i: nat, v: Tm, w: Tm, imbNext: nat,
                          flushes: seq<CS.Flush>, f: CS.Flush)
    requires imb <= imbNext <= i < |events|
    requires flushes + StepTmFlushes(v, events, imbNext, i, events[i].tick) == StepTmFlushes(t0, events, imb, i, events[i].tick)
    requires v.TickMeasureEnd() <= events[i].tick
    requires f == CS.Flush(imbNext, i, v.tickMeasureBegin, v.TicksPerMeasure())
    requires var t1 := ApplyTms(v, events[imbNext..i]); w == t1.(tickMeasureBegin := t1.TickMeasureEnd())
    ensures (flushes + [f]) + StepTmFlushes(w, events, i, i, events[i].tick) == StepTmFlushes(t0, events, imb, i, events[i].tick)
  {
    var tick := events[i].tick;
    assert StepTmFlushes(v, events, imbNext, i, tick) == [f] + StepTmFlushes(w, events, i, i, tick);
    assert flushes + ([f] + StepTmFlushes(w, events, i, i, tick))
        == (flushes + [f]) + StepTmFlushes(w, events, i, i, tick);
  }

  /** One emitted measure keeps `OverOutput`. */
  lemma OverOutputStep(events: seq<TimedEvent>, t0: Tm, imb: nat, i: nat, v: Tm, imbNext: nat,
                       out: seq<Token>, o: seq<Token>, flushes: seq<CS.Flush>, f: CS.Flush)
    requires OverOutput(events, t0, imb, i, out, flushes)
    requires imb <= imbNext <= i < |events|
    requires flushes == [] ==> imbNext == imb && v == t0
    requires flushes != [] ==> imbNext == i
    requires f == CS.Flush(imbNext, i, v.tickMeasureBegin, v.TicksPerMeasure())
    requires MeasureEnds(o) == 1
    requires NonDecreasing(events) && InMeasure(events, imbNext, i, f.begin, f.length) ==>
      CellCount(o) == EmittedCells(events, f)
    ensures OverOutput(events, t0, imb, i, out + o, flushes + [f])
  {
    if CS.EndsBefore(events, imb, i, t0.TickMeasureEnd()) {
      NextEndsBefore(events, t0, imb, i, v, imbNext, flushes, f);
    }
    FlushesSingle(events, f);
    Account(events, NonDecreasing(events), out, o, flushes, [f]);
    FlushesAppend(events, flushes, [f]);
  }

  /** The next call of the stepping loop gets only events before the end
      of its measure when the pending range does. */
  lemma NextEndsBefore(events: seq<TimedEvent>, t0: Tm, imb: nat, i: nat, v: Tm, imbNext: nat,
                       flushes: seq<CS.Flush>, f: CS.Flush)
    requires imb <= imbNext <= i < |events|
    requires flushes == [] ==> imbNext == imb && v == t0
    requires flushes != [] ==> imbNext == i
    requires f == CS.Flush(imbNext, i, v.tickMeasureBegin, v.TicksPerMeasure())
    requires CS.EndsBefore(events, imb, i, t0.TickMeasureEnd()) && CS.FlushesEndBefore(events, flushes)
    ensures CS.FlushesEndBefore(events, flushes + [f])
  {
    assert CS.FlushesEndBefore(events, [f]);
    CS.FlushesEndBeforeAppend(events, flushes, [f]);
  }

  /** What the loop's predicates say once the measure holds the event. */
  lemma OverEnd(events: seq<TimedEvent>, t0: Tm, imb: nat, i: nat, v: Tm, imbNext: nat,
                out: seq<Token>, flushes: seq<CS.Flush>)
    requires OverState(events, t0, imb, i, v, imbNext, flushes) && events[i].tick < v.TickMeasureEnd()
    requires OverOutput(events, t0, imb, i, out, flushes)
    ensures (v, imbNext) == StepTm(t0, events, imb, i, events[i].tick)
    ensures flushes == StepTmFlushes(t0, events, imb, i, events[i].tick)
    ensures flushes == [] ==> v == t0 && imbNext == imb
    ensures flushes != [] ==>
      imbNext == i && flushes[0] == CS.Flush(imb, i, t0.tickMeasureBegin, t0.TicksPerMeasure())
    ensures forall k | 0 < k < |flushes| :: flushes[k].lo == i && flushes[k].hi == i
    ensures flushes != [] && KeepsSignature(t0, events[imb..i]) ==> v.tickMeasureBegin <= events[i].tick
    ensures MeasureEnds(out) == |flushes|
    ensures CS.EndsBefore(events, imb, i, t0.TickMeasureEnd()) ==> CS.FlushesEndBefore(events, flushes)
    ensures InMeasure(events, imb, i, t0.tickMeasureBegin, t0.TicksPerMeasure()) ==>
      FlushesInMeasure(events, flushes)
    ensures NonDecreasing(events) && FlushesInMeasure(events, flushes) ==>
      CellCount(out) == TimingCells(events, flushes)
  {
    assert flushes + StepTmFlushes(v, events, imbNext, i, events[i].tick) == flushes + [];
  }

  /** What the loop of `main` (lines 116-129) keeps, from the state `t0`
      before it, at event `i` with the pending range starting at `imb` and
      state `v`. */
  ghost predicate Progress(events: seq<TimedEvent>, t0: Tm, out: seq<Token>, flushes: seq<CS.Flush>, imb: nat, i: nat, v: Tm)
  {
    var nd := NonDecreasing(events);
    && imb <= i <= |events|
    && TmFrom(v, events, i, imb) == TmFrom(t0, events, 0, 0)
    && flushes + TmFlushes(v, events, i, imb) == TmFlushes(t0, events, 0, 0)
    && CS.Contiguous(flushes, imb)
    && (forall k | 0 <= k < |flushes| :: flushes[k].hi <= imb)
    && MeasureEnds(out) == |flushes|
    && (nd ==> CS.FlushesEndBefore(events, flushes) && CS.EndsBefore(events, imb, i, v.TickMeasureEnd()))
    && (SignaturesAt(events, imb, i, v.tickMeasureBegin) ==> KeepsSignature(v, events[imb..i]))
    && (nd && t0.tickMeasureBegin == 0 && SignaturesAtMeasureStarts(events, flushes) ==>
          && FlushesInMeasure(events, flushes)
          && StartsFrom(events, imb, i, v.tickMeasureBegin)
          && (i < |events| ==> v.tickMeasureBegin <= events[i].tick))
    && (nd && FlushesInMeasure(events, flushes) ==> CellCount(out) == TimingCells(events, flushes))
  }

  lemma ProgressStart(events: seq<TimedEvent>, t0: Tm)
    ensures Progress(events, t0, [], [], 0, 0, t0)
  {
    assert events[0..0] == [];
    assert [] + TmFlushes(t0, events, 0, 0) == TmFlushes(t0, events, 0, 0);
  }

  /** What `Progress` says once every event has been stepped over. */
  lemma ProgressEnd(events: seq<TimedEvent>, t0: Tm, out: seq<Token>, flushes: seq<CS.Flush>, imb: nat, v: Tm)
    requires Progress(events, t0, out, flushes, imb, |events|, v)
    ensures imb <= |events|
    ensures TmFrom(v, events, |events|, imb) == TmFrom(t0, events, 0, 0)
    ensures flushes + [CS.Flush(imb, |events|, v.tickMeasureBegin, v.TicksPerMeasure())] == TmFlushes(t0, events, 0, 0)
    ensures CS.Contiguous(flushes, imb)
    ensures forall k | 0 <= k < |flushes| :: flushes[k].hi <= imb
    ensures MeasureEnds(out) == |flushes|
    ensures NonDecreasing(events) ==>
      CS.FlushesEndBefore(events, flushes) && CS.EndsBefore(events, imb, |events|, v.TickMeasureEnd())
    ensures NonDecreasing(events) && t0.tickMeasureBegin == 0 && SignaturesAtMeasureStarts(events, flushes) ==>
      FlushesInMeasure(events, flushes) && StartsFrom(events, imb, |events|, v.tickMeasureBegin)
    ensures NonDecreasing(events) && FlushesInMeasure(events, flushes) ==>
      CellCount(out) == TimingCells(events, flushes)
  {
  }

  /** One turn of the loop of `main` keeps `Progress`. */
  lemma ProgressStep(events: seq<TimedEvent>, t0: Tm, v: Tm, w: Tm, out: seq<Token>, o: seq<Token>,
                     flushes: seq<CS.Flush>, fs: seq<CS.Flush>, imb: nat, imbNext: nat, i: nat)
    requires i < |events| && Progress(events, t0, out, flushes, imb, i, v)
    requires imb <= imbNext <= i
    requires TmFrom(v, events, i, imb) == TmFrom(w, events, i + 1, imbNext)
    requires TmFlushes(v, events, i, imb) == fs + TmFlushes(w, events, i + 1, imbNext)
    requires fs == [] ==> imbNext == imb
    requires fs != [] ==> imbNext == i && fs[0].lo == imb && fs[0].hi == i
    requires forall k | 0 < k < |fs| :: fs[k].lo == i && fs[k].hi == i
    requires MeasureEnds(o) == |fs|
    requires (SignaturesAt(events, imb, i, v.tickMeasureBegin) ==> KeepsSignature(v, events[imb..i])) ==>
      (SignaturesAt(events, imbNext, i + 1, w.tickMeasureBegin) ==> KeepsSignature(w, events[imbNext..i + 1]))
    requires NonDecreasing(events) && CS.EndsBefore(events, imb, i, v.TickMeasureEnd()) ==>
      CS.FlushesEndBefore(events, fs) && CS.EndsBefore(events, imbNext, i + 1, w.TickMeasureEnd())
    requires InMeasure(events, imb, i, v.tickMeasureBegin, v.TicksPerMeasure()) ==> FlushesInMeasure(events, fs)
    requires v.tickMeasureBegin <= events[i].tick && StartsFrom(events, imb, i, v.tickMeasureBegin)
      && (SignaturesAt(events, imb, i, v.tickMeasureBegin) ==> KeepsSignature(v, events[imb..i]))
      && SignaturesAtMeasureStarts(events, fs)
      ==> w.tickMeasureBegin <= events[i].tick && StartsFrom(events, imbNext, i + 1, w.tickMeasureBegin)
    requires NonDecreasing(events) && FlushesInMeasure(events, fs) ==> CellCount(o) == TimingCells(events, fs)
    ensures Progress(events, t0, out + o, flushes + fs, imbNext, i + 1, w)
  {
    var nd := NonDecreasing(events);
    Account(events, nd, out, o, flushes, fs);
    if nd {
      CS.FlushesEndBeforeAppend(events, flushes, fs);
    }
    FlushesAppend(events, flushes, fs);
    if nd && i + 1 < |events| {
      assert events[i].tick <= events[i + 1].tick;
    }
    CS.ContiguousAppend(flushes, imb, fs, i);
    CS.CallsSoFar(flushes, fs, TmFlushes(v, events, i, imb), TmFlushes(w, events, i + 1, imbNext),
                  TmFlushes(t0, events, 0, 0));
  }

  /** `TmFrom` takes one turn of the loop of `main`. */
  lemma TmFromStep(t: Tm, events: seq<TimedEvent>, i: nat, imb: nat)
    requires imb <= i < |events|
    ensures var r := StepTm(t, events, imb, i, events[i].tick);
      TmFrom(t, events, i, imb) == TmFrom(SyncTm(r.0, events[i]), events, i + 1, r.1)
  {
  }

  /** When every signature change of the pending range sits at the
      measure start, the measure that holds event `i` starts at or before
      it and before every event still pending. */
  lemma StartStaysBefore(events: seq<TimedEvent>, imb: nat, i: nat, t0: Tm, before: Tm, after: Tm, imbNext: nat,
                         flushes: seq<CS.Flush>)
    requires imb <= imbNext <= i < |events|
    requires flushes == [] ==> before == t0 && imbNext == imb
    requires flushes != [] ==> imbNext == i && flushes[0] == CS.Flush(imb, i, t0.tickMeasureBegin, t0.TicksPerMeasure())
    requires flushes != [] && KeepsSignature(t0, events[imb..i]) ==> before.tickMeasureBegin <= events[i].tick
    requires after == SyncTm(before, events[i])
    requires t0.tickMeasureBegin <= events[i].tick && StartsFrom(events, imb, i, t0.tickMeasureBegin)
    requires SignaturesAt(events, imb, i, t0.tickMeasureBegin) ==> KeepsSignature(t0, events[imb..i])
    requires SignaturesAtMeasureStarts(events, flushes)
    ensures after.tickMeasureBegin <= events[i].tick && StartsFrom(events, imbNext, i + 1, after.tickMeasureBegin)
  {
    if flushes != [] {
      FlushesAppend(events, [flushes[0]], flushes[1..]);
      FlushesSingle(events, flushes[0]);
      assert flushes == [flushes[0]] + flushes[1..];
    }
  }

  /** The state after one more event of a run. */
  lemma ApplyNext(t: Tm, events: seq<TimedEvent>, lo: nat, i: nat)
    requires lo <= i < |events|
    ensures ApplyTms(t, events[lo..i + 1]) == ApplyTm(ApplyTms(t, events[lo..i]), events[i])
  {
    assert events[lo..i + 1] == events[lo..i] + [events[i]];
    ApplyTmsSnoc(t, events[lo..i], events[i]);
  }

  /** `main` without the MIDI reading and the file (lines 99-134): a fresh
      state, the tempo seeded from the tick-0 events for the `BPM:` header,
      then the chart body. */
  method Convert(ticksPerBeat: Pos, timing: seq<TimedEvent>)
    returns (tempo: nat, body: seq<Token>, ghost flushes: seq<CS.Flush>)
    ensures tempo == M.LeadingTempo(timing, CS.DefaultUsecPerBeat)
    ensures flushes == TmFlushes(InitialTm(ticksPerBeat).(tempo := tempo), timing, 0, 0)
    ensures CS.Partition(flushes, |timing|)
    ensures MeasureEnds(body) == |flushes|
    ensures NonDecreasing(timing) ==> CS.FlushesEndBefore(timing, flushes)
    ensures NonDecreasing(timing) && SignaturesAtMeasureStarts(timing, flushes) ==>
      FlushesInMeasure(timing, flushes) && CellCount(body) == TimingCells(timing, flushes)
  {
    var state := new TmState(ticksPerBeat);
    state.SeedTempo(timing);
    tempo := state.tempo;
    body, flushes := state.EmitChart(timing);
  }
}
